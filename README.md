# Player service model

A Dafny model of the service layer of a game-player REST service: `Mapper`, `Validator` and
`PlayerService` under `com.game.service`. The model covers four parts.

- **The experience model.** `levelEvaluation` and `untilNextLevelEvaluation` are modelled in
  Java's 32-bit `int` arithmetic, with explicit wrap-around and truncating division.
  - The level is proved to be the band `50·L·(L+1) <= exp < 50·(L+1)·(L+2)` that holds the
    experience.
  - The remaining experience is proved positive and at most the width of that band.
  - Monotonicity and the reference values are proved.
- **The field validators.** These are Java `trim()`, the length, experience and birthday checks,
  the create-time null check, and the id check.
  - The birthday year is the proleptic Gregorian year of the instant in the zone's local time.
- **The JPA specification.** This is the list of field predicates `toPredicate` builds from a
  request, read declaratively case by case.
  - `orderBy` picks one ascending key.
  - A page is a `PageRequest` slice.
- **The store.** The repository is a class over a map from id to player, plus the ascending list
  of primary keys that a table scan visits. Its methods are:
  - count and listing, which share one specification;
  - find, create and delete;
  - the partial update, which runs the source's setters in order, throws on an invalid birthday
    or experience before anything is saved, and keeps level and remaining experience consistent
    with experience.

Modules:
- `Common`: null, exceptions and results.
- `Entities`: the player and the two DTOs.
- `Text`: `trim()`, ASCII lower case, and case-insensitive containment.
- `Calendar`: the year of an instant.
- `Mapper`, `Validator`.
- `Criteria`: the specification, the order and the page.
- `PlayerService`: the store.

Reference values follow the formula in `Mapper.java`: by the formula, `level(100) = 1` and
`level(1,000,000) = 140`. Some validator comments disagree with the code, and the model follows
the code. The experience comment (`Validator.java:74`) promises 0 < experience < 1,000,000, but the
code checks 0 <= experience <= 10,000,000: both ends are inclusive, and the upper bound is ten times
larger. The birthday comment promises years strictly between 2000 and 3000, but the code accepts
2000 and 3000 themselves. The name and title comments promise lengths strictly below 12 and 30,
but the code accepts 12 and 30. Their lower bounds are strict (`> 0`) in both the comment and the
code.

## Model

| member | source | states |
|---|---|---|
| Text.Trim | src/main/java/com/game/service/Validator.java:64 | `trim()` returns the infix of its input left after dropping chars <= U+0020 before and after it, with no such char at either end; an all-blank string trims to empty |
| Text.TrimPadded | src/main/java/com/game/service/Validator.java:64 | trimming a string with clean edges surrounded by blanks returns exactly that string |
| Text.TrimIdempotent | src/main/java/com/game/service/Validator.java:64 | trimming twice is trimming once |
| Text.Lower | src/main/java/com/game/service/PlayerService.java:37 | lower-casing keeps the length and lowers each ASCII letter in place |
| Text.EmptyNeedleMatches | src/main/java/com/game/service/PlayerService.java:36-41 | the pattern `%%` for an empty search string matches every value |
| Text.InfixMatches | src/main/java/com/game/service/PlayerService.java:36-41 | a value matches every string it contains, whatever comes before and after it |
| Text.LowerIdempotent | src/main/java/com/game/service/PlayerService.java:37 | lower-casing an already lower-cased string changes nothing |
| Text.MatchIgnoresCase | src/main/java/com/game/service/PlayerService.java:36-41 | the match does not depend on the case of the value or of the search string |
| Calendar.YearLength | src/main/java/com/game/service/Validator.java:85-86 | a year has 366 days exactly when it is a Gregorian leap year, else 365 |
| Calendar.YearStartGrows | src/main/java/com/game/service/Validator.java:85-86 | later years start at least 365 days per year later |
| Calendar.YearBetween | src/main/java/com/game/service/Validator.java:85-86 | the bisection returns the year in the range whose days include the given day |
| Calendar.YearOfDay | src/main/java/com/game/service/Validator.java:85-86 | `LocalDate.getYear()` of an epoch day is the year whose days include it |
| Calendar.YearUnique | src/main/java/com/game/service/Validator.java:85-86 | every day lies in exactly one year |
| Calendar.YearOf | src/main/java/com/game/service/Validator.java:84-86 | the year of a non-negative instant at a zone offset is the year holding its local day |
| Calendar.YearBand | src/main/java/com/game/service/Validator.java:88 | a day's year lies in [first, last] iff the day lies between the starts of first and last + 1 |
| Calendar.YearWindow | src/main/java/com/game/service/Validator.java:86-88 | the year of a day lies in [first, last] iff the day lies between 1 January of first and 1 January of last + 1 |
| Mapper.Wrap | src/main/java/com/game/service/Mapper.java:67 | int arithmetic: the result is an int congruent to the exact value modulo 2^32, and equal to it when it fits |
| Mapper.SqrtBetween | src/main/java/com/game/service/Mapper.java:67 | the bisection returns the integer square root within its bounds |
| Mapper.FloorSqrt | src/main/java/com/game/service/Mapper.java:67 | `(int) Math.sqrt(n)` is r with r² <= n < (r+1)² |
| Mapper.LevelEvaluation | src/main/java/com/game/service/Mapper.java:65-68 | for any int experience the level is between 0 and 2^31 / 100 |
| Mapper.ThresholdStep | src/main/java/com/game/service/Mapper.java:72 | climbing from level x to x + 1 takes 100·(x+1) experience |
| Mapper.ThresholdGrows | src/main/java/com/game/service/Mapper.java:72 | each level needs at least 100 more experience than the one before |
| Mapper.LevelUnique | src/main/java/com/game/service/Mapper.java:67 | an experience value lies in one level band only |
| Mapper.RootBand | src/main/java/com/game/service/Mapper.java:67 | the root r of 2500 + 200·exp puts exp in the band of level (r − 50) / 100 |
| Mapper.LevelEvaluationCorrect | src/main/java/com/game/service/Mapper.java:65-68 | for exp in [0, 10,000,000] the radicand does not overflow (at most 2,000,002,500), and the computed level is the band that holds exp |
| Mapper.LevelRange | src/main/java/com/game/service/Mapper.java:65-68 | over the validated range the level lies in [0, 446] |
| Mapper.UntilNextOfBand | src/main/java/com/game/service/Mapper.java:70-73 | for a level in [0, 446] the int computation does not overflow and equals the next threshold minus exp |
| Mapper.UntilNextLevelBounds | src/main/java/com/game/service/Mapper.java:70-73 | with L = level(exp), the remaining experience is 50·(L+1)·(L+2) − exp, strictly positive and at most 100·(L+1) |
| Mapper.BandMonotone | src/main/java/com/game/service/Mapper.java:67 | more experience never lies in a lower band |
| Mapper.LevelMonotone | src/main/java/com/game/service/Mapper.java:65-68 | the level is non-decreasing in experience over the validated range |
| Mapper.LevelGoldenValues | src/main/java/com/game/service/Mapper.java:67 | level(0) = 0, level(99) = 0, level(100) = 1, level(1,000,000) = 140, level(10,000,000) = 446 |
| Mapper.LevelWrapsAboveRange | src/main/java/com/game/service/Mapper.java:67 | above the validated range `200 * exp` wraps negative and the level collapses to 0 (exp = 11,000,000) |
| Mapper.MapDtoToEntity | src/main/java/com/game/service/Mapper.java:49-63 | the new player carries the DTO's fields unchanged, with level and remaining experience consistent with its experience |
| Mapper.MapRequestParamToRequestDto | src/main/java/com/game/service/Mapper.java:15-47 | each of the 14 parameters lands unchanged in its own field |
| Validator.ValidatePlayerForCreate | src/main/java/com/game/service/Validator.java:33-60 | throws HTTPException or passes; passes exactly when all six required fields are present, the trimmed name has 1–12 and the trimmed title 1–30 chars, the experience is in [0, 10,000,000], and the birthday lies in the 2000–3000 window |
| Validator.CreateValidityInWindow | src/main/java/com/game/service/Validator.java:39-45 | a DTO is valid for creation iff no required field is null, the name, title and experience checks pass, and the birthday lies in the window of local days from 1 January 2000 to 1 January 3001 |
| Validator.ValidateBirthday | src/main/java/com/game/service/Validator.java:80-95 | passes exactly when the instant is not negative and its local day lies between 1 January 2000 and 1 January 3001; otherwise throws HTTPException |
| Validator.ValidateExperience | src/main/java/com/game/service/Validator.java:97-101 | passes exactly when 0 <= experience <= 10,000,000; otherwise throws HTTPException |
| Validator.ValidateId | src/main/java/com/game/service/Validator.java:24-30 | as written: a non-positive id is a client error; an id passes exactly when it is positive, at most the store's size and present; every other positive id is "not found", a present id above the size included |
| Validator.ValidateIdByPresence | src/main/java/com/game/service/Validator.java:24-30 | as intended: a non-positive id is a client error; a positive id passes iff it is present, and is "not found" otherwise |
| Validator.ValidateIdRejectsStoredPlayer | src/main/java/com/game/service/Validator.java:27 | a store holding only id 2 makes the check as written report a stored player as not found, while the intended check passes |
| Validator.ValidateIdAgreesOnDenseStore | src/main/java/com/game/service/Validator.java:27 | while ids 1..count are all taken, the check as written and the intended check agree |
| Validator.NameLengthBoundary | src/main/java/com/game/service/Validator.java:62-66 | a clean-edged name padded by blanks is valid iff it has at most 12 chars |
| Validator.TitleLengthBoundary | src/main/java/com/game/service/Validator.java:68-72 | a clean-edged title padded by blanks is valid iff it has at most 30 chars |
| Validator.BlankRejected | src/main/java/com/game/service/Validator.java:62-72 | an empty or all-blank name or title is rejected |
| Validator.TwelveLetterNameAccepted | src/main/java/com/game/service/Validator.java:63-65 | a name of 12 letters is accepted |
| Validator.ThirteenLetterNameRejected | src/main/java/com/game/service/Validator.java:63-65 | a name of 13 letters is rejected |
| Validator.PaddedNameAccepted | src/main/java/com/game/service/Validator.java:63-65 | surrounding blanks do not count towards a name's length |
| Validator.BirthdayWindow | src/main/java/com/game/service/Validator.java:80-89 | a birthday is valid iff it is not negative and its local day lies in the years 2000 to 3000 |
| Validator.BirthdayWindowUtc | src/main/java/com/game/service/Validator.java:80-89 | in UTC the valid birthdays are the instants in [946,684,800,000, 32,535,216,000,000) ms |
| Validator.BannedNotRequiredForCreate | src/main/java/com/game/service/Validator.java:40-60 | creation validity does not depend on the banned flag |
| Criteria.ToPredicates | src/main/java/com/game/service/PlayerService.java:33-81 | the specification builds at most eight predicates |
| Text.ContainsIgnoreCase | src/main/java/com/game/service/PlayerService.java:36-41 | definition: `lower(field) LIKE '%' + needle.toLowerCase() + '%'` read as "the lower-cased needle occurs in the lower-cased value"; its properties are the three lemmas above |
| Mapper.UntilNextLevelEvaluation | src/main/java/com/game/service/Mapper.java:70-73 | `50 * (lvl + 1) * (lvl + 2) - exp` with every step wrapped to int, so the result is always an int; its value on consistent input is stated by UntilNextLevelBounds |
| Validator.IsNameLengthValid | src/main/java/com/game/service/Validator.java:62-66 | definition: trimmed length in [1, 12], both ends included; pinned down by NameLengthBoundary, BlankRejected and the name examples |
| Validator.IsTitleLengthValid | src/main/java/com/game/service/Validator.java:68-72 | definition: trimmed length in [1, 30], both ends included; pinned down by TitleLengthBoundary and BlankRejected |
| Validator.IsExperienceValid | src/main/java/com/game/service/Validator.java:74-77 | definition: 0 <= experience <= 10,000,000, both ends included |
| Validator.IsBirthdayValid | src/main/java/com/game/service/Validator.java:79-89 | definition: false for a negative instant, else the local year lies in [2000, 3000]; equivalent to the day window by BirthdayWindow |
| Validator.IsNullInDtoParamsForCreate | src/main/java/com/game/service/Validator.java:49-60 | definition: one of name, title, race, profession, birthday, experience is null; banned is not checked |
| Validator.IsPlayerDtoValidForCreate | src/main/java/com/game/service/Validator.java:39-45 | definition: false when a required field is null, else the conjunction of the four value checks; characterised by ValidatePlayerForCreate |
| Criteria.ExperienceRange | src/main/java/com/game/service/PlayerService.java:48-54 | at most one experience predicate; its meaning is ExperienceRangeMeaning |
| Criteria.GuardedRange | src/main/java/com/game/service/PlayerService.java:56-76 | at most one birthday or level predicate; its meaning is GuardedRangeMeaning |
| Criteria.Matches | src/main/java/com/game/service/PlayerService.java:80 | definition: every generated predicate holds; equivalent to the declarative reading by ToPredicatesSound |
| Criteria.KeyLe | src/main/java/com/game/service/PlayerService.java:173-192 | definition: the single ascending key the order selects; total and transitive by KeyLeTotal and KeyLeTransitive |
| Criteria.HoldsAllConcat | src/main/java/com/game/service/PlayerService.java:80 | the conjunction of two predicate lists holds iff each list holds |
| Criteria.ExperienceRangeMeaning | src/main/java/com/game/service/PlayerService.java:48-54 | the experience predicates hold iff the declarative three-case reading of the bounds admits the value |
| Criteria.GuardedRangeMeaning | src/main/java/com/game/service/PlayerService.java:58-76 | the birthday predicates (lines 58-64) and the level predicates (lines 70-76) hold iff the guarded three-case reading admits the value |
| Criteria.OptionalPredMeaning | src/main/java/com/game/service/PlayerService.java:36-47 | a null filter field adds nothing; a non-null one adds exactly its own predicate |
| Criteria.ToPredicatesSound | src/main/java/com/game/service/PlayerService.java:33-81 | a player satisfies the conjunction iff the declarative reading of every field group admits it |
| Criteria.UnfilteredMatchesAll | src/main/java/com/game/service/PlayerService.java:80 | a request with every field null and every bound 0 builds no predicate and matches every player |
| Criteria.ExperienceBetweenInclusive | src/main/java/com/game/service/PlayerService.java:48-49 | with min < max a player matches iff it matches without the experience bounds and min <= experience <= max |
| Criteria.ExperienceOnlyMin | src/main/java/com/game/service/PlayerService.java:50-51 | with only a positive minimum the filter is experience >= min |
| Criteria.ExperienceOnlyMax | src/main/java/com/game/service/PlayerService.java:48-53 | with only a positive maximum the `between` branch [0, max] is taken, which on non-negative experience is experience <= max |
| Criteria.ExperienceCrossedBoundsIgnored | src/main/java/com/game/service/PlayerService.java:48-54 | non-zero bounds with min >= max, equal ones included, build the same predicates as no experience bounds |
| Criteria.BirthdayCases | src/main/java/com/game/service/PlayerService.java:56-64 | after < before (both set) is an inclusive range; only after gives >=; only before gives <=; crossed bounds drop the filter |
| Criteria.LevelCases | src/main/java/com/game/service/PlayerService.java:70-76 | both bounds set with min < max is an inclusive range; only min gives >=; only max gives <=; equal or crossed bounds drop the filter |
| Criteria.OptionalFieldsMeaning | src/main/java/com/game/service/PlayerService.java:36-47 | name and title match case-insensitively as substrings; race, profession and banned match by equality; each constrains only its own field |
| Criteria.LexLeTotal | src/main/java/com/game/service/PlayerService.java:179-181 | string order by char code is total |
| Criteria.LexLeTransitive | src/main/java/com/game/service/PlayerService.java:179-181 | string order by char code is transitive |
| Criteria.KeyLeTotal | src/main/java/com/game/service/PlayerService.java:173-192 | every sort key orders any two players one way or the other |
| Criteria.KeyLeTransitive | src/main/java/com/game/service/PlayerService.java:173-192 | every sort key is transitive |
| Criteria.Insert | src/main/java/com/game/service/PlayerService.java:173-192 | inserting into an ordered sequence keeps it ordered and adds exactly that element |
| Criteria.SortBy | src/main/java/com/game/service/PlayerService.java:173-192 | the ascending sort is ordered by the selected key and is a permutation of its input |
| Criteria.Page | src/main/java/com/game/service/PlayerService.java:120-122 | page n of size s holds at most s elements: the elements at n·s + k while they exist, and none past the end |
| Criteria.PageOfSorted | src/main/java/com/game/service/PlayerService.java:120-122 | a page holds elements of the sequence only, and a page of an ordered sequence is ordered |
| Criteria.FirstPagesArePrefix | src/main/java/com/game/service/PlayerService.java:120-122 | the first c pages together are the first c·s elements |
| Criteria.AllPagesCoverAll | src/main/java/com/game/service/PlayerService.java:120-122 | reading all ceil(n / s) pages yields every element once, in order |
| PlayerService.MatchingAreAdmitted | src/main/java/com/game/service/PlayerService.java:31-82 | the ids the specification selects are exactly those whose players the declarative reading admits |
| PlayerService.ScanIds | src/main/java/com/game/service/PlayerService.java:101 | a scan yields only stored players that match, and every matching listed player |
| PlayerService.ScanIdsCount | src/main/java/com/game/service/PlayerService.java:101 | scanning distinct ids yields one player per selected id |
| PlayerService.ScanCount | src/main/java/com/game/service/PlayerService.java:101 | a scan of the whole table yields as many players as there are matching ids |
| PlayerService.Ordered | src/main/java/com/game/service/PlayerService.java:173-192 | the matches in the requested order are ordered by its key and a permutation of the scan |
| PlayerService.CountAgreesWithPages | src/main/java/com/game/service/PlayerService.java:96-125 | count and listing share one specification: there are as many ordered matches as the count, and, with ties kept in ascending id order on every page, all pages of the listing together are exactly those matches |
| PlayerService.PageSizeFromCount | src/main/java/com/game/service/PlayerService.java:96-125 | in any arrangement of the matches, page n holds min(pageSize, count − n·pageSize) players, where count is the number playersCount returns, and none past the end |
| PlayerService.OrderedAreTheAdmitted | src/main/java/com/game/service/PlayerService.java:117-125 | the listed matches are stored players the request admits, and every stored player it admits is among them |
| PlayerService.RemoveId | src/main/java/com/game/service/PlayerService.java:128-130 | removing an id from the ascending key list keeps it ascending and drops exactly that id |
| PlayerService.PatchPlayer | src/main/java/com/game/service/PlayerService.java:136-156 | null fields keep the stored value; an invalid name or title is skipped silently; race, profession and banned are overwritten; an invalid birthday throws HTTPException; experience is untouched |
| PlayerService.SetExperience | src/main/java/com/game/service/PlayerService.java:158-167 | a present experience must be valid (else HTTPException) and sets experience, level and remaining experience together, consistently; nothing else changes |
| PlayerService.PatchThenLevel | src/main/java/com/game/service/PlayerService.java:133-168 | the two setter phases together give the field-by-field effect of updatePlayer |
| PlayerService.UpdateKeepsLevelsConsistent | src/main/java/com/game/service/PlayerService.java:158-167 | an update keeps the player's id and the consistency of its level fields with its experience |
| PlayerService.SaveExistingKeepsInvariant | src/main/java/com/game/service/PlayerService.java:168 | saving a consistent player under its own stored id keeps the store invariant |
| PlayerService.SaveNewKeepsInvariant | src/main/java/com/game/service/PlayerService.java:112 | saving a consistent new player under the next id keeps the store invariant, and that id was free |
| PlayerService.DeleteKeepsInvariant | src/main/java/com/game/service/PlayerService.java:128-130 | deleting a stored id keeps the store invariant |
| PlayerService.Store.PlayersCount | src/main/java/com/game/service/PlayerService.java:96-102 | a null request counts every stored player; otherwise the count is the number of stored players the request admits |
| PlayerService.Store.GetListPlayers | src/main/java/com/game/service/PlayerService.java:117-125 | the page is the requested slice of the ordered matches: at most pageSize players, in order, each a stored player the request admits; page n holds min(pageSize, count − n·pageSize) of the count matches, and none past the end |
| PlayerService.Store.FindById | src/main/java/com/game/service/PlayerService.java:105-107 | returns the stored player, or NoSuchElementException for an absent id |
| PlayerService.Store.CreatePlayer | src/main/java/com/game/service/PlayerService.java:110-113 | fails with HTTPException iff the DTO is invalid for creation, leaving the store unchanged; otherwise saves the mapped player under a fresh id and leaves every other stored player as it was |
| PlayerService.Store.UpdatePlayer | src/main/java/com/game/service/PlayerService.java:133-169 | an absent id fails as findById does; for a stored id, succeeds iff the supplied birthday and experience are valid; a failure leaves the store unchanged; success saves the field-by-field update under the same id and keeps the store invariant |
| PlayerService.Store.DeletePlayer | src/main/java/com/game/service/PlayerService.java:128-130 | removes exactly the given stored player and keeps the store invariant |

## Left out

- Spring wiring is not modelled: dependency injection, `getMapper`, the HTTP mapping of exceptions, and the controller. Exceptions are the `Error` values `BadRequest` (HTTPException), `PlayerNotFound` and `NoSuchElement`.
- The repository is a map from id to player, with the ascending list of its keys standing for the table's primary-key order. `Repository.java`, JPA, `saveAndFlush` and transactions are not part of this model.
- The entity and DTO classes, and the Race, Profession and PlayerOrder enums, are not part of this model. Their fields are taken from the getters and setters the core calls. Race and Profession are opaque constants compared only for equality.
- The player is a value, so entity identity and aliasing of the fetched `Player` object are not modelled. The update's setters are modelled in source order on that value and then saved.
- The two mappers fill a fresh object by setters on distinct fields, so their order is unobservable. They are modelled as building the value at once.
- Mapper.MapDtoToEntity: a null `banned` in the DTO becomes `false`, since the entity class, which would say how null is stored, is not part of this model. The id is passed in, standing for the one the save assigns.
- Mapper.FloorSqrt: it is the exact integer square root. That `(int) Math.sqrt(n)` in double precision gives the same value for every non-negative int is assumed, not proved, because floating point is not modelled.
- Calendar.YearOf: `ZoneId.systemDefault()` is a fixed UTC offset of at most 18 hours, given as the store's `zone`. Daylight-saving transitions and historical zone rules are not modelled.
- Validator.IsNameLengthValid: Dafny strings are sequences of Unicode scalar values, while Java `length()` counts UTF-16 code units. A name of supplementary characters such as emoji has twice the Java length of the model's length, so seven emoji are rejected by the source and accepted by the model. The same holds for Validator.IsTitleLengthValid and `trim()`.
- Criteria.KeyLe: `ORDER BY name` sorts by the database collation. The model orders names by character code (Criteria.LexLe), so listings sorted by name can differ from the database's order for mixed case or non-ASCII names.
- Text.ContainsIgnoreCase: `LIKE` is plain containment after ASCII lower-casing. Wildcards `%` and `_` inside the search string, database collation and non-ASCII case mapping are not modelled. The search string is lowered by `toLowerCase()` without a locale, so with the JVM default locale. The model assumes that locale lowers ASCII capitals to ASCII. Under a Turkish or Azeri default locale 'I' lowers to 'ı' (U+0131), so the filter "IVAN" becomes `%ıvan%` and misses a stored "Ivan", which the model matches.
- The shared mutable `requestDto` field, written by `setFilterDto` and read by the specification, is replaced by passing the request explicitly. Concurrent requests are out of scope.
- PlayerService.Store.GetListPlayers: ties under the selected key have no defined order in the source, whose `ORDER BY` has no tie-break. The model fixes one order for ties: scan order, which is ascending id. So the exact page contents are the model's choice. What holds whatever the tie order is this: the page is sorted by the key, it holds only stored players the request admits, and its size follows from the count. `pageNumber >= 0` and `pageSize >= 1` are required, as `PageRequest.of` demands.
- PlayerService.CountAgreesWithPages: the pages rebuild the matches only under the model's fixed ascending-id order for ties. The source runs a separate query for each page, and a database may order tied rows differently each time, so one player can appear on two pages and another on none. For any tie order, the source guarantees only that page n holds min(pageSize, count − n·pageSize) players and none past the end; PlayerService.PageSizeFromCount states that.
- PlayerService.Store.PlayersCount: `Math.toIntExact` is not modelled. Its overflow would need more than 2^31 stored players.
- PlayerService.Store.DeletePlayer: only stored ids are modelled, because `deleteById` on an absent id depends on the library version.
- PlayerService.Store.CreatePlayer: the controller's `validatePlayerForCreate` is folded in front of `createPlayer`, since `mapDtoToEntity` is only meaningful on a validated DTO.
- Null-dereference paths are excluded: a null request in `getListPlayers`, a null order, and null boxed numbers in the request.
- `Validator.validateId` is modelled as a function of the store's map and is not wired into the store methods. Those methods model the service calls that follow the controller's check.

## Findings

| source | as written | input that shows it | evidently intended | confidence | as-written member | corrected member |
|---|---|---|---|---|---|---|
| src/main/java/com/game/service/Validator.java:27 | a positive id above `repository.count()` is reported as not found, even when a player with that id is stored | store {2 ↦ p} after player 1 was deleted: `validateId(2)` throws PlayerNotFoundException | an id is "not found" exactly when no stored player has it | not executed | Validator.ValidateIdRejectsStoredPlayer | Validator.ValidateIdByPresence |
