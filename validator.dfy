/**
 * com.game.service.Validator: the field checks applied to a player DTO, the checks that throw,
 * and the id check against the store.
 */
module Validator {
  import opened Common
  import opened Entities
  import opened Text
  import Calendar
  import Mapper

  const MaxNameLength := 12
  const MaxTitleLength := 30
  const MinBirthYear := 2000
  const MaxBirthYear := 3000

  /** isNameLengthValid: the trimmed name has between 1 and 12 chars, both bounds included. */
  predicate IsNameLengthValid(name: string) {
    var n := |Trim(name)|;
    n > 0 && n <= MaxNameLength
  }

  /** isTitleLengthValid: the trimmed title has between 1 and 30 chars, both bounds included. */
  predicate IsTitleLengthValid(title: string) {
    var n := |Trim(title)|;
    n > 0 && n <= MaxTitleLength
  }

  /** isExperienceValid: 0 <= experience <= 10,000,000. */
  predicate IsExperienceValid(experience: int) {
    experience >= 0 && experience <= Mapper.MaxExperience
  }

  /**
   * isBirthdayValid: the instant is not before the epoch and its calendar year, in the zone with
   * offset `zone` (seconds), lies in [2000, 3000].
   */
  predicate IsBirthdayValid(millis: int, zone: int)
    requires Calendar.IsZoneOffset(zone)
  {
    if millis < 0 then false
    else
      var year := Calendar.YearOf(millis, zone);
      millis >= 0 && year >= MinBirthYear && year <= MaxBirthYear
  }

  /** isNullInDtoParamsForCreate: one of the six fields a creation needs is missing (banned is optional). */
  predicate IsNullInDtoParamsForCreate(dto: PlayerDto) {
    dto.name.None? || dto.title.None? || dto.race.None? || dto.profession.None?
    || dto.birthday.None? || dto.experience.None?
  }

  /** isPlayerDtoValidForCreate: nothing required is missing and the four value checks pass. */
  predicate IsPlayerDtoValidForCreate(dto: PlayerDto, zone: int)
    requires Calendar.IsZoneOffset(zone)
  {
    if IsNullInDtoParamsForCreate(dto) then false
    else
      IsNameLengthValid(dto.name.value) && IsTitleLengthValid(dto.title.value)
      && IsExperienceValid(dto.experience.value) && IsBirthdayValid(dto.birthday.value, zone)
  }

  /** validatePlayerForCreate: throws HTTPException unless the DTO is valid for creation. */
  function ValidatePlayerForCreate(dto: PlayerDto, zone: int): (r: Outcome)
    requires Calendar.IsZoneOffset(zone)
    ensures r == Pass || r == Fail(BadRequest)
    ensures r == Pass <==>
      && dto.name.Some? && dto.title.Some? && dto.race.Some? && dto.profession.Some?
      && dto.birthday.Some? && dto.experience.Some?
      && 0 < |Trim(dto.name.value)| <= MaxNameLength
      && 0 < |Trim(dto.title.value)| <= MaxTitleLength
      && 0 <= dto.experience.value <= Mapper.MaxExperience
      && InBirthdayWindow(dto.birthday.value, zone)
  {
    CreateValidityInWindow(dto, zone);
    if !IsPlayerDtoValidForCreate(dto, zone) then Fail(BadRequest) else Pass
  }

  /** Creation validity with the birthday check read as the window of local days. */
  lemma CreateValidityInWindow(dto: PlayerDto, zone: int)
    requires Calendar.IsZoneOffset(zone)
    ensures IsPlayerDtoValidForCreate(dto, zone) <==>
      && !IsNullInDtoParamsForCreate(dto)
      && IsNameLengthValid(dto.name.value) && IsTitleLengthValid(dto.title.value)
      && IsExperienceValid(dto.experience.value)
      && InBirthdayWindow(dto.birthday.value, zone)
  {
    if !IsNullInDtoParamsForCreate(dto) {
      BirthdayWindow(dto.birthday.value, zone);
    }
  }

  /** A DTO valid for creation has every field the mapper reads, and an experience in range. */
  lemma ValidForCreateFields(dto: PlayerDto, zone: int)
    requires Calendar.IsZoneOffset(zone) && IsPlayerDtoValidForCreate(dto, zone)
    ensures dto.name.Some? && dto.title.Some? && dto.race.Some? && dto.profession.Some?
    ensures dto.birthday.Some? && dto.experience.Some? && 0 <= dto.experience.value <= Mapper.MaxExperience
  {
  }

  /** validateBirthday: throws HTTPException unless the supplied birthday is valid. */
  function ValidateBirthday(dto: PlayerDto, zone: int): (r: Outcome)
    requires dto.birthday.Some? && Calendar.IsZoneOffset(zone)
    ensures r == Pass || r == Fail(BadRequest)
    ensures r == Pass <==> InBirthdayWindow(dto.birthday.value, zone)
  {
    BirthdayWindow(dto.birthday.value, zone);
    if !IsBirthdayValid(dto.birthday.value, zone) then Fail(BadRequest) else Pass
  }

  /** validateExperience: throws HTTPException unless the supplied experience is valid. */
  function ValidateExperience(dto: PlayerDto): (r: Outcome)
    requires dto.experience.Some?
    ensures r == Pass <==> 0 <= dto.experience.value <= Mapper.MaxExperience
    ensures r != Pass ==> r == Fail(BadRequest)
  {
    if !IsExperienceValid(dto.experience.value) then Fail(BadRequest) else Pass
  }

  /**
   * validateId, as written: a non-positive id is a client error; a positive id above the
   * number of stored players, or absent from the store, is "not found".
   */
  function ValidateId(id: int, players: map<int, Entities.Player>): (r: Outcome)
    ensures id <= 0 ==> r == Fail(BadRequest)
    ensures r == Pass <==> 0 < id <= |players| && id in players
    ensures id > 0 && r != Pass ==> r == Fail(PlayerNotFound)
  {
    if id <= 0 then Fail(BadRequest)
    else if id > |players| || id !in players then Fail(PlayerNotFound)
    else Pass
  }

  /** validateId as evidently intended: "not found" exactly when no player has the id. */
  function ValidateIdByPresence(id: int, players: map<int, Entities.Player>): (r: Outcome)
    ensures id <= 0 ==> r == Fail(BadRequest)
    ensures id > 0 ==> (r == Pass <==> id in players)
    ensures id > 0 && id !in players ==> r == Fail(PlayerNotFound)
  {
    if id <= 0 then Fail(BadRequest)
    else if id !in players then Fail(PlayerNotFound)
    else Pass
  }

  /**
   * The count shortcut in validateId rejects a stored player: once a player with a lower id is
   * deleted, the player with id 2 is the only one left and validateId(2) reports it missing.
   */
  lemma ValidateIdRejectsStoredPlayer(p: Entities.Player)
    ensures 2 in map[2 := p]
    ensures ValidateId(2, map[2 := p]) == Fail(PlayerNotFound)
    ensures ValidateIdByPresence(2, map[2 := p]) == Pass
  {
    assert |map[2 := p]| == 1;
  }

  /** Where every id up to the store's size is taken (no deletions), both versions agree. */
  lemma ValidateIdAgreesOnDenseStore(id: int, players: map<int, Entities.Player>)
    requires forall k :: 1 <= k <= |players| ==> k in players
    ensures ValidateId(id, players) == ValidateIdByPresence(id, players)
  {
    if 0 < id && id in players && id > |players| {
      var below := IdsUpTo(|players|);
      assert below + {id} <= players.Keys;
      assert |below + {id}| == |players| + 1;
      SubsetSmaller(below + {id}, players.Keys);
    }
  }

  /** The ids 1 to n. */
  function IdsUpTo(n: nat): (ids: set<int>)
    ensures |ids| == n
    ensures forall k :: k in ids <==> 1 <= k <= n
  {
    if n == 0 then {} else IdsUpTo(n - 1) + {n}
  }

  lemma SubsetSmaller(a: set<int>, b: set<int>)
    requires a <= b
    ensures |a| <= |b|
  {
    assert b == a + (b - a);
  }

  /** A name with clean edges, padded by trimmable chars, is valid exactly when it has 1 to 12 chars. */
  lemma NameLengthBoundary(pre: string, name: string, post: string)
    requires forall k :: 0 <= k < |pre| ==> IsTrimmable(pre[k])
    requires forall k :: 0 <= k < |post| ==> IsTrimmable(post[k])
    requires name != [] && HasCleanEdges(name)
    ensures IsNameLengthValid(pre + name + post) <==> |name| <= MaxNameLength
  {
    TrimPadded(pre, name, post);
  }

  /** A title with clean edges, padded by trimmable chars, is valid exactly when it has 1 to 30 chars. */
  lemma TitleLengthBoundary(pre: string, title: string, post: string)
    requires forall k :: 0 <= k < |pre| ==> IsTrimmable(pre[k])
    requires forall k :: 0 <= k < |post| ==> IsTrimmable(post[k])
    requires title != [] && HasCleanEdges(title)
    ensures IsTitleLengthValid(pre + title + post) <==> |title| <= MaxTitleLength
  {
    TrimPadded(pre, title, post);
  }

  /** A blank name or title (only trimmable chars, possibly none) is rejected. */
  lemma BlankRejected(s: string)
    requires forall k :: 0 <= k < |s| ==> IsTrimmable(s[k])
    ensures !IsNameLengthValid(s) && !IsTitleLengthValid(s)
  {
  }

  /** Twelve letters make a valid name. */
  lemma TwelveLetterNameAccepted()
    ensures IsNameLengthValid("abcdefghijkl")
  {
    NameLengthBoundary([], "abcdefghijkl", []);
    assert [] + "abcdefghijkl" + [] == "abcdefghijkl";
  }

  /** Thirteen letters do not. */
  lemma ThirteenLetterNameRejected()
    ensures !IsNameLengthValid("abcdefghijklm")
  {
    NameLengthBoundary([], "abcdefghijklm", []);
    assert [] + "abcdefghijklm" + [] == "abcdefghijklm";
  }

  /** Surrounding blanks do not count towards a name's length. */
  lemma PaddedNameAccepted()
    ensures IsNameLengthValid("  Ab  ")
  {
    var pad, name := "  ", "Ab";
    assert pad + name + pad == "  Ab  ";
    NameLengthBoundary(pad, name, pad);
  }

  /**
   * The instant is not before the epoch and its local day lies between 1 January 2000 and
   * 1 January 3001 (exclusive).
   */
  predicate InBirthdayWindow(millis: int, zone: int) {
    millis >= 0
    && Calendar.YearStart(MinBirthYear) <= Calendar.LocalEpochDay(millis, zone) < Calendar.YearStart(MaxBirthYear + 1)
  }

  /** A birthday is valid exactly when it lies in the window of days of the years 2000 to 3000. */
  lemma BirthdayWindow(millis: int, zone: int)
    requires Calendar.IsZoneOffset(zone)
    ensures IsBirthdayValid(millis, zone) <==> InBirthdayWindow(millis, zone)
  {
    if millis >= 0 {
      Calendar.YearWindow(Calendar.LocalEpochDay(millis, zone), MinBirthYear, MaxBirthYear);
    }
  }

  /** In UTC the valid birthdays are the instants from 2000-01-01T00:00Z up to, not including, 3001-01-01T00:00Z. */
  lemma BirthdayWindowUtc(millis: int)
    ensures IsBirthdayValid(millis, 0) <==> 946_684_800_000 <= millis < 32_535_216_000_000
  {
    BirthdayWindow(millis, 0);
    assert Calendar.YearStart(2000) == 10957;
    assert Calendar.YearStart(3001) == 376565;
  }

  /** The banned flag plays no part in creation validity. */
  lemma BannedNotRequiredForCreate(dto: PlayerDto, banned: Option<bool>, zone: int)
    requires Calendar.IsZoneOffset(zone)
    ensures IsPlayerDtoValidForCreate(dto, zone) == IsPlayerDtoValidForCreate(dto.(banned := banned), zone)
  {
  }
}
