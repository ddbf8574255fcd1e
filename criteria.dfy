/**
 * The semantics of PlayerService's JPA `Specification`: the field predicates `toPredicate` builds
 * from a request, their conjunction, the single ascending order `orderBy` selects, and the page
 * that a `PageRequest` cuts from the ordered matches.
 */
module Criteria {
  import opened Common
  import opened Entities
  import opened Text

  /** The numeric columns a range predicate can constrain. */
  datatype NumericField = ExperienceColumn | BirthdayColumn | LevelColumn

  /** One predicate `toPredicate` adds to its list. */
  datatype FieldPred =
    | NameLike(needle: string)                          // lower(name) like %needle%
    | TitleLike(needle: string)                         // lower(title) like %needle%
    | RaceEquals(race: Race)
    | ProfessionEquals(profession: Profession)
    | BannedEquals(banned: bool)
    | Between(field: NumericField, lo: int, hi: int)    // inclusive at both ends
    | AtLeast(field: NumericField, bound: int)
    | AtMost(field: NumericField, bound: int)

  function FieldValue(p: Player, field: NumericField): int {
    match field
    case ExperienceColumn => p.experience
    case BirthdayColumn => p.birthday
    case LevelColumn => p.level
  }

  predicate Holds(p: Player, pred: FieldPred) {
    match pred
    case NameLike(needle) => ContainsIgnoreCase(p.name, needle)
    case TitleLike(needle) => ContainsIgnoreCase(p.title, needle)
    case RaceEquals(race) => p.race == race
    case ProfessionEquals(profession) => p.profession == profession
    case BannedEquals(banned) => p.banned == banned
    case Between(field, lo, hi) => lo <= FieldValue(p, field) <= hi
    case AtLeast(field, bound) => FieldValue(p, field) >= bound
    case AtMost(field, bound) => FieldValue(p, field) <= bound
  }

  /** criteriaBuilder.and(...): every predicate holds; the conjunction of none is true. */
  predicate HoldsAll(p: Player, preds: seq<FieldPred>) {
    forall i :: 0 <= i < |preds| ==> Holds(p, preds[i])
  }

  /** The experience rule: `between` whenever min < max, otherwise one side if only that side is non-zero. */
  function ExperienceRange(min: int, max: int): (preds: seq<FieldPred>)
    ensures |preds| <= 1
  {
    if min < max then [Between(ExperienceColumn, min, max)]
    else if min != 0 && max == 0 then [AtLeast(ExperienceColumn, min)]
    else if min == 0 && max != 0 then [AtMost(ExperienceColumn, max)]
    else []
  }

  /** The birthday and level rule: `between` only when both bounds are non-zero and lo < hi. */
  function GuardedRange(field: NumericField, lo: int, hi: int): (preds: seq<FieldPred>)
    ensures |preds| <= 1
  {
    if lo != 0 && hi != 0 && lo < hi then [Between(field, lo, hi)]
    else if lo != 0 && hi == 0 then [AtLeast(field, lo)]
    else if lo == 0 && hi != 0 then [AtMost(field, hi)]
    else []
  }

  function OptionalPred<T>(o: Option<T>, make: T -> FieldPred): seq<FieldPred> {
    if o.Some? then [make(o.value)] else []
  }

  /** specification.toPredicate: the predicates for a request, in the order the source adds them. */
  function ToPredicates(f: RequestDto): (preds: seq<FieldPred>)
    ensures |preds| <= 8
  {
    OptionalPred(f.name, n => NameLike(n))
    + OptionalPred(f.title, t => TitleLike(t))
    + OptionalPred(f.race, r => RaceEquals(r))
    + OptionalPred(f.profession, p => ProfessionEquals(p))
    + ExperienceRange(f.minExperience, f.maxExperience)
    + GuardedRange(BirthdayColumn, f.after, f.before)
    + OptionalPred(f.banned, b => BannedEquals(b))
    + GuardedRange(LevelColumn, f.minLevel, f.maxLevel)
  }

  /** A stored player is selected by the request's specification. */
  predicate Matches(p: Player, f: RequestDto) {
    HoldsAll(p, ToPredicates(f))
  }

  // ---------------------------------------------------------------------------------------------
  // A declarative reading of the filter, case by case, against which ToPredicates is proved.

  /** What the experience bounds admit: the three cases are disjoint and any other pair admits all. */
  predicate ExperienceAdmits(min: int, max: int, v: int) {
    && (min < max ==> min <= v <= max)
    && (max == 0 < min ==> v >= min)
    && (max < min == 0 ==> v <= max)
  }

  /** What the birthday and level bounds admit; a bound of 0 is absent, and crossed or equal bounds admit all. */
  predicate GuardedAdmits(lo: int, hi: int, v: int) {
    && (lo != 0 && hi != 0 && lo < hi ==> lo <= v <= hi)
    && (lo != 0 && hi == 0 ==> v >= lo)
    && (lo == 0 && hi != 0 ==> v <= hi)
  }

  predicate Admits(f: RequestDto, p: Player) {
    && (f.name.Some? ==> ContainsIgnoreCase(p.name, f.name.value))
    && (f.title.Some? ==> ContainsIgnoreCase(p.title, f.title.value))
    && (f.race.Some? ==> p.race == f.race.value)
    && (f.profession.Some? ==> p.profession == f.profession.value)
    && ExperienceAdmits(f.minExperience, f.maxExperience, p.experience)
    && GuardedAdmits(f.after, f.before, p.birthday)
    && (f.banned.Some? ==> p.banned == f.banned.value)
    && GuardedAdmits(f.minLevel, f.maxLevel, p.level)
  }

  lemma HoldsAllConcat(p: Player, a: seq<FieldPred>, b: seq<FieldPred>)
    ensures HoldsAll(p, a + b) <==> HoldsAll(p, a) && HoldsAll(p, b)
  {
    if HoldsAll(p, a) && HoldsAll(p, b) {
      forall i | 0 <= i < |a + b| ensures Holds(p, (a + b)[i]) {
        if i >= |a| {
          assert (a + b)[i] == b[i - |a|];
        }
      }
    }
    if HoldsAll(p, a + b) {
      forall i | 0 <= i < |a| ensures Holds(p, a[i]) {
        assert (a + b)[i] == a[i];
      }
      forall i | 0 <= i < |b| ensures Holds(p, b[i]) {
        assert (a + b)[|a| + i] == b[i];
      }
    }
  }

  lemma ExperienceRangeMeaning(min: int, max: int, p: Player)
    ensures HoldsAll(p, ExperienceRange(min, max)) <==> ExperienceAdmits(min, max, p.experience)
  {
    var r := ExperienceRange(min, max);
    if r != [] {
      assert HoldsAll(p, r) <==> Holds(p, r[0]);
    }
  }

  lemma GuardedRangeMeaning(field: NumericField, lo: int, hi: int, p: Player)
    ensures HoldsAll(p, GuardedRange(field, lo, hi)) <==> GuardedAdmits(lo, hi, FieldValue(p, field))
  {
    var r := GuardedRange(field, lo, hi);
    if r != [] {
      assert HoldsAll(p, r) <==> Holds(p, r[0]);
    }
  }

  lemma OptionalPredMeaning<T>(o: Option<T>, make: T -> FieldPred, p: Player)
    ensures HoldsAll(p, OptionalPred(o, make)) <==> (o.Some? ==> Holds(p, make(o.value)))
  {
    if o.Some? {
      assert HoldsAll(p, OptionalPred(o, make)) <==> Holds(p, OptionalPred(o, make)[0]);
    }
  }

  /** The conjunction `toPredicate` returns selects exactly the players the declarative reading admits. */
  lemma ToPredicatesSound(f: RequestDto, p: Player)
    ensures Matches(p, f) <==> Admits(f, p)
  {
    var nm := OptionalPred(f.name, n => NameLike(n));
    var tt := OptionalPred(f.title, t => TitleLike(t));
    var rc := OptionalPred(f.race, r => RaceEquals(r));
    var pr := OptionalPred(f.profession, p => ProfessionEquals(p));
    var ex := ExperienceRange(f.minExperience, f.maxExperience);
    var bd := GuardedRange(BirthdayColumn, f.after, f.before);
    var bn := OptionalPred(f.banned, b => BannedEquals(b));
    var lv := GuardedRange(LevelColumn, f.minLevel, f.maxLevel);
    HoldsAllConcat(p, nm, tt);
    HoldsAllConcat(p, nm + tt, rc);
    HoldsAllConcat(p, nm + tt + rc, pr);
    HoldsAllConcat(p, nm + tt + rc + pr, ex);
    HoldsAllConcat(p, nm + tt + rc + pr + ex, bd);
    HoldsAllConcat(p, nm + tt + rc + pr + ex + bd, bn);
    HoldsAllConcat(p, nm + tt + rc + pr + ex + bd + bn, lv);
    OptionalPredMeaning(f.name, n => NameLike(n), p);
    OptionalPredMeaning(f.title, t => TitleLike(t), p);
    OptionalPredMeaning(f.race, r => RaceEquals(r), p);
    OptionalPredMeaning(f.profession, p => ProfessionEquals(p), p);
    ExperienceRangeMeaning(f.minExperience, f.maxExperience, p);
    GuardedRangeMeaning(BirthdayColumn, f.after, f.before, p);
    OptionalPredMeaning(f.banned, b => BannedEquals(b), p);
    GuardedRangeMeaning(LevelColumn, f.minLevel, f.maxLevel, p);
  }

  /** A request with every field null and every bound 0 builds no predicate and selects every player. */
  lemma UnfilteredMatchesAll(f: RequestDto, p: Player)
    requires f.name.None? && f.title.None? && f.race.None? && f.profession.None? && f.banned.None?
    requires f.minExperience == f.maxExperience == f.after == f.before == f.minLevel == f.maxLevel == 0
    ensures ToPredicates(f) == [] && Matches(p, f)
  {
  }

  /** The request with its experience bounds cleared. */
  function WithoutExperience(f: RequestDto): RequestDto {
    f.(minExperience := 0, maxExperience := 0)
  }

  function WithoutBirthday(f: RequestDto): RequestDto {
    f.(after := 0, before := 0)
  }

  function WithoutLevel(f: RequestDto): RequestDto {
    f.(minLevel := 0, maxLevel := 0)
  }

  /** With min < max the experience filter is an inclusive `between`. */
  lemma ExperienceBetweenInclusive(f: RequestDto, p: Player)
    requires f.minExperience < f.maxExperience
    ensures Matches(p, f) <==>
      Matches(p, WithoutExperience(f)) && f.minExperience <= p.experience <= f.maxExperience
  {
    ToPredicatesSound(f, p);
    ToPredicatesSound(WithoutExperience(f), p);
  }

  /** Only a positive minimum (maximum 0) selects experience >= min. */
  lemma ExperienceOnlyMin(f: RequestDto, p: Player)
    requires f.minExperience > 0 && f.maxExperience == 0
    ensures Matches(p, f) <==> Matches(p, WithoutExperience(f)) && p.experience >= f.minExperience
  {
    ToPredicatesSound(f, p);
    ToPredicatesSound(WithoutExperience(f), p);
  }

  /**
   * Only a positive maximum (minimum 0) takes the `between` branch, [0, max], which on a player's
   * non-negative experience is experience <= max.
   */
  lemma ExperienceOnlyMax(f: RequestDto, p: Player)
    requires f.minExperience == 0 < f.maxExperience && p.experience >= 0
    ensures ExperienceRange(f.minExperience, f.maxExperience) == [Between(ExperienceColumn, 0, f.maxExperience)]
    ensures Matches(p, f) <==> Matches(p, WithoutExperience(f)) && p.experience <= f.maxExperience
  {
    ToPredicatesSound(f, p);
    ToPredicatesSound(WithoutExperience(f), p);
  }

  /** Non-zero bounds with min >= max (equal ones included) drop the experience filter silently. */
  lemma ExperienceCrossedBoundsIgnored(f: RequestDto, p: Player)
    requires f.minExperience != 0 && f.maxExperience != 0 && f.minExperience >= f.maxExperience
    ensures ToPredicates(f) == ToPredicates(WithoutExperience(f))
    ensures Matches(p, f) <==> Matches(p, WithoutExperience(f))
  {
  }

  /** The birthday filter, case by case: `between` needs both bounds non-zero and after < before. */
  lemma BirthdayCases(f: RequestDto, p: Player)
    ensures f.after != 0 && f.before != 0 && f.after < f.before ==>
      (Matches(p, f) <==> Matches(p, WithoutBirthday(f)) && f.after <= p.birthday <= f.before)
    ensures f.after != 0 && f.before == 0 ==>
      (Matches(p, f) <==> Matches(p, WithoutBirthday(f)) && p.birthday >= f.after)
    ensures f.after == 0 && f.before != 0 ==>
      (Matches(p, f) <==> Matches(p, WithoutBirthday(f)) && p.birthday <= f.before)
    ensures f.after != 0 && f.before != 0 && f.after >= f.before ==>
      (Matches(p, f) <==> Matches(p, WithoutBirthday(f)))
  {
    ToPredicatesSound(f, p);
    ToPredicatesSound(WithoutBirthday(f), p);
  }

  /** The level filter, case by case: equal non-zero bounds, unlike an inclusive range, select no level. */
  lemma LevelCases(f: RequestDto, p: Player)
    ensures f.minLevel != 0 && f.maxLevel != 0 && f.minLevel < f.maxLevel ==>
      (Matches(p, f) <==> Matches(p, WithoutLevel(f)) && f.minLevel <= p.level <= f.maxLevel)
    ensures f.minLevel != 0 && f.maxLevel == 0 ==>
      (Matches(p, f) <==> Matches(p, WithoutLevel(f)) && p.level >= f.minLevel)
    ensures f.minLevel == 0 && f.maxLevel != 0 ==>
      (Matches(p, f) <==> Matches(p, WithoutLevel(f)) && p.level <= f.maxLevel)
    ensures f.minLevel != 0 && f.maxLevel != 0 && f.minLevel >= f.maxLevel ==>
      (Matches(p, f) <==> Matches(p, WithoutLevel(f)))
  {
    ToPredicatesSound(f, p);
    ToPredicatesSound(WithoutLevel(f), p);
  }

  /** A non-null name, title, race, profession or banned flag constrains only its own field. */
  lemma OptionalFieldsMeaning(f: RequestDto, p: Player)
    ensures f.name.Some? ==>
      (Matches(p, f) <==> Matches(p, f.(name := None)) && ContainsIgnoreCase(p.name, f.name.value))
    ensures f.title.Some? ==>
      (Matches(p, f) <==> Matches(p, f.(title := None)) && ContainsIgnoreCase(p.title, f.title.value))
    ensures f.race.Some? ==>
      (Matches(p, f) <==> Matches(p, f.(race := None)) && p.race == f.race.value)
    ensures f.profession.Some? ==>
      (Matches(p, f) <==> Matches(p, f.(profession := None)) && p.profession == f.profession.value)
    ensures f.banned.Some? ==>
      (Matches(p, f) <==> Matches(p, f.(banned := None)) && p.banned == f.banned.value)
  {
    ToPredicatesSound(f, p);
    ToPredicatesSound(f.(name := None), p);
    ToPredicatesSound(f.(title := None), p);
    ToPredicatesSound(f.(race := None), p);
    ToPredicatesSound(f.(profession := None), p);
    ToPredicatesSound(f.(banned := None), p);
  }

  // ---------------------------------------------------------------------------------------------
  // orderBy: one ascending key, no tie-break.

  /** Lexicographic order on strings by char code. */
  predicate LexLe(a: string, b: string) {
    a == [] || (b != [] && (a[0] < b[0] || (a[0] == b[0] && LexLe(a[1..], b[1..]))))
  }

  lemma {:induction false} LexLeTotal(a: string, b: string)
    ensures LexLe(a, b) || LexLe(b, a)
  {
    if a != [] && b != [] && a[0] == b[0] {
      LexLeTotal(a[1..], b[1..]);
    }
  }

  lemma {:induction false} LexLeTransitive(a: string, b: string, c: string)
    requires LexLe(a, b) && LexLe(b, c)
    ensures LexLe(a, c)
  {
    if a != [] && a[0] == b[0] && b[0] == c[0] {
      LexLeTransitive(a[1..], b[1..], c[1..]);
    }
  }

  /** `p` may come before `q` in the order the request selects. */
  predicate KeyLe(order: PlayerOrder, p: Player, q: Player) {
    match order
    case ID => p.id <= q.id
    case NAME => LexLe(p.name, q.name)
    case EXPERIENCE => p.experience <= q.experience
    case BIRTHDAY => p.birthday <= q.birthday
    case LEVEL => p.level <= q.level
  }

  lemma KeyLeTotal(order: PlayerOrder, p: Player, q: Player)
    ensures KeyLe(order, p, q) || KeyLe(order, q, p)
  {
    if order == NAME {
      LexLeTotal(p.name, q.name);
    }
  }

  lemma KeyLeTransitive(order: PlayerOrder, p: Player, q: Player, r: Player)
    requires KeyLe(order, p, q) && KeyLe(order, q, r)
    ensures KeyLe(order, p, r)
  {
    if order == NAME {
      LexLeTransitive(p.name, q.name, r.name);
    }
  }

  predicate SortedBy(order: PlayerOrder, s: seq<Player>) {
    forall i, j :: 0 <= i < j < |s| ==> KeyLe(order, s[i], s[j])
  }

  /** Inserts `x` into an ordered sequence, in front of the first element it may precede. */
  function Insert(order: PlayerOrder, x: Player, s: seq<Player>): (r: seq<Player>)
    requires SortedBy(order, s)
    ensures SortedBy(order, r)
    ensures multiset(r) == multiset(s) + multiset{x}
  {
    if s == [] then [x]
    else if KeyLe(order, x, s[0]) then
      forall j | 0 <= j < |s| ensures KeyLe(order, x, s[j]) {
        if j > 0 { KeyLeTransitive(order, x, s[0], s[j]); }
      }
      SortedCons(order, x, s);
      [x] + s
    else
      var rest := Insert(order, x, s[1..]);
      KeyLeTotal(order, x, s[0]);
      assert s == [s[0]] + s[1..];
      forall j | 0 <= j < |rest| ensures KeyLe(order, s[0], rest[j]) {
        assert rest[j] in multiset(rest);
        if rest[j] != x {
          assert rest[j] in multiset(s[1..]);
          var k :| 0 <= k < |s[1..]| && s[1..][k] == rest[j];
          assert s[k + 1] == rest[j];
        }
      }
      SortedCons(order, s[0], rest);
      [s[0]] + rest
  }

  /** An element that may precede every element of an ordered sequence can be put in front of it. */
  lemma SortedCons(order: PlayerOrder, x: Player, s: seq<Player>)
    requires SortedBy(order, s)
    requires forall j :: 0 <= j < |s| ==> KeyLe(order, x, s[j])
    ensures SortedBy(order, [x] + s)
  {
    forall i, j | 0 <= i < j < |s| + 1 ensures KeyLe(order, ([x] + s)[i], ([x] + s)[j]) {
      assert ([x] + s)[j] == s[j - 1];
      if i > 0 {
        assert ([x] + s)[i] == s[i - 1];
      }
    }
  }

  /** The ascending order on the selected key; the model resolves ties by the input order. */
  function SortBy(order: PlayerOrder, s: seq<Player>): (r: seq<Player>)
    ensures SortedBy(order, r)
    ensures multiset(r) == multiset(s)
  {
    if s == [] then []
    else
      assert s == [s[0]] + s[1..];
      Insert(order, s[0], SortBy(order, s[1..]))
  }

  // ---------------------------------------------------------------------------------------------
  // PageRequest.of(pageNumber, pageSize): the page is the slice [n * size, (n + 1) * size).

  function Min(a: int, b: int): int {
    if a <= b then a else b
  }

  /** The `pageNumber`-th page of `pageSize` elements of `s`. */
  function Page(s: seq<Player>, pageNumber: nat, pageSize: nat): (page: seq<Player>)
    requires pageSize >= 1
    ensures |page| <= pageSize
    ensures pageNumber * pageSize >= |s| ==> page == []
    ensures pageNumber * pageSize < |s| ==>
      |page| == Min(pageSize, |s| - pageNumber * pageSize)
      && forall k :: 0 <= k < |page| ==> page[k] == s[pageNumber * pageSize + k]
  {
    var start := pageNumber * pageSize;
    if start >= |s| then [] else s[start..Min(start + pageSize, |s|)]
  }

  /** A page holds elements of `s` only, and a page of an ordered sequence is in order. */
  lemma PageOfSorted(order: PlayerOrder, s: seq<Player>, pageNumber: nat, pageSize: nat)
    requires pageSize >= 1
    ensures forall x :: x in Page(s, pageNumber, pageSize) ==> x in s
    ensures SortedBy(order, s) ==> SortedBy(order, Page(s, pageNumber, pageSize))
  {
    var start := pageNumber * pageSize;
    if start < |s| {
      var end := Min(start + pageSize, |s|);
      assert Page(s, pageNumber, pageSize) == s[start..end];
      forall x | x in s[start..end] ensures x in s {
        var k :| 0 <= k < end - start && s[start..end][k] == x;
        assert s[start + k] == x;
      }
    }
  }

  /** The first `count` pages, one after the other. */
  function FirstPages(s: seq<Player>, pageSize: nat, count: nat): seq<Player>
    requires pageSize >= 1
  {
    if count == 0 then [] else FirstPages(s, pageSize, count - 1) + Page(s, count - 1, pageSize)
  }

  /** The first `count` pages together are the first count * pageSize elements (or all of them). */
  lemma {:induction false} FirstPagesArePrefix(s: seq<Player>, pageSize: nat, count: nat)
    requires pageSize >= 1
    ensures FirstPages(s, pageSize, count) == s[..Min(count * pageSize, |s|)]
  {
    if count > 0 {
      FirstPagesArePrefix(s, pageSize, count - 1);
      var start := (count - 1) * pageSize;
      MulSucc(count - 1, pageSize);
      if start < |s| {
        assert Page(s, count - 1, pageSize) == s[start..Min(start + pageSize, |s|)];
        assert s[..start] + s[start..Min(start + pageSize, |s|)] == s[..Min(start + pageSize, |s|)];
      }
    }
  }

  lemma MulSucc(c: int, n: int)
    ensures (c + 1) * n == c * n + n
  {
  }

  /** Paging through all ceil(|s| / pageSize) pages yields every element once, in order. */
  lemma AllPagesCoverAll(s: seq<Player>, pageSize: nat)
    requires pageSize >= 1
    ensures FirstPages(s, pageSize, (|s| + pageSize - 1) / pageSize) == s
  {
    var count := (|s| + pageSize - 1) / pageSize;
    FirstPagesArePrefix(s, pageSize, count);
    assert count * pageSize >= |s|;
  }
}
