/**
 * com.game.service.PlayerService: the operations on the player store. The repository is a map
 * from id to player; a JPA scan with the specification is the stored players that match, in
 * ascending id order, and `saveAndFlush` replaces the stored entry.
 */
module PlayerService {
  import opened Common
  import opened Entities
  import opened Criteria
  import Mapper
  import Validator
  import Calendar

  /** A player passes the scan: a null request selects everyone, as repository.count() does. */
  predicate Selected(p: Player, f: Option<RequestDto>) {
    f.None? || Matches(p, f.value)
  }

  /** The ids of the stored players that the scan selects. */
  function MatchingIds(players: map<int, Player>, f: Option<RequestDto>): set<int> {
    set id | id in players && Selected(players[id], f)
  }

  /** The selected ids among `ids`. */
  function ChosenIds(players: map<int, Player>, ids: seq<int>, f: Option<RequestDto>): set<int> {
    set id | id in ids && id in players && Selected(players[id], f)
  }

  /** The scan's selection is the declarative reading of the request. */
  lemma MatchingAreAdmitted(players: map<int, Player>, f: RequestDto)
    ensures MatchingIds(players, Some(f)) == set id | id in players && Admits(f, players[id])
  {
    forall id | id in players ensures Selected(players[id], Some(f)) <==> Admits(f, players[id]) {
      ToPredicatesSound(f, players[id]);
    }
  }

  predicate Ascending(ids: seq<int>) {
    forall i, j :: 0 <= i < j < |ids| ==> ids[i] < ids[j]
  }

  /** `ids` lists every key of `players` once, in ascending order: the table's primary-key order. */
  predicate RowIndex(players: map<int, Player>, ids: seq<int>) {
    && Ascending(ids)
    && (forall i :: 0 <= i < |ids| ==> ids[i] in players)
    && (forall id :: id in players ==> id in ids)
  }

  /** The selected players among those with the listed ids, in the listed order. */
  function ScanIds(players: map<int, Player>, ids: seq<int>, f: Option<RequestDto>): (r: seq<Player>)
    requires forall i :: 0 <= i < |ids| ==> ids[i] in players
    ensures forall k :: 0 <= k < |r| ==> Selected(r[k], f) && r[k] in players.Values
    ensures forall i :: 0 <= i < |ids| && Selected(players[ids[i]], f) ==> players[ids[i]] in r
  {
    if ids == [] then []
    else
      var p := players[ids[0]];
      var rest := ScanIds(players, ids[1..], f);
      assert forall i :: 1 <= i < |ids| ==> ids[i] == ids[1..][i - 1];
      (if Selected(p, f) then [p] else []) + rest
  }

  /** The ids after the first of an ascending list are ascending and do not repeat the first. */
  lemma AscendingTail(ids: seq<int>)
    requires Ascending(ids) && ids != []
    ensures Ascending(ids[1..]) && ids[0] !in ids[1..]
  {
    var tail := ids[1..];
    forall i, j | 0 <= i < j < |tail| ensures tail[i] < tail[j] {
      assert tail[i] == ids[i + 1] && tail[j] == ids[j + 1];
    }
    forall i | 0 <= i < |tail| ensures tail[i] != ids[0] {
      assert tail[i] == ids[i + 1];
    }
  }

  /** The selected ids of a list are those of its tail and its head, if selected. */
  lemma ChosenIdsSplit(players: map<int, Player>, ids: seq<int>, f: Option<RequestDto>)
    requires ids != [] && ids[0] in players
    ensures ChosenIds(players, ids, f) ==
      ChosenIds(players, ids[1..], f) + (if Selected(players[ids[0]], f) then {ids[0]} else {})
  {
    assert forall id :: id in ids <==> id == ids[0] || id in ids[1..];
  }

  /** Scanning distinct ids yields one player per selected id. */
  lemma {:induction false} ScanIdsCount(players: map<int, Player>, ids: seq<int>, f: Option<RequestDto>)
    requires forall i :: 0 <= i < |ids| ==> ids[i] in players
    requires Ascending(ids)
    ensures |ScanIds(players, ids, f)| == |ChosenIds(players, ids, f)|
  {
    if ids != [] {
      AscendingTail(ids);
      ScanIdsCount(players, ids[1..], f);
      ChosenIdsSplit(players, ids, f);
    }
  }

  /** A scan of the whole table selects one row per matching id. */
  lemma ScanCount(players: map<int, Player>, ids: seq<int>, f: Option<RequestDto>)
    requires RowIndex(players, ids)
    ensures |ScanIds(players, ids, f)| == |MatchingIds(players, f)|
  {
    ScanIdsCount(players, ids, f);
    forall id ensures id in ChosenIds(players, ids, f) <==> id in MatchingIds(players, f) {
      if id in players {
        assert id in ids;
      }
    }
    assert ChosenIds(players, ids, f) == MatchingIds(players, f);
  }

  /** The matching players in the order the request selects. */
  function Ordered(players: map<int, Player>, ids: seq<int>, f: RequestDto): (r: seq<Player>)
    requires forall i :: 0 <= i < |ids| ==> ids[i] in players
    ensures SortedBy(f.order, r)
    ensures multiset(r) == multiset(ScanIds(players, ids, Some(f)))
  {
    SortBy(f.order, ScanIds(players, ids, Some(f)))
  }

  /**
   * Count and listing share one specification: the ordered matches are as many as the count,
   * and reading every page of them yields exactly those matches.
   */
  lemma CountAgreesWithPages(players: map<int, Player>, ids: seq<int>, f: RequestDto)
    requires RowIndex(players, ids) && f.pageSize >= 1
    ensures |Ordered(players, ids, f)| == |MatchingIds(players, Some(f))|
    ensures FirstPages(Ordered(players, ids, f), f.pageSize,
                       (|MatchingIds(players, Some(f))| + f.pageSize - 1) / f.pageSize) == Ordered(players, ids, f)
  {
    var ordered := Ordered(players, ids, f);
    assert |ordered| == |multiset(ordered)| == |multiset(ScanIds(players, ids, Some(f)))|;
    ScanCount(players, ids, Some(f));
    AllPagesCoverAll(ordered, f.pageSize);
  }

  /**
   * The size of page n follows from the count alone, whatever order the database gives tied rows:
   * any arrangement of the matches has min(pageSize, count - n * pageSize) players on page n, and
   * none past the end.
   */
  lemma PageSizeFromCount(players: map<int, Player>, ids: seq<int>, f: RequestDto,
                          rows: seq<Player>, pageNumber: nat)
    requires RowIndex(players, ids) && f.pageSize >= 1
    requires multiset(rows) == multiset(ScanIds(players, ids, Some(f)))
    ensures var count := |MatchingIds(players, Some(f))|;
      |Page(rows, pageNumber, f.pageSize)|
        == if pageNumber * f.pageSize >= count then 0 else Min(f.pageSize, count - pageNumber * f.pageSize)
  {
    assert |rows| == |multiset(rows)| == |multiset(ScanIds(players, ids, Some(f)))|;
    ScanCount(players, ids, Some(f));
  }

  /** The listing's matches are exactly the stored players the request admits. */
  lemma OrderedAreTheAdmitted(players: map<int, Player>, ids: seq<int>, f: RequestDto)
    requires RowIndex(players, ids)
    ensures forall p :: p in Ordered(players, ids, f) ==> p in players.Values && Admits(f, p)
    ensures forall id :: id in players && Admits(f, players[id]) ==> players[id] in Ordered(players, ids, f)
  {
    var ordered := Ordered(players, ids, f);
    var scan := ScanIds(players, ids, Some(f));
    forall p | p in ordered ensures p in players.Values && Admits(f, p) {
      assert p in multiset(scan);
      ToPredicatesSound(f, p);
    }
    forall id | id in players && Admits(f, players[id]) ensures players[id] in ordered {
      ToPredicatesSound(f, players[id]);
      var i :| 0 <= i < |ids| && ids[i] == id;
      assert players[id] in multiset(scan);
    }
  }

  /** The ascending ids without `id`. */
  function RemoveId(ids: seq<int>, id: int): (r: seq<int>)
    requires Ascending(ids)
    ensures Ascending(r)
    ensures forall x :: x in r <==> x in ids && x != id
  {
    if ids == [] then []
    else
      var rest := RemoveId(ids[1..], id);
      assert forall x :: x in ids <==> x == ids[0] || x in ids[1..];
      if ids[0] == id then rest
      else
        assert forall j :: 0 <= j < |rest| ==> ids[0] < rest[j] by {
          forall j | 0 <= j < |rest| ensures ids[0] < rest[j] {
            assert rest[j] in ids[1..];
          }
        }
        [ids[0]] + rest
  }

  /**
   * The fields updatePlayer copies from the DTO: a field the DTO leaves null, or an invalid name
   * or title, keeps its stored value; the id stays.
   */
  predicate CopiedFields(before: Player, dto: PlayerDto, after: Player) {
    && after.id == before.id
    && after.name == (if dto.name.Some? && Validator.IsNameLengthValid(dto.name.value) then dto.name.value else before.name)
    && after.title == (if dto.title.Some? && Validator.IsTitleLengthValid(dto.title.value) then dto.title.value else before.title)
    && after.race == (if dto.race.Some? then dto.race.value else before.race)
    && after.profession == (if dto.profession.Some? then dto.profession.value else before.profession)
    && after.birthday == (if dto.birthday.Some? then dto.birthday.value else before.birthday)
    && after.banned == (if dto.banned.Some? then dto.banned.value else before.banned)
  }

  /**
   * The setters updatePlayer runs before it reaches the experience: a field the DTO leaves null,
   * or an invalid name or title, keeps its stored value; experience and its derived fields stay.
   */
  predicate Patched(before: Player, dto: PlayerDto, after: Player) {
    && CopiedFields(before, dto, after)
    && after.experience == before.experience && after.level == before.level
    && after.untilNextLevel == before.untilNextLevel
  }

  /**
   * The experience setters of updatePlayer: a supplied experience replaces the stored one together
   * with the level and remaining experience derived from it; nothing else changes.
   */
  predicate Levelled(before: Player, dto: PlayerDto, after: Player) {
    if dto.experience.Some? then
      && after == before.(experience := after.experience, level := after.level, untilNextLevel := after.untilNextLevel)
      && after.experience == dto.experience.value && Mapper.LevelConsistent(after)
    else
      after == before
  }

  /** The whole of updatePlayer's effect on the fetched player, field by field. */
  predicate UpdatedFrom(before: Player, dto: PlayerDto, after: Player) {
    && CopiedFields(before, dto, after)
    && (dto.experience.Some? ==> after.experience == dto.experience.value && Mapper.LevelConsistent(after))
    && (dto.experience.None? ==>
          after.experience == before.experience && after.level == before.level
          && after.untilNextLevel == before.untilNextLevel)
  }

  /**
   * The setters of updatePlayer up to the experience, run on the fetched player in source order;
   * an invalid birthday throws before the save.
   */
  method PatchPlayer(before: Player, dto: PlayerDto, zone: int) returns (r: Result<Player>)
    requires Calendar.IsZoneOffset(zone)
    ensures r.Success? <==> (dto.birthday.Some? ==> Validator.IsBirthdayValid(dto.birthday.value, zone))
    ensures r.Failure? ==> r.error == BadRequest
    ensures r.Success? ==> Patched(before, dto, r.value)
  {
    var player := before;
    if dto.name.Some? && Validator.IsNameLengthValid(dto.name.value) {
      player := player.(name := dto.name.value);
    }
    if dto.title.Some? && Validator.IsTitleLengthValid(dto.title.value) {
      player := player.(title := dto.title.value);
    }
    if dto.race.Some? {
      player := player.(race := dto.race.value);
    }
    if dto.profession.Some? {
      player := player.(profession := dto.profession.value);
    }
    ghost var birthday := if dto.birthday.Some? then dto.birthday.value else before.birthday;
    ghost var banned := if dto.banned.Some? then dto.banned.value else before.banned;
    assert Patched(before, dto, player.(birthday := birthday, banned := banned));
    if dto.birthday.Some? {
      var check := Validator.ValidateBirthday(dto, zone);
      if check.Fail? {
        return Failure(check.error);
      }
      player := player.(birthday := dto.birthday.value);
    }
    if dto.banned.Some? {
      player := player.(banned := dto.banned.value);
    }
    r := Success(player);
  }

  /** The experience setters of updatePlayer: an invalid experience throws before the save. */
  method SetExperience(before: Player, dto: PlayerDto) returns (r: Result<Player>)
    ensures r.Success? <==> (dto.experience.Some? ==> Validator.IsExperienceValid(dto.experience.value))
    ensures r.Failure? ==> r.error == BadRequest
    ensures r.Success? ==> Levelled(before, dto, r.value)
  {
    var player := before;
    if dto.experience.Some? {
      var check := Validator.ValidateExperience(dto);
      if check.Fail? {
        return Failure(check.error);
      }
      var exp := dto.experience.value;
      player := player.(experience := exp);
      var level := Mapper.LevelEvaluation(exp);
      player := player.(level := level);
      Mapper.LevelRange(exp);
      var untilNextLevel := Mapper.UntilNextLevelEvaluation(exp, level);
      player := player.(untilNextLevel := untilNextLevel);
    }
    r := Success(player);
  }

  /** The two setter phases together make up the update. */
  lemma PatchThenLevel(before: Player, dto: PlayerDto, mid: Player, after: Player)
    requires Patched(before, dto, mid) && Levelled(mid, dto, after)
    ensures UpdatedFrom(before, dto, after)
  {
  }

  /** An update keeps a player's level fields consistent with its experience. */
  lemma UpdateKeepsLevelsConsistent(before: Player, dto: PlayerDto, after: Player)
    requires Mapper.LevelConsistent(before) && UpdatedFrom(before, dto, after)
    ensures after.id == before.id && Mapper.LevelConsistent(after)
  {
  }

  /**
   * The store's invariant: the row index lists the stored ids, every stored player carries its
   * own id, which is below the next id to assign, and has level fields consistent with its experience.
   */
  ghost predicate StoreInvariant(players: map<int, Player>, ids: seq<int>, nextId: int, zone: int) {
    && Calendar.IsZoneOffset(zone)
    && nextId >= 1
    && RowIndex(players, ids)
    && forall id :: id in players ==>
         0 < id < nextId && players[id].id == id && Mapper.LevelConsistent(players[id])
  }

  /** saveAndFlush of an existing player keeps the invariant. */
  lemma SaveExistingKeepsInvariant(players: map<int, Player>, ids: seq<int>, nextId: int, zone: int, id: int, p: Player)
    requires StoreInvariant(players, ids, nextId, zone)
    requires id in players && p.id == id && Mapper.LevelConsistent(p)
    ensures StoreInvariant(players[id := p], ids, nextId, zone)
  {
    assert players[id := p].Keys == players.Keys;
  }

  /** save of a new player under the next id keeps the invariant once the next id moves on. */
  lemma SaveNewKeepsInvariant(players: map<int, Player>, ids: seq<int>, nextId: int, zone: int, p: Player)
    requires StoreInvariant(players, ids, nextId, zone)
    requires p.id == nextId && Mapper.LevelConsistent(p)
    ensures nextId !in players
    ensures StoreInvariant(players[nextId := p], ids + [nextId], nextId + 1, zone)
  {
    forall i | 0 <= i < |ids| ensures ids[i] < nextId {
      assert ids[i] in players;
    }
    var ids' := ids + [nextId];
    assert forall id :: id in ids' <==> id in ids || id == nextId;
  }

  /** deleteById of a stored player keeps the invariant. */
  lemma DeleteKeepsInvariant(players: map<int, Player>, ids: seq<int>, nextId: int, zone: int, id: int)
    requires StoreInvariant(players, ids, nextId, zone)
    ensures StoreInvariant(players - {id}, RemoveId(ids, id), nextId, zone)
  {
    var ids' := RemoveId(ids, id);
    forall i | 0 <= i < |ids'| ensures ids'[i] in players - {id} {
      assert ids'[i] in ids';
    }
  }

  /** The player repository together with the zone the birthday check reads its year in. */
  class Store {
    /** The stored players by id. */
    var players: map<int, Player>
    /** The stored ids in ascending order, the order a scan visits the rows in. */
    var ids: seq<int>
    /** The id the store assigns to the next saved player. */
    var nextId: int
    /** The offset, in seconds, of the system default time zone. */
    const zone: int

    ghost predicate Valid()
      reads this
    {
      StoreInvariant(players, ids, nextId, zone)
    }

    constructor (zone: int)
      requires Calendar.IsZoneOffset(zone)
      ensures Valid() && players == map[] && nextId == 1 && this.zone == zone
    {
      this.zone := zone;
      players := map[];
      ids := [];
      nextId := 1;
    }

    /** playersCount: the number of stored players the request selects (all of them for a null request). */
    method PlayersCount(f: Option<RequestDto>) returns (n: int)
      requires Valid()
      ensures n == |MatchingIds(players, f)|
      ensures f.None? ==> n == |players|
      ensures f.Some? ==> n == |set id | id in players && Admits(f.value, players[id])|
    {
      if f.None? {
        forall id | id in players ensures id in MatchingIds(players, f) {
        }
        assert MatchingIds(players, f) == players.Keys;
        n := |players|;
      } else {
        ScanCount(players, ids, f);
        MatchingAreAdmitted(players, f.value);
        n := |ScanIds(players, ids, f)|;
      }
    }

    /** getListPlayers: the requested page of the matching players in the requested order. */
    method GetListPlayers(f: RequestDto) returns (page: seq<Player>)
      requires Valid()
      requires f.pageNumber >= 0 && f.pageSize >= 1
      ensures page == Page(Ordered(players, ids, f), f.pageNumber, f.pageSize)
      ensures |page| <= f.pageSize && SortedBy(f.order, page)
      ensures forall p :: p in page ==> p in players.Values && Admits(f, p)
      ensures var count := |MatchingIds(players, Some(f))|;
        |page| == if f.pageNumber * f.pageSize >= count then 0
                  else Min(f.pageSize, count - f.pageNumber * f.pageSize)
    {
      var ordered := Ordered(players, ids, f);
      page := Page(ordered, f.pageNumber, f.pageSize);
      PageOfSorted(f.order, ordered, f.pageNumber, f.pageSize);
      OrderedAreTheAdmitted(players, ids, f);
      PageSizeFromCount(players, ids, f, ordered, f.pageNumber);
    }

    /** findById: the stored player, or NoSuchElementException from Optional.get(). */
    method FindById(id: int) returns (r: Result<Player>)
      ensures id in players ==> r == Success(players[id])
      ensures id !in players ==> r == Failure(NoSuchElement)
    {
      if id in players {
        r := Success(players[id]);
      } else {
        r := Failure(NoSuchElement);
      }
    }

    /**
     * validatePlayerForCreate followed by createPlayer: a valid DTO becomes a player with derived
     * level and remaining experience, saved under a fresh id; an invalid one changes nothing.
     */
    method CreatePlayer(dto: PlayerDto) returns (r: Result<Player>)
      requires Valid()
      modifies this
      ensures Valid()
      ensures r.Failure? <==> !Validator.IsPlayerDtoValidForCreate(dto, zone)
      ensures r.Failure? ==> r.error == BadRequest && players == old(players) && nextId == old(nextId)
      ensures r.Success? ==>
        && old(nextId) !in old(players)
        && r.value == Mapper.MapDtoToEntity(old(nextId), dto)
        && players == old(players)[old(nextId) := r.value]
        && nextId == old(nextId) + 1
    {
      var check := Validator.ValidatePlayerForCreate(dto, zone);
      if check.Fail? {
        return Failure(check.error);
      }
      Validator.ValidForCreateFields(dto, zone);
      var player := Mapper.MapDtoToEntity(nextId, dto);
      SaveNewKeepsInvariant(players, ids, nextId, zone, player);
      players := players[nextId := player];
      ids := ids + [nextId];
      nextId := nextId + 1;
      r := Success(player);
    }

    /**
     * updatePlayer: fetches the stored player, applies the DTO to it and saves the result.
     * An unknown id fails as findById does; a failed check leaves the store unchanged.
     */
    method UpdatePlayer(id: int, dto: PlayerDto) returns (r: Result<Player>)
      requires Valid()
      modifies this`players
      ensures Valid()
      ensures id !in old(players) ==> r == Failure(NoSuchElement)
      ensures id in old(players) ==>
        (r.Success? <==>
          (dto.birthday.Some? ==> Validator.IsBirthdayValid(dto.birthday.value, zone))
          && (dto.experience.Some? ==> Validator.IsExperienceValid(dto.experience.value)))
      ensures r.Failure? ==> players == old(players)
      ensures id in old(players) && r.Failure? ==> r.error == BadRequest
      ensures r.Success? ==>
        id in old(players) && players == old(players)[id := r.value]
        && UpdatedFrom(old(players)[id], dto, r.value)
    {
      var found := FindById(id);
      if found.Failure? {
        return found;
      }
      var patched := PatchPlayer(found.value, dto, zone);
      if patched.Failure? {
        return patched;
      }
      r := SetExperience(patched.value, dto);
      if r.Success? {
        PatchThenLevel(found.value, dto, patched.value, r.value);
        UpdateKeepsLevelsConsistent(found.value, dto, r.value);
        SaveExistingKeepsInvariant(players, ids, nextId, zone, id, r.value);
        players := players[id := r.value];
      }
    }

    /** deletePlayer, for a stored id: the player is removed and nothing else changes. */
    method DeletePlayer(id: int)
      requires Valid() && id in players
      modifies this`players, this`ids
      ensures Valid()
      ensures players == old(players) - {id}
    {
      DeleteKeepsInvariant(players, ids, nextId, zone, id);
      players := players - {id};
      ids := RemoveId(ids, id);
    }
  }
}
