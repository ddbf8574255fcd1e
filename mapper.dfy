/**
 * com.game.service.Mapper: the experience model (level and experience left to the next level,
 * evaluated in Java's 32-bit int arithmetic) and the two DTO mappings.
 */
module Mapper {
  import opened Common
  import opened Entities

  const TwoTo31: int := 0x8000_0000
  const TwoTo32: int := 0x1_0000_0000
  /** The largest experience a valid player may have (the experience validator's bound). */
  const MaxExperience: int := 10_000_000

  /** `x` is a value of Java's `int`. */
  predicate IsInt(x: int) {
    -TwoTo31 <= x < TwoTo31
  }

  /** Java `int` arithmetic: the exact result wrapped around to 32-bit two's complement. */
  function Wrap(x: int): (r: int)
    ensures IsInt(r) && (r - x) % TwoTo32 == 0
    ensures IsInt(x) ==> r == x
  {
    var m := x % TwoTo32;
    if m < TwoTo31 then m else m - TwoTo32
  }

  /** Java's `/` on ints, which truncates toward zero. */
  function Quot(a: int, b: int): int
    requires b > 0
  {
    if a >= 0 then a / b else -((-a) / b)
  }

  /** The integer square root, found by bisection between `lo` and `hi`. */
  function SqrtBetween(n: nat, lo: nat, hi: nat): (r: nat)
    requires lo < hi && lo * lo <= n < hi * hi
    ensures lo <= r < hi
    ensures r * r <= n < (r + 1) * (r + 1)
    decreases hi - lo
  {
    if lo + 1 == hi then lo
    else
      var mid := lo + (hi - lo) / 2;
      if mid * mid <= n then SqrtBetween(n, mid, hi) else SqrtBetween(n, lo, mid)
  }

  /** `(int) Math.sqrt(n)` for a non-negative int `n`: the floor of the square root. */
  function FloorSqrt(n: nat): (r: nat)
    ensures r <= n
    ensures r * r <= n < (r + 1) * (r + 1)
  {
    SqrtBetween(n, 0, n + 1)
  }

  /**
   * levelEvaluation: `(((int) Math.sqrt(2500 + 200 * exp)) - 50) / 100` in int arithmetic.
   * The square root of a negative radicand is NaN, which `(int)` turns into 0.
   */
  function LevelEvaluation(exp: int): (lvl: int)
    requires IsInt(exp)
    ensures 0 <= lvl < TwoTo31 / 100
  {
    var radicand := Wrap(2500 + Wrap(200 * exp));
    var root := if radicand < 0 then 0 else FloorSqrt(radicand);
    Quot(root - 50, 100)
  }

  /** untilNextLevelEvaluation: `50 * (lvl + 1) * (lvl + 2) - exp` in int arithmetic. */
  function UntilNextLevelEvaluation(exp: int, lvl: int): (r: int)
    requires IsInt(exp) && IsInt(lvl)
    ensures IsInt(r)
  {
    Wrap(Wrap(Wrap(50 * Wrap(lvl + 1)) * Wrap(lvl + 2)) - exp)
  }

  /** The experience a player needs to reach level `lvl`. */
  function Threshold(lvl: int): int {
    50 * (lvl * (lvl + 1))
  }

  /** `lvl` is the level of `exp`: exp lies in the band [Threshold(lvl), Threshold(lvl + 1)). */
  predicate IsLevelOf(exp: int, lvl: int) {
    lvl >= 0 && Threshold(lvl) <= exp < Threshold(lvl + 1)
  }

  /** A player's level and remaining experience are the ones the experience model derives. */
  predicate LevelConsistent(p: Player) {
    && 0 <= p.experience <= MaxExperience
    && p.level == LevelEvaluation(p.experience)
    && p.untilNextLevel == UntilNextLevelEvaluation(p.experience, p.level)
  }

  /** Climbing from level `x` to `x + 1` takes 100 * (x + 1) experience. */
  lemma ThresholdStep(x: int)
    ensures Threshold(x + 1) == Threshold(x) + 100 * (x + 1)
  {
    assert (x + 1) * (x + 2) == (x + 1) * x + (x + 1) * 2;
  }

  /** Higher levels need strictly more experience, at least 100 more per level. */
  lemma {:induction false} ThresholdGrows(a: int, b: int)
    requires 0 <= a <= b
    ensures Threshold(a) + 100 * (b - a) <= Threshold(b)
    decreases b - a
  {
    if a < b {
      ThresholdStep(a);
      ThresholdGrows(a + 1, b);
    }
  }

  /** Each experience value has at most one level. */
  lemma LevelUnique(exp: int, l1: int, l2: int)
    requires IsLevelOf(exp, l1) && IsLevelOf(exp, l2)
    ensures l1 == l2
  {
    if l1 < l2 {
      ThresholdGrows(l1 + 1, l2);
    } else if l2 < l1 {
      ThresholdGrows(l2 + 1, l1);
    }
  }

  lemma SquareGrows(a: int, b: int)
    requires 0 <= a <= b
    ensures a * a <= b * b
  {
    assert a * a <= a * b;
    assert a * b <= b * b;
  }

  /** The squares that bound the root of a radicand in level `m`'s band. */
  lemma BandSquares(m: int)
    ensures (100 * m + 50) * (100 * m + 50) == 200 * Threshold(m) + 2500
    ensures (100 * m + 150) * (100 * m + 150) == 200 * Threshold(m + 1) + 2500
  {
    assert (100 * m + 50) * (100 * m + 50) == 10000 * (m * m) + 10000 * m + 2500;
    assert m * (m + 1) == m * m + m;
    assert (100 * m + 150) * (100 * m + 150) == 10000 * (m * m) + 30000 * m + 22500;
    assert (m + 1) * (m + 2) == m * m + 3 * m + 2;
  }

  /** The root r of 2500 + 200 * exp puts exp in the band of level (r - 50) / 100. */
  lemma RootBand(exp: int, r: nat)
    requires exp >= 0 && r * r <= 2500 + 200 * exp < (r + 1) * (r + 1)
    ensures r >= 50 && IsLevelOf(exp, (r - 50) / 100)
  {
    if r < 50 {
      SquareGrows(r + 1, 50);
    }
    var m := (r - 50) / 100;
    assert 100 * m + 50 <= r < 100 * m + 150;
    SquareGrows(100 * m + 50, r);
    SquareGrows(r + 1, 100 * m + 150);
    BandSquares(m);
  }

  /**
   * Over the validated range the radicand fits in an int (at most 2,000,002,500), and the level
   * computed in int arithmetic is the level whose band holds `exp`.
   */
  lemma LevelEvaluationCorrect(exp: int)
    requires 0 <= exp <= MaxExperience
    ensures Wrap(2500 + Wrap(200 * exp)) == 2500 + 200 * exp <= 2_000_002_500 < TwoTo31
    ensures IsLevelOf(exp, LevelEvaluation(exp))
  {
    var n := 2500 + 200 * exp;
    assert Wrap(200 * exp) == 200 * exp;
    assert Wrap(n) == n;
    var r := FloorSqrt(n);
    RootBand(exp, r);
    assert LevelEvaluation(exp) == (r - 50) / 100;
  }

  /** Levels over the validated range stay within [0, 446]. */
  lemma LevelRange(exp: int)
    requires 0 <= exp <= MaxExperience
    ensures 0 <= LevelEvaluation(exp) <= 446
  {
    LevelEvaluationCorrect(exp);
    var lvl := LevelEvaluation(exp);
    if lvl > 446 {
      ThresholdGrows(447, lvl);
    }
  }

  lemma MulGrows(a: int, b: int, c: int)
    requires 0 <= a <= b && 0 <= c
    ensures a * c <= b * c
  {
  }

  lemma ProductBound(lvl: int)
    requires 0 <= lvl <= 446
    ensures 0 < 50 * (lvl + 1) * (lvl + 2) <= 50 * 447 * 448
  {
    MulGrows(lvl + 1, 447, lvl + 2);
    MulGrows(lvl + 2, 448, 447);
    assert (lvl + 1) * (lvl + 2) <= 447 * 448;
    assert 50 * (lvl + 1) * (lvl + 2) == 50 * ((lvl + 1) * (lvl + 2));
  }

  /** In int arithmetic, the experience left from `exp` to the level after `lvl` does not overflow. */
  lemma UntilNextOfBand(exp: int, lvl: int)
    requires 0 <= exp <= MaxExperience && 0 <= lvl <= 446
    ensures UntilNextLevelEvaluation(exp, lvl) == Threshold(lvl + 1) - exp
  {
    assert Wrap(lvl + 1) == lvl + 1 && Wrap(lvl + 2) == lvl + 2;
    assert Wrap(50 * (lvl + 1)) == 50 * (lvl + 1);
    ProductBound(lvl);
    var product := 50 * (lvl + 1) * (lvl + 2);
    assert Wrap(product) == product;
    assert Wrap(product - exp) == product - exp;
    assert product == Threshold(lvl + 1);
  }

  /**
   * The experience left to the next level is the next level's threshold minus `exp`, positive,
   * and at most the width of the current band.
   */
  lemma UntilNextLevelBounds(exp: int)
    requires 0 <= exp <= MaxExperience
    ensures IsInt(LevelEvaluation(exp))
    ensures UntilNextLevelEvaluation(exp, LevelEvaluation(exp)) == Threshold(LevelEvaluation(exp) + 1) - exp
    ensures 0 < UntilNextLevelEvaluation(exp, LevelEvaluation(exp)) <= 100 * (LevelEvaluation(exp) + 1)
  {
    LevelEvaluationCorrect(exp);
    LevelRange(exp);
    var lvl := LevelEvaluation(exp);
    UntilNextOfBand(exp, lvl);
    ThresholdStep(lvl);
  }

  /** The bands are ordered: more experience never lies in a lower band. */
  lemma BandMonotone(e1: int, e2: int, l1: int, l2: int)
    requires e1 <= e2 && IsLevelOf(e1, l1) && IsLevelOf(e2, l2)
    ensures l1 <= l2
  {
    if l2 < l1 {
      ThresholdGrows(l2 + 1, l1);
    }
  }

  /** A player with more experience never has a lower level. */
  lemma LevelMonotone(e1: int, e2: int)
    requires 0 <= e1 <= e2 <= MaxExperience
    ensures LevelEvaluation(e1) <= LevelEvaluation(e2)
  {
    LevelEvaluationCorrect(e1);
    LevelEvaluationCorrect(e2);
    BandMonotone(e1, e2, LevelEvaluation(e1), LevelEvaluation(e2));
  }

  /** Reference values of the formula. */
  lemma LevelGoldenValues()
    ensures LevelEvaluation(0) == 0
    ensures LevelEvaluation(99) == 0
    ensures LevelEvaluation(100) == 1
    ensures LevelEvaluation(1_000_000) == 140
    ensures LevelEvaluation(10_000_000) == 446
  {
    LevelEvaluationCorrect(0);
    LevelUnique(0, LevelEvaluation(0), 0);
    LevelEvaluationCorrect(99);
    LevelUnique(99, LevelEvaluation(99), 0);
    LevelEvaluationCorrect(100);
    LevelUnique(100, LevelEvaluation(100), 1);
    LevelEvaluationCorrect(1_000_000);
    LevelUnique(1_000_000, LevelEvaluation(1_000_000), 140);
    LevelEvaluationCorrect(10_000_000);
    LevelUnique(10_000_000, LevelEvaluation(10_000_000), 446);
  }

  /**
   * Above the validated range `200 * exp` wraps to a negative int, the square root is NaN and the
   * level collapses to 0: only the experience validator keeps the formula meaningful.
   */
  lemma LevelWrapsAboveRange()
    ensures LevelEvaluation(11_000_000) == 0
  {
    assert Wrap(200 * 11_000_000) == 2_200_000_000 - TwoTo32;
  }

  /**
   * mapDtoToEntity: a new player carrying the DTO's fields, with level and remaining experience
   * derived together from its experience. The entity's id is assigned when it is saved.
   */
  function MapDtoToEntity(id: int, dto: PlayerDto): (p: Player)
    requires dto.name.Some? && dto.title.Some? && dto.race.Some? && dto.profession.Some?
    requires dto.birthday.Some? && dto.experience.Some? && 0 <= dto.experience.value <= MaxExperience
    ensures p.id == id && p.name == dto.name.value && p.title == dto.title.value
    ensures p.race == dto.race.value && p.profession == dto.profession.value
    ensures p.birthday == dto.birthday.value && p.experience == dto.experience.value
    ensures p.banned == (dto.banned == Some(true))
    ensures LevelConsistent(p)
    ensures IsLevelOf(p.experience, p.level) && p.untilNextLevel == Threshold(p.level + 1) - p.experience
  {
    var exp := dto.experience.value;
    var level := LevelEvaluation(exp);
    UntilNextLevelBounds(exp);
    LevelEvaluationCorrect(exp);
    Player(id, dto.name.value, dto.title.value, dto.race.value, dto.profession.value,
           dto.birthday.value, dto.banned == Some(true), exp, level, UntilNextLevelEvaluation(exp, level))
  }

  /** mapRequestParamToRequestDto: each request parameter lands in its own field, unchanged. */
  function MapRequestParamToRequestDto(
    name: Option<string>, title: Option<string>, race: Option<Race>, profession: Option<Profession>,
    after: int, before: int, banned: Option<bool>,
    minExperience: int, maxExperience: int, minLevel: int, maxLevel: int,
    order: PlayerOrder, pageSize: int, pageNumber: int): (r: RequestDto)
    ensures r.name == name && r.title == title && r.race == race && r.profession == profession
    ensures r.after == after && r.before == before && r.banned == banned
    ensures r.minExperience == minExperience && r.maxExperience == maxExperience
    ensures r.minLevel == minLevel && r.maxLevel == maxLevel
    ensures r.order == order && r.pageSize == pageSize && r.pageNumber == pageNumber
  {
    RequestDto(name, title, race, profession, after, before, banned,
               minExperience, maxExperience, minLevel, maxLevel, order, pageSize, pageNumber)
  }
}
