/** Construction-time arithmetic of the cache: validation of the capacity and
    of the eviction factor, and the number of keys evicted at once
    (`evictNumber = min(capacity, ceil(capacity * evictFactor))`).

    The source takes the factor as a Java `double`. Here a factor is an exact
    ratio `num / den`, or the one special double value that matters to the
    validation, NaN. */
module LfuConfig {
  import opened LfuErrors

  type Pos = x: int | x > 0 witness 1

  datatype EvictFactor = Ratio(num: int, den: Pos) | NotANumber

  /** The factor the one-argument constructor uses, 0.05. */
  const DefaultFactor: EvictFactor := Ratio(1, 20)

  datatype Config = Config(capacity: int, evictNumber: int)

  function Min(a: int, b: int): int { if a <= b then a else b }

  /** `ceil(a / b)` over the integers, for `a >= 0`. */
  function CeilDiv(a: nat, b: Pos): nat { (a + b - 1) / b }

  lemma CeilDivIsCeiling(a: nat, b: Pos)
    ensures (CeilDiv(a, b) - 1) * b < a <= CeilDiv(a, b) * b
  {
    var q, r := (a + b - 1) / b, (a + b - 1) % b;
    assert a + b - 1 == q * b + r && 0 <= r < b;
    assert (q - 1) * b == q * b - b;
  }

  /** The factor lies in (0, 1]; NaN does not. */
  predicate InRange(f: EvictFactor) {
    f.Ratio? && 0 < f.num <= f.den
  }

  /** The checked constructor: refuses a non-positive capacity and a factor
      outside (0, 1] (NaN included); otherwise evictNumber is the rational
      ceiling of capacity * factor, capped at the capacity. */
  function MakeConfig(capacity: int, factor: EvictFactor): (r: Option<Config>)
    ensures r.None? <==> capacity <= 0 || !InRange(factor)
    ensures r.Some? ==> r.value.capacity == capacity
    ensures r.Some? ==> 1 <= r.value.evictNumber <= capacity
    ensures r.Some? ==>
      (r.value.evictNumber - 1) * factor.den < capacity * factor.num <= r.value.evictNumber * factor.den
  {
    if capacity <= 0 || !InRange(factor) then None
    else
      EvictNumberInRange(capacity, factor.num, factor.den);
      Some(Config(capacity, Min(capacity, CeilDiv(capacity * factor.num, factor.den))))
  }

  /** With an exact factor in (0, 1] the ceiling never exceeds the capacity
      and is at least 1, so the `min` of the source never binds. */
  lemma EvictNumberInRange(capacity: Pos, num: Pos, den: Pos)
    requires num <= den
    ensures 1 <= CeilDiv(capacity * num, den) <= capacity
  {
    var e := CeilDiv(capacity * num, den);
    CeilDivIsCeiling(capacity * num, den);
    assert capacity * num <= capacity * den by {
      assert capacity * den - capacity * num == capacity * (den - num);
    }
    CancelFactor(e - 1, capacity, den);
    assert 0 < capacity * num;
    CancelFactor(0, e, den);
  }

  /** `a * d < b * d` with `d > 0` gives `a < b`. */
  lemma CancelFactor(a: int, b: int, d: Pos)
    requires a * d < b * d
    ensures a < b
  {
  }

  // ----- The constructor's arithmetic as the source writes it -----

  /** Java's `x <= 0` and `x > 1` on a double: both are false for NaN. */
  predicate AtMostZero(f: EvictFactor) { f.Ratio? && f.num <= 0 }
  predicate AboveOne(f: EvictFactor) { f.Ratio? && f.num > f.den }

  /** `(int) Math.ceil(capacity * f)`: a NaN product converts to 0. */
  function CeilTimes(capacity: nat, f: EvictFactor): int
    requires f.Ratio? ==> f.num >= 0
  {
    if f.NotANumber? then 0 else CeilDiv(capacity * f.num, f.den)
  }

  /** The source's check and formula, NaN included. */
  function MakeConfigAsWritten(capacity: int, factor: EvictFactor): (r: Option<Config>)
    ensures r.None? <==> capacity <= 0 || AtMostZero(factor) || AboveOne(factor)
    ensures r.Some? ==> r.value.capacity == capacity && r.value.evictNumber <= capacity
  {
    if capacity <= 0 || AtMostZero(factor) || AboveOne(factor) then None
    else Some(Config(capacity, Min(capacity, CeilTimes(capacity, factor))))
  }

  /** A NaN factor passes the source's validation and yields evictNumber 0,
      contrary to the bound `1 <= evictNumber` that the constructor claims. */
  lemma NaNFactorGivesZeroEvictNumber(capacity: Pos)
    ensures MakeConfigAsWritten(capacity, NotANumber) == Some(Config(capacity, 0))
    ensures MakeConfig(capacity, NotANumber) == None
  {
  }

  /** On the factors the source's check admits other than NaN, the corrected
      constructor agrees with the source's formula. */
  lemma {:induction false} AsWrittenAgreesOnRatios(capacity: int, factor: EvictFactor)
    requires factor.Ratio?
    ensures MakeConfigAsWritten(capacity, factor) == MakeConfig(capacity, factor)
  {
    if capacity > 0 && InRange(factor) {
      EvictNumberInRange(capacity, factor.num, factor.den);
    }
  }

  /** construct(40, 0.1) has evictNumber 4. */
  lemma FortyTimesOneTenth()
    ensures MakeConfig(40, Ratio(1, 10)) == Some(Config(40, 4))
  {
  }

  /** construct(10, 0.5) has evictNumber 5. */
  lemma TenTimesOneHalf()
    ensures MakeConfig(10, Ratio(1, 2)) == Some(Config(10, 5))
  {
  }

  /** The one-argument constructor: with factor 0.05 every positive capacity
      is accepted, and up to capacity 20 one key is evicted at a time. */
  lemma DefaultFactorConfig(capacity: int)
    ensures MakeConfig(capacity, DefaultFactor).Some? <==> capacity > 0
    ensures 0 < capacity <= 20 ==> MakeConfig(capacity, DefaultFactor).value.evictNumber == 1
  {
  }
}
