/**
  Difficulty retargeting when a block is attached to its predecessor
  (BlockImpl.calculateBaseTarget and BlockImpl.calculatePowTarget).

  Java `int` and `long` arithmetic is written out: every sum, difference and product
  wraps through `JavaInt` or `JavaLong`, and `/` truncates toward zero. BigInteger
  arithmetic is exact. The constants of Constants and ComputationConstants are not
  part of this model and are given as a `Constants` value. `BlockDb.findBlockAtHeight`
  is a lookup in a map from height to block, failing when the height is absent; a
  division by zero fails as Java's ArithmeticException does.
 */
module Retarget {
  import opened Words
  import opened Results

  type JInt = x: int | -TWO31 <= x < TWO31
  type JLong = x: int | -TWO63 <= x < TWO63

  datatype Constants = Constants(
    maxBaseTarget: JLong,
    maxBaseTarget2: JLong,
    minBaseTarget: JLong,
    baseTargetGamma: JLong,
    maxBlocktimeLimit: JInt,
    minBlocktimeLimit: JInt,
    startEncodingBlock: JInt,
    powRetargetDepth: JInt,
    powPerMinute: JInt)

  /** The retargeting fields of a block. */
  datatype Block = Block(
    height: JInt,
    timestamp: JInt,
    baseTarget: JLong,
    cumulativeDifficulty: int,
    powTarget: JLong,
    powLastMass: JInt,
    powMass: JInt,
    targetLastMass: JLong,
    targetMass: JLong)

  type BlockDb = map<int, Block>

  datatype RetargetError = MissingBlock(height: int) | DivisionByZero

  /** `Convert.two64`. */
  const TWO64_BIG: int := TWO64

  /** `Long.MAX_VALUE / 100`, the ceiling of the proof-of-work target. */
  const MAX_POW_TARGET: JLong := (TWO63 - 1) / 100

  function Min(a: int, b: int): int {
    if a <= b then a else b
  }

  function Max(a: int, b: int): int {
    if a >= b then a else b
  }

  /** Java `long` division. */
  function LongDiv(a: JLong, b: JLong): (r: Result<JLong, RetargetError>)
    ensures r.Fail? <==> b == 0
    ensures r.Fail? ==> r.error == DivisionByZero
  {
    if b == 0 then Fail(DivisionByZero) else Ok(JavaLong(TruncDiv(a, b)))
  }

  /** Java `int` division. */
  function IntDiv(a: JInt, b: JInt): (r: Result<JInt, RetargetError>)
    ensures r.Fail? <==> b == 0
    ensures r.Fail? ==> r.error == DivisionByZero
  {
    if b == 0 then Fail(DivisionByZero) else Ok(JavaInt(TruncDiv(a, b)))
  }

  /** Dividing a `long` by a positive `int` cannot overflow. */
  lemma TruncDivShrinks(a: int, b: int)
    requires b >= 1
    ensures Abs(TruncDiv(a, b)) <= Abs(a)
  {
    FloorDivBounds(Abs(a), b);
  }

  // ---------------------------------------------------------------------------
  // calculateBaseTarget
  // ---------------------------------------------------------------------------

  /** The ceiling of the early window: twice the previous target, or MAX_BASE_TARGET when
      doubling overflows to a negative `long`. */
  function Twofold(c: Constants, prev: JLong): JLong {
    var doubled := JavaLong(prev * 2);
    if doubled < 0 then c.maxBaseTarget else doubled
  }

  /** Below height 2: scale the previous target by the time since the previous block
      over 60 seconds (in BigInteger, then cut to a `long`), then clamp: into
      [0, MAX_BASE_TARGET] (MAX_BASE_TARGET when out of range), at least half the
      previous target, never 0, and at most `Twofold`. */
  function EarlyBaseTarget(c: Constants, prev: JLong, elapsed: JInt): (r: JLong)
    ensures r <= Twofold(c, prev)
    ensures prev >= 1 && c.maxBaseTarget >= 1 ==> r >= 1
  {
    var scaled := JavaLong(TruncDiv(prev * elapsed, 60));
    var inRange := if scaled < 0 || scaled > c.maxBaseTarget then c.maxBaseTarget else scaled;
    TruncDivShrinks(prev, 2);
    var half := TruncDiv(prev, 2);
    var notBelowHalf := if inRange < half then half else inRange;
    var positive := if notBelowHalf == 0 then 1 else notBelowHalf;
    var twofold := Twofold(c, prev);
    if positive > twofold then twofold else positive
  }

  /** Even heights from 2 on: compare the average block time over the last three blocks
      with 60 seconds. Slower blocks scale the target up in proportion (the average
      capped at MAX_BLOCKTIME_LIMIT); faster ones take off a share BASE_TARGET_GAMMA per
      cent for each second below 60 (the average floored at MIN_BLOCKTIME_LIMIT). Then
      MAX_BASE_TARGET_2 replaces a negative or too large target, and MIN_BASE_TARGET a
      too small one. */
  function EvenBaseTarget(c: Constants, prev: JLong, average: JInt): (r: JLong)
    ensures c.minBaseTarget <= c.maxBaseTarget2 ==> c.minBaseTarget <= r <= c.maxBaseTarget2
  {
    var raw := if average > 60 then SlowerBlocks(c, prev, average) else FasterBlocks(c, prev, average);
    var capped := if raw < 0 || raw > c.maxBaseTarget2 then c.maxBaseTarget2 else raw;
    if capped < c.minBaseTarget then c.minBaseTarget else capped
  }

  /** Blocks slower than a minute: `prev * min(average, MAX_BLOCKTIME_LIMIT) / 60`. */
  function SlowerBlocks(c: Constants, prev: JLong, average: JInt): JLong {
    var product := JavaLong(prev * Min(average, c.maxBlocktimeLimit));
    TruncDivShrinks(product, 60);
    TruncDiv(product, 60)
  }

  /** Blocks no slower than a minute:
      `prev - prev * BASE_TARGET_GAMMA * (60 - max(average, MIN_BLOCKTIME_LIMIT)) / 6000`. */
  function FasterBlocks(c: Constants, prev: JLong, average: JInt): JLong {
    var below := JavaInt(60 - Max(average, c.minBlocktimeLimit));
    var share := JavaLong(JavaLong(prev * c.baseTargetGamma) * below);
    TruncDivShrinks(share, 6000);
    JavaLong(prev - TruncDiv(share, 6000))
  }

  /** The average block time over the three blocks since `before`, in Java `int`
      arithmetic. */
  function BlockTimeAverage(now: JInt, before: JInt): JInt {
    TruncDivShrinks(JavaInt(now - before), 3);
    TruncDiv(JavaInt(now - before), 3)
  }

  /** The new base target, before the difficulty is accumulated: heights 0 and 1 use
      the early rule, odd heights from 3 on keep the target, and even heights from 2 on
      use the block two back, failing when it is missing. */
  function NextBaseTarget(c: Constants, db: BlockDb, prev: Block, blk: Block): (r: Result<JLong, RetargetError>)
    ensures prev.height < 2 ==> r == Ok(EarlyBaseTarget(c, prev.baseTarget, JavaInt(blk.timestamp - prev.timestamp)))
    ensures prev.height >= 2 && prev.height % 2 == 1 ==> r == Ok(prev.baseTarget)
    ensures prev.height >= 2 && prev.height % 2 == 0 ==> (r.Ok? <==> prev.height - 2 in db)
    ensures prev.height >= 2 && prev.height % 2 == 0 && prev.height - 2 in db ==>
      r == Ok(EvenBaseTarget(c, prev.baseTarget, BlockTimeAverage(blk.timestamp, db[prev.height - 2].timestamp)))
    ensures r.Fail? ==> r.error == MissingBlock(prev.height - 2)
  {
    if prev.height < 2 then
      Ok(EarlyBaseTarget(c, prev.baseTarget, JavaInt(blk.timestamp - prev.timestamp)))
    else if prev.height % 2 == 0 then
      var h := prev.height - 2;
      if h !in db then Fail(MissingBlock(h))
      else Ok(EvenBaseTarget(c, prev.baseTarget, BlockTimeAverage(blk.timestamp, db[h].timestamp)))
    else
      Ok(prev.baseTarget)
  }

  /** `calculateBaseTarget`: the new base target, and the cumulative difficulty grown by
      2^64 divided by it. Only those two fields of the block change. */
  function CalculateBaseTarget(c: Constants, db: BlockDb, prev: Block, blk: Block): (r: Result<Block, RetargetError>)
    ensures r.Ok? ==> r.value == blk.(baseTarget := r.value.baseTarget, cumulativeDifficulty := r.value.cumulativeDifficulty)
    ensures r.Ok? ==> Ok(r.value.baseTarget) == NextBaseTarget(c, db, prev, blk)
    ensures r.Ok? ==> (r.value.baseTarget != 0
      && r.value.cumulativeDifficulty == prev.cumulativeDifficulty + TruncDiv(TWO64_BIG, r.value.baseTarget))
    ensures r.Fail? ==> NextBaseTarget(c, db, prev, blk).Fail? || NextBaseTarget(c, db, prev, blk) == Ok(0)
  {
    var target :- NextBaseTarget(c, db, prev, blk);
    if target == 0 then Fail(DivisionByZero)
    else Ok(blk.(baseTarget := target,
                 cumulativeDifficulty := prev.cumulativeDifficulty + TruncDiv(TWO64_BIG, target)))
  }

  // ---------------------------------------------------------------------------
  // calculatePowTarget
  // ---------------------------------------------------------------------------

  /** `countPow`, which the source leaves as a stub that reports no submissions. */
  function CountPow(): JInt {
    0
  }

  /** The measured timespan moved into [target / 3, target * 3]: first raised to the
      lower bound, then lowered to the upper one. */
  function ClampTimespan(actual: JInt, target: JInt): (r: JInt)
    ensures r <= JavaInt(target * 3)
    ensures TruncDiv(target, 3) <= JavaInt(target * 3) ==> TruncDiv(target, 3) <= r
    ensures TruncDiv(target, 3) <= actual <= JavaInt(target * 3) ==> r == actual
  {
    TruncDivShrinks(target, 3);
    var third := TruncDiv(target, 3);
    var raised := if actual < third then third else actual;
    var triple := JavaInt(target * 3);
    if raised > triple then triple else raised
  }

  /** The scaled target, guarded against overflow: a rise that came out lower, or
      anything above `MAX_POW_TARGET`, becomes `MAX_POW_TARGET`; a fall that came out
      higher, or anything below 1, becomes 1. */
  function GuardPowTarget(dark: JLong, scaled: JLong, actual: JInt, target: JInt): (r: JLong)
    ensures 1 <= r <= MAX_POW_TARGET
    ensures 1 <= scaled <= MAX_POW_TARGET && !(actual > target && scaled < dark) && !(actual < target && scaled > dark)
            ==> r == scaled
  {
    var high := if (actual > target && scaled < dark) || scaled > MAX_POW_TARGET then MAX_POW_TARGET else scaled;
    if (actual < target && high > dark) || high < 1 then 1 else high
  }

  /** The initialization window: the target is the ceiling, and the masses start at the
      first encoding block and accumulate from the previous block after it. */
  function InitWindow(c: Constants, prev: Block, blk: Block, powcnt: JInt): (r: Block)
    ensures r.powTarget == MAX_POW_TARGET && r.targetLastMass == MAX_POW_TARGET && r.powLastMass == powcnt
    ensures blk.height == c.startEncodingBlock ==> r.powMass == powcnt && r.targetMass == MAX_POW_TARGET
    ensures blk.height != c.startEncodingBlock ==>
      r.powMass == JavaInt(powcnt + prev.powMass) && r.targetMass == JavaLong(prev.targetMass + MAX_POW_TARGET)
  {
    var r := blk.(powTarget := MAX_POW_TARGET, powLastMass := powcnt, targetLastMass := MAX_POW_TARGET);
    if blk.height == c.startEncodingBlock then
      r.(powMass := powcnt, targetMass := MAX_POW_TARGET)
    else
      r.(powMass := JavaInt(powcnt + prev.powMass), targetMass := JavaLong(prev.targetMass + MAX_POW_TARGET))
  }

  /** The timespan the window should have taken: POW mass times the seconds wanted per
      submission, or the measured timespan when there was no submission. */
  function TargetTimespan(c: Constants, powMass: JInt, actual: JInt): (r: Result<JInt, RetargetError>)
    ensures powMass == 0 ==> r == Ok(actual)
    ensures powMass != 0 && c.powPerMinute != 0 ==>
      r == Ok(JavaInt(powMass * JavaInt(TruncDiv(60, c.powPerMinute))))
    ensures r.Fail? <==> powMass != 0 && c.powPerMinute == 0
  {
    if powMass != 0 then
      var per :- IntDiv(60, c.powPerMinute);
      Ok(JavaInt(powMass * per))
    else Ok(actual)
  }

  /** The new proof-of-work target: the previous average target scaled by the clamped
      ratio of measured to wanted timespan, then guarded. */
  function ScaledPowTarget(dark: JLong, actual: JInt, target: JInt): (r: Result<JLong, RetargetError>)
    ensures r.Fail? <==> target == 0
    ensures r.Ok? ==> 1 <= r.value <= MAX_POW_TARGET
  {
    var clamped := ClampTimespan(actual, target);
    var quotient :- LongDiv(dark, target);
    var scaled := JavaLong(quotient * clamped);
    Ok(GuardPowTarget(dark, scaled, clamped, target))
  }

  /** The rolling window: the block POW_RETARGET_DEPTH back is the window's start. */
  function RollingWindow(c: Constants, db: BlockDb, prev: Block, blk: Block, powcnt: JInt): (r: Result<Block, RetargetError>)
    ensures r.Ok? ==> 1 <= r.value.powTarget <= MAX_POW_TARGET
    ensures r.Ok? ==> var start := JavaInt(blk.height - c.powRetargetDepth);
      && start in db
      && r.value.powMass == JavaInt(JavaInt(powcnt + prev.powMass) - db[start].powLastMass)
      && r.value.powLastMass == powcnt
      && r.value.targetLastMass == r.value.powTarget
      && r.value.targetMass == JavaLong(JavaLong(r.value.powTarget + prev.targetMass) - db[start].targetLastMass)
    ensures JavaInt(blk.height - c.powRetargetDepth) !in db
            ==> r == Fail(MissingBlock(JavaInt(blk.height - c.powRetargetDepth)))
  {
    var start := JavaInt(blk.height - c.powRetargetDepth);
    if start !in db then Fail(MissingBlock(start))
    else
      var b := db[start];
      var powMass := JavaInt(JavaInt(powcnt + prev.powMass) - b.powLastMass);
      var dark :- LongDiv(prev.targetMass, c.powRetargetDepth);
      var target :- TargetTimespan(c, powMass, JavaInt(blk.timestamp - b.timestamp));
      var powTarget :- ScaledPowTarget(dark, JavaInt(blk.timestamp - b.timestamp), target);
      Ok(blk.(powMass := powMass,
              powLastMass := powcnt,
              powTarget := powTarget,
              targetMass := JavaLong(JavaLong(powTarget + prev.targetMass) - b.targetLastMass),
              targetLastMass := powTarget))
  }

  /** `calculatePowTarget`, with the number of proof-of-work submissions in the block as
      `powcnt` (the source's `countPow` always gives `CountPow()`). Nothing happens below
      START_ENCODING_BLOCK. Only the five proof-of-work fields change. */
  function CalculatePowTarget(c: Constants, db: BlockDb, prev: Block, blk: Block, powcnt: JInt): (r: Result<Block, RetargetError>)
    ensures blk.height < c.startEncodingBlock ==> r == Ok(blk)
    ensures r.Ok? ==> r.value == blk.(powTarget := r.value.powTarget, powLastMass := r.value.powLastMass,
                                      powMass := r.value.powMass, targetLastMass := r.value.targetLastMass,
                                      targetMass := r.value.targetMass)
    ensures r.Ok? && blk.height >= c.startEncodingBlock ==> 1 <= r.value.powTarget <= MAX_POW_TARGET
  {
    if blk.height < c.startEncodingBlock then Ok(blk)
    else if blk.height < JavaInt(c.startEncodingBlock + c.powRetargetDepth) then
      Ok(InitWindow(c, prev, blk, powcnt))
    else
      RollingWindow(c, db, prev, blk, powcnt)
  }

  // ---------------------------------------------------------------------------
  // Properties
  // ---------------------------------------------------------------------------

  /** Below height 2 the new target is at most twice the old one (MAX_BASE_TARGET when
      doubling overflows) and, from a positive old target, at least 1, so the step never
      divides by zero. */
  lemma EarlyWindowBounds(c: Constants, db: BlockDb, prev: Block, blk: Block)
    requires prev.height < 2 && prev.baseTarget >= 1 && c.maxBaseTarget >= 1
    ensures var r := CalculateBaseTarget(c, db, prev, blk);
      r.Ok? && 1 <= r.value.baseTarget <= Twofold(c, prev.baseTarget)
  {
  }

  /** When doubling cannot overflow and stays below MAX_BASE_TARGET, the early-window
      target moves at most a factor of two either way. */
  lemma EarlyWindowFactorTwo(c: Constants, prev: JLong, elapsed: JInt)
    requires 1 <= prev && 2 * prev <= c.maxBaseTarget
    ensures TruncDiv(prev, 2) <= EarlyBaseTarget(c, prev, elapsed) <= 2 * prev
  {
    assert Twofold(c, prev) == 2 * prev;
  }

  /** Even heights from 2 on land in [MIN_BASE_TARGET, MAX_BASE_TARGET_2]. */
  lemma EvenHeightBounds(c: Constants, db: BlockDb, prev: Block, blk: Block)
    requires prev.height >= 2 && prev.height % 2 == 0 && prev.height - 2 in db
    requires 1 <= c.minBaseTarget <= c.maxBaseTarget2
    ensures var r := CalculateBaseTarget(c, db, prev, blk);
      r.Ok? && c.minBaseTarget <= r.value.baseTarget <= c.maxBaseTarget2
  {
  }

  /** Odd heights from 3 on keep the previous target. */
  lemma OddHeightKeepsTarget(c: Constants, db: BlockDb, prev: Block, blk: Block)
    requires prev.height >= 2 && prev.height % 2 == 1 && prev.baseTarget != 0
    ensures CalculateBaseTarget(c, db, prev, blk) == Ok(blk.(baseTarget := prev.baseTarget,
      cumulativeDifficulty := prev.cumulativeDifficulty + TruncDiv(TWO64_BIG, prev.baseTarget)))
  {
  }

  /** With a positive base target the chain's cumulative difficulty strictly grows. */
  lemma DifficultyGrows(c: Constants, db: BlockDb, prev: Block, blk: Block)
    requires CalculateBaseTarget(c, db, prev, blk).Ok?
    requires CalculateBaseTarget(c, db, prev, blk).value.baseTarget >= 1
    ensures CalculateBaseTarget(c, db, prev, blk).value.cumulativeDifficulty > prev.cumulativeDifficulty
  {
    QuotientPositive(TWO64_BIG, CalculateBaseTarget(c, db, prev, blk).value.baseTarget);
  }

  lemma QuotientPositive(n: int, t: int)
    requires 1 <= t <= n
    ensures TruncDiv(n, t) >= 1
  {
    FloorDivBounds(n, t);
    if n / t < 1 {
      MulMonotone(n / t + 1, 1, t);
    }
  }

  /** Clamping an already clamped timespan changes nothing. */
  lemma ClampTimespanIdempotent(actual: JInt, target: JInt)
    requires TruncDiv(target, 3) <= JavaInt(target * 3)
    ensures ClampTimespan(ClampTimespan(actual, target), target) == ClampTimespan(actual, target)
  {
  }

  /** The initialization window sets the ceiling target and accumulates the masses. */
  lemma InitWindowApplies(c: Constants, db: BlockDb, prev: Block, blk: Block, powcnt: JInt)
    requires c.startEncodingBlock <= blk.height < JavaInt(c.startEncodingBlock + c.powRetargetDepth)
    ensures CalculatePowTarget(c, db, prev, blk, powcnt) == Ok(InitWindow(c, prev, blk, powcnt))
  {
  }

  /** From START_ENCODING_BLOCK + POW_RETARGET_DEPTH on, the rolling window applies. */
  lemma RollingWindowApplies(c: Constants, db: BlockDb, prev: Block, blk: Block, powcnt: JInt)
    requires blk.height >= JavaInt(c.startEncodingBlock + c.powRetargetDepth)
    requires blk.height >= c.startEncodingBlock
    ensures CalculatePowTarget(c, db, prev, blk, powcnt) == RollingWindow(c, db, prev, blk, powcnt)
  {
  }

  /** With `countPow` as the source has it, the proof-of-work masses stay 0: a chain
      that starts with zero masses keeps them. */
  lemma StubCountKeepsMassesZero(c: Constants, db: BlockDb, prev: Block, blk: Block)
    requires prev.powMass == 0
    requires forall h :: h in db ==> db[h].powLastMass == 0
    requires CalculatePowTarget(c, db, prev, blk, CountPow()).Ok?
    requires blk.powMass == 0 && blk.powLastMass == 0
    ensures CalculatePowTarget(c, db, prev, blk, CountPow()).value.powMass == 0
    ensures CalculatePowTarget(c, db, prev, blk, CountPow()).value.powLastMass == 0
  {
  }
}
