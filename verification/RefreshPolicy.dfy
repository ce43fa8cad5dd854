/** How long to wait between refreshes (src/contexts/daemon/domain/refresh_policy.rs). All arithmetic is
    saturating 64-bit; ratios are in basis points and the scaling factors are multiplied by ten. */
module RefreshPolicies {
  import opened Numbers
  import opened RateLimit
  import opened RefreshModes
  import opened CacheEntries

  const SAFETY_NUM: nat := 95
  const SAFETY_DEN: nat := 100
  const RESET_WINDOW_CAP_SECS: nat := 3_600
  const SCALE_X10: nat := 10

  datatype EffectiveMode = HotMode | WarmMode | ColdMode {
    function AlphaX10(): nat { match this case HotMode => 30 case WarmMode => 70 case ColdMode => 150 }

    function WeightX10(): nat { match this case HotMode => 5 case WarmMode => 10 case ColdMode => 20 }
  }

  datatype RefreshPolicy = RefreshPolicy(
    hotRecentQuerySecs: u64,
    hotWithQuerySecs: u64,
    hotWithoutQuerySecs: u64,
    warmRefreshSecs: u64,
    warmToColdSecs: u64,
    coldEarlySecs: u64,
    coldLateSecs: u64,
    coldEarlyLimit: u32)
  {
    function ColdIntervalSecs(count: u32): u64 { if count < coldEarlyLimit then coldEarlySecs else coldLateSecs }

    function EffectiveRefreshIntervalSecs(e: CacheEntry, now: Instant): u64 {
      match e.refreshMode
      case Terminal => U64_MAX
      case Hot => if HasRecentQuery(e, hotRecentQuerySecs, now) then hotWithQuerySecs else hotWithoutQuerySecs
      case Warm =>
        if HasRecentQuery(e, hotRecentQuerySecs, now) then hotWithQuerySecs
        else if IsCold(e, warmToColdSecs, now) then ColdIntervalSecs(e.coldRefreshCount)
        else warmRefreshSecs
    }

    function EffectiveTtl(e: CacheEntry, baseTtl: u64): u64 {
      if e.refreshMode.Terminal? then warmRefreshSecs else baseTtl
    }

    function ModeOf(e: CacheEntry, now: Instant): EffectiveMode {
      match e.refreshMode
      case Terminal => ColdMode
      case Hot => HotMode
      case Warm =>
        if HasRecentQuery(e, hotRecentQuerySecs, now) then HotMode
        else if IsCold(e, warmToColdSecs, now) then ColdMode
        else WarmMode
    }

    function ScaledIntervalSecs(
        e: CacheEntry, snapshot: Option<RateLimitSnapshot>, totalCost: u64, now: Instant, nowWall: SystemTime): u64 {
      var base := EffectiveRefreshIntervalSecs(e, now);
      if base == U64_MAX then base
      else
        match snapshot
        case None => base
        case Some(s) => ScaleBase(base, ModeOf(e, now), s, totalCost, nowWall)
    }

    /** The larger of the base interval, the ratio term and the budget term, and no less than the late cold
        interval once a resource is exhausted. */
    function ScaleBase(base: u64, mode: EffectiveMode, s: RateLimitSnapshot, totalCost: u64, nowWall: SystemTime): u64 {
      var ratioTerm := RatioTerm(base, s.BottleneckRatioBp(), mode.AlphaX10());
      var budgetTerm := BudgetOf(s, mode.WeightX10(), totalCost, nowWall);
      var scaled := Max(Max(base, ratioTerm), budgetTerm);
      if s.IsExhausted() then Max(scaled, coldLateSecs) else scaled
    }

    /** The smallest of the five intervals a policy can choose for an entry that is not terminal. */
    function ShortestIntervalSecs(): u64 {
      Min(Min(hotWithQuerySecs, hotWithoutQuerySecs), Min(warmRefreshSecs, Min(coldEarlySecs, coldLateSecs)))
    }

    /** The order the shipped configuration has. */
    ghost predicate Ordered() {
      && hotWithQuerySecs <= hotWithoutQuerySecs && hotWithQuerySecs <= warmRefreshSecs
      && warmRefreshSecs <= coldEarlySecs && warmRefreshSecs <= coldLateSecs
    }
  }

  function BottleneckBudget(s: RateLimitSnapshot): u32 { Min(s.coreRemaining, s.graphqlRemaining) }

  /** `(1 - ratio)^2` in basis points. */
  function DepletionSquaredBp(ratioBp: u64): u64 {
    var depletion := SatSub(RATIO_SCALE_BP, ratioBp);
    SatMul(depletion, depletion) / RATIO_SCALE_BP
  }

  /** `base * (1 + alpha * (1 - ratio)^2)`. */
  function RatioTerm(base: u64, ratioBp: u64, alphaX10: nat): u64 {
    var bonusNumer := SatMul(SatMul(base, alphaX10), DepletionSquaredBp(ratioBp));
    SatAdd(base, bonusNumer / SatMul(SCALE_X10, RATIO_SCALE_BP))
  }

  /** The part of the remaining quota a cycle may spend: 95 percent, but never zero. */
  function SafetyBudget(remaining: u32): nat { Max(SatMul(remaining, SAFETY_NUM) / SAFETY_DEN, 1) }

  function BudgetNumerator(cost: u64, secs: nat, weightX10: nat, ratioBp: u64): u64 {
    SatMul(SatMul(SatMul(cost, secs), weightX10), SatSub(RATIO_SCALE_BP, ratioBp))
  }

  function BudgetDenominator(remaining: u32): u64 { SatMul(SatMul(SafetyBudget(remaining), SCALE_X10), RATIO_SCALE_BP) }

  /** `cost * secs / safety * weight * (1 - ratio)`, with the guard against a zero denominator. */
  function BudgetTerm(cost: u64, secs: nat, remaining: u32, weightX10: nat, ratioBp: u64): u64 {
    var denom := BudgetDenominator(remaining);
    if denom == 0 then U64_MAX else Quotient(BudgetNumerator(cost, secs, weightX10, ratioBp), denom)
  }

  /** The budget term of the bottleneck, over at most an hour. */
  function BudgetOf(s: RateLimitSnapshot, weightX10: nat, totalCost: u64, nowWall: SystemTime): u64 {
    BudgetTerm(totalCost, Min(s.SecsUntilReset(nowWall), RESET_WINDOW_CAP_SECS), BottleneckBudget(s), weightX10,
               s.BottleneckRatioBp())
  }

  // ---- the budget term -------------------------------------------------------------------------

  /** The number of calls, the window, the weight and the depletion multiplied without any limit. */
  ghost function TrueNumerator(cost: u64, secs: nat, weightX10: nat, ratioBp: u64): nat {
    cost * secs * weightX10 * SatSub(RATIO_SCALE_BP, ratioBp)
  }

  /** Saturating step by step is the same as saturating once at the end. */
  lemma BudgetNumeratorExact(cost: u64, secs: nat, weightX10: nat, ratioBp: u64)
    ensures BudgetNumerator(cost, secs, weightX10, ratioBp) == Clamp(TrueNumerator(cost, secs, weightX10, ratioBp))
  {
    ClampThenMul(cost * secs, weightX10);
    ClampThenMul(cost * secs * weightX10, SatSub(RATIO_SCALE_BP, ratioBp));
  }

  /** The denominator never saturates and is never zero, so the guard in `BudgetTerm` is dead. */
  lemma BudgetGuardIsDead(remaining: u32)
    ensures BudgetDenominator(remaining) == SafetyBudget(remaining) * SCALE_X10 * RATIO_SCALE_BP
    ensures BudgetDenominator(remaining) > 0
    ensures 1 <= SafetyBudget(remaining) <= U32_MAX
  {
    assert remaining * SAFETY_NUM <= U32_MAX * SAFETY_NUM;
    assert (remaining * SAFETY_NUM) / SAFETY_DEN <= remaining;
  }

  /** The returned interval is the one whole number of seconds that the true quotient lies in, and the one
      before it, whenever the true numerator fits in 64 bits. */
  lemma BudgetTermBrackets(cost: u64, secs: nat, remaining: u32, weightX10: nat, ratioBp: u64)
    requires TrueNumerator(cost, secs, weightX10, ratioBp) <= U64_MAX
    ensures var t := BudgetTerm(cost, secs, remaining, weightX10, ratioBp);
            SafetyBudget(remaining) * 100_000 * t <= TrueNumerator(cost, secs, weightX10, ratioBp)
              < SafetyBudget(remaining) * 100_000 * (t + 1)
  {
    BudgetGuardIsDead(remaining);
    BudgetNumeratorExact(cost, secs, weightX10, ratioBp);
    DivBounds(TrueNumerator(cost, secs, weightX10, ratioBp), BudgetDenominator(remaining));
  }

  /** The call the scheduler makes cannot saturate while the total cost is at most 25 billion calls a cycle. */
  lemma SchedulerBudgetFits(cost: u64, secs: nat, mode: EffectiveMode, ratioBp: u64)
    requires cost <= 25_000_000_000
    ensures TrueNumerator(cost, Min(secs, RESET_WINDOW_CAP_SECS), mode.WeightX10(), ratioBp) <= U64_MAX
  {
    var window := Min(secs, RESET_WINDOW_CAP_SECS);
    MulMonotone(cost, 25_000_000_000, window, RESET_WINDOW_CAP_SECS);
    MulMonotone(cost * window, 90_000_000_000_000, mode.WeightX10(), 20);
    MulMonotone(cost * window * mode.WeightX10(), 1_800_000_000_000_000,
                SatSub(RATIO_SCALE_BP, ratioBp), RATIO_SCALE_BP);
  }

  // ---- the ratio term --------------------------------------------------------------------------

  lemma DepletionSquaredBounded(ratioBp: u64)
    ensures DepletionSquaredBp(ratioBp) <= RATIO_SCALE_BP
  {
    var depletion := SatSub(RATIO_SCALE_BP, ratioBp);
    MulMonotone(depletion, RATIO_SCALE_BP, depletion, RATIO_SCALE_BP);
    DivMonotone(SatMul(depletion, depletion), RATIO_SCALE_BP * RATIO_SCALE_BP, RATIO_SCALE_BP, RATIO_SCALE_BP);
  }

  /** The ratio term only ever lengthens the base interval, by at most alpha times the base. */
  lemma RatioTermBounds(base: u64, ratioBp: u64, alphaX10: nat)
    ensures base <= RatioTerm(base, ratioBp, alphaX10) <= base + base * alphaX10 / SCALE_X10
  {
    DepletionSquaredBounded(ratioBp);
    var sq := DepletionSquaredBp(ratioBp);
    ClampThenMul(base * alphaX10, sq);
    var numer := SatMul(SatMul(base, alphaX10), sq);
    MulMonotone(base * alphaX10, base * alphaX10, sq, RATIO_SCALE_BP);
    DivMonotone(numer, base * alphaX10 * RATIO_SCALE_BP, 100_000, 100_000);
    CancelScale(base * alphaX10);
  }

  /** The ratio term in plain arithmetic, saturating at the end: the base plus alpha times the base times the square of
      the share that is gone. With nothing left it is the base plus alpha times the base. */
  lemma RatioTermExact(base: u64, ratioBp: u64, alphaX10: nat)
    ensures var gone := if ratioBp < 10_000 then 10_000 - ratioBp else 0;
            RatioTerm(base, ratioBp, alphaX10)
              == Clamp(base + Clamp(base * alphaX10 * (gone * gone / 10_000)) / 100_000)
    ensures ratioBp == 0 && base * alphaX10 * 10_000 <= U64_MAX && base + base * alphaX10 / 10 <= U64_MAX ==>
              RatioTerm(base, ratioBp, alphaX10) == base + base * alphaX10 / 10
  {
    var gone := SatSub(RATIO_SCALE_BP, ratioBp);
    MulMonotone(gone, RATIO_SCALE_BP, gone, RATIO_SCALE_BP);
    assert DepletionSquaredBp(ratioBp) == gone * gone / 10_000;
    ClampThenMul(base * alphaX10, gone * gone / 10_000);
    CancelScale(base * alphaX10);
  }

  lemma CancelScale(x: nat)
    ensures x * RATIO_SCALE_BP / 100_000 == x / SCALE_X10
  {
  }

  lemma DepletionSquaredMonotone(ratioBp: u64, ratioBp': u64)
    requires ratioBp <= ratioBp'
    ensures DepletionSquaredBp(ratioBp') <= DepletionSquaredBp(ratioBp)
  {
    var d, d' := SatSub(RATIO_SCALE_BP, ratioBp), SatSub(RATIO_SCALE_BP, ratioBp');
    SatMulMonotone(d', d, d', d);
    DivMonotone(SatMul(d', d'), SatMul(d, d), RATIO_SCALE_BP, RATIO_SCALE_BP);
  }

  lemma RatioTermMonotone(base: u64, base': u64, ratioBp: u64, ratioBp': u64, alphaX10: nat, alphaX10': nat)
    requires base <= base' && ratioBp' <= ratioBp && alphaX10 <= alphaX10'
    ensures RatioTerm(base, ratioBp, alphaX10) <= RatioTerm(base', ratioBp', alphaX10')
  {
    DepletionSquaredMonotone(ratioBp', ratioBp);
    SatMulMonotone(base, base', alphaX10, alphaX10');
    var n := SatMul(SatMul(base, alphaX10), DepletionSquaredBp(ratioBp));
    var n' := SatMul(SatMul(base', alphaX10'), DepletionSquaredBp(ratioBp'));
    SatMulMonotone(SatMul(base, alphaX10), SatMul(base', alphaX10'),
                   DepletionSquaredBp(ratioBp), DepletionSquaredBp(ratioBp'));
    DivMonotone(n, n', 100_000, 100_000);
  }

  lemma BudgetTermMonotone(
      cost: u64, secs: nat, secs': nat, remaining: u32, remaining': u32, weightX10: nat, weightX10': nat,
      ratioBp: u64, ratioBp': u64)
    requires secs <= secs' && remaining' <= remaining && weightX10 <= weightX10' && ratioBp' <= ratioBp
    ensures BudgetTerm(cost, secs, remaining, weightX10, ratioBp)
         <= BudgetTerm(cost, secs', remaining', weightX10', ratioBp')
  {
    BudgetGuardIsDead(remaining);
    BudgetGuardIsDead(remaining');
    SatMulMonotone(cost, cost, secs, secs');
    SatMulMonotone(SatMul(cost, secs), SatMul(cost, secs'), weightX10, weightX10');
    SatMulMonotone(SatMul(SatMul(cost, secs), weightX10), SatMul(SatMul(cost, secs'), weightX10'),
                   SatSub(RATIO_SCALE_BP, ratioBp), SatSub(RATIO_SCALE_BP, ratioBp'));
    SafetyMonotone(remaining', remaining);
    DivMonotone(BudgetNumerator(cost, secs, weightX10, ratioBp), BudgetNumerator(cost, secs', weightX10', ratioBp'),
                BudgetDenominator(remaining), BudgetDenominator(remaining'));
  }

  lemma SafetyMonotone(remaining: u32, remaining': u32)
    requires remaining <= remaining'
    ensures SafetyBudget(remaining) <= SafetyBudget(remaining')
  {
    SatMulMonotone(remaining, remaining', SAFETY_NUM, SAFETY_NUM);
    DivMonotone(SatMul(remaining, SAFETY_NUM), SatMul(remaining', SAFETY_NUM), SAFETY_DEN, SAFETY_DEN);
  }

  // ---- the scaled interval ---------------------------------------------------------------------

  /** Scaling never shortens the base interval, never undercuts the policy's shortest interval for an entry
      that is refreshed at all, and keeps exhausted resources at the late cold interval or slower. */
  lemma ScaledIntervalLowerBounds(
      policy: RefreshPolicy, e: CacheEntry, snapshot: Option<RateLimitSnapshot>, totalCost: u64,
      now: Instant, nowWall: SystemTime)
    ensures var r := policy.ScaledIntervalSecs(e, snapshot, totalCost, now, nowWall);
            && policy.EffectiveRefreshIntervalSecs(e, now) <= r
            && policy.ShortestIntervalSecs() <= r
            && (e.refreshMode.Terminal? ==> r == U64_MAX)
            && (snapshot.Some? && snapshot.value.IsExhausted() ==> policy.coldLateSecs <= r)
            && (snapshot.None? ==> r == policy.EffectiveRefreshIntervalSecs(e, now))
  {
  }

  // ---- the scaled interval in plain arithmetic -------------------------------------------------

  /** How an entry is paced: its base interval, and ten times its alpha and its weight. */
  datatype Pace = Pace(base: nat, alphaX10: nat, weightX10: nat)

  /** The pace of an entry that is not terminal, by its refresh mode, the seconds since its last query, and how often it
      was refreshed while cold. */
  function PaceOf(policy: RefreshPolicy, mode: RefreshMode, age: nat, coldCount: nat): Pace {
    if age <= policy.hotRecentQuerySecs then Pace(policy.hotWithQuerySecs, 30, 5)
    else if mode.Hot? then Pace(policy.hotWithoutQuerySecs, 30, 5)
    else if age < policy.warmToColdSecs then Pace(policy.warmRefreshSecs, 70, 10)
    else Pace(if coldCount < policy.coldEarlyLimit then policy.coldEarlySecs else policy.coldLateSecs, 150, 20)
  }

  function FloorRatio(remaining: nat, limit: nat): nat { if limit == 0 then 10_000 else 10_000 * remaining / limit }

  function Gone(s: RateLimitSnapshot): nat {
    var ratio := Min(FloorRatio(s.coreRemaining, s.coreLimit), FloorRatio(s.graphqlRemaining, s.graphqlLimit));
    if ratio < 10_000 then 10_000 - ratio else 0
  }

  /** The base lengthened by alpha times the square of the share of the quota that is gone. */
  function Lengthened(pace: Pace, gone: nat): nat {
    var squared := gone * gone / 10_000;
    var factor := pace.alphaX10 * squared;
    Clamp(pace.base + Clamp(pace.base * factor) / 100_000)
  }

  /** 95 percent of what is left, and one call at least. */
  function Spendable(remaining: nat): (calls: nat)
    ensures calls >= 1
  {
    Max(95 * remaining / 100, 1)
  }

  /** The time a cycle's calls need when 95 percent of the quota is spread until the reset, or over an hour. */
  function Needed(pace: Pace, gone: nat, cost: nat, ahead: nat, remaining: nat): nat {
    Quotient(SatMul(cost * Min(ahead, 3_600), pace.weightX10 * gone), Spendable(remaining) * 100_000)
  }

  /** The larger of the two, and with a resource exhausted no less than the late cold interval. */
  function PlainInterval(pace: Pace, s: RateLimitSnapshot, lateSecs: nat, cost: nat, nowWall: SystemTime): nat {
    var ahead := if s.BottleneckResetAt() < nowWall then 0 else (s.BottleneckResetAt() - nowWall) / 1_000_000_000;
    var needed := Needed(pace, Gone(s), cost, ahead, Min(s.coreRemaining, s.graphqlRemaining));
    var exhausted := s.coreRemaining == 0 || s.graphqlRemaining == 0;
    Max(Max(Lengthened(pace, Gone(s)), needed), if exhausted then lateSecs else 0)
  }

  lemma PaceIsPolicy(policy: RefreshPolicy, e: CacheEntry, now: Instant)
    requires e.lastQueriedAt.Some? && !e.refreshMode.Terminal?
    ensures var pace := PaceOf(policy, e.refreshMode, ElapsedSecs(e.lastQueriedAt.value, now), e.coldRefreshCount);
            && policy.EffectiveRefreshIntervalSecs(e, now) == pace.base
            && policy.ModeOf(e, now).AlphaX10() == pace.alphaX10 && policy.ModeOf(e, now).WeightX10() == pace.weightX10
  {
  }

  lemma LengthenedIs(pace: Pace, ratioBp: u64)
    requires pace.base <= U64_MAX
    ensures Lengthened(pace, SatSub(10_000, ratioBp)) == RatioTerm(pace.base, ratioBp, pace.alphaX10)
    ensures Lengthened(pace, SatSub(10_000, ratioBp)) >= pace.base
  {
    RatioTermExact(pace.base, ratioBp, pace.alphaX10);
    RatioTermBounds(pace.base, ratioBp, pace.alphaX10);
    var gone := SatSub(10_000, ratioBp);
    MulAssoc(pace.base, pace.alphaX10, gone * gone / 10_000);
  }

  lemma MulAssoc(a: nat, b: nat, c: nat)
    ensures a * b * c == a * (b * c)
  {
  }

  lemma NeededIs(pace: Pace, cost: u64, ahead: nat, remaining: u32, ratioBp: u64)
    ensures Needed(pace, SatSub(10_000, ratioBp), cost, ahead, remaining)
         == BudgetTerm(cost, Min(ahead, RESET_WINDOW_CAP_SECS), remaining, pace.weightX10, ratioBp)
  {
    BudgetGuardIsDead(remaining);
    BudgetNumeratorExact(cost, Min(ahead, RESET_WINDOW_CAP_SECS), pace.weightX10, ratioBp);
    MulAssoc(cost * Min(ahead, RESET_WINDOW_CAP_SECS), pace.weightX10, SatSub(10_000, ratioBp));
  }

  /** The scheduler's saturating arithmetic is the plain one: saturating at every step loses nothing but what
      saturating each numerator once would. */
  lemma ScaledIntervalIsPlain(
      policy: RefreshPolicy, e: CacheEntry, s: RateLimitSnapshot, totalCost: u64, now: Instant, nowWall: SystemTime)
    requires e.lastQueriedAt.Some? && !e.refreshMode.Terminal?
    ensures var pace := PaceOf(policy, e.refreshMode, ElapsedSecs(e.lastQueriedAt.value, now), e.coldRefreshCount);
            policy.ScaledIntervalSecs(e, Some(s), totalCost, now, nowWall)
              == if pace.base == U64_MAX then U64_MAX
                 else PlainInterval(pace, s, policy.coldLateSecs, totalCost, nowWall)
  {
    PaceIsPolicy(policy, e, now);
    var pace := PaceOf(policy, e.refreshMode, ElapsedSecs(e.lastQueriedAt.value, now), e.coldRefreshCount);
    ScaleBaseIsPlain(policy, pace, policy.ModeOf(e, now), s, totalCost, nowWall);
  }

  lemma ScaleBaseIsPlain(policy: RefreshPolicy, pace: Pace, mode: EffectiveMode, s: RateLimitSnapshot, totalCost: u64,
                         nowWall: SystemTime)
    requires pace.base <= U64_MAX && mode.AlphaX10() == pace.alphaX10 && mode.WeightX10() == pace.weightX10
    ensures policy.ScaleBase(pace.base, mode, s, totalCost, nowWall)
         == PlainInterval(pace, s, policy.coldLateSecs, totalCost, nowWall)
  {
    FloorRatioIs(s.coreRemaining, s.coreLimit);
    FloorRatioIs(s.graphqlRemaining, s.graphqlLimit);
    LengthenedIs(pace, s.BottleneckRatioBp());
    NeededIs(pace, totalCost, s.SecsUntilReset(nowWall), BottleneckBudget(s), s.BottleneckRatioBp());
  }

  lemma FloorRatioIs(remaining: u32, limit: u32)
    ensures RatioBp(remaining, limit) == FloorRatio(remaining, limit)
  {
    assert remaining * RATIO_SCALE_BP == 10_000 * remaining;
  }

  // ---- less quota ------------------------------------------------------------------------------

  /** The bottleneck's reset does not move earlier, or the budget term was zero all along: the quota was full, or
      the reset is less than a second after the epoch and so never a whole second ahead. */
  predicate ResetNoEarlier(s: RateLimitSnapshot, s': RateLimitSnapshot) {
    || s.BottleneckResetAt() <= s'.BottleneckResetAt()
    || s.BottleneckRatioBp() >= RATIO_SCALE_BP
    || s.BottleneckResetAt() < NANOS_PER_SEC
  }

  lemma BudgetTermZero(cost: u64, secs: nat, remaining: u32, weightX10: nat, ratioBp: u64)
    requires secs == 0 || ratioBp >= RATIO_SCALE_BP
    ensures BudgetTerm(cost, secs, remaining, weightX10, ratioBp) == 0
  {
    BudgetGuardIsDead(remaining);
    BudgetNumeratorExact(cost, secs, weightX10, ratioBp);
    DivBounds(0, BudgetDenominator(remaining));
  }

  lemma BottleneckMonotone(s: RateLimitSnapshot, s': RateLimitSnapshot)
    requires s'.NoRicherThan(s)
    ensures s'.BottleneckRatioBp() <= s.BottleneckRatioBp() && BottleneckBudget(s') <= BottleneckBudget(s)
    ensures s.IsExhausted() ==> s'.IsExhausted()
  {
    RatioMonotone(s'.coreRemaining, s.coreRemaining, s.coreLimit);
    RatioMonotone(s'.graphqlRemaining, s.graphqlRemaining, s.graphqlLimit);
  }

  lemma BudgetOfMonotone(s: RateLimitSnapshot, s': RateLimitSnapshot, weightX10: nat, weightX10': nat, totalCost: u64,
                         nowWall: SystemTime)
    requires s'.NoRicherThan(s) && ResetNoEarlier(s, s') && weightX10 <= weightX10'
    ensures BudgetOf(s, weightX10, totalCost, nowWall) <= BudgetOf(s', weightX10', totalCost, nowWall)
  {
    BottleneckMonotone(s, s');
    var window := Min(s.SecsUntilReset(nowWall), RESET_WINDOW_CAP_SECS);
    var window' := Min(s'.SecsUntilReset(nowWall), RESET_WINDOW_CAP_SECS);
    if s.BottleneckResetAt() <= s'.BottleneckResetAt() {
      DivMonotone(SatSub(s.BottleneckResetAt(), nowWall), SatSub(s'.BottleneckResetAt(), nowWall),
                  NANOS_PER_SEC, NANOS_PER_SEC);
      BudgetTermMonotone(totalCost, window, window', BottleneckBudget(s), BottleneckBudget(s'), weightX10, weightX10',
                         s.BottleneckRatioBp(), s'.BottleneckRatioBp());
    } else {
      BudgetTermZero(totalCost, window, BottleneckBudget(s), weightX10, s.BottleneckRatioBp());
    }
  }

  lemma ScaleBaseMonotone(
      policy: RefreshPolicy, base: u64, base': u64, mode: EffectiveMode, mode': EffectiveMode,
      s: RateLimitSnapshot, s': RateLimitSnapshot, totalCost: u64, nowWall: SystemTime)
    requires base <= base'
    requires mode.AlphaX10() <= mode'.AlphaX10() && mode.WeightX10() <= mode'.WeightX10()
    requires s'.NoRicherThan(s) && ResetNoEarlier(s, s')
    ensures policy.ScaleBase(base, mode, s, totalCost, nowWall)
         <= policy.ScaleBase(base', mode', s', totalCost, nowWall)
  {
    BottleneckMonotone(s, s');
    RatioTermMonotone(base, base', s.BottleneckRatioBp(), s'.BottleneckRatioBp(), mode.AlphaX10(), mode'.AlphaX10());
    BudgetOfMonotone(s, s', mode.WeightX10(), mode'.WeightX10(), totalCost, nowWall);
  }

  /** Less quota on either resource never shortens an interval while the bottleneck's reset does not move earlier. */
  lemma LessQuotaNeverShortens(
      policy: RefreshPolicy, e: CacheEntry, s: RateLimitSnapshot, s': RateLimitSnapshot, totalCost: u64,
      now: Instant, nowWall: SystemTime)
    requires s'.NoRicherThan(s) && ResetNoEarlier(s, s')
    ensures policy.ScaledIntervalSecs(e, Some(s), totalCost, now, nowWall)
         <= policy.ScaledIntervalSecs(e, Some(s'), totalCost, now, nowWall)
  {
    var base, mode := policy.EffectiveRefreshIntervalSecs(e, now), policy.ModeOf(e, now);
    ScaleBaseMonotone(policy, base, base, mode, mode, s, s', totalCost, nowWall);
  }

  /** Whatever the policy, the entry, the cost and the clocks, `s'` gives no shorter interval than `s`. */
  ghost predicate NeverShortens(s: RateLimitSnapshot, s': RateLimitSnapshot) {
    forall policy: RefreshPolicy, e: CacheEntry, totalCost: u64, now: Instant, nowWall: SystemTime ::
      policy.ScaledIntervalSecs(e, Some(s), totalCost, now, nowWall)
        <= policy.ScaledIntervalSecs(e, Some(s'), totalCost, now, nowWall)
  }

  /** Less quota never shortens an interval exactly when the bottleneck's reset does not move earlier or the budget
      term was zero all along. */
  lemma LessQuotaNeverShortensIff(s: RateLimitSnapshot, s': RateLimitSnapshot)
    requires s'.NoRicherThan(s)
    ensures NeverShortens(s, s') <==> ResetNoEarlier(s, s')
  {
    if ResetNoEarlier(s, s') {
      forall policy: RefreshPolicy, e: CacheEntry, totalCost: u64, now: Instant, nowWall: SystemTime
        ensures policy.ScaledIntervalSecs(e, Some(s), totalCost, now, nowWall)
             <= policy.ScaledIntervalSecs(e, Some(s'), totalCost, now, nowWall)
      {
        LessQuotaNeverShortens(policy, e, s, s', totalCost, now, nowWall);
      }
    } else {
      var wall := s.BottleneckResetAt() - NANOS_PER_SEC;
      EarlierResetShortens(s, s', wall);
      assert EAGER.ScaledIntervalSecs(HOT_ENTRY, Some(s'), U64_MAX, 0, wall)
           < EAGER.ScaledIntervalSecs(HOT_ENTRY, Some(s), U64_MAX, 0, wall);
    }
  }

  const EAGER := RefreshPolicy(0, 0, 0, 0, 0, 0, 0, 0)
  const HOT_ENTRY := CacheEntry("x", [], Ready, 0, 0, None, "", "", Hot, Some(0), 0)

  /** One second before the bottleneck's reset a full cycle's budget still counts for `s` and no longer for `s'`. */
  lemma EarlierResetShortens(s: RateLimitSnapshot, s': RateLimitSnapshot, wall: SystemTime)
    requires s'.BottleneckResetAt() < s.BottleneckResetAt() == wall + NANOS_PER_SEC
    requires s.BottleneckRatioBp() < RATIO_SCALE_BP
    ensures EAGER.ScaledIntervalSecs(HOT_ENTRY, Some(s'), U64_MAX, 0, wall) == 0
    ensures EAGER.ScaledIntervalSecs(HOT_ENTRY, Some(s), U64_MAX, 0, wall) > 0
  {
    assert s.SecsUntilReset(wall) == 1 && s'.SecsUntilReset(wall) == 0;
    RatioTermBounds(0, s'.BottleneckRatioBp(), 30);
    BudgetTermZero(U64_MAX, 0, BottleneckBudget(s'), 5, s'.BottleneckRatioBp());
    FullBudgetCounts(BottleneckBudget(s), s.BottleneckRatioBp());
  }

  lemma FullBudgetCounts(remaining: u32, ratioBp: u64)
    requires ratioBp < RATIO_SCALE_BP
    ensures BudgetTerm(U64_MAX, 1, remaining, 5, ratioBp) > 0
  {
    BudgetGuardIsDead(remaining);
    assert BudgetNumerator(U64_MAX, 1, 5, ratioBp) == U64_MAX;
    var denom := BudgetDenominator(remaining);
    assert denom <= U32_MAX * 100_000;
    DivMonotone(denom, U64_MAX, denom, denom);
  }

  lemma EqualResetsLessQuota(
      policy: RefreshPolicy, e: CacheEntry, s: RateLimitSnapshot, s': RateLimitSnapshot, totalCost: u64,
      now: Instant, nowWall: SystemTime)
    requires s'.NoRicherThan(s)
    requires s.coreResetAt == s.graphqlResetAt == s'.coreResetAt == s'.graphqlResetAt
    ensures policy.ScaledIntervalSecs(e, Some(s), totalCost, now, nowWall)
         <= policy.ScaledIntervalSecs(e, Some(s'), totalCost, now, nowWall)
  {
    LessQuotaNeverShortens(policy, e, s, s', totalCost, now, nowWall);
  }

  /** A case in point under the shipped intervals: spending core quota moves the bottleneck to a resource that resets
      sooner, and the interval drops. */
  lemma LessQuotaCanShorten()
    ensures exists policy: RefreshPolicy, e: CacheEntry, s: RateLimitSnapshot, s': RateLimitSnapshot ::
              && s'.NoRicherThan(s) && s.coreResetAt == s'.coreResetAt && s.graphqlResetAt == s'.graphqlResetAt
              && policy.ScaledIntervalSecs(e, Some(s'), 1000, 0, 0) < policy.ScaledIntervalSecs(e, Some(s), 1000, 0, 0)
  {
    var policy := RefreshPolicy(30, 2, 10, 180, 1800, 1800, 3600, 10);
    var e := CacheEntry("x", [], Ready, 0, 0, None, "", "", Hot, Some(0), 0);
    var s := RateLimitSnapshot(3000, 5000, 2500, 5000, 0, 3600 * NANOS_PER_SEC, 0);
    var s' := s.(coreRemaining := 2400);
    assert RatioBp(3000, 5000) == 6000 && RatioBp(2500, 5000) == 5000 && RatioBp(2400, 5000) == 4800;
    assert s.SecsUntilReset(0) == 3600 && s'.SecsUntilReset(0) == 0;
    assert BudgetNumerator(1000, 3600, 5, 5000) == 90_000_000_000;
    assert SafetyBudget(2500) == 2375;
    assert BudgetDenominator(2500) == 237_500_000;
    assert BudgetTerm(1000, 3600, 2500, 5, 5000) == 378;
    assert BudgetNumerator(1000, 0, 5, 4800) == 0;
    assert BudgetDenominator(2400) > 0 by { BudgetGuardIsDead(2400); }
    assert BudgetTerm(1000, 0, 2400, 5, 4800) == 0;
    RatioTermBounds(2, 4800, 30);
    assert policy.ScaledIntervalSecs(e, Some(s'), 1000, 0, 0) <= 8;
    assert policy.ScaledIntervalSecs(e, Some(s), 1000, 0, 0) >= 378;
  }

  /** With the intervals in their usual order, an interval never shrinks while an entry goes unqueried. */
  lemma OlderQueryNeverShortens(
      policy: RefreshPolicy, e: CacheEntry, t: Instant, t': Instant, snapshot: Option<RateLimitSnapshot>,
      totalCost: u64, now: Instant, nowWall: SystemTime)
    requires policy.Ordered() && t' <= t
    ensures policy.ScaledIntervalSecs(e.WithRecordQuery(t), snapshot, totalCost, now, nowWall)
         <= policy.ScaledIntervalSecs(e.WithRecordQuery(t'), snapshot, totalCost, now, nowWall)
  {
    DivMonotone(SatSub(now, t), SatSub(now, t'), NANOS_PER_SEC, NANOS_PER_SEC);
    var newer, older := e.WithRecordQuery(t), e.WithRecordQuery(t');
    if snapshot.Some? {
      ScaleBaseMonotone(policy, policy.EffectiveRefreshIntervalSecs(newer, now),
                        policy.EffectiveRefreshIntervalSecs(older, now), policy.ModeOf(newer, now),
                        policy.ModeOf(older, now), snapshot.value, snapshot.value, totalCost, nowWall);
    }
  }
}
