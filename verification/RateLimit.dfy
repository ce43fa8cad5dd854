/** The rate-limit snapshot (src/contexts/daemon/domain/rate_limit_snapshot.rs). Wall-clock times are
    nanoseconds since an epoch. */
module RateLimit {
  import opened Numbers

  type SystemTime = nat
  type Instant = nat

  const NANOS_PER_SEC: nat := 1_000_000_000
  const RATIO_SCALE_BP: nat := 10_000

  /** `remaining / limit` in basis points; a resource without a limit counts as full. */
  function RatioBp(remaining: u32, limit: u32): u64 {
    if limit == 0 then RATIO_SCALE_BP
    else Quotient(SatMul(remaining, RATIO_SCALE_BP), limit)
  }

  datatype RateLimitSnapshot = RateLimitSnapshot(
    coreRemaining: u32, coreLimit: u32,
    graphqlRemaining: u32, graphqlLimit: u32,
    coreResetAt: SystemTime, graphqlResetAt: SystemTime,
    fetchedAt: Instant)
  {
    function CoreRatio(): u64 { RatioBp(coreRemaining, coreLimit) }

    function GraphqlRatio(): u64 { RatioBp(graphqlRemaining, graphqlLimit) }

    /** The reset time of the resource with the smaller ratio; the later one on a tie. */
    function BottleneckResetAt(): SystemTime {
      if CoreRatio() < GraphqlRatio() then coreResetAt
      else if GraphqlRatio() < CoreRatio() then graphqlResetAt
      else Max(coreResetAt, graphqlResetAt)
    }

    function SecsUntilReset(now: SystemTime): nat {
      SatSub(BottleneckResetAt(), now) / NANOS_PER_SEC
    }

    predicate IsExhausted() { coreRemaining == 0 || graphqlRemaining == 0 }

    function BottleneckRatioBp(): u64 { Min(CoreRatio(), GraphqlRatio()) }

    /** `this` has the same limits as `other` and no more quota left on either resource. */
    ghost predicate NoRicherThan(other: RateLimitSnapshot) {
      && coreLimit == other.coreLimit && graphqlLimit == other.graphqlLimit
      && coreRemaining <= other.coreRemaining && graphqlRemaining <= other.graphqlRemaining
    }
  }

  lemma RatioMonotone(r: u32, r': u32, limit: u32)
    requires r <= r'
    ensures RatioBp(r, limit) <= RatioBp(r', limit)
  {
    if limit > 0 {
      DivMonotone(SatMul(r, RATIO_SCALE_BP), SatMul(r', RATIO_SCALE_BP), limit, limit);
    }
  }

  /** The ratio is the floor of `10000 * remaining / limit`: the product never saturates. */
  lemma RatioBpBrackets(remaining: u32, limit: u32)
    ensures limit > 0 ==>
              limit * RatioBp(remaining, limit) <= 10_000 * remaining < limit * (RatioBp(remaining, limit) + 1)
    ensures limit == 0 ==> RatioBp(remaining, limit) == 10_000
  {
    if limit > 0 { DivBounds(remaining * RATIO_SCALE_BP, limit); }
  }

  /** A ratio of at most `bp` basis points, without a division. */
  lemma RatioAtMostIff(remaining: u32, limit: u32, bp: nat)
    requires bp < 10_000
    ensures RatioBp(remaining, limit) <= bp <==> limit > 0 && 10_000 * remaining < (bp + 1) * limit
  {
    if limit > 0 {
      RatioBpBrackets(remaining, limit);
      var q := RatioBp(remaining, limit);
      if q <= bp {
        MulMonotone(limit, limit, q + 1, bp + 1);
      } else {
        MulMonotone(limit, limit, bp + 1, q);
      }
    }
  }

  /** The documentation promises a ratio of at most 10000; the code gives one exactly unless the remaining quota
      exceeds the limit by a whole basis point. */
  lemma RatioWithinScaleIff(remaining: u32, limit: u32)
    ensures RatioBp(remaining, limit) <= RATIO_SCALE_BP <==>
              limit == 0 || RATIO_SCALE_BP * remaining < (RATIO_SCALE_BP + 1) * limit
  {
    if limit > 0 {
      DivBounds(remaining * RATIO_SCALE_BP, limit);
      var q := RatioBp(remaining, limit);
      if q <= RATIO_SCALE_BP {
        MulMonotone(limit, limit, q + 1, RATIO_SCALE_BP + 1);
      } else {
        MulMonotone(limit, limit, RATIO_SCALE_BP + 1, q);
      }
    }
  }

  /** A ratio above the documented bound: one call more than the limit remains. */
  lemma RatioCanExceedScale()
    ensures RatioBp(5_001, 5_000) == 10_002
  {
  }

  /** The bottleneck's reset is the latest reset among the resources with the smallest ratio. */
  lemma BottleneckResetIsLatest(s: RateLimitSnapshot)
    ensures s.CoreRatio() == s.BottleneckRatioBp() ==> s.coreResetAt <= s.BottleneckResetAt()
    ensures s.GraphqlRatio() == s.BottleneckRatioBp() ==> s.graphqlResetAt <= s.BottleneckResetAt()
    ensures || (s.CoreRatio() == s.BottleneckRatioBp() && s.coreResetAt == s.BottleneckResetAt())
            || (s.GraphqlRatio() == s.BottleneckRatioBp() && s.graphqlResetAt == s.BottleneckResetAt())
  {
  }

  /** Waiting for the bottleneck's reset waits for the reset of an exhausted resource exactly when that resource has a
      limit, or the other resource is no nearer to its own limit, or resets no earlier: without a limit a resource
      counts as exhausted and yet as full. */
  lemma BottleneckCoversExhaustedIff(s: RateLimitSnapshot)
    ensures s.coreRemaining == 0 ==>
              (s.coreResetAt <= s.BottleneckResetAt() <==>
                 s.coreLimit > 0 || s.GraphqlRatio() >= RATIO_SCALE_BP || s.coreResetAt <= s.graphqlResetAt)
    ensures s.graphqlRemaining == 0 ==>
              (s.graphqlResetAt <= s.BottleneckResetAt() <==>
                 s.graphqlLimit > 0 || s.CoreRatio() >= RATIO_SCALE_BP || s.graphqlResetAt <= s.coreResetAt)
  {
    RatioMonotone(0, s.coreRemaining, s.coreLimit);
    RatioMonotone(0, s.graphqlRemaining, s.graphqlLimit);
  }

  /** An exhausted resource whose reset the bottleneck misses. */
  lemma ExhaustedWithoutLimitMissed()
    ensures exists s: RateLimitSnapshot ::
              s.IsExhausted() && s.coreRemaining == 0 && s.BottleneckResetAt() < s.coreResetAt
  {
    var s := RateLimitSnapshot(0, 0, 1, 2, 100, 50, 0);
    assert RatioBp(0, 0) == 10_000 && RatioBp(1, 2) == 5_000;
    assert s.BottleneckResetAt() == 50;
  }
}
