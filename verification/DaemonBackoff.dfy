/** The rate-limit backoff over runs: when it starts, when it ends, and what is quiet in between. */
module DaemonBackoff {
  import opened Numbers
  import opened RateLimit
  import opened CacheEntries
  import opened Transitions
  import opened DaemonRuns

  ghost predicate AnnouncesBackoff(st: Step) { exists until :: EnterBackoff(until) in st.effects }

  /** A tick before the end of the backoff changes nothing at all. */
  lemma QuietTick(cfg: Config, st: Step)
    requires Next(cfg, st) && st.event.Tick? && st.pre.backoffUntil.Some? && st.event.now < st.pre.backoffUntil.value
    ensures st.post == st.pre && st.effects == []
  {
    assert multiset(st.effects) == multiset{};
    assert |multiset(st.effects)| == |st.effects|;
  }

  /** The backoff changes only by a tick that is not before its end, which clears it, or by an observation whose
      bottleneck reset lies ahead and whose quota is exhausted or at most 5 percent; such an observation sets it
      to the reset plus the margin and announces it, and nothing else is ever announced. */
  lemma BackoffChanges(cfg: Config, st: Step)
    requires Next(cfg, st)
    ensures st.post.backoffUntil != st.pre.backoffUntil ==>
              || (st.event.Tick? && st.pre.backoffUntil.Some? && st.event.now >= st.pre.backoffUntil.value
                  && st.post.backoffUntil.None?)
              || (st.event.Observed? && AnnouncesBackoff(st))
    ensures AnnouncesBackoff(st) <==> st.event.Observed? && st.post.backoffUntil != st.pre.backoffUntil
    ensures AnnouncesBackoff(st) ==>
              var ev := st.event.observation;
              && (ev.snapshot.IsExhausted() || ev.snapshot.BottleneckRatioBp() <= 500)
              && ev.snapshot.BottleneckResetAt() >= ev.nowWall
              && st.post.backoffUntil == Some(ev.now + (ev.snapshot.BottleneckResetAt() - ev.nowWall) + 1_500_000_000)
              && st.effects == [EnterBackoff(st.post.backoffUntil.value)]
  {
    match st.event
    case Query(_, _, _, _, _) =>
    case Completed(_, _) =>
    case Tick(now, nowWall) => TickNeverAnnounces(cfg, st);
    case Observed(ev) =>
      if st.post.backoffUntil != st.pre.backoffUntil {
        assert st.effects[0] == EnterBackoff(st.post.backoffUntil.value);
      }
  }

  /** A resource is low when less than 5.01 percent of its limit is left. */
  predicate IsLow(remaining: nat, limit: nat) { limit > 0 && 10_000 * remaining < 501 * limit }

  /** An observation is stored. It sets the backoff to the bottleneck's reset, 1.5 seconds later, exactly when a
      resource is exhausted or low and that reset is not past, and announces it exactly when it changes. */
  lemma ObservationSets(cfg: Config, st: Step)
    requires Next(cfg, st) && st.event.Observed?
    ensures var ev, s := st.event.observation, st.event.observation.snapshot;
            var scarce := || s.coreRemaining == 0 || s.graphqlRemaining == 0
                          || IsLow(s.coreRemaining, s.coreLimit) || IsLow(s.graphqlRemaining, s.graphqlLimit);
            && st.post.backoffUntil
               == (if scarce && s.BottleneckResetAt() >= ev.nowWall
                   then Some(ev.now + (s.BottleneckResetAt() - ev.nowWall) + 1_500_000_000)
                   else st.pre.backoffUntil)
            && st.post.latestRateLimit == Some(s)
    ensures st.post.entries == st.pre.entries
    ensures st.effects == if st.post.backoffUntil != st.pre.backoffUntil then [EnterBackoff(st.post.backoffUntil.value)]
                          else []
  {
    var s := st.event.observation.snapshot;
    RatioAtMostIff(s.coreRemaining, s.coreLimit, 500);
    RatioAtMostIff(s.graphqlRemaining, s.graphqlLimit, 500);
  }

  lemma TickNeverAnnounces(cfg: Config, st: Step)
    requires Next(cfg, st) && st.event.Tick?
    ensures !AnnouncesBackoff(st)
  {
    TickEffectsExact(cfg, st, "");
  }

  lemma BackoffChangesAt(cfg: Config, h: seq<Step>, m: nat, until: Instant)
    requires IsRun(cfg, h) && 0 < m < |h| && h[m - 1].post.backoffUntil == Some(until)
    requires !AnnouncesBackoff(h[m]) && (h[m].event.Tick? ==> TimeAt(h, m) < until)
    ensures h[m].post.backoffUntil == Some(until)
  {
    assert StepOk(cfg, h, m);
    BackoffChanges(cfg, h[m]);
  }

  /** A backoff lasts until its end or until another one is announced. */
  lemma {:induction false} BackoffLasts(cfg: Config, h: seq<Step>, i: nat, m: nat, until: Instant)
    requires IsRun(cfg, h) && i <= m < |h| && h[i].post.backoffUntil == Some(until)
    requires forall k | i < k <= m :: !AnnouncesBackoff(h[k]) && (h[k].event.Tick? ==> TimeAt(h, k) < until)
    ensures h[m].post.backoffUntil == Some(until)
    decreases m - i
  {
    if i < m {
      BackoffLasts(cfg, h, i, m - 1, until);
      BackoffChangesAt(cfg, h, m, until);
    }
  }

  /** Once a backoff until `until` is announced, every tick before `until` is quiet, whatever queries, completions
      and observations happen in between, unless another backoff is announced first. */
  lemma BackoffWindowIsQuiet(cfg: Config, h: seq<Step>, i: nat, j: nat, until: Instant)
    requires IsRun(cfg, h) && Clocked(h) && i < j < |h|
    requires EnterBackoff(until) in h[i].effects
    requires h[j].event.Tick? && TimeAt(h, j) < until
    requires forall k | i < k < j :: !AnnouncesBackoff(h[k])
    ensures h[j].effects == [] && h[j].post == h[j].pre
  {
    assert StepOk(cfg, h, i) && StepOk(cfg, h, j);
    assert forall k: nat | k < j && h[k].event.Tick? :: TimeAt(h, k) <= TimeAt(h, j);
    BackoffChanges(cfg, h[i]);
    BackoffLasts(cfg, h, i, j - 1, until);
    QuietTick(cfg, h[j]);
  }

  /** Seeing the same snapshot again, with the clock and the wall clock advanced by the same amount and the reset
      still ahead, announces nothing and leaves the backoff as it was, when no tick handled in between carries a time
      later than the second observation's. */
  lemma SameSnapshotAgain(cfg: Config, h: seq<Step>, i: nat, j: nat, elapsed: nat)
    requires IsRun(cfg, h) && i < j < |h|
    requires h[i].event.Observed? && h[j].event.Observed?
    requires var a, b := h[i].event.observation, h[j].event.observation;
             && b == RateLimitObservedEvent(a.snapshot, a.now + elapsed, a.nowWall + elapsed)
             && a.snapshot.BottleneckResetAt() >= b.nowWall
    requires forall k | i < k < j :: !AnnouncesBackoff(h[k]) && (h[k].event.Tick? ==> TimeAt(h, k) <= TimeAt(h, j))
    ensures h[j].effects == [] && h[j].post.backoffUntil == h[j].pre.backoffUntil
  {
    assert StepOk(cfg, h, i) && StepOk(cfg, h, j);
    var a := h[i].event.observation;
    if ShouldEnterBackoff(a.snapshot) {
      var until := a.now + (a.snapshot.BottleneckResetAt() - a.nowWall) + BACKOFF_SAFETY_MARGIN;
      assert TimeAt(h, j) < until;
      BackoffLasts(cfg, h, i, j - 1, until);
    }
  }
}
