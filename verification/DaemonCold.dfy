/** Slowing down for entries nobody asks about: the count of cold refreshes over a run. */
module DaemonCold {
  import opened Numbers
  import opened RateLimit
  import opened CacheEntries
  import opened RefreshPolicies
  import opened Transitions
  import opened DaemonRuns

  /** The step is no query for `id`, does not drop its entry, and completes it, if at all, as warm. */
  ghost predicate LeavesIdle(st: Step, id: RepoId) {
    !Queries(st, id) && !Expires(st, id) && (Completes(st, id) ==> st.event.completion.refreshMode.Warm?)
  }

  /** Strictly between the two steps nobody asks for `id`, its entry is not dropped, and every completion is warm. */
  ghost predicate Unasked(h: seq<Step>, i: nat, j: nat, id: RepoId)
    requires i <= j <= |h|
  {
    forall k: nat | i < k < j :: LeavesIdle(h[k], id)
  }

  /** The entry is warm, was last queried long enough ago to be cold, and has had `n` cold refreshes. */
  predicate ColdWith(cfg: Config, e: Option<CacheEntry>, now: Instant, n: nat) {
    && e.Some? && e.value.refreshMode.Warm? && IsCold(e.value, cfg.policy.warmToColdSecs, now)
    && e.value.coldRefreshCount >= Min(n, U32_MAX)
  }

  lemma StaysCold(e: CacheEntry, warmToColdSecs: u64, before: Instant, now: Instant)
    requires IsCold(e, warmToColdSecs, before) && before <= now
    ensures IsCold(e, warmToColdSecs, now)
  {
    ElapsedAtLeast(e.lastQueriedAt.value, before, warmToColdSecs);
    ElapsedAtLeast(e.lastQueriedAt.value, now, warmToColdSecs);
  }

  lemma ColdKept(cfg: Config, st: Step, id: RepoId, before: Instant, n: nat)
    requires EntryStep(cfg, st, id) && (st.event.Tick? ==> before <= st.event.Time())
    requires LeavesIdle(st, id)
    requires ColdWith(cfg, Lookup(st.pre.entries, id), before, n)
    ensures ColdWith(cfg, Lookup(st.post.entries, id), if st.event.Tick? then st.event.Time() else before,
                     if TickSpawns(st, id) then n + 1 else n)
  {
    if st.event.Tick? { StaysCold(st.pre.entries[id], cfg.policy.warmToColdSecs, before, st.event.Time()); }
  }

  lemma {:induction false} ColdHeld(cfg: Config, h: seq<Step>, i: nat, m: nat, id: RepoId, n: nat)
    requires IsRun(cfg, h) && Clocked(h) && i < m <= |h| && Unasked(h, i, m, id)
    requires ColdWith(cfg, Lookup(h[i].post.entries, id), TickClock(h, i + 1), n)
    ensures ColdWith(cfg, Lookup(h[m - 1].post.entries, id), TickClock(h, m), n)
    decreases m - i
  {
    if i + 1 < m {
      ColdHeld(cfg, h, i, m - 1, id, n);
      ColdKeptAt(cfg, h, m - 1, id, n);
    }
  }

  lemma ColdKeptAt(cfg: Config, h: seq<Step>, m: nat, id: RepoId, n: nat)
    requires IsRun(cfg, h) && Clocked(h) && 0 < m < |h|
    requires LeavesIdle(h[m], id)
    requires ColdWith(cfg, Lookup(h[m - 1].post.entries, id), TickClock(h, m), n)
    ensures ColdWith(cfg, Lookup(h[m].post.entries, id), TickClock(h, m + 1),
                     if TickSpawns(h[m], id) then n + 1 else n)
  {
    RunStep(cfg, h, m, id);
    if h[m].event.Tick? { TickClockBelow(h, m, m); }
    ColdKept(cfg, h[m], id, TickClock(h, m), n);
  }

  /** A tick's refresh of a cold entry with enough cold refreshes behind it waited the late cold interval. */
  lemma ColdTickWaits(cfg: Config, h: seq<Step>, j: nat, id: RepoId, n: nat)
    requires IsRun(cfg, h) && Clocked(h) && 0 < j < |h| && TickSpawns(h[j], id)
    requires cfg.policy.hotRecentQuerySecs < cfg.policy.warmToColdSecs && n >= cfg.policy.coldEarlyLimit
    requires ColdWith(cfg, Lookup(h[j - 1].post.entries, id), TickClock(h, j), n)
    ensures id in h[j].pre.entries
    ensures SatSub(TimeAt(h, j), h[j].pre.entries[id].fetchedAt) >= cfg.policy.coldLateSecs * NANOS_PER_SEC
  {
    RunStep(cfg, h, j, id);
    TickClockBelow(h, j, j);
    var e, now := h[j].pre.entries[id], TimeAt(h, j);
    StaysCold(e, cfg.policy.warmToColdSecs, TickClock(h, j), now);
    var cost := TotalCost(Survivors(h[j].pre.entries, cfg.TickAt(now, h[j].event.nowWall)));
    ScaledIntervalLowerBounds(cfg.policy, e, h[j].pre.latestRateLimit, cost, now, h[j].event.nowWall);
    ElapsedAtLeast(e.fetchedAt, now, cfg.policy.coldLateSecs);
  }

  /** The first refresh of an entry that has been cold counts as one. */
  lemma FirstColdRefresh(cfg: Config, h: seq<Step>, i: nat, id: RepoId)
    requires IsRun(cfg, h) && i < |h| && TickSpawns(h[i], id)
    requires id in h[i].pre.entries && h[i].pre.entries[id].refreshMode.Warm?
    requires IsCold(h[i].pre.entries[id], cfg.policy.warmToColdSecs, TimeAt(h, i))
    ensures ColdWith(cfg, Lookup(h[i].post.entries, id), TickClock(h, i + 1), 1)
  {
    RunStep(cfg, h, i, id);
  }

  /** The steps `at` are refreshes that ticks start for `id`, in order, while nobody asks for it; the entry is warm
      and cold when the first of them is started. */
  ghost predicate ColdRefreshes(cfg: Config, h: seq<Step>, at: seq<nat>, id: RepoId) {
    && TickRefreshes(h, at, id)
    && (forall a, k: nat | 0 <= a < |at| && at[0] < k <= at[a] :: LeavesIdle(h[k], id))
    && id in h[at[0]].pre.entries && h[at[0]].pre.entries[id].refreshMode.Warm?
    && IsCold(h[at[0]].pre.entries[id], cfg.policy.warmToColdSecs, TimeAt(h, at[0]))
  }

  /** The entry's counter keeps up with the refreshes. */
  lemma {:induction false} ColdCountGrows(cfg: Config, h: seq<Step>, at: seq<nat>, id: RepoId)
    requires IsRun(cfg, h) && Clocked(h) && ColdRefreshes(cfg, h, at, id)
    ensures ColdWith(cfg, Lookup(h[at[|at| - 1]].post.entries, id), TimeAt(h, at[|at| - 1]), |at|)
    ensures TickClock(h, at[|at| - 1] + 1) == TimeAt(h, at[|at| - 1])
  {
    if |at| == 1 {
      FirstColdRefresh(cfg, h, at[0], id);
    } else {
      var front, i, j := at[..|at| - 1], at[|at| - 2], at[|at| - 1];
      ColdCountGrows(cfg, h, front, id);
      assert at[0] <= i < j;
      ColdHeld(cfg, h, i, j, id, |front|);
      ColdKeptAt(cfg, h, j, id, |front|);
    }
  }

  /** After as many cold refreshes as the early limit, the next one waits the late cold interval, or the lock
      timeout when that is shorter and the refresh before it was lost. */
  lemma ColdSlowsDown(cfg: Config, h: seq<Step>, at: seq<nat>, id: RepoId)
    requires IsRun(cfg, h) && Clocked(h) && ColdRefreshes(cfg, h, at, id)
    requires cfg.policy.hotRecentQuerySecs < cfg.policy.warmToColdSecs
    requires |at| > 1 && |at| - 1 >= cfg.policy.coldEarlyLimit
    ensures TimeAt(h, at[|at| - 1])
         >= TimeAt(h, at[|at| - 2]) + Min(cfg.refreshLockTimeoutSecs, cfg.policy.coldLateSecs) * NANOS_PER_SEC
  {
    var front, i, j := at[..|at| - 1], at[|at| - 2], at[|at| - 1];
    var gap := Min(cfg.refreshLockTimeoutSecs, cfg.policy.coldLateSecs) * NANOS_PER_SEC;
    ColdCountGrows(cfg, h, front, id);
    assert at[0] <= i < j;
    ColdHeld(cfg, h, i, j, id, |front|);
    ColdTickWaits(cfg, h, j, id, |front|);
    TickSpacingOrFetched(cfg, h, i, j, id, gap);
  }
}
