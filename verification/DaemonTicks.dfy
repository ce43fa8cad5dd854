/** What a tick must do, read off the run: which entries it drops, which it refreshes, and what else it and a query
    change. */
module DaemonTicks {
  import opened Numbers
  import opened RateLimit
  import opened RefreshModes
  import opened CacheEntries
  import opened RefreshPolicies
  import opened Transitions
  import opened DaemonRuns
  import opened DaemonAnswers

  /** The time of the last query for `id` among the first `n` steps. */
  function LastQuery(h: seq<Step>, n: nat, id: RepoId): Option<Instant>
    requires n <= |h|
  {
    if n == 0 then None
    else if h[n - 1].event.Query? && h[n - 1].event.id == id then Some(TimeAt(h, n - 1))
    else LastQuery(h, n - 1, id)
  }

  lemma LastQueryStep(cfg: Config, h: seq<Step>, m: nat, id: RepoId)
    requires IsRun(cfg, h) && m < |h| && id in h[m].post.entries
    ensures Queries(h[m], id) ==> h[m].post.entries[id].lastQueriedAt == Some(TimeAt(h, m))
    ensures !Queries(h[m], id) ==>
              id in h[m].pre.entries && h[m].post.entries[id].lastQueriedAt == h[m].pre.entries[id].lastQueriedAt
  {
    RunStep(cfg, h, m, id);
  }

  /** An entry remembers the last query for it. */
  lemma {:induction false} LastQueriedIs(cfg: Config, h: seq<Step>, n: nat, id: RepoId)
    requires IsRun(cfg, h) && n <= |h| && id in StoreBefore(h, n).entries
    ensures LastQuery(h, n, id).Some? && StoreBefore(h, n).entries[id].lastQueriedAt == LastQuery(h, n, id)
  {
    LastQueryStep(cfg, h, n - 1, id);
    if !Queries(h[n - 1], id) {
      assert StepOk(cfg, h, n - 1);
      LastQueriedIs(cfg, h, n - 1, id);
    }
  }

  /** Step `j` is a tick outside a backoff, and `id` has an entry. */
  ghost predicate TickMeets(h: seq<Step>, j: nat, id: RepoId) {
    j < |h| && h[j].event.Tick? && OutsideBackoff(h[j]) && id in h[j].pre.entries
  }

  /** The whole seconds since the last query for `id`. */
  function Age(h: seq<Step>, j: nat, id: RepoId): nat
    requires j < |h| && LastQuery(h, j, id).Some?
  {
    ElapsedSecs(LastQuery(h, j, id).value, TimeAt(h, j))
  }

  /** A tick outside a backoff drops exactly the entries nobody has asked about for the maximum age. */
  lemma IdleEntryDroppedIff(cfg: Config, h: seq<Step>, j: nat, id: RepoId)
    requires IsRun(cfg, h) && TickMeets(h, j, id)
    ensures LastQuery(h, j, id).Some?
    ensures Age(h, j, id) >= cfg.entryMaxAgeSecs <==> id !in h[j].post.entries
    ensures id !in h[j].post.entries <==> Expires(h[j], id)
  {
    RunStep(cfg, h, j, id);
    LastQueriedIs(cfg, h, j, id);
  }

  /** The calls a refresh of everything still alive would make. */
  ghost function CycleCost(cfg: Config, st: Step): u64
    requires st.event.Tick?
  {
    TotalCost(Survivors(st.pre.entries, cfg.TickAt(st.event.now, st.event.nowWall)))
  }

  /** How long a tick waits before it refreshes an entry again. */
  ghost function Interval(cfg: Config, h: seq<Step>, j: nat, id: RepoId): nat
    requires TickMeets(h, j, id) && LastQuery(h, j, id).Some?
  {
    var e := h[j].pre.entries[id];
    var pace := PaceOf(cfg.policy, e.refreshMode, Age(h, j, id), e.coldRefreshCount);
    if pace.base == U64_MAX then U64_MAX
    else
      match h[j].pre.latestRateLimit
      case None => pace.base
      case Some(s) => PlainInterval(pace, s, cfg.policy.coldLateSecs, CycleCost(cfg, h[j]), h[j].event.nowWall)
  }

  /** A tick outside a backoff refreshes an entry that is not idle exactly when the entry has an output, is not
      terminal, holds no lock younger than the timeout, and was fetched its interval ago. */
  lemma TickRefreshesIff(cfg: Config, h: seq<Step>, j: nat, id: RepoId)
    requires IsRun(cfg, h) && TickMeets(h, j, id) && id in h[j].post.entries
    ensures LastQuery(h, j, id).Some?
    ensures var e := h[j].pre.entries[id];
            Spawns(h[j], id) <==>
              && e.output != "" && !e.refreshMode.Terminal?
              && (e.refreshStartedAt.Some? ==>
                    ElapsedSecs(e.refreshStartedAt.value, TimeAt(h, j)) >= cfg.refreshLockTimeoutSecs)
              && ElapsedSecs(e.fetchedAt, TimeAt(h, j)) >= Interval(cfg, h, j, id)
  {
    RunStep(cfg, h, j, id);
    LastQueriedIs(cfg, h, j, id);
    var e := h[j].pre.entries[id];
    if !e.refreshMode.Terminal? { IntervalIs(cfg, h, j, id); }
  }

  lemma IntervalIs(cfg: Config, h: seq<Step>, j: nat, id: RepoId)
    requires TickMeets(h, j, id) && LastQuery(h, j, id).Some?
    requires h[j].pre.entries[id].lastQueriedAt == LastQuery(h, j, id) && !h[j].pre.entries[id].refreshMode.Terminal?
    ensures cfg.policy.ScaledIntervalSecs(h[j].pre.entries[id], h[j].pre.latestRateLimit, CycleCost(cfg, h[j]),
                                          TimeAt(h, j), h[j].event.nowWall)
         == Interval(cfg, h, j, id)
  {
    var e := h[j].pre.entries[id];
    PaceIsPolicy(cfg.policy, e, TimeAt(h, j));
    if h[j].pre.latestRateLimit.Some? {
      ScaledIntervalIsPlain(cfg.policy, e, h[j].pre.latestRateLimit.value, CycleCost(cfg, h[j]), TimeAt(h, j),
                            h[j].event.nowWall);
    }
  }

  /** The first refresh after a completion with an output: a tick outside a backoff starts it exactly when the interval
      has passed since, unless the completion was terminal or nobody asks for the entry any more. */
  lemma NextTickRefreshIff(cfg: Config, h: seq<Step>, i: nat, j: nat, id: RepoId)
    requires IsRun(cfg, h) && i < j < |h| && Completes(h[i], id) && id in h[i].pre.entries
    requires h[i].event.completion.output != ""
    requires forall k | i < k < j :: !Releases(h[k], id) && !Spawns(h[k], id)
    requires h[j].event.Tick? && OutsideBackoff(h[j])
    ensures TickMeets(h, j, id) && LastQuery(h, j, id).Some?
    ensures h[j].pre.entries[id].refreshMode == h[i].event.completion.refreshMode
    ensures Spawns(h[j], id) <==>
              && !h[i].event.completion.refreshMode.Terminal? && Age(h, j, id) < cfg.entryMaxAgeSecs
              && ElapsedSecs(TimeAt(h, i), TimeAt(h, j)) >= Interval(cfg, h, j, id)
  {
    CompletionKept(cfg, h, i, j - 1, id);
    PreIsPost(cfg, h, j);
    RunStep(cfg, h, j, id);
    IdleEntryDroppedIff(cfg, h, j, id);
    if id in h[j].post.entries { TickRefreshesIff(cfg, h, j, id); }
  }

  /** Everything a tick outside a backoff changes in an entry it keeps: the lock, taken anew by a refresh and given up
      once it has timed out, and the count of cold refreshes. */
  lemma TickChanges(cfg: Config, h: seq<Step>, j: nat, id: RepoId)
    requires IsRun(cfg, h) && TickMeets(h, j, id) && id in h[j].post.entries
    ensures LastQuery(h, j, id).Some?
    ensures var e, e', now := h[j].pre.entries[id], h[j].post.entries[id], TimeAt(h, j);
            var started := Spawns(h[j], id);
            var freed := || started
                         || (e.output != "" && !e.refreshMode.Terminal? && e.refreshStartedAt.Some?
                             && ElapsedSecs(e.refreshStartedAt.value, now) >= cfg.refreshLockTimeoutSecs);
            var counted := started && e.refreshMode.Warm? && Age(h, j, id) >= cfg.policy.warmToColdSecs;
            && (e'.output, e'.prOutputs, e'.cwd, e'.branch) == (e.output, e.prOutputs, e.cwd, e.branch)
            && (e'.fetchedAt, e'.fetchedAtWall) == (e.fetchedAt, e.fetchedAtWall)
            && (e'.refreshMode, e'.lastQueriedAt) == (e.refreshMode, e.lastQueriedAt)
            && e'.refreshStartedAt == (if started then Some(now) else if freed then None else e.refreshStartedAt)
            && e'.fetchState == (if started then Refreshing else if freed then Ready else e.fetchState)
            && e'.coldRefreshCount == if counted then Min(e.coldRefreshCount + 1, U32_MAX) else e.coldRefreshCount
    ensures h[j].post.latestRateLimit == h[j].pre.latestRateLimit && h[j].post.backoffUntil.None?
  {
    assert StepOk(cfg, h, j);
    RunStep(cfg, h, j, id);
    LastQueriedIs(cfg, h, j, id);
  }

  /** Everything a query changes: the time of its entry's last query; the lock, the state and a terminal mode when it
      starts a refresh, which it does exactly for a stale entry without a lock; and the count of cold refreshes when the
      entry is stale and cold. */
  lemma QueryChanges(cfg: Config, h: seq<Step>, j: nat, id: RepoId)
    requires IsRun(cfg, h) && j < |h| && Queries(h[j], id) && id in h[j].pre.entries
    ensures id in h[j].post.entries && LastQuery(h, j, id).Some?
    ensures var e, e', now := h[j].pre.entries[id], h[j].post.entries[id], TimeAt(h, j);
            var stale := ElapsedSecs(e.fetchedAt, now) > TtlOf(cfg, e.refreshMode);
            var started := stale && e.refreshStartedAt.None?;
            && (e'.output, e'.prOutputs, e'.cwd, e'.branch) == (e.output, e.prOutputs, e.cwd, e.branch)
            && (e'.fetchedAt, e'.fetchedAtWall, e'.lastQueriedAt) == (e.fetchedAt, e.fetchedAtWall, Some(now))
            && e'.refreshMode == (if started && e.refreshMode.Terminal? then Warm else e.refreshMode)
            && e'.refreshStartedAt == (if started then Some(now) else e.refreshStartedAt)
            && e'.fetchState == (if started then Refreshing else e.fetchState)
            && e'.coldRefreshCount
               == (if stale && Age(h, j, id) >= cfg.policy.warmToColdSecs then 0 else e.coldRefreshCount)
            && h[j].effects == [EmitOutput(if stale && e.fetchState.Loading? then "? loading" else e.output)]
                               + if started then [SpawnRefresh(id, e.cwd)] else []
    ensures h[j].post == h[j].pre.(entries := h[j].pre.entries[id := h[j].post.entries[id]])
  {
    assert StepOk(cfg, h, j);
    RunStep(cfg, h, j, id);
    LastQueriedIs(cfg, h, j, id);
  }

  /** A refresh costs one call for each pull request and one more, and only of an entry that ticks refresh. */
  lemma EntryCost(entries: map<RepoId, CacheEntry>, ids: set<RepoId>, id: RepoId)
    requires ids <= entries.Keys && id in entries && id !in ids
    ensures SumCost(entries, {}) == 0
    ensures var e := entries[id];
            SumCost(entries, ids + {id})
              == SumCost(entries, ids) + if e.output != "" && !e.refreshMode.Terminal? then |e.prOutputs| + 1 else 0
  {
    SumCostRemove(entries, ids + {id}, id);
    assert ids + {id} - {id} == ids;
  }

  /** A query for an unknown id makes an entry that is loading, locked and warm, with the query's directory and branch;
      it counts as fetched one second longer ago than the time to live, when the clock has room for that. */
  lemma UnknownQueried(cfg: Config, st: Step, id: RepoId)
    requires Next(cfg, st) && Queries(st, id) && id !in st.pre.entries
    ensures id in st.post.entries
    ensures var e, now := st.post.entries[id], st.event.now;
            && (e.output, e.prOutputs, e.fetchState, e.refreshMode) == ("", [], Loading, Warm)
            && (e.cwd, e.branch, e.fetchedAtWall) == (st.event.cwd, st.event.branch, st.event.nowWall)
            && (e.refreshStartedAt, e.lastQueriedAt, e.coldRefreshCount) == (Some(now), Some(now), 0)
            && (HasRoom(cfg.staleTtlSecs, now) ==> e.fetchedAt == now - (cfg.staleTtlSecs + 1) * NANOS_PER_SEC)
            && (now < cfg.staleTtlSecs * NANOS_PER_SEC ==> e.fetchedAt == now)
    ensures st.effects == [EmitOutput("? loading"), SpawnRefresh(id, st.event.cwd)]
  {
  }
}
