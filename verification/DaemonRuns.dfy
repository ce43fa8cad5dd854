/** Runs of the daemon: sequences of events the actor handles one at a time, each with the effects it produced
    and the store before and after. The theorems are about every run, of any length, over any entries. */
module DaemonRuns {
  import opened Numbers
  import opened RateLimit
  import opened CacheEntries
  import opened RefreshPolicies
  import opened Transitions

  datatype Config = Config(
    policy: RefreshPolicy, staleTtlSecs: u64, refreshLockTimeoutSecs: u64, entryMaxAgeSecs: u64)
  {
    function TickAt(now: Instant, nowWall: SystemTime): TickInput {
      TickInput(now, nowWall, policy, refreshLockTimeoutSecs, entryMaxAgeSecs)
    }

    function QueryAt(cwd: Cwd, branch: string, now: Instant, nowWall: SystemTime): QueryEvent {
      QueryEvent(cwd, branch, now, nowWall, staleTtlSecs)
    }
  }

  datatype Event =
    | Query(id: RepoId, cwd: Cwd, branch: string, now: Instant, nowWall: SystemTime)
    | Completed(completedId: RepoId, completion: RefreshCompletedEvent)
    | Tick(now: Instant, nowWall: SystemTime)
    | Observed(observation: RateLimitObservedEvent)
  {
    function Time(): Instant {
      match this
      case Query(_, _, _, now, _) => now
      case Completed(_, ev) => ev.now
      case Tick(now, _) => now
      case Observed(ev) => ev.now
    }
  }

  datatype Step = Step(pre: CacheStore, event: Event, effects: seq<Effect>, post: CacheStore)

  ghost predicate Next(cfg: Config, st: Step) {
    match st.event
    case Query(id, cwd, branch, now, nowWall) =>
      var ev := cfg.QueryAt(cwd, branch, now, nowWall);
      st.post == QueryStore(st.pre, ev, id, cfg.policy) && st.effects == QueryEffects(st.pre, ev, id, cfg.policy)
    case Completed(id, ev) => st.post == CompletedStore(st.pre, id, ev) && st.effects == []
    case Tick(now, nowWall) =>
      && st.post == TickStore(st.pre, cfg.TickAt(now, nowWall))
      && TickEffects(st.pre, cfg.TickAt(now, nowWall), st.effects)
    case Observed(ev) => (st.post, st.effects) == OnRateLimitObserved(st.pre, ev)
  }

  function StoreBefore(h: seq<Step>, i: nat): CacheStore
    requires i <= |h|
  {
    if i == 0 then EMPTY_STORE else h[i - 1].post
  }

  ghost predicate StepOk(cfg: Config, h: seq<Step>, i: nat)
    requires i < |h|
  {
    Next(cfg, h[i]) && h[i].pre == StoreBefore(h, i)
  }

  ghost predicate IsRun(cfg: Config, h: seq<Step>) {
    forall i: nat | i < |h| :: StepOk(cfg, h, i)
  }

  function TimeAt(h: seq<Step>, i: nat): Instant
    requires i < |h|
  {
    h[i].event.Time()
  }

  /** The later of two events is handled no earlier than the time the earlier one carries. A query and a completion
      read the clock when they are handled; a tick and an observation read it before they are queued, and the next
      tick waits until the one before has been handled. */
  predicate OrderedBy(earlier: Event, later: Event) {
    later.Query? || later.Completed? || (earlier.Tick? && later.Tick?)
  }

  /** The clock never runs backwards. */
  ghost predicate Clocked(h: seq<Step>) {
    forall i: nat, j: nat | i <= j < |h| && OrderedBy(h[i].event, h[j].event) :: TimeAt(h, i) <= TimeAt(h, j)
  }

  /** The time of the last tick among the first `n` steps. */
  function TickClock(h: seq<Step>, n: nat): Instant
    requires n <= |h|
  {
    if n == 0 then 0 else if h[n - 1].event.Tick? then TimeAt(h, n - 1) else TickClock(h, n - 1)
  }

  lemma {:induction false} TickClockBelow(h: seq<Step>, n: nat, j: nat)
    requires Clocked(h) && n <= j < |h| && !h[j].event.Observed?
    ensures TickClock(h, n) <= TimeAt(h, j)
  {
    if n > 0 {
      if h[n - 1].event.Tick? {
        assert TimeAt(h, n - 1) <= TimeAt(h, j);
      } else {
        TickClockBelow(h, n - 1, j);
      }
    }
  }

  /** The step that handles a query, and the one that handles a completion. */
  function QueryStep(cfg: Config, pre: CacheStore, id: RepoId, cwd: Cwd, now: Instant): Step {
    var ev := cfg.QueryAt(cwd, "", now, 0);
    Step(pre, Query(id, cwd, "", now, 0), QueryEffects(pre, ev, id, cfg.policy), QueryStore(pre, ev, id, cfg.policy))
  }

  function CompletedStep(pre: CacheStore, id: RepoId, ev: RefreshCompletedEvent): Step {
    Step(pre, Completed(id, ev), [], CompletedStore(pre, id, ev))
  }

  // ---- one entry in one step -------------------------------------------------------------------

  ghost predicate Spawns(st: Step, id: RepoId) { exists cwd :: SpawnRefresh(id, cwd) in st.effects }

  ghost predicate TickSpawns(st: Step, id: RepoId) { st.event.Tick? && Spawns(st, id) }

  /** No backoff is announced, or the step is not before its end. */
  predicate OutsideBackoff(st: Step) { st.pre.backoffUntil.Some? ==> st.pre.backoffUntil.value <= st.event.Time() }

  ghost predicate Expires(st: Step, id: RepoId) { RecordExpired(id) in st.effects }

  ghost predicate Completes(st: Step, id: RepoId) { st.event.Completed? && st.event.completedId == id }

  ghost predicate Queries(st: Step, id: RepoId) { st.event.Query? && st.event.id == id }

  /** What a step does to the entry of `id`, seen on its own. */
  ghost predicate EntryStep(cfg: Config, st: Step, id: RepoId) {
    var pre, post := Lookup(st.pre.entries, id), Lookup(st.post.entries, id);
    if Queries(st, id) then
      var ev := cfg.QueryAt(st.event.cwd, st.event.branch, st.event.now, st.event.nowWall);
      && post == Some(QueriedEntry(pre, ev, cfg.policy))
      && (Spawns(st, id) <==> QuerySpawns(pre, ev, cfg.policy)) && !Expires(st, id)
    else if Completes(st, id) then
      && post == (if pre.None? then None else Some(pre.value.WithRefreshCompleted(st.event.completion)))
      && !Spawns(st, id) && !Expires(st, id)
    else if st.event.Tick? && pre.Some? && !st.pre.IsBackedOff(st.event.now) then
      TickStep(cfg.TickAt(st.event.now, st.event.nowWall), st.pre.latestRateLimit,
               TotalCost(Survivors(st.pre.entries, cfg.TickAt(st.event.now, st.event.nowWall))),
               pre.value, post, Expires(st, id), Spawns(st, id))
    else post == pre && !Spawns(st, id) && !Expires(st, id)
  }

  predicate TickStep(input: TickInput, snapshot: Option<RateLimitSnapshot>, totalCost: u64, pre: CacheEntry,
                     post: Option<CacheEntry>, expires: bool, spawns: bool)
  {
    if IsExpired(pre, input.entryMaxAgeSecs, input.now) then post.None? && expires && !spawns
    else
      && post == Some(TickedEntry(pre, input, snapshot, totalCost))
      && !expires && spawns == Due(pre, input, snapshot, totalCost)
  }

  lemma NextEntry(cfg: Config, st: Step, id: RepoId)
    requires Next(cfg, st)
    ensures EntryStep(cfg, st, id)
  {
    match st.event
    case Query(qid, cwd, branch, now, nowWall) => QueryEntryStep(cfg, st, id);
    case Completed(_, _) =>
    case Tick(now, nowWall) => TickEntryStep(cfg, st, id);
    case Observed(_) =>
  }

  lemma QueryEntryStep(cfg: Config, st: Step, id: RepoId)
    requires Next(cfg, st) && st.event.Query?
    ensures EntryStep(cfg, st, id)
  {
    var ev := cfg.QueryAt(st.event.cwd, st.event.branch, st.event.now, st.event.nowWall);
    var e := Lookup(st.pre.entries, st.event.id);
    if QuerySpawns(e, ev, cfg.policy) {
      assert st.effects[1] == SpawnRefresh(st.event.id, if e.None? then ev.cwd else e.value.cwd);
    }
  }

  lemma TickEntryStep(cfg: Config, st: Step, id: RepoId)
    requires Next(cfg, st) && st.event.Tick?
    ensures EntryStep(cfg, st, id)
  {
    var input := cfg.TickAt(st.event.now, st.event.nowWall);
    TickMembership(st.pre, input, st.effects, id);
  }

  /** Which effects a tick lists for one id. */
  lemma TickMembership(store: CacheStore, input: TickInput, effects: seq<Effect>, id: RepoId)
    requires TickEffects(store, input, effects)
    ensures RecordExpired(id) in effects <==>
              && !store.IsBackedOff(input.now) && id in store.entries
              && IsExpired(store.entries[id], input.entryMaxAgeSecs, input.now)
    ensures forall cwd :: SpawnRefresh(id, cwd) in effects <==>
              var kept := Survivors(store.entries, input);
              && !store.IsBackedOff(input.now) && id in kept && cwd == kept[id].cwd
              && Due(kept[id], input, store.latestRateLimit, TotalCost(kept))
  {
    forall cwd {
      OwedMembership(store, input, effects, SpawnRefresh(id, cwd));
    }
    OwedMembership(store, input, effects, RecordExpired(id));
  }

  lemma OwedMembership(store: CacheStore, input: TickInput, effects: seq<Effect>, x: Effect)
    requires TickEffects(store, input, effects)
    ensures x in effects <==> x in OwedEffects(store, input)
    ensures multiset(effects)[x] <= 1
  {
    assert x in multiset(effects) <==> x in multiset(OwedEffects(store, input));
    assert multiset(effects)[x] == multiset(OwedEffects(store, input))[x];
  }

  /** A tick lists nothing twice and nothing but expiries and spawns; an expired id leaves the store and is not
      refreshed; a refreshed id is refreshed once, in its own directory. */
  lemma TickEffectsExact(cfg: Config, st: Step, id: RepoId)
    requires Next(cfg, st) && st.event.Tick?
    ensures forall x :: multiset(st.effects)[x] <= 1 && (x in st.effects ==> x.RecordExpired? || x.SpawnRefresh?)
    ensures Expires(st, id) ==> id in st.pre.entries && id !in st.post.entries && !Spawns(st, id)
    ensures !Expires(st, id) ==> (id in st.pre.entries <==> id in st.post.entries)
    ensures forall cwd, cwd' ::
              SpawnRefresh(id, cwd) in st.effects && SpawnRefresh(id, cwd') in st.effects ==> cwd == cwd'
    ensures forall cwd :: SpawnRefresh(id, cwd) in st.effects ==>
              id in st.pre.entries && id in st.post.entries && cwd == st.pre.entries[id].cwd == st.post.entries[id].cwd
  {
    var input := cfg.TickAt(st.event.now, st.event.nowWall);
    TickMembership(st.pre, input, st.effects, id);
    forall x ensures multiset(st.effects)[x] <= 1 && (x in st.effects ==> x.RecordExpired? || x.SpawnRefresh?) {
      OwedMembership(st.pre, input, st.effects, x);
    }
  }

  /** Two ticks from the same store at the same times end in the same store with the same effects up to order,
      however the two hash maps happened to be walked. */
  lemma TickIgnoresMapOrder(cfg: Config, a: Step, b: Step)
    requires Next(cfg, a) && Next(cfg, b)
    requires a.event.Tick? && a.event == b.event && a.pre == b.pre
    ensures a.post == b.post && multiset(a.effects) == multiset(b.effects)
  {
  }

  // ---- the inductive invariant -----------------------------------------------------------------

  /** What every reachable entry satisfies. */
  predicate WellKept(e: CacheEntry) {
    && !e.fetchState.PendingRetry?
    && (e.fetchState.Loading? ==> e.output == "" && e.prOutputs == [] && e.refreshMode.Warm?)
    && (e.refreshStartedAt.Some? <==> e.IsRefreshing())
    && (e.fetchState.Refreshing? ==> !e.refreshMode.Terminal?)
    && e.lastQueriedAt.Some?
  }

  ghost predicate AllWellKept(store: CacheStore) {
    forall id | id in store.entries :: WellKept(store.entries[id])
  }

  lemma EntryStepKeeps(cfg: Config, st: Step, id: RepoId)
    requires EntryStep(cfg, st, id)
    requires id in st.pre.entries ==> WellKept(st.pre.entries[id])
    ensures id in st.post.entries ==> WellKept(st.post.entries[id])
  {
  }

  lemma StepKeepsAll(cfg: Config, st: Step)
    requires Next(cfg, st) && AllWellKept(st.pre)
    ensures AllWellKept(st.post)
  {
    forall id: RepoId | id in st.post.entries ensures WellKept(st.post.entries[id]) {
      NextEntry(cfg, st, id);
      EntryStepKeeps(cfg, st, id);
    }
  }

  /** Every entry of every reachable store is well kept; in particular no entry ever waits for a retry. */
  lemma {:induction false} ReachableWellKept(cfg: Config, h: seq<Step>, i: nat)
    requires IsRun(cfg, h) && i <= |h|
    ensures AllWellKept(StoreBefore(h, i))
  {
    if i > 0 {
      ReachableWellKept(cfg, h, i - 1);
      assert StepOk(cfg, h, i - 1);
      StepKeepsAll(cfg, h[i - 1]);
    }
  }

  /** The facts about step `i` of a run that the proofs below start from. */
  lemma RunStep(cfg: Config, h: seq<Step>, i: nat, id: RepoId)
    requires IsRun(cfg, h) && i < |h|
    ensures EntryStep(cfg, h[i], id) && h[i].pre == StoreBefore(h, i)
    ensures id in h[i].pre.entries ==> WellKept(h[i].pre.entries[id])
  {
    assert StepOk(cfg, h, i);
    NextEntry(cfg, h[i], id);
    ReachableWellKept(cfg, h, i);
  }

  // ---- the refresh lock ------------------------------------------------------------------------

  /** A refresh of `id` that was started is over: its completion arrived or the entry was dropped. */
  ghost predicate Releases(st: Step, id: RepoId) { Completes(st, id) || Expires(st, id) }

  function TimeoutNanos(cfg: Config): nat { cfg.refreshLockTimeoutSecs * NANOS_PER_SEC }

  /** The lock taken at `t` is still held, or at `now` it has timed out. */
  predicate LockedSince(cfg: Config, e: Option<CacheEntry>, t: Instant, now: Instant) {
    && e.Some?
    && ((e.value.IsRefreshing() && e.value.refreshStartedAt == Some(t))
        || ElapsedSecs(t, now) >= cfg.refreshLockTimeoutSecs)
  }

  lemma LockKept(cfg: Config, st: Step, id: RepoId, t: Instant, before: Instant)
    requires EntryStep(cfg, st, id) && (id in st.pre.entries ==> WellKept(st.pre.entries[id]))
    requires st.event.Observed? || before <= st.event.Time()
    requires LockedSince(cfg, Lookup(st.pre.entries, id), t, before) && !Releases(st, id)
    ensures LockedSince(cfg, Lookup(st.post.entries, id), t, if st.event.Tick? then st.event.Time() else before)
    ensures Spawns(st, id) ==> ElapsedSecs(t, st.event.Time()) >= cfg.refreshLockTimeoutSecs
  {
  }

  lemma SpawnTakesLock(cfg: Config, h: seq<Step>, i: nat, id: RepoId, now: Instant)
    requires IsRun(cfg, h) && i < |h| && Spawns(h[i], id)
    ensures LockedSince(cfg, Lookup(h[i].post.entries, id), TimeAt(h, i), now)
  {
    RunStep(cfg, h, i, id);
  }

  lemma LockKeptAt(cfg: Config, h: seq<Step>, m: nat, id: RepoId, t: Instant)
    requires IsRun(cfg, h) && Clocked(h) && 0 < m < |h|
    requires LockedSince(cfg, Lookup(h[m - 1].post.entries, id), t, TickClock(h, m)) && !Releases(h[m], id)
    ensures LockedSince(cfg, Lookup(h[m].post.entries, id), t, TickClock(h, m + 1))
    ensures Spawns(h[m], id) ==> ElapsedSecs(t, TimeAt(h, m)) >= cfg.refreshLockTimeoutSecs
  {
    RunStep(cfg, h, m, id);
    if !h[m].event.Observed? { TickClockBelow(h, m, m); }
    LockKept(cfg, h[m], id, t, TickClock(h, m));
  }

  lemma {:induction false} LockHeld(cfg: Config, h: seq<Step>, i: nat, m: nat, id: RepoId)
    requires IsRun(cfg, h) && Clocked(h) && i <= m < |h| && Spawns(h[i], id)
    requires forall k | i < k <= m :: !Releases(h[k], id)
    ensures LockedSince(cfg, Lookup(h[m].post.entries, id), TimeAt(h, i), TickClock(h, m + 1))
    decreases m - i
  {
    if i == m {
      SpawnTakesLock(cfg, h, i, id, TickClock(h, m + 1));
    } else {
      LockHeld(cfg, h, i, m - 1, id);
      LockKeptAt(cfg, h, m, id, TimeAt(h, i));
    }
  }

  /** Between two refreshes started for one id, by queries or by ticks, there is a completion for it, or its entry
      was dropped, or the lock timeout has passed. */
  lemma RefreshLock(cfg: Config, h: seq<Step>, i: nat, j: nat, id: RepoId)
    requires IsRun(cfg, h) && Clocked(h) && i < j < |h|
    requires Spawns(h[i], id) && Spawns(h[j], id)
    ensures (exists k :: i < k < j && Releases(h[k], id))
         || ElapsedSecs(TimeAt(h, i), TimeAt(h, j)) >= cfg.refreshLockTimeoutSecs
  {
    if forall k | i < k < j :: !Releases(h[k], id) {
      LockHeld(cfg, h, i, j - 1, id);
      SpawnDoesNotRelease(cfg, h, j, id);
      LockKeptAt(cfg, h, j, id, TimeAt(h, i));
    }
  }

  lemma SpawnDoesNotRelease(cfg: Config, h: seq<Step>, j: nat, id: RepoId)
    requires IsRun(cfg, h) && j < |h| && Spawns(h[j], id)
    ensures !Releases(h[j], id)
  {
    RunStep(cfg, h, j, id);
  }

  lemma PreIsPost(cfg: Config, h: seq<Step>, j: nat)
    requires IsRun(cfg, h) && 0 < j < |h|
    ensures h[j].pre == h[j - 1].post
  {
    assert StepOk(cfg, h, j);
  }

  /** Without another refresh, the lock of the first is the only one the entry can hold. */
  lemma {:induction false} HeldOrFree(cfg: Config, h: seq<Step>, i: nat, m: nat, id: RepoId)
    requires IsRun(cfg, h) && i <= m < |h| && Spawns(h[i], id)
    requires forall k | i < k <= m :: !Releases(h[k], id) && !Spawns(h[k], id)
    ensures var e := Lookup(h[m].post.entries, id);
            e.Some? && (e.value.IsRefreshing() ==> e.value.refreshStartedAt == Some(TimeAt(h, i)))
    decreases m - i
  {
    if i < m {
      HeldOrFree(cfg, h, i, m - 1, id);
      PreIsPost(cfg, h, m);
    }
    HeldOrFreeStep(cfg, h, m, id);
  }

  lemma HeldOrFreeStep(cfg: Config, h: seq<Step>, m: nat, id: RepoId)
    requires IsRun(cfg, h) && m < |h|
    ensures Spawns(h[m], id) ==>
              id in h[m].post.entries && h[m].post.entries[id].refreshStartedAt == Some(TimeAt(h, m))
    ensures !Spawns(h[m], id) && !Releases(h[m], id) && id in h[m].pre.entries ==>
              && id in h[m].post.entries
              && (h[m].post.entries[id].IsRefreshing() ==>
                    && h[m].pre.entries[id].IsRefreshing()
                    && h[m].post.entries[id].refreshStartedAt == h[m].pre.entries[id].refreshStartedAt)
  {
    RunStep(cfg, h, m, id);
  }

  // ---- lost refreshes --------------------------------------------------------------------------

  /** Only a release changes the output of an entry. */
  lemma OutputStep(cfg: Config, h: seq<Step>, m: nat, id: RepoId)
    requires IsRun(cfg, h) && m < |h| && id in h[m].pre.entries && !Releases(h[m], id)
    ensures id in h[m].post.entries && h[m].post.entries[id].output == h[m].pre.entries[id].output
    ensures h[m].pre.entries[id].output == "" && h[m].pre.entries[id].IsRefreshing() ==>
              !Spawns(h[m], id) && h[m].post.entries[id].fetchState == h[m].pre.entries[id].fetchState
  {
    RunStep(cfg, h, m, id);
  }

  lemma SpawnLocks(cfg: Config, h: seq<Step>, i: nat, id: RepoId)
    requires IsRun(cfg, h) && i < |h| && Spawns(h[i], id)
    ensures id in h[i].post.entries && h[i].post.entries[id].IsRefreshing()
  {
    RunStep(cfg, h, i, id);
  }

  lemma {:induction false} EmptyStaysLocked(cfg: Config, h: seq<Step>, i: nat, m: nat, id: RepoId)
    requires IsRun(cfg, h) && i <= m < |h| && Spawns(h[i], id)
    requires forall k | i < k <= m :: !Releases(h[k], id)
    ensures id in h[i].post.entries && id in h[m].post.entries
    ensures h[m].post.entries[id].output == h[i].post.entries[id].output
    ensures h[i].post.entries[id].output == "" ==>
              && h[m].post.entries[id].fetchState == h[i].post.entries[id].fetchState
              && h[m].post.entries[id].IsRefreshing() && (i < m ==> !Spawns(h[m], id))
    decreases m - i
  {
    SpawnLocks(cfg, h, i, id);
    if i < m {
      EmptyStaysLocked(cfg, h, i, m - 1, id);
      PreIsPost(cfg, h, m);
      OutputStep(cfg, h, m, id);
    }
  }

  /** A refresh of an entry without output, whether it was never loaded or completed with an empty output, is never
      retried, by a tick or by a query, until a completion arrives or the entry is dropped: the timeout does not apply
      to it, because the tick skips an entry without output. */
  lemma LostEmptyRefreshNotRetried(cfg: Config, h: seq<Step>, i: nat, j: nat, id: RepoId)
    requires IsRun(cfg, h) && i < j < |h| && Spawns(h[i], id)
    requires id in h[i].post.entries && h[i].post.entries[id].output == ""
    requires forall k | i < k <= j :: !Releases(h[k], id)
    ensures !Spawns(h[j], id)
    ensures id in h[j].post.entries && h[j].post.entries[id].IsRefreshing() && h[j].post.entries[id].output == ""
    ensures h[j].post.entries[id].fetchState == h[i].post.entries[id].fetchState
  {
    EmptyStaysLocked(cfg, h, i, j, id);
  }

  /** In particular the first load. */
  lemma LostFirstLoadNotRetried(cfg: Config, h: seq<Step>, i: nat, j: nat, id: RepoId)
    requires IsRun(cfg, h) && i < j < |h|
    requires Queries(h[i], id) && id !in h[i].pre.entries
    requires forall k | i < k <= j :: !Releases(h[k], id)
    ensures !Spawns(h[j], id)
    ensures id in h[j].post.entries && h[j].post.entries[id].fetchState.Loading? && h[j].post.entries[id].output == ""
  {
    RunStep(cfg, h, i, id);
    LostEmptyRefreshNotRetried(cfg, h, i, j, id);
  }

  /** A tick outside a backoff that finds a lock timed out refreshes the entry again or leaves it unlocked for the
      next query, exactly when the entry has an output. */
  lemma TimedOutLockIsFreedIff(cfg: Config, h: seq<Step>, i: nat, j: nat, id: RepoId)
    requires IsRun(cfg, h) && i < j < |h| && Spawns(h[i], id)
    requires forall k | i < k < j :: !Releases(h[k], id) && !Spawns(h[k], id)
    requires h[j].event.Tick? && OutsideBackoff(h[j]) && !Expires(h[j], id)
    requires ElapsedSecs(TimeAt(h, i), TimeAt(h, j)) >= cfg.refreshLockTimeoutSecs
    ensures id in h[j].pre.entries && id in h[j].post.entries
    ensures Spawns(h[j], id) || !h[j].post.entries[id].IsRefreshing() <==> h[j].pre.entries[id].output != ""
  {
    HeldOrFree(cfg, h, i, j - 1, id);
    EmptyStaysLocked(cfg, h, i, j - 1, id);
    PreIsPost(cfg, h, j);
    RunStep(cfg, h, j, id);
  }

  // ---- spacing of scheduled refreshes ----------------------------------------------------------

  /** The shortest distance between two refreshes that ticks start for one id, in nanoseconds. */
  function TickGap(cfg: Config): nat {
    Min(cfg.refreshLockTimeoutSecs, cfg.policy.ShortestIntervalSecs()) * NANOS_PER_SEC
  }

  /** Why the entry of an id that a tick refreshed at `t` may not be refreshed by a tick before `t + gap`: it is gone
      or still loading, or was fetched since, or is locked since, or the gap is over. */
  predicate SpacedSince(e: Option<CacheEntry>, t: Instant, now: Instant, gap: nat) {
    || e.None?
    || e.value.fetchState.Loading?
    || e.value.fetchedAt >= t
    || (e.value.IsRefreshing() && e.value.refreshStartedAt.Some? && e.value.refreshStartedAt.value >= t)
    || now >= t + gap
  }

  lemma GapBelowTimeout(cfg: Config)
    ensures TickGap(cfg) <= TimeoutNanos(cfg) && TickGap(cfg) <= cfg.policy.ShortestIntervalSecs() * NANOS_PER_SEC
  {
  }

  lemma SpacingKept(cfg: Config, st: Step, id: RepoId, t: Instant, before: Instant, gap: nat)
    requires EntryStep(cfg, st, id) && (id in st.pre.entries ==> WellKept(st.pre.entries[id]))
    requires t <= before && gap <= TimeoutNanos(cfg) && (st.event.Observed? || before <= st.event.Time())
    requires SpacedSince(Lookup(st.pre.entries, id), t, before, gap)
    ensures SpacedSince(Lookup(st.post.entries, id), t, if st.event.Tick? then st.event.Time() else before, gap)
    ensures TickSpawns(st, id) ==>
              st.event.Time() >= t + gap || (id in st.pre.entries && st.pre.entries[id].fetchedAt >= t)
  {
    if id in st.pre.entries {
      var e, now := st.pre.entries[id], st.event.Time();
      if e.refreshStartedAt.Some? {
        ElapsedAtLeast(e.refreshStartedAt.value, now, cfg.refreshLockTimeoutSecs);
      }
    }
  }

  lemma TickWaitsInterval(cfg: Config, st: Step, id: RepoId)
    requires EntryStep(cfg, st, id) && TickSpawns(st, id)
    ensures id in st.pre.entries && !(st.pre.entries[id].output == "")
    ensures SatSub(st.event.now, st.pre.entries[id].fetchedAt) >= cfg.policy.ShortestIntervalSecs() * NANOS_PER_SEC
  {
    var e, input := st.pre.entries[id], cfg.TickAt(st.event.now, st.event.nowWall);
    var cost := TotalCost(Survivors(st.pre.entries, input));
    ScaledIntervalLowerBounds(cfg.policy, e, st.pre.latestRateLimit, cost, st.event.now, st.event.nowWall);
    ElapsedAtLeast(e.fetchedAt, st.event.now, cfg.policy.ShortestIntervalSecs());
  }

  lemma SpacingStarts(cfg: Config, h: seq<Step>, i: nat, id: RepoId, gap: nat)
    requires IsRun(cfg, h) && i < |h| && TickSpawns(h[i], id)
    ensures SpacedSince(Lookup(h[i].post.entries, id), TimeAt(h, i), TickClock(h, i + 1), gap)
    ensures TickClock(h, i + 1) == TimeAt(h, i)
  {
    RunStep(cfg, h, i, id);
  }

  lemma SpacingKeptAt(cfg: Config, h: seq<Step>, m: nat, id: RepoId, t: Instant, gap: nat)
    requires IsRun(cfg, h) && Clocked(h) && 0 < m < |h| && t <= TickClock(h, m) && gap <= TimeoutNanos(cfg)
    requires SpacedSince(Lookup(h[m - 1].post.entries, id), t, TickClock(h, m), gap)
    ensures SpacedSince(Lookup(h[m].post.entries, id), t, TickClock(h, m + 1), gap) && t <= TickClock(h, m + 1)
    ensures TickSpawns(h[m], id) ==>
              TimeAt(h, m) >= t + gap || (id in h[m].pre.entries && h[m].pre.entries[id].fetchedAt >= t)
  {
    RunStep(cfg, h, m, id);
    if !h[m].event.Observed? { TickClockBelow(h, m, m); }
    SpacingKept(cfg, h[m], id, t, TickClock(h, m), gap);
  }

  lemma {:induction false} SpacingHeld(cfg: Config, h: seq<Step>, i: nat, m: nat, id: RepoId, gap: nat)
    requires IsRun(cfg, h) && Clocked(h) && i <= m < |h| && TickSpawns(h[i], id) && gap <= TimeoutNanos(cfg)
    ensures SpacedSince(Lookup(h[m].post.entries, id), TimeAt(h, i), TickClock(h, m + 1), gap)
    ensures TimeAt(h, i) <= TickClock(h, m + 1)
    decreases m - i
  {
    if i == m {
      SpacingStarts(cfg, h, i, id, gap);
    } else {
      SpacingHeld(cfg, h, i, m - 1, id, gap);
      SpacingKeptAt(cfg, h, m, id, TimeAt(h, i), gap);
    }
  }

  /** Two ticks that start a refresh for one id: the second comes after the gap, or after a completion that came
      after the first. */
  lemma TickSpacingOrFetched(cfg: Config, h: seq<Step>, i: nat, j: nat, id: RepoId, gap: nat)
    requires IsRun(cfg, h) && Clocked(h) && i < j < |h| && gap <= TimeoutNanos(cfg)
    requires TickSpawns(h[i], id) && TickSpawns(h[j], id)
    ensures TimeAt(h, j) >= TimeAt(h, i) + gap
         || (id in h[j].pre.entries && h[j].pre.entries[id].fetchedAt >= TimeAt(h, i))
  {
    SpacingHeld(cfg, h, i, j - 1, id, gap);
    SpacingKeptAt(cfg, h, j, id, TimeAt(h, i), gap);
  }

  /** Two refreshes that ticks start for one id are at least the gap apart, whatever queries, completions, losses,
      expiries and re-creations happen in between. */
  lemma TickSpacing(cfg: Config, h: seq<Step>, i: nat, j: nat, id: RepoId)
    requires IsRun(cfg, h) && Clocked(h) && i < j < |h|
    requires TickSpawns(h[i], id) && TickSpawns(h[j], id)
    ensures TimeAt(h, j) >= TimeAt(h, i) + TickGap(cfg)
  {
    GapBelowTimeout(cfg);
    TickSpacingOrFetched(cfg, h, i, j, id, TickGap(cfg));
    TickWaitsIntervalAt(cfg, h, j, id);
    assert TimeAt(h, i) <= TimeAt(h, j);
  }

  lemma TickWaitsIntervalAt(cfg: Config, h: seq<Step>, j: nat, id: RepoId)
    requires IsRun(cfg, h) && j < |h| && TickSpawns(h[j], id)
    ensures id in h[j].pre.entries
    ensures SatSub(TimeAt(h, j), h[j].pre.entries[id].fetchedAt) >= cfg.policy.ShortestIntervalSecs() * NANOS_PER_SEC
  {
    RunStep(cfg, h, j, id);
    TickWaitsInterval(cfg, h[j], id);
  }

  /** The steps `at` are, in order, refreshes that ticks start for `id`. */
  ghost predicate TickRefreshes(h: seq<Step>, at: seq<nat>, id: RepoId) {
    && |at| > 0
    && (forall a | 0 <= a < |at| :: at[a] < |h| && TickSpawns(h[at[a]], id))
    && (forall a, b | 0 <= a < b < |at| :: at[a] < at[b])
  }

  /** Hence `n` such refreshes take at least `n - 1` gaps: their number in any window is bounded. */
  lemma {:induction false} TickCountBound(cfg: Config, h: seq<Step>, at: seq<nat>, id: RepoId)
    requires IsRun(cfg, h) && Clocked(h) && TickRefreshes(h, at, id)
    ensures TimeAt(h, at[|at| - 1]) >= TimeAt(h, at[0]) + (|at| - 1) * TickGap(cfg)
  {
    if |at| > 1 {
      var front := at[..|at| - 1];
      TickCountBound(cfg, h, front, id);
      TickSpacing(cfg, h, at[|at| - 2], at[|at| - 1], id);
      OneMoreGap(|front| - 1, TickGap(cfg));
    }
  }

  lemma OneMoreGap(n: nat, gap: nat)
    ensures (n + 1) * gap == n * gap + gap
  {
  }

  // ---- expiry ----------------------------------------------------------------------------------

  /** A query at `t` is remembered for as long as the entry exists. */
  predicate QueriedSince(e: Option<CacheEntry>, t: Instant) {
    e.Some? ==> e.value.lastQueriedAt.Some? && e.value.lastQueriedAt.value >= t
  }

  lemma QueriedKeptAt(cfg: Config, h: seq<Step>, m: nat, id: RepoId, t: Instant)
    requires IsRun(cfg, h) && m < |h| && (h[m].event.Query? ==> t <= TimeAt(h, m))
    requires QueriedSince(Lookup(h[m].pre.entries, id), t) || Queries(h[m], id)
    ensures QueriedSince(Lookup(h[m].post.entries, id), t)
    ensures Expires(h[m], id) ==> ElapsedSecs(t, TimeAt(h, m)) >= cfg.entryMaxAgeSecs
  {
    RunStep(cfg, h, m, id);
  }

  lemma {:induction false} QueriedHeld(cfg: Config, h: seq<Step>, i: nat, m: nat, id: RepoId)
    requires IsRun(cfg, h) && Clocked(h) && i <= m < |h| && Queries(h[i], id)
    ensures QueriedSince(Lookup(h[m].post.entries, id), TimeAt(h, i))
    decreases m - i
  {
    assert h[m].event.Query? ==> TimeAt(h, i) <= TimeAt(h, m);
    if i < m {
      QueriedHeld(cfg, h, i, m - 1, id);
      PreIsPost(cfg, h, m);
    }
    QueriedKeptAt(cfg, h, m, id, TimeAt(h, i));
  }

  /** An entry is dropped only when no query for it came during the whole maximum age. */
  lemma ExpiryNeedsIdle(cfg: Config, h: seq<Step>, i: nat, j: nat, id: RepoId)
    requires IsRun(cfg, h) && Clocked(h) && i < j < |h|
    requires Queries(h[i], id) && Expires(h[j], id)
    ensures ElapsedSecs(TimeAt(h, i), TimeAt(h, j)) >= cfg.entryMaxAgeSecs
  {
    QueriedHeld(cfg, h, i, j - 1, id);
    PreIsPost(cfg, h, j);
    assert h[j].event.Query? ==> TimeAt(h, i) <= TimeAt(h, j);
    QueriedKeptAt(cfg, h, j, id, TimeAt(h, i));
  }
}
