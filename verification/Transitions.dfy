/** The four transitions of the cache (src/contexts/daemon/domain/cache/transition.rs). Each method is the
    source's algorithm; the functions beside it say what the new store and the effects are, entry by entry. */
module Transitions {
  import opened Numbers
  import opened RateLimit
  import opened CacheEntries
  import opened RefreshPolicies

  const BACKOFF_THRESHOLD_BP: nat := 500
  const BACKOFF_SAFETY_MARGIN: nat := 1_500_000_000
  const LOADING := "? loading"

  function Lookup(entries: map<RepoId, CacheEntry>, id: RepoId): Option<CacheEntry> {
    if id in entries then Some(entries[id]) else None
  }

  // ---- on_query --------------------------------------------------------------------------------

  predicate AnswersFresh(e: CacheEntry, ev: QueryEvent, policy: RefreshPolicy) {
    IsFresh(e, policy.EffectiveTtl(e, ev.staleTtl), ev.now)
  }

  /** A query starts a refresh for an unknown entry, and for a stale one that is not being refreshed. */
  predicate QuerySpawns(e: Option<CacheEntry>, ev: QueryEvent, policy: RefreshPolicy) {
    e.None? || (!AnswersFresh(e.value, ev, policy) && !e.value.IsRefreshing())
  }

  function QueryAnswer(e: Option<CacheEntry>, ev: QueryEvent, policy: RefreshPolicy): string {
    if e.None? || (e.value.fetchState.Loading? && !AnswersFresh(e.value, ev, policy)) then LOADING else e.value.output
  }

  function QueriedEntry(e: Option<CacheEntry>, ev: QueryEvent, policy: RefreshPolicy): CacheEntry {
    if e.None? then NewLoading(ev.cwd, ev.branch, ev.staleTtl, ev.now, ev.nowWall)
    else
      var seen := e.value.WithRecordQuery(ev.now);
      if AnswersFresh(e.value, ev, policy) then seen
      else
        var warmed :=
          if IsColdOrNeverQueried(e.value, policy.warmToColdSecs, ev.now) then seen.WithResetColdCount() else seen;
        if e.value.IsRefreshing() then warmed
        else (if e.value.refreshMode.Terminal? then warmed.WithResetToWarm() else warmed).WithMarkRefreshing(ev.now)
  }

  function QueryStore(store: CacheStore, ev: QueryEvent, id: RepoId, policy: RefreshPolicy): CacheStore {
    store.(entries := store.entries[id := QueriedEntry(Lookup(store.entries, id), ev, policy)])
  }

  function QueryEffects(store: CacheStore, ev: QueryEvent, id: RepoId, policy: RefreshPolicy): seq<Effect> {
    var e := Lookup(store.entries, id);
    [EmitOutput(QueryAnswer(e, ev, policy))]
    + if QuerySpawns(e, ev, policy) then [SpawnRefresh(id, if e.None? then ev.cwd else e.value.cwd)] else []
  }

  method OnQuery(store: CacheStore, ev: QueryEvent, id: RepoId, policy: RefreshPolicy)
      returns (newStore: CacheStore, effects: seq<Effect>)
    ensures newStore == QueryStore(store, ev, id, policy)
    ensures effects == QueryEffects(store, ev, id, policy)
  {
    var entries := store.entries;
    effects := [];
    if id in entries && IsFresh(entries[id], policy.EffectiveTtl(entries[id], ev.staleTtl), ev.now) {
      var newEntry := entries[id].WithRecordQuery(ev.now);
      entries := entries[id := newEntry];
      effects := effects + [EmitOutput(newEntry.output)];
    } else if id in entries {
      var entry := entries[id];
      var state := entry;
      if IsColdOrNeverQueried(entry, policy.warmToColdSecs, ev.now) {
        state := state.WithResetColdCount();
      }
      state := state.WithRecordQuery(ev.now);
      if entry.IsRefreshing() {
        effects := effects + [EmitOutput(if entry.HasFetched() then entry.output else LOADING)];
      } else {
        if entry.refreshMode.Terminal? {
          state := state.WithResetToWarm();
        }
        state := state.WithMarkRefreshing(ev.now);
        effects := effects + [EmitOutput(entry.output), SpawnRefresh(id, entry.cwd)];
      }
      entries := entries[id := state];
    } else {
      entries := entries[id := NewLoading(ev.cwd, ev.branch, ev.staleTtl, ev.now, ev.nowWall)];
      effects := effects + [EmitOutput(LOADING), SpawnRefresh(id, ev.cwd)];
    }
    newStore := store.(entries := entries);
  }

  /** The documentation says a query that brings a cold entry back resets its count of cold refreshes; the code
      does so exactly when the entry is not fresh. */
  lemma ColdCountResetIff(e: CacheEntry, ev: QueryEvent, policy: RefreshPolicy)
    requires IsColdOrNeverQueried(e, policy.warmToColdSecs, ev.now) && e.coldRefreshCount > 0
    ensures QueriedEntry(Some(e), ev, policy).coldRefreshCount == 0 <==> !AnswersFresh(e, ev, policy)
  {
  }

  // ---- on_refresh_completed --------------------------------------------------------------------

  /** A completion for an unknown repository is dropped. */
  function CompletedStore(store: CacheStore, id: RepoId, ev: RefreshCompletedEvent): CacheStore {
    if id in store.entries then store.(entries := store.entries[id := store.entries[id].WithRefreshCompleted(ev)])
    else store
  }

  method OnRefreshCompleted(store: CacheStore, id: RepoId, ev: RefreshCompletedEvent)
      returns (newStore: CacheStore, effects: seq<Effect>)
    ensures newStore == CompletedStore(store, id, ev)
    ensures effects == []
    ensures newStore.entries.Keys == store.entries.Keys
    ensures newStore.latestRateLimit == store.latestRateLimit && newStore.backoffUntil == store.backoffUntil
    ensures forall other | other in store.entries && other != id :: newStore.entries[other] == store.entries[other]
    ensures id in store.entries ==>
              var e, before := newStore.entries[id], store.entries[id];
              && e.fetchState.Ready? && e.refreshStartedAt.None?
              && (e.output, e.prOutputs, e.refreshMode) == (ev.output, ev.prOutputs, ev.refreshMode)
              && (e.fetchedAt, e.fetchedAtWall) == (ev.now, ev.nowWall)
              && (e.cwd, e.branch) == (before.cwd, before.branch)
              && (e.lastQueriedAt, e.coldRefreshCount) == (before.lastQueriedAt, before.coldRefreshCount)
  {
    var entries := store.entries;
    if id in entries {
      entries := entries[id := entries[id].WithRefreshCompleted(ev)];
    }
    newStore, effects := store.(entries := entries), [];
  }

  // ---- total_refresh_cost ----------------------------------------------------------------------

  /** API calls one refresh of this entry makes. */
  function RefreshCost(e: CacheEntry): nat { if e.IsActive() then |e.prOutputs| + 1 else 0 }

  /** The true sum over a set of entries; `SumCostRemove` says the order of summation is irrelevant. */
  ghost function SumCost(entries: map<RepoId, CacheEntry>, ids: set<RepoId>): nat
    requires ids <= entries.Keys
  {
    if ids == {} then 0
    else
      var id :| id in ids;
      RefreshCost(entries[id]) + SumCost(entries, ids - {id})
  }

  lemma {:induction false} SumCostRemove(entries: map<RepoId, CacheEntry>, ids: set<RepoId>, id: RepoId)
    requires ids <= entries.Keys && id in ids
    ensures SumCost(entries, ids) == RefreshCost(entries[id]) + SumCost(entries, ids - {id})
  {
    var first :| first in ids && SumCost(entries, ids) == RefreshCost(entries[first]) + SumCost(entries, ids - {first});
    if first != id {
      SumCostRemove(entries, ids - {first}, id);
      SumCostRemove(entries, ids - {id}, first);
      assert ids - {first} - {id} == ids - {id} - {first};
    }
  }

  ghost function TotalCost(entries: map<RepoId, CacheEntry>): u64 { Clamp(SumCost(entries, entries.Keys)) }

  /** Whatever order the map is walked in, the saturating total is the clamped true sum. */
  method TotalRefreshCost(entries: map<RepoId, CacheEntry>) returns (total: u64)
    ensures total == TotalCost(entries)
  {
    total := 0;
    var left := entries.Keys;
    ghost var done: set<RepoId> := {};
    while left != {}
      invariant left + done == entries.Keys && left !! done
      invariant total == Clamp(SumCost(entries, done))
      decreases left
    {
      var id :| id in left;
      SumCostRemove(entries, done + {id}, id);
      assert done + {id} - {id} == done;
      if entries[id].IsActive() {
        total := SatAdd(total, SatAdd(Clamp(|entries[id].prOutputs|), 1));
      }
      left, done := left - {id}, done + {id};
    }
    assert done == entries.Keys;
  }

  // ---- on_scheduler_tick -----------------------------------------------------------------------

  datatype TickInput = TickInput(
    now: Instant, nowWall: SystemTime, policy: RefreshPolicy, refreshLockTimeoutSecs: u64, entryMaxAgeSecs: u64)

  /** The tick refreshes an active entry whose lock is free or timed out and whose interval has passed. */
  predicate Due(e: CacheEntry, input: TickInput, snapshot: Option<RateLimitSnapshot>, totalCost: u64) {
    && e.IsActive()
    && (e.IsRefreshing() ==> RefreshLockExpired(e, input.refreshLockTimeoutSecs, input.now))
    && ElapsedSecs(e.fetchedAt, input.now)
         >= input.policy.ScaledIntervalSecs(e, snapshot, totalCost, input.now, input.nowWall)
  }

  function TickedEntry(e: CacheEntry, input: TickInput, snapshot: Option<RateLimitSnapshot>, totalCost: u64): CacheEntry
  {
    if Due(e, input, snapshot, totalCost) then
      var counted :=
        if e.refreshMode.Warm? && IsCold(e, input.policy.warmToColdSecs, input.now) then e.WithIncrementColdCount()
        else e;
      counted.WithMarkRefreshing(input.now)
    else if e.IsActive() && e.IsRefreshing() && RefreshLockExpired(e, input.refreshLockTimeoutSecs, input.now) then
      e.WithClearRefreshLock()
    else e
  }

  function Survivors(entries: map<RepoId, CacheEntry>, input: TickInput): map<RepoId, CacheEntry> {
    map id | id in entries && !IsExpired(entries[id], input.entryMaxAgeSecs, input.now) :: entries[id]
  }

  ghost function TickStore(store: CacheStore, input: TickInput): CacheStore {
    if store.IsBackedOff(input.now) then store
    else
      var kept := Survivors(store.entries, input);
      CacheStore(RefreshedAmong(kept, kept.Keys, input, store.latestRateLimit, TotalCost(kept)),
                 store.latestRateLimit, None)
  }

  /** The effects a tick owes for the given ids: one `RecordExpired` for an expired id, one `SpawnRefresh` with
      the entry's own directory for a surviving id that is due. */
  ghost function ExpiredEffects(entries: map<RepoId, CacheEntry>, ids: set<RepoId>, input: TickInput): set<Effect>
    requires ids <= entries.Keys
  {
    set id | id in ids && IsExpired(entries[id], input.entryMaxAgeSecs, input.now) :: RecordExpired(id)
  }

  ghost function SpawnEffects(
      kept: map<RepoId, CacheEntry>, ids: set<RepoId>, input: TickInput, snapshot: Option<RateLimitSnapshot>,
      totalCost: u64): set<Effect>
    requires ids <= kept.Keys
  {
    set id | id in ids && Due(kept[id], input, snapshot, totalCost) :: SpawnRefresh(id, kept[id].cwd)
  }

  ghost function OwedEffects(store: CacheStore, input: TickInput): set<Effect> {
    if store.IsBackedOff(input.now) then {}
    else
      var kept := Survivors(store.entries, input);
      ExpiredEffects(store.entries, store.entries.Keys, input)
      + SpawnEffects(kept, kept.Keys, input, store.latestRateLimit, TotalCost(kept))
  }

  /** `effects` lists each owed effect once, in some order. */
  ghost predicate TickEffects(store: CacheStore, input: TickInput, effects: seq<Effect>) {
    multiset(effects) == multiset(OwedEffects(store, input))
  }

  /** The maps are walked in an arbitrary order, yet the new store is a function of the old one and the effects
      are the owed ones, each exactly once. */
  method OnSchedulerTick(store: CacheStore, input: TickInput) returns (newStore: CacheStore, effects: seq<Effect>)
    ensures newStore == TickStore(store, input)
    ensures TickEffects(store, input, effects)
  {
    var backoffUntil :=
      if store.backoffUntil.Some? && input.now >= store.backoffUntil.value then None else store.backoffUntil;
    var clearedStore := store.(backoffUntil := backoffUntil);
    if clearedStore.IsBackedOff(input.now) {
      return clearedStore, [];
    }
    var kept, expired := RetainLive(clearedStore.entries, input);
    var totalCost := TotalRefreshCost(kept);
    var updated, spawned := RefreshDue(kept, input, clearedStore.latestRateLimit, totalCost);
    newStore, effects := clearedStore.(entries := updated), expired + spawned;
    DisjointEffects(store.entries, kept, input, clearedStore.latestRateLimit, totalCost);
  }

  lemma DisjointEffects(
      entries: map<RepoId, CacheEntry>, kept: map<RepoId, CacheEntry>, input: TickInput,
      snapshot: Option<RateLimitSnapshot>, totalCost: u64)
    ensures var a := ExpiredEffects(entries, entries.Keys, input);
            var b := SpawnEffects(kept, kept.Keys, input, snapshot, totalCost);
            multiset(a + b) == multiset(a) + multiset(b)
  {
  }

  lemma AddOne<T>(listed: seq<T>, s: set<T>, x: T)
    requires multiset(listed) == multiset(s) && x !in s
    ensures multiset(listed + [x]) == multiset(s + {x})
  {
    assert multiset(s + {x}) == multiset(s) + multiset{x};
  }

  lemma ExpiredStep(entries: map<RepoId, CacheEntry>, done: set<RepoId>, id: RepoId, input: TickInput,
                    listed: seq<Effect>)
    requires done <= entries.Keys && id in entries && id !in done
    requires multiset(listed) == multiset(ExpiredEffects(entries, done, input))
    ensures multiset(if IsExpired(entries[id], input.entryMaxAgeSecs, input.now) then listed + [RecordExpired(id)]
                     else listed)
         == multiset(ExpiredEffects(entries, done + {id}, input))
  {
    var before, after := ExpiredEffects(entries, done, input), ExpiredEffects(entries, done + {id}, input);
    if IsExpired(entries[id], input.entryMaxAgeSecs, input.now) {
      assert after == before + {RecordExpired(id)};
      AddOne(listed, before, RecordExpired(id));
    } else {
      assert after == before;
    }
  }

  lemma SpawnStep(kept: map<RepoId, CacheEntry>, done: set<RepoId>, id: RepoId, input: TickInput,
                  snapshot: Option<RateLimitSnapshot>, totalCost: u64, listed: seq<Effect>)
    requires done <= kept.Keys && id in kept && id !in done
    requires multiset(listed) == multiset(SpawnEffects(kept, done, input, snapshot, totalCost))
    ensures multiset(if Due(kept[id], input, snapshot, totalCost) then listed + [SpawnRefresh(id, kept[id].cwd)]
                     else listed)
         == multiset(SpawnEffects(kept, done + {id}, input, snapshot, totalCost))
  {
    var before := SpawnEffects(kept, done, input, snapshot, totalCost);
    var after := SpawnEffects(kept, done + {id}, input, snapshot, totalCost);
    if Due(kept[id], input, snapshot, totalCost) {
      assert after == before + {SpawnRefresh(id, kept[id].cwd)};
      AddOne(listed, before, SpawnRefresh(id, kept[id].cwd));
    } else {
      assert after == before;
    }
  }

  /** What is left of the map once the ids in `done` have been looked at. */
  ghost function LiveAmong(entries: map<RepoId, CacheEntry>, done: set<RepoId>, input: TickInput)
    : map<RepoId, CacheEntry>
  {
    map id | id in entries && (id in done ==> !IsExpired(entries[id], input.entryMaxAgeSecs, input.now)) :: entries[id]
  }

  ghost function RefreshedAmong(kept: map<RepoId, CacheEntry>, done: set<RepoId>, input: TickInput,
                                snapshot: Option<RateLimitSnapshot>, totalCost: u64): map<RepoId, CacheEntry>
    requires done <= kept.Keys
  {
    map id | id in done :: TickedEntry(kept[id], input, snapshot, totalCost)
  }

  lemma LiveStep(entries: map<RepoId, CacheEntry>, done: set<RepoId>, id: RepoId, input: TickInput)
    requires id in entries && id !in done
    ensures LiveAmong(entries, done + {id}, input)
         == if IsExpired(entries[id], input.entryMaxAgeSecs, input.now) then LiveAmong(entries, done, input) - {id}
            else LiveAmong(entries, done, input)
  {
  }

  lemma LiveAll(entries: map<RepoId, CacheEntry>, input: TickInput)
    ensures LiveAmong(entries, {}, input) == entries
    ensures LiveAmong(entries, entries.Keys, input) == Survivors(entries, input)
  {
  }

  lemma RefreshedStep(kept: map<RepoId, CacheEntry>, done: set<RepoId>, id: RepoId, input: TickInput,
                      snapshot: Option<RateLimitSnapshot>, totalCost: u64)
    requires done <= kept.Keys && id in kept
    ensures RefreshedAmong(kept, done + {id}, input, snapshot, totalCost)
         == RefreshedAmong(kept, done, input, snapshot, totalCost)
              [id := TickedEntry(kept[id], input, snapshot, totalCost)]
  {
  }

  /** The `retain` pass. */
  method RetainLive(entries: map<RepoId, CacheEntry>, input: TickInput)
      returns (kept: map<RepoId, CacheEntry>, effects: seq<Effect>)
    ensures kept == Survivors(entries, input)
    ensures multiset(effects) == multiset(ExpiredEffects(entries, entries.Keys, input))
  {
    kept, effects := entries, [];
    var left := entries.Keys;
    ghost var done: set<RepoId> := {};
    while left != {}
      invariant left + done == entries.Keys && left !! done
      invariant kept == LiveAmong(entries, done, input)
      invariant multiset(effects) == multiset(ExpiredEffects(entries, done, input))
      decreases left
    {
      var id :| id in left;
      ExpiredStep(entries, done, id, input, effects);
      LiveStep(entries, done, id, input);
      if IsExpired(entries[id], input.entryMaxAgeSecs, input.now) {
        effects := effects + [RecordExpired(id)];
        kept := kept - {id};
      }
      left, done := left - {id}, done + {id};
    }
    assert done == entries.Keys;
    LiveAll(entries, input);
  }

  /** The refresh pass over the surviving entries. */
  method RefreshDue(kept: map<RepoId, CacheEntry>, input: TickInput, snapshot: Option<RateLimitSnapshot>,
                    totalCost: u64)
      returns (updated: map<RepoId, CacheEntry>, effects: seq<Effect>)
    ensures updated == RefreshedAmong(kept, kept.Keys, input, snapshot, totalCost)
    ensures multiset(effects) == multiset(SpawnEffects(kept, kept.Keys, input, snapshot, totalCost))
  {
    updated, effects := map[], [];
    var left := kept.Keys;
    ghost var done: set<RepoId> := {};
    while left != {}
      invariant left + done == kept.Keys && left !! done
      invariant updated == RefreshedAmong(kept, done, input, snapshot, totalCost)
      invariant multiset(effects) == multiset(SpawnEffects(kept, done, input, snapshot, totalCost))
      decreases left
    {
      var id :| id in left;
      var entry, spawn := RefreshEntry(kept[id], input, snapshot, totalCost);
      SpawnStep(kept, done, id, input, snapshot, totalCost, effects);
      RefreshedStep(kept, done, id, input, snapshot, totalCost);
      if spawn {
        effects := effects + [SpawnRefresh(id, kept[id].cwd)];
      }
      updated := updated[id := entry];
      left, done := left - {id}, done + {id};
    }
    assert done == kept.Keys;
  }

  /** The body of the refresh loop for one entry. */
  method RefreshEntry(entry: CacheEntry, input: TickInput, snapshot: Option<RateLimitSnapshot>, totalCost: u64)
      returns (e: CacheEntry, spawn: bool)
    ensures e == TickedEntry(entry, input, snapshot, totalCost)
    ensures spawn == Due(entry, input, snapshot, totalCost)
  {
    e, spawn := entry, false;
    if !e.IsActive() { return; }
    if e.IsRefreshing() && RefreshLockExpired(e, input.refreshLockTimeoutSecs, input.now) {
      e := e.WithClearRefreshLock();
    }
    if e.IsRefreshing() { return; }
    var interval := input.policy.ScaledIntervalSecs(e, snapshot, totalCost, input.now, input.nowWall);
    if ElapsedSecs(e.fetchedAt, input.now) < interval { return; }
    if e.refreshMode.Warm? && IsCold(e, input.policy.warmToColdSecs, input.now) {
      e := e.WithIncrementColdCount();
    }
    e, spawn := e.WithMarkRefreshing(input.now), true;
  }

  // ---- on_rate_limit_observed ------------------------------------------------------------------

  predicate ShouldEnterBackoff(s: RateLimitSnapshot) {
    s.IsExhausted() || s.BottleneckRatioBp() <= BACKOFF_THRESHOLD_BP
  }

  /** The bottleneck's reset as a monotonic instant plus the margin; `None` when it is already past. */
  function ResetInstant(s: RateLimitSnapshot, now: Instant, nowWall: SystemTime): Option<Instant> {
    if s.BottleneckResetAt() < nowWall then None
    else Some(now + (s.BottleneckResetAt() - nowWall) + BACKOFF_SAFETY_MARGIN)
  }

  function OnRateLimitObserved(store: CacheStore, ev: RateLimitObservedEvent): (CacheStore, seq<Effect>) {
    var newBackoff :=
      if ShouldEnterBackoff(ev.snapshot) then
        var reset := ResetInstant(ev.snapshot, ev.now, ev.nowWall);
        if reset.Some? then reset else store.backoffUntil
      else store.backoffUntil;
    var effects :=
      if newBackoff.Some? && ShouldEnterBackoff(ev.snapshot) && store.backoffUntil != newBackoff then
        [EnterBackoff(newBackoff.value)]
      else [];
    (store.(latestRateLimit := Some(ev.snapshot), backoffUntil := newBackoff), effects)
  }
}
