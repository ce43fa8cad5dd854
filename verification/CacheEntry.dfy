/** The cache entry and its steps (src/contexts/daemon/domain/cache/entry.rs), the store
    (store.rs), the events and effects (event.rs, effect.rs) and the time predicates of
    transition.rs. An `Instant` is a number of nanoseconds since the earliest representable one. */
module CacheEntries {
  import opened Numbers
  import opened RateLimit
  import opened RefreshModes

  type RepoId = string
  type Cwd = string

  datatype FetchState = Loading | PendingRetry | Ready | Refreshing

  datatype PrOutput = PrOutput(prId: u64, output: string)

  datatype CacheEntry = CacheEntry(
    output: string,
    prOutputs: seq<PrOutput>,
    fetchState: FetchState,
    fetchedAt: Instant,
    fetchedAtWall: SystemTime,
    refreshStartedAt: Option<Instant>,
    cwd: Cwd,
    branch: string,
    refreshMode: RefreshMode,
    lastQueriedAt: Option<Instant>,
    coldRefreshCount: u32)
  {
    predicate HasFetched() { fetchState.Ready? || fetchState.Refreshing? }

    predicate IsRefreshing() { fetchState.Loading? || fetchState.Refreshing? }

    predicate IsActive() { output != "" && !refreshMode.Terminal? }

    function WithRecordQuery(now: Instant): CacheEntry { this.(lastQueriedAt := Some(now)) }

    function WithMarkRefreshing(now: Instant): CacheEntry {
      this.(fetchState := if HasFetched() then Refreshing else Loading, refreshStartedAt := Some(now))
    }

    function WithClearRefreshLock(): CacheEntry {
      this.(fetchState := if HasFetched() then Ready else PendingRetry, refreshStartedAt := None)
    }

    function WithResetColdCount(): CacheEntry { this.(coldRefreshCount := 0) }

    function WithIncrementColdCount(): CacheEntry {
      this.(coldRefreshCount := if coldRefreshCount < U32_MAX then coldRefreshCount + 1 else U32_MAX)
    }

    function WithResetToWarm(): CacheEntry { this.(refreshMode := Warm) }

    function WithRefreshCompleted(ev: RefreshCompletedEvent): CacheEntry {
      this.(output := ev.output, prOutputs := ev.prOutputs, fetchState := Ready, fetchedAt := ev.now,
            fetchedAtWall := ev.nowWall, refreshStartedAt := None, refreshMode := ev.refreshMode)
    }
  }

  /** The entry made for an unknown repository: fetched `staleTtl + 1` seconds ago, unless that is before the
      earliest instant, in which case it counts as fetched now. */
  function NewLoading(cwd: Cwd, branch: string, staleTtl: u64, now: Instant, nowWall: SystemTime): CacheEntry {
    var age := SatAdd(staleTtl, 1) * NANOS_PER_SEC;
    CacheEntry("", [], Loading, if age <= now then now - age else now, nowWall, Some(now), cwd, branch, Warm,
               Some(now), 0)
  }

  datatype CacheStore = CacheStore(
    entries: map<RepoId, CacheEntry>,
    latestRateLimit: Option<RateLimitSnapshot>,
    backoffUntil: Option<Instant>)
  {
    predicate IsBackedOff(now: Instant) { backoffUntil.Some? && now < backoffUntil.value }
  }

  const EMPTY_STORE := CacheStore(map[], None, None)

  datatype QueryEvent = QueryEvent(cwd: Cwd, branch: string, now: Instant, nowWall: SystemTime, staleTtl: u64)

  datatype RefreshCompletedEvent = RefreshCompletedEvent(
    output: string, prOutputs: seq<PrOutput>, refreshMode: RefreshMode, now: Instant, nowWall: SystemTime)

  datatype RateLimitObservedEvent = RateLimitObservedEvent(
    snapshot: RateLimitSnapshot, now: Instant, nowWall: SystemTime)

  datatype Effect =
    | SpawnRefresh(repoId: RepoId, cwd: Cwd)
    | EmitOutput(output: string)
    | RecordExpired(expiredId: RepoId)
    | EnterBackoff(until: Instant)

  // ---- time predicates -------------------------------------------------------------------------

  function ElapsedSecs(t: Instant, now: Instant): nat { SatSub(now, t) / NANOS_PER_SEC }

  predicate QueriedAtLeast(e: CacheEntry, secs: u64, now: Instant) {
    e.lastQueriedAt.Some? && ElapsedSecs(e.lastQueriedAt.value, now) >= secs
  }

  predicate IsFresh(e: CacheEntry, ttl: u64, now: Instant) { ElapsedSecs(e.fetchedAt, now) <= ttl }

  predicate IsExpired(e: CacheEntry, maxAgeSecs: u64, now: Instant) { QueriedAtLeast(e, maxAgeSecs, now) }

  predicate IsCold(e: CacheEntry, warmToColdSecs: u64, now: Instant) { QueriedAtLeast(e, warmToColdSecs, now) }

  predicate IsColdOrNeverQueried(e: CacheEntry, warmToColdSecs: u64, now: Instant) {
    e.lastQueriedAt.None? || IsCold(e, warmToColdSecs, now)
  }

  predicate HasRecentQuery(e: CacheEntry, recentSecs: u64, now: Instant) {
    e.lastQueriedAt.Some? && ElapsedSecs(e.lastQueriedAt.value, now) <= recentSecs
  }

  predicate RefreshLockExpired(e: CacheEntry, timeoutSecs: u64, now: Instant) {
    e.refreshStartedAt.Some? && ElapsedSecs(e.refreshStartedAt.value, now) >= timeoutSecs
  }

  /** Whole seconds have elapsed exactly when that many nanoseconds have. */
  lemma ElapsedAtLeast(t: Instant, now: Instant, secs: nat)
    ensures ElapsedSecs(t, now) >= secs <==> SatSub(now, t) >= secs * NANOS_PER_SEC
  {
  }
}
