/** Two concrete runs under the shipped configuration, each an input on which a documented promise fails. */
module DaemonExamples {
  import opened Numbers
  import opened RateLimit
  import opened RefreshModes
  import opened CacheEntries
  import opened RefreshPolicies
  import opened Transitions
  import opened DaemonRuns

  /** The shipped configuration. */
  const SHIPPED := Config(RefreshPolicy(30, 2, 10, 180, 1_800, 1_800, 3_600, 10), 5, 120, 172_800)

  function At(secs: nat): Instant { secs * NANOS_PER_SEC }

  lemma FiveSteps(cfg: Config, a: Step, b: Step, c: Step, d: Step, e: Step)
    requires Next(cfg, a) && Next(cfg, b) && Next(cfg, c) && Next(cfg, d) && Next(cfg, e)
    requires a.pre == EMPTY_STORE && b.pre == a.post && c.pre == b.post && d.pre == c.post && e.pre == d.post
    ensures IsRun(cfg, [a, b, c, d, e])
  {
    var h := [a, b, c, d, e];
    assert StepOk(cfg, h, 0) && StepOk(cfg, h, 1) && StepOk(cfg, h, 2) && StepOk(cfg, h, 3) && StepOk(cfg, h, 4);
  }

  lemma FiveTimes(h: seq<Step>)
    requires |h| == 5 && TimeAt(h, 0) <= TimeAt(h, 1) <= TimeAt(h, 2) <= TimeAt(h, 3) <= TimeAt(h, 4)
    ensures Clocked(h)
  {
  }

  // ---- a query that does not bring the entry back ----------------------------------------------

  function CompletionAt(secs: nat): RefreshCompletedEvent { RefreshCompletedEvent("ready", [], Warm, At(secs), 0) }

  function ColdEntry(fetchState: FetchState, fetched: nat, lockedAt: Option<Instant>, count: u32): CacheEntry {
    CacheEntry("ready", [], fetchState, At(fetched), 0, lockedAt, "", "", Warm, Some(At(10)), count)
  }

  /** A tick 31 minutes after the only query refreshes the entry and counts one cold refresh. */
  lemma TickRefreshesCold(store: CacheStore) returns (st: Step)
    requires store == CacheStore(map["r" := ColdEntry(Ready, 11, None, 0)], None, None)
    ensures Next(SHIPPED, st) && st.pre == store && st.event == Tick(At(1_900), 0) && TickSpawns(st, "r")
    ensures st.post.entries == map["r" := ColdEntry(Refreshing, 11, Some(At(1_900)), 1)]
    ensures st.post.latestRateLimit.None? && st.post.backoffUntil.None?
  {
    var input := SHIPPED.TickAt(At(1_900), 0);
    var kept := Survivors(store.entries, input);
    assert kept == store.entries;
    assert Due(kept["r"], input, None, TotalCost(kept));
    var spawn := SpawnRefresh("r", "");
    assert ExpiredEffects(store.entries, store.entries.Keys, input) == {};
    assert SpawnEffects(kept, kept.Keys, input, None, TotalCost(kept)) == {spawn};
    assert OwedEffects(store, input) == {spawn};
    st := Step(store, Tick(At(1_900), 0), [spawn], TickStore(store, input));
    assert spawn in st.effects;
  }

  lemma FirstLoad() returns (asked: Step, loaded: Step)
    ensures Next(SHIPPED, asked) && asked.pre == EMPTY_STORE && asked.event == Query("r", "", "", At(10), 0)
    ensures Next(SHIPPED, loaded) && loaded.pre == asked.post && loaded.event == Completed("r", CompletionAt(11))
    ensures loaded.post == CacheStore(map["r" := ColdEntry(Ready, 11, None, 0)], None, None)
  {
    asked := QueryStep(SHIPPED, EMPTY_STORE, "r", "", At(10));
    loaded := CompletedStep(asked.post, "r", CompletionAt(11));
  }

  lemma FreshAgain(store: CacheStore) returns (reloaded: Step, again: Step)
    requires store.entries == map["r" := ColdEntry(Refreshing, 11, Some(At(1_900)), 1)]
    ensures Next(SHIPPED, reloaded) && reloaded.pre == store && reloaded.event == Completed("r", CompletionAt(1_901))
    ensures Next(SHIPPED, again) && again.pre == reloaded.post && again.event == Query("r", "", "", At(1_902), 0)
    ensures "r" in again.pre.entries && "r" in again.post.entries
    ensures IsCold(again.pre.entries["r"], SHIPPED.policy.warmToColdSecs, At(1_902))
    ensures IsFresh(again.pre.entries["r"], SHIPPED.staleTtlSecs, At(1_902))
    ensures again.pre.entries["r"].coldRefreshCount == again.post.entries["r"].coldRefreshCount == 1
  {
    reloaded := CompletedStep(store, "r", CompletionAt(1_901));
    again := QueryStep(SHIPPED, reloaded.post, "r", "", At(1_902));
    assert again.pre.entries["r"] == ColdEntry(Ready, 1_901, None, 1);
  }

  /** With the shipped intervals: a query, a completion, a cold refresh, its completion, and a query that finds the
      entry cold and fresh and leaves the count at one. */
  lemma FreshQueryKeepsColdCount() returns (h: seq<Step>)
    ensures IsRun(SHIPPED, h) && Clocked(h) && |h| == 5
    ensures Queries(h[4], "r") && "r" in h[4].pre.entries && "r" in h[4].post.entries
    ensures IsCold(h[4].pre.entries["r"], SHIPPED.policy.warmToColdSecs, TimeAt(h, 4))
    ensures IsFresh(h[4].pre.entries["r"], SHIPPED.staleTtlSecs, TimeAt(h, 4))
    ensures h[4].pre.entries["r"].coldRefreshCount == h[4].post.entries["r"].coldRefreshCount == 1
  {
    var asked, loaded := FirstLoad();
    var ticked := TickRefreshesCold(loaded.post);
    var reloaded, again := FreshAgain(ticked.post);
    h := [asked, loaded, ticked, reloaded, again];
    FiveSteps(SHIPPED, asked, loaded, ticked, reloaded, again);
    FiveTimes(h);
  }

  // ---- a refresh that is lost for good ---------------------------------------------------------

  /** The entry of a branch whose pull requests are all closed, while its refresh of 300 s is under way. */
  const CLOSED := CacheEntry("", [], Refreshing, At(11), 0, Some(At(300)), "", "", Warm, Some(At(300)), 0)

  lemma ReopensClosed() returns (asked: Step, closed: Step, reopened: Step)
    ensures Next(SHIPPED, asked) && asked.pre == EMPTY_STORE && asked.event == Query("r", "", "", At(10), 0)
    ensures Next(SHIPPED, closed) && closed.pre == asked.post
    ensures closed.event == Completed("r", RefreshCompletedEvent("", [], Terminal, At(11), 0))
    ensures Next(SHIPPED, reopened) && reopened.pre == closed.post
    ensures reopened.event == Query("r", "", "", At(300), 0) && Spawns(reopened, "r")
    ensures reopened.post == CacheStore(map["r" := CLOSED], None, None)
  {
    asked := QueryStep(SHIPPED, EMPTY_STORE, "r", "", At(10));
    closed := CompletedStep(asked.post, "r", RefreshCompletedEvent("", [], Terminal, At(11), 0));
    assert closed.post.entries["r"] == CacheEntry("", [], Ready, At(11), 0, None, "", "", Terminal, Some(At(10)), 0);
    reopened := QueryStep(SHIPPED, closed.post, "r", "", At(300));
    assert reopened.effects[1] == SpawnRefresh("r", "");
  }

  /** A tick two minutes later finds the lock timed out and leaves it. */
  lemma TickLeavesLock(store: CacheStore) returns (st: Step)
    requires store == CacheStore(map["r" := CLOSED], None, None)
    ensures Next(SHIPPED, st) && st.pre == st.post == store && st.event == Tick(At(420), 0) && st.effects == []
  {
    var input := SHIPPED.TickAt(At(420), 0);
    assert Survivors(store.entries, input) == store.entries;
    assert OwedEffects(store, input) == {};
    assert TickStore(store, input) == store;
    st := Step(store, Tick(At(420), 0), [], store);
  }

  lemma AnswersClosed(store: CacheStore) returns (st: Step)
    requires store == CacheStore(map["r" := CLOSED], None, None)
    ensures Next(SHIPPED, st) && st.pre == store && st.event == Query("r", "", "", At(500), 0)
    ensures st.effects == [EmitOutput("")]
    ensures "r" in st.post.entries && st.post.entries["r"].IsRefreshing()
  {
    st := QueryStep(SHIPPED, store, "r", "", At(500));
  }

  /** All pull requests of a branch are closed, which completes with an empty output; a query reopens it; its refresh
      is lost; the tick after the lock timeout does nothing, and the next query is answered with the empty output and
      starts no refresh either. */
  lemma ClosedBranchStaysLocked() returns (h: seq<Step>)
    ensures IsRun(SHIPPED, h) && Clocked(h) && |h| == 5
    ensures Spawns(h[2], "r") && h[3].event.Tick? && Queries(h[4], "r")
    ensures ElapsedSecs(TimeAt(h, 2), TimeAt(h, 3)) >= SHIPPED.refreshLockTimeoutSecs
    ensures h[3].effects == [] && h[4].effects == [EmitOutput("")]
    ensures "r" in h[4].post.entries && h[4].post.entries["r"].IsRefreshing()
  {
    var asked, closed, reopened := ReopensClosed();
    var ticked := TickLeavesLock(reopened.post);
    var answered := AnswersClosed(ticked.post);
    h := [asked, closed, reopened, ticked, answered];
    FiveSteps(SHIPPED, asked, closed, reopened, ticked, answered);
    FiveTimes(h);
  }
}
