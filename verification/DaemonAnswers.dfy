/** What a client is answered, read off the run itself: the view of an id is computed from the events and effects
    alone, and every query answers it. */
module DaemonAnswers {
  import opened Numbers
  import opened RateLimit
  import opened RefreshModes
  import opened CacheEntries
  import opened Transitions
  import opened DaemonRuns

  /** An id nobody has asked about (or that was dropped since), or the directory it was first asked from and the
      latest completed output, "? loading" before the first completion. */
  datatype View = Absent | Cached(cwd: Cwd, answer: string)

  function ViewAfter(v: View, st: Step, id: RepoId): View {
    match st.event
    case Query(qid, cwd, _, _, _) => if qid == id && v.Absent? then Cached(cwd, LOADING) else v
    case Completed(cid, ev) => if cid == id && v.Cached? then v.(answer := ev.output) else v
    case Tick(_, _) => if RecordExpired(id) in st.effects then Absent else v
    case Observed(_) => v
  }

  function ViewOf(h: seq<Step>, n: nat, id: RepoId): View
    requires n <= |h|
  {
    if n == 0 then Absent else ViewAfter(ViewOf(h, n - 1, id), h[n - 1], id)
  }

  function AnswerOf(v: View): string { if v.Absent? then LOADING else v.answer }

  /** The one output of a query, and the directory of the refresh it may start. */
  predicate AnswersView(st: Step, v: View) {
    && |st.effects| > 0 && st.effects[0] == EmitOutput(AnswerOf(v))
    && (st.effects[1..] == []
        || (st.event.Query?
            && st.effects[1..] == [SpawnRefresh(st.event.id, if v.Absent? then st.event.cwd else v.cwd)]))
    && (v.Absent? ==> |st.effects| == 2)
  }

  /** Every query of the run is answered with the view before it, and every refresh a tick starts runs in the
      directory of the view. */
  ghost predicate AgreesAt(h: seq<Step>, i: nat)
    requires i < |h|
  {
    && (h[i].event.Query? ==> AnswersView(h[i], ViewOf(h, i, h[i].event.id)))
    && (h[i].event.Tick? ==>
          forall id, cwd :: SpawnRefresh(id, cwd) in h[i].effects ==>
            ViewOf(h, i, id) == Cached(cwd, AnswerOf(ViewOf(h, i, id))))
  }

  ghost predicate AgreesWithHistory(h: seq<Step>) {
    forall i: nat | i < |h| :: AgreesAt(h, i)
  }

  /** The clock leaves room to backdate a new entry by one second more than its time to live. */
  predicate HasRoom(ttl: u64, now: Instant) { ttl < U64_MAX && (ttl + 1) * NANOS_PER_SEC <= now }

  ghost predicate StartsAt(h: seq<Step>, t: Instant) {
    forall i: nat | i < |h| :: t <= TimeAt(h, i)
  }

  // ---- what a completion means -----------------------------------------------------------------

  /** The entry still holds what the completion brought. */
  predicate HoldsCompletion(e: Option<CacheEntry>, ev: RefreshCompletedEvent) {
    e.Some? && e.value.HasFetched() && e.value.output == ev.output && e.value.fetchedAt == ev.now
  }

  /** It is not locked either, and in the completion's mode. */
  predicate RestsOn(e: Option<CacheEntry>, ev: RefreshCompletedEvent) {
    HoldsCompletion(e, ev) && e.value.fetchState.Ready? && e.value.refreshMode == ev.refreshMode
  }

  lemma CompletionKeptAt(cfg: Config, h: seq<Step>, m: nat, id: RepoId, ev: RefreshCompletedEvent)
    requires IsRun(cfg, h) && m < |h| && !Releases(h[m], id)
    requires HoldsCompletion(Lookup(h[m].pre.entries, id), ev)
    ensures HoldsCompletion(Lookup(h[m].post.entries, id), ev)
    ensures RestsOn(Lookup(h[m].pre.entries, id), ev) && !Spawns(h[m], id) ==>
              RestsOn(Lookup(h[m].post.entries, id), ev)
  {
    RunStep(cfg, h, m, id);
  }

  lemma CompletionStored(cfg: Config, h: seq<Step>, i: nat, id: RepoId)
    requires IsRun(cfg, h) && i < |h| && Completes(h[i], id) && id in h[i].pre.entries
    ensures RestsOn(Lookup(h[i].post.entries, id), h[i].event.completion)
  {
    RunStep(cfg, h, i, id);
  }

  lemma {:induction false} CompletionKept(cfg: Config, h: seq<Step>, i: nat, m: nat, id: RepoId)
    requires IsRun(cfg, h) && i <= m < |h| && Completes(h[i], id) && id in h[i].pre.entries
    requires forall k | i < k <= m :: !Releases(h[k], id)
    ensures HoldsCompletion(Lookup(h[m].post.entries, id), h[i].event.completion)
    ensures (forall k | i < k <= m :: !Spawns(h[k], id)) ==>
              RestsOn(Lookup(h[m].post.entries, id), h[i].event.completion)
    decreases m - i
  {
    if i == m {
      CompletionStored(cfg, h, i, id);
    } else {
      CompletionKept(cfg, h, i, m - 1, id);
      PreIsPost(cfg, h, m);
      CompletionKeptAt(cfg, h, m, id, h[i].event.completion);
    }
  }

  /** Until the next completion or the expiry of the entry, every query is answered with the output of the last
      completion, whatever the clock does and however often the entry is refreshed in vain. */
  lemma CompletionIsServed(cfg: Config, h: seq<Step>, i: nat, j: nat, id: RepoId)
    requires IsRun(cfg, h) && i < j < |h| && Completes(h[i], id) && id in h[i].pre.entries
    requires Queries(h[j], id) && forall k | i < k < j :: !Releases(h[k], id)
    ensures |h[j].effects| > 0 && h[j].effects[0] == EmitOutput(h[i].event.completion.output)
  {
    CompletionKept(cfg, h, i, j - 1, id);
    PreIsPost(cfg, h, j);
    assert StepOk(cfg, h, j);
  }

  /** How long a completed entry is fresh: the time to live, but the warm interval for a terminal one. */
  function TtlOf(cfg: Config, mode: RefreshMode): u64 {
    if mode.Terminal? then cfg.policy.warmRefreshSecs else cfg.staleTtlSecs
  }

  /** The first refresh after a completion: a query starts it exactly when the completed output is no longer fresh,
      which makes a terminal entry warm again; a tick never does for a terminal entry. */
  lemma NextRefreshIff(cfg: Config, h: seq<Step>, i: nat, j: nat, id: RepoId)
    requires IsRun(cfg, h) && i < j < |h| && Completes(h[i], id) && id in h[i].pre.entries
    requires forall k | i < k < j :: !Releases(h[k], id) && !Spawns(h[k], id)
    ensures var mode := h[i].event.completion.refreshMode;
            && (Queries(h[j], id) ==>
                  (Spawns(h[j], id) <==> ElapsedSecs(TimeAt(h, i), TimeAt(h, j)) > TtlOf(cfg, mode))
                  && id in h[j].post.entries
                  && h[j].post.entries[id].refreshMode
                     == if mode.Terminal? && Spawns(h[j], id) then Warm else mode)
            && (mode.Terminal? && !Queries(h[j], id) ==> !Spawns(h[j], id))
  {
    CompletionKept(cfg, h, i, j - 1, id);
    PreIsPost(cfg, h, j);
    RunStep(cfg, h, j, id);
  }

  // ---- the invariant ---------------------------------------------------------------------------

  /** The entry matches the view; one still loading is older than its time to live and so never fresh. */
  predicate Matches(cfg: Config, e: Option<CacheEntry>, v: View, clock: Instant) {
    match e
    case None => v.Absent?
    case Some(x) =>
      && v == Cached(x.cwd, if x.fetchState.Loading? then LOADING else x.output)
      && (x.fetchState.Loading? ==> x.fetchedAt + (cfg.staleTtlSecs + 1) * NANOS_PER_SEC <= clock)
  }

  lemma LoadingNeverFresh(fetchedAt: Instant, ttl: u64, clock: Instant, now: Instant)
    requires fetchedAt + (ttl + 1) * NANOS_PER_SEC <= clock <= now
    ensures ElapsedSecs(fetchedAt, now) > ttl
  {
    ElapsedAtLeast(fetchedAt, now, ttl + 1);
  }

  lemma MatchKept(cfg: Config, st: Step, id: RepoId, v: View, before: Instant)
    requires EntryStep(cfg, st, id) && (id in st.pre.entries ==> WellKept(st.pre.entries[id]))
    requires st.event.Query? ==> before <= st.event.Time() && HasRoom(cfg.staleTtlSecs, st.event.Time())
    requires Matches(cfg, Lookup(st.pre.entries, id), v, before)
    ensures Matches(cfg, Lookup(st.post.entries, id), ViewAfter(v, st, id),
                    if st.event.Query? then st.event.Time() else before)
  {
  }

  lemma QueryAnswersView(cfg: Config, st: Step, v: View, before: Instant)
    requires Next(cfg, st) && st.event.Query?
    requires st.event.id in st.pre.entries ==> WellKept(st.pre.entries[st.event.id])
    requires before <= st.event.now && Matches(cfg, Lookup(st.pre.entries, st.event.id), v, before)
    ensures AnswersView(st, v)
  {
    var e := Lookup(st.pre.entries, st.event.id);
    if e.Some? && e.value.fetchState.Loading? {
      LoadingNeverFresh(e.value.fetchedAt, cfg.staleTtlSecs, before, st.event.now);
    }
  }

  lemma TickSpawnsView(cfg: Config, st: Step, id: RepoId, cwd: Cwd, v: View, before: Instant)
    requires Next(cfg, st) && st.event.Tick? && SpawnRefresh(id, cwd) in st.effects
    requires Matches(cfg, Lookup(st.pre.entries, id), v, before)
    ensures v == Cached(cwd, AnswerOf(v))
  {
    TickEffectsExact(cfg, st, id);
  }

  /** The time of the last query among the first `n` steps. */
  function QueryClock(h: seq<Step>, n: nat): Instant
    requires n <= |h|
  {
    if n == 0 then 0 else if h[n - 1].event.Query? then TimeAt(h, n - 1) else QueryClock(h, n - 1)
  }

  lemma {:induction false} QueryClockBelow(h: seq<Step>, n: nat, j: nat)
    requires Clocked(h) && n <= j < |h| && h[j].event.Query?
    ensures QueryClock(h, n) <= TimeAt(h, j)
  {
    if n > 0 {
      if h[n - 1].event.Query? {
        assert TimeAt(h, n - 1) <= TimeAt(h, j);
      } else {
        QueryClockBelow(h, n - 1, j);
      }
    }
  }

  /** After every step of the run, the entry of every id matches its view. */
  lemma {:induction false} ReachableMatches(cfg: Config, h: seq<Step>, i: nat, id: RepoId, start: Instant)
    requires IsRun(cfg, h) && Clocked(h) && StartsAt(h, start) && HasRoom(cfg.staleTtlSecs, start) && i <= |h|
    ensures Matches(cfg, Lookup(StoreBefore(h, i).entries, id), ViewOf(h, i, id), QueryClock(h, i))
  {
    if i > 0 {
      ReachableMatches(cfg, h, i - 1, id, start);
      MatchKeptAt(cfg, h, i - 1, id, start);
    }
  }

  lemma MatchKeptAt(cfg: Config, h: seq<Step>, i: nat, id: RepoId, start: Instant)
    requires IsRun(cfg, h) && Clocked(h) && StartsAt(h, start) && HasRoom(cfg.staleTtlSecs, start) && i < |h|
    requires Matches(cfg, Lookup(StoreBefore(h, i).entries, id), ViewOf(h, i, id), QueryClock(h, i))
    ensures Matches(cfg, Lookup(h[i].post.entries, id), ViewOf(h, i + 1, id), QueryClock(h, i + 1))
  {
    RunStep(cfg, h, i, id);
    if h[i].event.Query? { QueryClockBelow(h, i, i); }
    assert start <= TimeAt(h, i);
    MatchKept(cfg, h[i], id, ViewOf(h, i, id), QueryClock(h, i));
  }

  lemma AgreesAtStep(cfg: Config, h: seq<Step>, i: nat, start: Instant)
    requires IsRun(cfg, h) && Clocked(h) && StartsAt(h, start) && HasRoom(cfg.staleTtlSecs, start) && i < |h|
    ensures AgreesAt(h, i)
  {
    assert StepOk(cfg, h, i);
    ReachableWellKept(cfg, h, i);
    if h[i].event.Query? {
      QueryClockBelow(h, i, i);
      ReachableMatches(cfg, h, i, h[i].event.id, start);
      QueryAnswersView(cfg, h[i], ViewOf(h, i, h[i].event.id), QueryClock(h, i));
    } else if h[i].event.Tick? {
      forall id, cwd | SpawnRefresh(id, cwd) in h[i].effects
        ensures ViewOf(h, i, id) == Cached(cwd, AnswerOf(ViewOf(h, i, id)))
      {
        ReachableMatches(cfg, h, i, id, start);
        TickSpawnsView(cfg, h[i], id, cwd, ViewOf(h, i, id), QueryClock(h, i));
      }
    }
  }

  // ---- the theorem and its exact condition -----------------------------------------------------

  lemma RoomSuffices(cfg: Config, h: seq<Step>, start: Instant)
    requires IsRun(cfg, h) && Clocked(h) && StartsAt(h, start) && HasRoom(cfg.staleTtlSecs, start)
    ensures AgreesWithHistory(h)
  {
    forall i: nat | i < |h| ensures AgreesAt(h, i) {
      AgreesAtStep(cfg, h, i, start);
    }
  }

  /** Without room, two queries at the same instant give different answers: the second finds the new entry fresh
      and answers its empty output. */
  lemma NoRoomDisagrees(cfg: Config, start: Instant) returns (h: seq<Step>)
    requires !HasRoom(cfg.staleTtlSecs, start)
    ensures IsRun(cfg, h) && Clocked(h) && StartsAt(h, start) && !AgreesWithHistory(h)
  {
    var first := QueryStep(cfg, EMPTY_STORE, "r", "", start);
    var second := QueryStep(cfg, first.post, "r", "", start);
    h := [first, second];
    assert StepOk(cfg, h, 0) && StepOk(cfg, h, 1);
    assert ViewOf(h, 0, "r") == Absent;
    assert ViewOf(h, 1, "r") == Cached("", LOADING);
    var e := first.post.entries["r"];
    NewEntryFresh(cfg, e, start);
    assert second.effects[0] == EmitOutput("");
    assert !AgreesAt(h, 1);
  }

  lemma NewEntryFresh(cfg: Config, e: CacheEntry, now: Instant)
    requires !HasRoom(cfg.staleTtlSecs, now) && e == NewLoading("", "", cfg.staleTtlSecs, now, 0)
    ensures ElapsedSecs(e.fetchedAt, now) <= cfg.staleTtlSecs
  {
    ElapsedAtLeast(e.fetchedAt, now, cfg.staleTtlSecs + 1);
  }

  /** Every run whose clock starts at `start` or later, and never runs backwards, answers every query with the
      latest completed output, "? loading" before the first, exactly when the clock has room for the backdating. */
  lemma AnswersAgreeIffRoom(cfg: Config, start: Instant)
    ensures HasRoom(cfg.staleTtlSecs, start)
       <==> forall h: seq<Step> | IsRun(cfg, h) && Clocked(h) && StartsAt(h, start) :: AgreesWithHistory(h)
  {
    if HasRoom(cfg.staleTtlSecs, start) {
      forall h: seq<Step> | IsRun(cfg, h) && Clocked(h) && StartsAt(h, start) ensures AgreesWithHistory(h) {
        RoomSuffices(cfg, h, start);
      }
    } else {
      var h := NoRoomDisagrees(cfg, start);
      assert !AgreesWithHistory(h);
    }
  }
}
