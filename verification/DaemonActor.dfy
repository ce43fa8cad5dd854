/** The actor that owns the store (src/contexts/daemon/infrastructure/daemon_state_actor.rs) and the request
    handler it calls (request_handler.rs). It handles one command at a time; `history` is the run so far. */
module DaemonActors {
  import opened Numbers
  import opened Sequences
  import opened RateLimit
  import opened RefreshModes
  import opened CacheEntries
  import opened Transitions
  import opened DaemonRuns
  import opened DaemonAnswers

  datatype RepoInfo = RepoInfo(id: RepoId, branch: string)

  /** A decoded request; `repo` is what the daemon derives from the query's directory. */
  datatype Request =
    | QueryRequest(cwd: Cwd, repo: Option<RepoInfo>)
    | UpdateRequest(repoId: RepoId, output: string, refreshMode: RefreshMode, prOutputs: seq<PrOutput>)
    | StopRequest
    | StatusRequest
    | EntriesRequest

  /** A line of the watch table. */
  datatype EntryDto = EntryDto(cwd: Cwd, branch: string, prId: Option<u64>, output: string, cachedAtSecs: nat)

  datatype Response =
    | Output(output: string)
    | Ok
    | Status(entries: nat, uptimeSecs: nat, version: string)
    | Entries(dtos: seq<EntryDto>)

  datatype ActionResult = ActionResult(
    response: Response, refreshRepoId: Option<RepoId>, refreshCwd: Option<Cwd>, stop: bool)

  const VERSION := "1.0.5"

  function LastOutput(effects: seq<Effect>): string {
    if effects == [] then ""
    else
      var last := effects[|effects| - 1];
      if last.EmitOutput? then last.output else LastOutput(effects[..|effects| - 1])
  }

  function LastSpawn(effects: seq<Effect>): Option<(RepoId, Cwd)> {
    if effects == [] then None
    else
      var last := effects[|effects| - 1];
      if last.SpawnRefresh? then Some((last.repoId, last.cwd)) else LastSpawn(effects[..|effects| - 1])
  }

  function ActionOf(effects: seq<Effect>): ActionResult {
    var spawn := LastSpawn(effects);
    ActionResult(Output(LastOutput(effects)), if spawn.None? then None else Some(spawn.value.0),
                 if spawn.None? then None else Some(spawn.value.1), false)
  }

  method EffectsToActionResult(effects: seq<Effect>) returns (result: ActionResult)
    ensures result == ActionOf(effects)
  {
    var response := Output("");
    var refreshRepoId: Option<RepoId>, refreshCwd: Option<Cwd> := None, None;
    for i := 0 to |effects|
      invariant ActionResult(response, refreshRepoId, refreshCwd, false) == ActionOf(effects[..i])
    {
      assert effects[..i + 1][..i] == effects[..i];
      match effects[i] {
        case EmitOutput(s) => response := Output(s);
        case SpawnRefresh(id, cwd) => refreshRepoId, refreshCwd := Some(id), Some(cwd);
        case RecordExpired(_) =>
        case EnterBackoff(_) =>
      }
    }
    assert effects[..|effects|] == effects;
    result := ActionResult(response, refreshRepoId, refreshCwd, false);
  }

  /** The reply to a query whose effects answer the view: the answer, and a refresh exactly when one is started. */
  lemma ActionAnswersView(st: Step, v: View)
    requires st.event.Query? && AnswersView(st, v)
    ensures ActionOf(st.effects).response == Output(AnswerOf(v))
    ensures ActionOf(st.effects).refreshRepoId.Some? <==> Spawns(st, st.event.id)
    ensures Spawns(st, st.event.id) ==>
              && ActionOf(st.effects).refreshRepoId == Some(st.event.id)
              && ActionOf(st.effects).refreshCwd == Some(if v.Absent? then st.event.cwd else v.cwd)
  {
    var emit := EmitOutput(AnswerOf(v));
    assert [emit][..0] == [] && LastOutput([emit]) == AnswerOf(v) && LastSpawn([emit]) == None;
    if st.effects[1..] == [] {
      assert st.effects == [emit];
      assert forall cwd :: SpawnRefresh(st.event.id, cwd) !in [emit];
    } else {
      var spawn := SpawnRefresh(st.event.id, if v.Absent? then st.event.cwd else v.cwd);
      assert st.effects == [emit, spawn];
      assert [emit, spawn][..1] == [emit];
      assert LastOutput([emit, spawn]) == LastOutput([emit]);
      assert spawn in st.effects;
    }
  }

  // ---- the listing of the entries --------------------------------------------------------------

  /** One line for the entry as a whole, or one for each of its pull requests. */
  function EntryToDtos(e: CacheEntry): seq<EntryDto> {
    var cachedAtSecs := e.fetchedAtWall / NANOS_PER_SEC;
    if e.prOutputs == [] then [EntryDto(e.cwd, e.branch, None, e.output, cachedAtSecs)]
    else
      seq(|e.prOutputs|, i requires 0 <= i < |e.prOutputs| =>
        EntryDto(e.cwd, e.branch, Some(e.prOutputs[i].prId), e.prOutputs[i].output, cachedAtSecs))
  }

  function DtosInOrder(entries: map<RepoId, CacheEntry>, order: seq<RepoId>): seq<EntryDto>
    requires forall id | id in order :: id in entries
  {
    if order == [] then []
    else DtosInOrder(entries, order[..|order| - 1]) + EntryToDtos(entries[order[|order| - 1]])
  }

  /** The lines of every entry, entry by entry, in some order of the entries. */
  ghost predicate ListsEntries(entries: map<RepoId, CacheEntry>, dtos: seq<EntryDto>) {
    exists order: seq<RepoId> :: multiset(order) == multiset(entries.Keys) && IsListing(entries, order, dtos)
  }

  ghost predicate IsListing(entries: map<RepoId, CacheEntry>, order: seq<RepoId>, dtos: seq<EntryDto>) {
    (forall id | id in order :: id in entries) && dtos == DtosInOrder(entries, order)
  }

  method ListEntries(entries: map<RepoId, CacheEntry>) returns (dtos: seq<EntryDto>)
    ensures ListsEntries(entries, dtos)
  {
    dtos := [];
    var left := entries.Keys;
    ghost var order: seq<RepoId>, done: set<RepoId> := [], {};
    while left != {}
      invariant left + done == entries.Keys && left !! done && multiset(order) == multiset(done)
      invariant IsListing(entries, order, dtos)
      decreases left
    {
      var id :| id in left;
      AddOne(order, done, id);
      assert (order + [id])[..|order|] == order;
      dtos, order := dtos + EntryToDtos(entries[id]), order + [id];
      left, done := left - {id}, done + {id};
    }
    assert done == entries.Keys;
  }

  lemma {:induction false} InOrderIff(entries: map<RepoId, CacheEntry>, order: seq<RepoId>, dto: EntryDto)
    requires forall id | id in order :: id in entries
    ensures dto in DtosInOrder(entries, order) <==> exists id :: id in order && dto in EntryToDtos(entries[id])
  {
    if order != [] {
      InOrderIff(entries, order[..|order| - 1], dto);
      SeqLast(order);
    }
  }

  /** A line shows the entry's directory, branch and age, and either one of its pull requests or, when it has none, its
      output. */
  predicate IsLineOf(dto: EntryDto, e: CacheEntry) {
    && dto.cwd == e.cwd && dto.branch == e.branch && dto.cachedAtSecs == e.fetchedAtWall / 1_000_000_000
    && match dto.prId
       case None => e.prOutputs == [] && dto.output == e.output
       case Some(prId) => PrOutput(prId, dto.output) in e.prOutputs
  }

  lemma LinesOf(e: CacheEntry, dto: EntryDto)
    ensures dto in EntryToDtos(e) <==> IsLineOf(dto, e)
  {
    if dto.prId.Some? && PrOutput(dto.prId.value, dto.output) in e.prOutputs {
      var i: nat :| i < |e.prOutputs| && e.prOutputs[i] == PrOutput(dto.prId.value, dto.output);
      assert IsLineOf(dto, e) ==> EntryToDtos(e)[i] == dto;
    }
  }

  /** Whatever the order, a line is listed exactly when it belongs to an entry of the store. */
  lemma ListedIff(entries: map<RepoId, CacheEntry>, dtos: seq<EntryDto>, dto: EntryDto)
    requires ListsEntries(entries, dtos)
    ensures dto in dtos <==> exists id :: id in entries && IsLineOf(dto, entries[id])
  {
    forall id | id in entries { LinesOf(entries[id], dto); }
    var order: seq<RepoId> :| multiset(order) == multiset(entries.Keys) && IsListing(entries, order, dtos);
    InOrderIff(entries, order, dto);
    forall id: RepoId ensures id in order <==> id in entries {
      assert id in multiset(order) <==> id in multiset(entries.Keys);
    }
  }

  // ---- the actor -------------------------------------------------------------------------------

  lemma ExtendRun(cfg: Config, h: seq<Step>, st: Step)
    requires IsRun(cfg, h) && Next(cfg, st) && st.pre == StoreBefore(h, |h|)
    ensures IsRun(cfg, h + [st]) && StoreBefore(h + [st], |h| + 1) == st.post
  {
    var longer := h + [st];
    forall i: nat | i < |longer| ensures StepOk(cfg, longer, i) {
      if i < |h| {
        assert StepOk(cfg, h, i);
        assert longer[i] == h[i] && StoreBefore(longer, i) == StoreBefore(h, i);
      } else {
        assert StoreBefore(longer, i) == StoreBefore(h, i);
      }
    }
  }

  /** The clock never ran backwards and left room to backdate new entries. */
  ghost predicate ClockFits(cfg: Config, h: seq<Step>) {
    Clocked(h) && exists start :: StartsAt(h, start) && HasRoom(cfg.staleTtlSecs, start)
  }

  class DaemonStateActor {
    const config: Config
    const startedAt: Instant
    var cacheStore: CacheStore
    ghost var history: seq<Step>

    /** The store is the one the run so far leads to. */
    ghost predicate Valid()
      reads this
    {
      IsRun(config, history) && cacheStore == StoreBefore(history, |history|)
    }

    constructor (config: Config, startedAt: Instant)
      ensures Valid() && history == [] && this.config == config && this.startedAt == startedAt
      ensures cacheStore == EMPTY_STORE
    {
      this.config, this.startedAt := config, startedAt;
      cacheStore, history := EMPTY_STORE, [];
    }

    ghost method Record(pre: CacheStore, event: Event, effects: seq<Effect>)
      requires IsRun(config, history) && pre == StoreBefore(history, |history|)
      requires Next(config, Step(pre, event, effects, cacheStore))
      modifies this`history
      ensures Valid() && history == old(history) + [Step(pre, event, effects, cacheStore)]
    {
      ExtendRun(config, history, Step(pre, event, effects, cacheStore));
      history := history + [Step(pre, event, effects, cacheStore)];
    }

    /** A query of a directory with a repository is one step of the run, and its reply is the answer the run
        itself determines; an update is one step; every other request leaves the store alone. */
    method Process(request: Request, now: Instant, nowWall: SystemTime) returns (result: ActionResult)
      requires Valid()
      modifies this
      ensures Valid()
      ensures match request
              case QueryRequest(cwd, Some(RepoInfo(id, branch))) =>
                && |history| == |old(history)| + 1 && history[..|old(history)|] == old(history)
                && history[|old(history)|].event == Query(id, cwd, branch, now, nowWall)
                && result == ActionOf(history[|old(history)|].effects)
                && (ClockFits(config, history) ==>
                      result.response == Output(AnswerOf(ViewOf(history, |old(history)|, id))))
              case UpdateRequest(id, output, mode, prOutputs) =>
                && |history| == |old(history)| + 1 && history[..|old(history)|] == old(history)
                && history[|old(history)|].event
                     == Completed(id, RefreshCompletedEvent(output, prOutputs, mode, now, nowWall))
                && result == ActionResult(Ok, None, None, false)
              case QueryRequest(_, None) =>
                history == old(history) && result == ActionResult(Output(""), None, None, false)
              case StopRequest => history == old(history) && result == ActionResult(Ok, None, None, true)
              case StatusRequest =>
                && history == old(history)
                && result == ActionResult(Status(|cacheStore.entries|, ElapsedSecs(startedAt, now), "1.0.5"),
                                          None, None, false)
              case EntriesRequest =>
                && history == old(history) && result.response.Entries?
                && ListsEntries(cacheStore.entries, result.response.dtos)
                && result == ActionResult(result.response, None, None, false)
    {
      match request {
        case QueryRequest(cwd, repo) =>
          if repo.None? {
            return ActionResult(Output(""), None, None, false);
          }
          result := ProcessQuery(repo.value.id, repo.value.branch, cwd, now, nowWall);
        case UpdateRequest(id, output, mode, prOutputs) =>
          result := ProcessUpdate(id, output, mode, prOutputs, now, nowWall);
        case StopRequest => result := ActionResult(Ok, None, None, true);
        case StatusRequest =>
          result := ActionResult(Status(|cacheStore.entries|, ElapsedSecs(startedAt, now), VERSION), None, None, false);
        case EntriesRequest =>
          var dtos := ListEntries(cacheStore.entries);
          result := ActionResult(Entries(dtos), None, None, false);
      }
    }

    method ProcessQuery(id: RepoId, branch: string, cwd: Cwd, now: Instant, nowWall: SystemTime)
        returns (result: ActionResult)
      requires Valid()
      modifies this
      ensures Valid() && |history| == |old(history)| + 1 && history[..|old(history)|] == old(history)
      ensures history[|old(history)|].event == Query(id, cwd, branch, now, nowWall)
      ensures result == ActionOf(history[|old(history)|].effects)
      ensures ClockFits(config, history) ==> result.response == Output(AnswerOf(ViewOf(history, |old(history)|, id)))
    {
      ghost var before, n := cacheStore, |history|;
      var ev := QueryEvent(cwd, branch, now, nowWall, config.staleTtlSecs);
      var newStore, effects := OnQuery(cacheStore, ev, id, config.policy);
      cacheStore := newStore;
      Record(before, Query(id, cwd, branch, now, nowWall), effects);
      result := EffectsToActionResult(effects);
      if ClockFits(config, history) {
        var start :| StartsAt(history, start) && HasRoom(config.staleTtlSecs, start);
        AgreesAtStep(config, history, n, start);
        ActionAnswersView(history[n], ViewOf(history, n, id));
      }
    }

    method ProcessUpdate(id: RepoId, output: string, mode: RefreshMode, prOutputs: seq<PrOutput>, now: Instant,
                         nowWall: SystemTime) returns (result: ActionResult)
      requires Valid()
      modifies this
      ensures Valid() && |history| == |old(history)| + 1 && history[..|old(history)|] == old(history)
      ensures history[|old(history)|].event
           == Completed(id, RefreshCompletedEvent(output, prOutputs, mode, now, nowWall))
      ensures result == ActionResult(Ok, None, None, false)
    {
      ghost var before := cacheStore;
      var ev := RefreshCompletedEvent(output, prOutputs, mode, now, nowWall);
      var newStore, effects := OnRefreshCompleted(cacheStore, id, ev);
      cacheStore := newStore;
      Record(before, Completed(id, ev), effects);
      result := ActionResult(Ok, None, None, false);
    }

    method HandleTick(now: Instant, nowWall: SystemTime) returns (effects: seq<Effect>)
      requires Valid()
      modifies this
      ensures Valid() && |history| == |old(history)| + 1 && history[..|old(history)|] == old(history)
      ensures history[|old(history)|].event == Tick(now, nowWall) && history[|old(history)|].effects == effects
    {
      ghost var before := cacheStore;
      var newStore;
      newStore, effects := OnSchedulerTick(cacheStore, config.TickAt(now, nowWall));
      cacheStore := newStore;
      Record(before, Tick(now, nowWall), effects);
    }

    method ApplyRateLimit(ev: RateLimitObservedEvent) returns (effects: seq<Effect>)
      requires Valid()
      modifies this
      ensures Valid() && |history| == |old(history)| + 1 && history[..|old(history)|] == old(history)
      ensures history[|old(history)|].event == Observed(ev) && history[|old(history)|].effects == effects
    {
      ghost var before := cacheStore;
      var (newStore, newEffects) := OnRateLimitObserved(cacheStore, ev);
      cacheStore, effects := newStore, newEffects;
      Record(before, Observed(ev), effects);
    }
  }
}
