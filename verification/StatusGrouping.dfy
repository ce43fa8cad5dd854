/** From pull-request states to the grouped prompt (src/contexts/evaluation/domain/prompt/pull_request/state.rs,
    application/prompt/display_item.rs, interface/prompt.rs). */
module StatusGrouping {
  import opened Numbers
  import opened Sequences
  import CI = CiAggregation

  type PrId = nat

  datatype BranchSync = Conflicting | Behind | SyncUndetermined
  datatype Review = ChangesWanted | ReviewWanted
  datatype Generic = Undetermined
  datatype Unblocked = ReadyToMerge | IsDraft

  datatype PrState =
    | Blocked(branchSync: Option<BranchSync>, ci: Option<CI.CiState>, review: Option<Review>, generic: Option<Generic>)
    | NotBlocked(unblocked: Unblocked)
    | Calculating

  datatype DisplayItem =
    | Conflict | UpdateBranch | SyncUnknown | CiFail | CiAction | CiPending | ChangesRequested | ReviewRequired
    | MergeReady | Draft | StatusCalculating | BlockedUnknown

  function Evaluate(branchSync: Option<BranchSync>, ci: Option<CI.CiState>, review: Option<Review>,
                    unblocked: Option<Unblocked>): PrState
  {
    if branchSync.Some? || ci.Some? || review.Some? then Blocked(branchSync, ci, review, None)
    else if unblocked.Some? then NotBlocked(unblocked.value)
    else Blocked(None, None, None, Some(Undetermined))
  }

  /** The states a pull request can be given. */
  ghost predicate Given(s: PrState) {
    s.Calculating? || exists b, c, r, u :: s == Evaluate(b, c, r, u)
  }

  function FromState(s: PrState): seq<DisplayItem> {
    match s
    case Blocked(_, _, _, _) => FromBlocked(s)
    case NotBlocked(ReadyToMerge) => [MergeReady]
    case NotBlocked(IsDraft) => [Draft]
    case Calculating => [StatusCalculating]
  }

  function FromBlocked(s: PrState): seq<DisplayItem>
    requires s.Blocked?
  {
    BranchItems(s.branchSync) + CiItems(s.ci) + ReviewItems(s.review)
    + if s.generic.None? then [] else [BlockedUnknown]
  }

  function BranchItems(branchSync: Option<BranchSync>): seq<DisplayItem> {
    match branchSync
    case None => []
    case Some(Conflicting) => [Conflict]
    case Some(Behind) => [UpdateBranch]
    case Some(SyncUndetermined) => [SyncUnknown]
  }

  function CiItems(ci: Option<CI.CiState>): seq<DisplayItem> {
    match ci
    case None => []
    case Some(Failed) => [CiFail]
    case Some(NeedsAction) => [CiAction]
    case Some(Running) => [CiPending]
  }

  function ReviewItems(review: Option<Review>): seq<DisplayItem> {
    match review
    case None => []
    case Some(ChangesWanted) => [ChangesRequested]
    case Some(ReviewWanted) => [ReviewRequired]
  }

  /** A given state shows at least one status and none twice. */
  lemma GivenShows(s: PrState)
    ensures Given(s) ==> FromState(s) != []
    ensures NoRepeats(FromState(s))
  {
    if s.Blocked? { BlockedShowsOnce(s); }
  }

  /** What each status stands for: one for each blocker, and without a blocker whether the pull request is ready, a
      draft, or neither. */
  predicate CalledFor(item: DisplayItem, branchSync: Option<BranchSync>, ci: Option<CI.CiState>, review: Option<Review>,
                      unblocked: Option<Unblocked>)
  {
    var free := branchSync.None? && ci.None? && review.None?;
    match item
    case Conflict => branchSync == Some(Conflicting)
    case UpdateBranch => branchSync == Some(Behind)
    case SyncUnknown => branchSync == Some(SyncUndetermined)
    case CiFail => ci == Some(CI.Failed)
    case CiAction => ci == Some(CI.NeedsAction)
    case CiPending => ci == Some(CI.Running)
    case ChangesRequested => review == Some(ChangesWanted)
    case ReviewRequired => review == Some(ReviewWanted)
    case MergeReady => free && unblocked == Some(ReadyToMerge)
    case Draft => free && unblocked == Some(IsDraft)
    case BlockedUnknown => free && unblocked.None?
    case StatusCalculating => false
  }

  /** An evaluated pull request shows exactly the statuses called for; one not evaluated yet shows that. */
  lemma EvaluatedShowsIff(item: DisplayItem, branchSync: Option<BranchSync>, ci: Option<CI.CiState>,
                          review: Option<Review>, unblocked: Option<Unblocked>)
    ensures item in FromState(Evaluate(branchSync, ci, review, unblocked))
       <==> CalledFor(item, branchSync, ci, review, unblocked)
    ensures FromState(Calculating) == [StatusCalculating]
  {
    var s := Evaluate(branchSync, ci, review, unblocked);
    if s.Blocked? { InParts(s, item); }
    InBranchItems(branchSync, item);
    InCiItems(ci, item);
    InReviewItems(review, item);
  }

  lemma InParts(s: PrState, item: DisplayItem)
    requires s.Blocked?
    ensures item in FromBlocked(s) <==>
              || item in BranchItems(s.branchSync) || item in CiItems(s.ci) || item in ReviewItems(s.review)
              || (item == BlockedUnknown && s.generic.Some?)
  {
  }

  lemma InBranchItems(branchSync: Option<BranchSync>, item: DisplayItem)
    ensures item in BranchItems(branchSync) <==>
              (item in {Conflict, UpdateBranch, SyncUnknown} && CalledFor(item, branchSync, None, None, None))
  {
  }

  lemma InCiItems(ci: Option<CI.CiState>, item: DisplayItem)
    ensures item in CiItems(ci) <==>
              (item in {CiFail, CiAction, CiPending} && CalledFor(item, None, ci, None, None))
  {
  }

  lemma InReviewItems(review: Option<Review>, item: DisplayItem)
    ensures item in ReviewItems(review) <==>
              (item in {ChangesRequested, ReviewRequired} && CalledFor(item, None, None, review, None))
  {
  }

  /** Something is still being computed when the pull request is not evaluated yet or a check is running. */
  lemma ProgressIff(s: PrState)
    ensures ShowsProgress(FromState(s)) <==> s.Calculating? || (s.Blocked? && s.ci == Some(CI.Running))
  {
    if s.Blocked? {
      InParts(s, CiPending);
      InParts(s, StatusCalculating);
      InBranchItems(s.branchSync, CiPending);
      InBranchItems(s.branchSync, StatusCalculating);
      InCiItems(s.ci, CiPending);
      InCiItems(s.ci, StatusCalculating);
      InReviewItems(s.review, CiPending);
      InReviewItems(s.review, StatusCalculating);
    }
  }

  /** No status is listed twice. */
  predicate NoRepeats(items: seq<DisplayItem>) { forall i, j | 0 <= i < j < |items| :: items[i] != items[j] }

  /** The four kinds of blocker are shown in a fixed order of disjoint ranks. */
  function Rank(item: DisplayItem): nat {
    match item
    case Conflict | UpdateBranch | SyncUnknown => 1
    case CiFail | CiAction | CiPending => 2
    case ChangesRequested | ReviewRequired => 3
    case _ => 4
  }

  lemma BlockedShowsOnce(s: PrState)
    requires s.Blocked?
    ensures NoRepeats(FromBlocked(s))
    ensures forall i, j | 0 <= i < j < |FromBlocked(s)| :: Rank(FromBlocked(s)[i]) < Rank(FromBlocked(s)[j])
  {
    var items := FromBlocked(s);
    assert forall i, j | 0 <= i < j < |items| :: Rank(items[i]) < Rank(items[j]);
  }

  // ---- grouping --------------------------------------------------------------------------------

  /** The statuses of one pull request. */
  datatype Row = Row(id: PrId, items: seq<DisplayItem>)

  datatype Group = Group(item: DisplayItem, ids: seq<PrId>)

  /** Every (status, pull request) pair, in the order the rows list them. */
  function Pairs(rows: seq<Row>): seq<(DisplayItem, PrId)> {
    if rows == [] then [] else RowPairs(rows[0].id, rows[0].items) + Pairs(rows[1..])
  }

  function RowPairs(id: PrId, items: seq<DisplayItem>): seq<(DisplayItem, PrId)> {
    seq(|items|, i requires 0 <= i < |items| => (items[i], id))
  }

  /** The statuses in the order they are first seen. */
  function FirstSeen(pairs: seq<(DisplayItem, PrId)>): seq<DisplayItem> {
    if pairs == [] then []
    else
      var front, last := FirstSeen(pairs[..|pairs| - 1]), pairs[|pairs| - 1].0;
      if last in front then front else front + [last]
  }

  /** The pull requests with one status, in order. */
  function IdsOf(pairs: seq<(DisplayItem, PrId)>, item: DisplayItem): seq<PrId> {
    if pairs == [] then []
    else
      var front, last := IdsOf(pairs[..|pairs| - 1], item), pairs[|pairs| - 1];
      if last.0 == item then front + [last.1] else front
  }

  /** The inversion: one group for each status, in first-seen order, with exactly its pull requests in order. */
  function Inverted(pairs: seq<(DisplayItem, PrId)>): seq<Group> {
    var keys := FirstSeen(pairs);
    seq(|keys|, i requires 0 <= i < |keys| => Group(keys[i], IdsOf(pairs, keys[i])))
  }

  lemma {:induction false} FirstSeenFacts(pairs: seq<(DisplayItem, PrId)>)
    ensures forall d :: d in FirstSeen(pairs) <==> exists k :: 0 <= k < |pairs| && pairs[k].0 == d
    ensures forall i, j | 0 <= i < j < |FirstSeen(pairs)| :: FirstSeen(pairs)[i] != FirstSeen(pairs)[j]
    ensures forall d :: d !in FirstSeen(pairs) ==> IdsOf(pairs, d) == []
  {
    if pairs != [] {
      var front := pairs[..|pairs| - 1];
      FirstSeenFacts(front);
      assert pairs == front + [pairs[|pairs| - 1]];
    }
  }

  method GroupByDisplayItem(rows: seq<Row>) returns (groups: seq<Group>)
    ensures groups == Inverted(Pairs(rows))
  {
    groups := [];
    ghost var done: seq<(DisplayItem, PrId)> := [];
    assert rows[0..] == rows;
    for r := 0 to |rows|
      invariant groups == Inverted(done)
      invariant done + Pairs(rows[r..]) == Pairs(rows)
    {
      var id, items := rows[r].id, rows[r].items;
      ghost var before := done;
      assert rows[r..][1..] == rows[r + 1..];
      for i := 0 to |items|
        invariant groups == Inverted(done)
        invariant done == before + RowPairs(id, items)[..i]
      {
        groups := AddToGroup(groups, items[i], id, done);
        done := done + [(items[i], id)];
      }
      assert RowPairs(id, items)[..|items|] == RowPairs(id, items);
      assert done + Pairs(rows[r + 1..]) == before + Pairs(rows[r..]);
    }
    assert done + Pairs(rows[|rows|..]) == done;
  }

  /** Adds one pair: to the group with its status, or as a new group at the end. */
  method AddToGroup(groups: seq<Group>, item: DisplayItem, id: PrId, ghost done: seq<(DisplayItem, PrId)>)
      returns (added: seq<Group>)
    requires groups == Inverted(done)
    ensures added == Inverted(done + [(item, id)])
  {
    var at := 0;
    FirstSeenFacts(done);
    ghost var keys := FirstSeen(done);
    while at < |groups| && groups[at].item != item
      invariant at <= |groups|
      invariant forall k | 0 <= k < at :: keys[k] != item
    {
      at := at + 1;
    }
    InvertedStep(done, item, id);
    ghost var pairs := done + [(item, id)];
    if at < |groups| {
      added := groups[at := Group(item, groups[at].ids + [id])];
      assert keys[at] == item && FirstSeen(pairs) == keys;
    } else {
      assert item !in keys;
      added := groups + [Group(item, [id])];
      assert FirstSeen(pairs) == keys + [item];
    }
    assert |added| == |Inverted(pairs)|;
    forall k | 0 <= k < |added| ensures added[k] == Inverted(pairs)[k] {
      assert k != at && k < |keys| ==> keys[k] != item;
    }
  }

  lemma InvertedStep(done: seq<(DisplayItem, PrId)>, item: DisplayItem, id: PrId)
    ensures var pairs := done + [(item, id)];
            var keys := FirstSeen(done);
            && FirstSeen(pairs) == (if item in keys then keys else keys + [item])
            && forall d :: IdsOf(pairs, d) == if d == item then IdsOf(done, d) + [id] else IdsOf(done, d)
  {
    assert (done + [(item, id)])[..|done|] == done;
  }

  // ---- what the grouping means -----------------------------------------------------------------

  /** The pairs the groups stand for. */
  function Flattened(groups: seq<Group>): seq<(DisplayItem, PrId)> {
    if groups == [] then []
    else GroupPairs(groups[0]) + Flattened(groups[1..])
  }

  /** Group keys are distinct; a pull request is in the group of a status exactly when it has that status. */
  lemma GroupsAreTheInverse(rows: seq<Row>, item: DisplayItem, id: PrId)
    ensures var groups := Inverted(Pairs(rows));
            && (forall i, j | 0 <= i < j < |groups| :: groups[i].item != groups[j].item)
            && ((exists g :: g in groups && g.item == item && id in g.ids)
                <==> exists r :: r in rows && r.id == id && item in r.items)
  {
    var pairs := Pairs(rows);
    var groups := Inverted(pairs);
    FirstSeenFacts(pairs);
    PairsOfRows(rows, item, id);
    IdsOfPairs(pairs, item, id);
    if id in IdsOf(pairs, item) {
      assert item in FirstSeen(pairs);
      var k :| 0 <= k < |FirstSeen(pairs)| && FirstSeen(pairs)[k] == item;
      assert groups[k] in groups && groups[k].item == item;
    }
  }

  lemma {:induction false} PairsOfRows(rows: seq<Row>, item: DisplayItem, id: PrId)
    ensures (item, id) in Pairs(rows) <==> exists r :: r in rows && r.id == id && item in r.items
  {
    if rows != [] {
      PairsOfRows(rows[1..], item, id);
      var first := RowPairs(rows[0].id, rows[0].items);
      assert rows == [rows[0]] + rows[1..];
      if rows[0].id == id && item in rows[0].items {
        var i :| 0 <= i < |rows[0].items| && rows[0].items[i] == item;
        assert first[i] == (item, id);
      }
    }
  }

  lemma {:induction false} IdsOfPairs(pairs: seq<(DisplayItem, PrId)>, item: DisplayItem, id: PrId)
    ensures id in IdsOf(pairs, item) <==> (item, id) in pairs
  {
    if pairs != [] {
      IdsOfPairs(pairs[..|pairs| - 1], item, id);
      assert pairs == pairs[..|pairs| - 1] + [pairs[|pairs| - 1]];
    }
  }

  /** Nothing is lost and nothing is counted twice: the groups hold the same pairs as the rows. */
  lemma {:induction false} GroupingConserves(pairs: seq<(DisplayItem, PrId)>)
    ensures multiset(Flattened(Inverted(pairs))) == multiset(pairs)
  {
    if pairs != [] {
      var done, last := pairs[..|pairs| - 1], pairs[|pairs| - 1];
      assert pairs == done + [last];
      GroupingConserves(done);
      AddingConserves(done, last.0, last.1);
    }
  }

  lemma AddingConserves(done: seq<(DisplayItem, PrId)>, item: DisplayItem, id: PrId)
    ensures multiset(Flattened(Inverted(done + [(item, id)])))
         == multiset(Flattened(Inverted(done))) + multiset{(item, id)}
  {
    FirstSeenFacts(done);
    InvertedStep(done, item, id);
    if at :| 0 <= at < |FirstSeen(done)| && FirstSeen(done)[at] == item {
      AddingToGroup(done, at, id);
    } else {
      AddingNewGroup(done, item, id);
    }
  }

  lemma UpdatedGroup(done: seq<(DisplayItem, PrId)>, at: nat, id: PrId)
    requires at < |FirstSeen(done)|
    ensures var item, groups := FirstSeen(done)[at], Inverted(done);
            Inverted(done + [(item, id)]) == groups[at := Group(item, groups[at].ids + [id])]
  {
    FirstSeenFacts(done);
    InvertedStep(done, FirstSeen(done)[at], id);
  }

  lemma AddingToGroup(done: seq<(DisplayItem, PrId)>, at: nat, id: PrId)
    requires at < |FirstSeen(done)|
    ensures var item := FirstSeen(done)[at];
            multiset(Flattened(Inverted(done + [(item, id)])))
              == multiset(Flattened(Inverted(done))) + multiset{(item, id)}
  {
    UpdatedGroup(done, at, id);
    FlattenedUpdate(Inverted(done), at, id);
  }

  lemma AddingNewGroup(done: seq<(DisplayItem, PrId)>, item: DisplayItem, id: PrId)
    requires item !in FirstSeen(done)
    ensures multiset(Flattened(Inverted(done + [(item, id)])))
         == multiset(Flattened(Inverted(done))) + multiset{(item, id)}
  {
    var groups, g := Inverted(done), Group(item, [id]);
    FirstSeenFacts(done);
    InvertedStep(done, item, id);
    FlattenedConcat(groups, [g]);
    FlattenedOne(g);
    assert GroupPairs(g) == [(item, id)];
    SameGroups(done + [(item, id)], groups + [g]);
  }

  lemma SameGroups(pairs: seq<(DisplayItem, PrId)>, groups: seq<Group>)
    requires |groups| == |FirstSeen(pairs)|
    requires forall k | 0 <= k < |groups| :: groups[k] == Group(FirstSeen(pairs)[k], IdsOf(pairs, FirstSeen(pairs)[k]))
    ensures groups == Inverted(pairs)
  {
  }

  function GroupPairs(g: Group): seq<(DisplayItem, PrId)> {
    seq(|g.ids|, i requires 0 <= i < |g.ids| => (g.item, g.ids[i]))
  }

  lemma FlattenedOne(g: Group)
    ensures Flattened([g]) == GroupPairs(g)
  {
    var one := [g];
    assert one[1..] == [];
  }

  lemma {:induction false} FlattenedConcat(a: seq<Group>, b: seq<Group>)
    ensures Flattened(a + b) == Flattened(a) + Flattened(b)
  {
    if a == [] {
      assert a + b == b;
    } else {
      assert (a + b)[1..] == a[1..] + b;
      FlattenedConcat(a[1..], b);
    }
  }

  lemma FlattenedUpdate(groups: seq<Group>, at: nat, id: PrId)
    requires at < |groups|
    ensures multiset(Flattened(groups[at := Group(groups[at].item, groups[at].ids + [id])]))
         == multiset(Flattened(groups)) + multiset{(groups[at].item, id)}
  {
    var g := groups[at];
    var g' := Group(g.item, g.ids + [id]);
    var before, after := groups[..at], groups[at + 1..];
    assert groups == before + ([g] + after);
    assert groups[at := g'] == before + ([g'] + after);
    FlattenedConcat(before, [g] + after);
    FlattenedConcat(before, [g'] + after);
    FlattenedConcat([g], after);
    FlattenedConcat([g'], after);
    FlattenedOne(g);
    FlattenedOne(g');
    assert GroupPairs(g') == GroupPairs(g) + [(g.item, id)];
  }

  // ---- sorted rows -----------------------------------------------------------------------------

  predicate Ascending(ids: seq<PrId>) { forall i, j | 0 <= i < j < |ids| :: ids[i] < ids[j] }

  /** The ids of the rows that list a status, in row order. */
  function RowIds(rows: seq<Row>, item: DisplayItem): seq<PrId> {
    if rows == [] then [] else (if item in rows[0].items then [rows[0].id] else []) + RowIds(rows[1..], item)
  }

  /** When no row lists a status twice, a group is the rows that list it, each once and in row order. */
  lemma {:induction false} GroupInRowOrder(rows: seq<Row>, item: DisplayItem)
    requires forall r | r in rows :: NoRepeats(r.items)
    ensures IdsOf(Pairs(rows), item) == RowIds(rows, item)
  {
    if rows != [] {
      GroupInRowOrder(rows[1..], item);
      IdsOfConcat(RowPairs(rows[0].id, rows[0].items), Pairs(rows[1..]), item);
      IdsOfRow(rows[0].id, rows[0].items, item);
    }
  }

  lemma {:induction false} IdsOfConcat(a: seq<(DisplayItem, PrId)>, b: seq<(DisplayItem, PrId)>, item: DisplayItem)
    ensures IdsOf(a + b, item) == IdsOf(a, item) + IdsOf(b, item)
  {
    if b == [] {
      assert a + b == a;
    } else {
      var front := b[..|b| - 1];
      assert (a + b)[..|a + b| - 1] == a + front;
      IdsOfConcat(a, front, item);
    }
  }

  lemma {:induction false} IdsOfRow(id: PrId, items: seq<DisplayItem>, item: DisplayItem)
    requires NoRepeats(items)
    ensures IdsOf(RowPairs(id, items), item) == if item in items then [id] else []
  {
    if items != [] {
      var front := items[..|items| - 1];
      IdsOfRow(id, front, item);
      assert RowPairs(id, items)[..|items| - 1] == RowPairs(id, front);
      assert items == front + [items[|items| - 1]];
    }
  }

  lemma {:induction false} RowIdsAreRows(rows: seq<Row>, item: DisplayItem, id: PrId)
    requires id in RowIds(rows, item)
    ensures exists i :: 0 <= i < |rows| && rows[i].id == id
  {
    if rows[0].id != id {
      RowIdsAreRows(rows[1..], item, id);
      var i :| 0 <= i < |rows[1..]| && rows[1..][i].id == id;
      assert rows[i + 1].id == id;
    }
  }

  lemma LaterIdsAbove(rows: seq<Row>, item: DisplayItem, j: nat)
    requires forall i | 0 < i < |rows| :: rows[0].id < rows[i].id
    requires rows != [] && j < |RowIds(rows[1..], item)|
    ensures rows[0].id < RowIds(rows[1..], item)[j]
  {
    RowIdsAreRows(rows[1..], item, RowIds(rows[1..], item)[j]);
    var i :| 0 <= i < |rows[1..]| && rows[1..][i].id == RowIds(rows[1..], item)[j];
    assert rows[1..][i] == rows[i + 1];
  }

  lemma {:induction false} RowIdsAscending(rows: seq<Row>, item: DisplayItem)
    requires forall i, j | 0 <= i < j < |rows| :: rows[i].id < rows[j].id
    ensures Ascending(RowIds(rows, item))
  {
    if rows != [] {
      var tail := RowIds(rows[1..], item);
      RowIdsAscending(rows[1..], item);
      forall j | 0 <= j < |tail| ensures rows[0].id < tail[j] {
        LaterIdsAbove(rows, item, j);
      }
      AscendingCons(rows[0].id, tail);
      assert [] + tail == tail;
    }
  }

  lemma AscendingCons(id: PrId, ids: seq<PrId>)
    requires Ascending(ids) && forall j | 0 <= j < |ids| :: id < ids[j]
    ensures Ascending([id] + ids)
  {
    var all := [id] + ids;
    assert forall k | 0 < k < |all| :: all[k] == ids[k - 1];
  }

  // ---- the prompt ------------------------------------------------------------------------------

  datatype PullRequest = PullRequest(id: PrId, state: PrState)

  function ToRows(prs: seq<PullRequest>): seq<Row> {
    seq(|prs|, i requires 0 <= i < |prs| => Row(prs[i].id, FromState(prs[i].state)))
  }

  /** The stable sort by id. */
  function SortById(rows: seq<Row>): seq<Row> {
    if rows == [] then [] else InsertById(SortById(rows[..|rows| - 1]), rows[|rows| - 1])
  }

  function InsertById(sorted: seq<Row>, row: Row): seq<Row> {
    if sorted == [] then [row]
    else if sorted[|sorted| - 1].id <= row.id then sorted + [row]
    else InsertById(sorted[..|sorted| - 1], row) + [sorted[|sorted| - 1]]
  }

  ghost predicate SortedById(rows: seq<Row>) { forall i, j | 0 <= i < j < |rows| :: rows[i].id <= rows[j].id }

  lemma {:induction false} InsertKeeps(sorted: seq<Row>, row: Row)
    ensures multiset(InsertById(sorted, row)) == multiset(sorted + [row])
  {
    if sorted != [] && sorted[|sorted| - 1].id > row.id {
      var front, last := sorted[..|sorted| - 1], sorted[|sorted| - 1];
      InsertKeeps(front, row);
      assert sorted == front + [last];
    }
  }

  lemma {:induction false} InsertSorts(sorted: seq<Row>, row: Row)
    requires SortedById(sorted)
    ensures SortedById(InsertById(sorted, row))
  {
    if sorted != [] && sorted[|sorted| - 1].id > row.id {
      var front, last := sorted[..|sorted| - 1], sorted[|sorted| - 1];
      InsertSorts(front, row);
      InsertBelow(front, row, last.id);
    }
  }

  lemma InsertBelow(front: seq<Row>, row: Row, bound: PrId)
    requires row.id <= bound && forall i | 0 <= i < |front| :: front[i].id <= bound
    ensures forall i | 0 <= i < |InsertById(front, row)| :: InsertById(front, row)[i].id <= bound
  {
    InsertKeeps(front, row);
    var inserted := InsertById(front, row);
    forall i | 0 <= i < |inserted| ensures inserted[i].id <= bound {
      assert inserted[i] in multiset(front + [row]);
    }
  }

  lemma {:induction false} SortKeeps(rows: seq<Row>)
    ensures multiset(SortById(rows)) == multiset(rows)
  {
    if rows != [] {
      var front, last := rows[..|rows| - 1], rows[|rows| - 1];
      SortKeeps(front);
      InsertKeeps(SortById(front), last);
      SeqLast(rows);
      MultisetSnoc(SortById(front), last);
    }
  }

  lemma MultisetSnoc<T>(s: seq<T>, x: T)
    ensures multiset(s + [x]) == multiset(s) + multiset{x}
  {
  }

  lemma {:induction false} SortSorts(rows: seq<Row>)
    ensures SortedById(SortById(rows)) && multiset(SortById(rows)) == multiset(rows)
  {
    SortKeeps(rows);
    if rows != [] {
      SortSorts(rows[..|rows| - 1]);
      InsertSorts(SortById(rows[..|rows| - 1]), rows[|rows| - 1]);
    }
  }

  ghost predicate DistinctIds(prs: seq<PullRequest>) { forall i, j | 0 <= i < j < |prs| :: prs[i].id != prs[j].id }

  lemma {:induction false} SortedStrictly(rows: seq<Row>)
    requires forall i, j | 0 <= i < j < |rows| :: rows[i].id != rows[j].id
    ensures forall i, j | 0 <= i < j < |SortById(rows)| :: SortById(rows)[i].id < SortById(rows)[j].id
  {
    SortSorts(rows);
    var sorted := SortById(rows);
    forall i, j | 0 <= i < j < |sorted| ensures sorted[i].id < sorted[j].id {
      if sorted[i].id == sorted[j].id {
        TwiceInSorted(rows, sorted, i, j);
      }
    }
  }

  lemma TwiceInSorted(rows: seq<Row>, sorted: seq<Row>, i: nat, j: nat)
    requires multiset(rows) == multiset(sorted) && i < j < |sorted| && sorted[i].id == sorted[j].id
    ensures exists a, b :: 0 <= a < b < |rows| && rows[a].id == rows[b].id
  {
    if sorted[i] == sorted[j] {
      assert sorted == sorted[..j] + [sorted[j]] + sorted[j + 1..];
      assert sorted[i] in sorted[..j];
      assert multiset(sorted)[sorted[i]] >= 2;
      OccursTwice(rows, sorted[i]);
    } else {
      assert sorted[i] in multiset(rows) && sorted[j] in multiset(rows);
      var a :| 0 <= a < |rows| && rows[a] == sorted[i];
      var b :| 0 <= b < |rows| && rows[b] == sorted[j];
      assert if a < b then rows[a].id == rows[b].id else rows[b].id == rows[a].id;
    }
  }

  lemma OccursTwice(rows: seq<Row>, row: Row)
    requires multiset(rows)[row] >= 2
    ensures exists a, b :: 0 <= a < b < |rows| && rows[a] == row && rows[b] == row
  {
    assert row in multiset(rows);
    var b :| 0 <= b < |rows| && rows[b] == row;
    var without := rows[..b] + rows[b + 1..];
    assert rows == rows[..b] + [row] + rows[b + 1..];
    assert multiset(rows) == multiset(without) + multiset{row};
    assert row in multiset(without);
    var a :| 0 <= a < |without| && without[a] == row;
    if a < b {
      assert rows[a] == row;
    } else {
      assert rows[a + 1] == row;
    }
  }

  /** The groups the prompt shows: the rows sorted by number, then inverted. */
  function PromptGroups(prs: seq<PullRequest>): seq<Group> { Inverted(Pairs(SortById(ToRows(prs)))) }

  /** Something is still being computed. */
  predicate ShowsProgress(items: seq<DisplayItem>) { CiPending in items || StatusCalculating in items }

  lemma RowsHot(prs: seq<PullRequest>, rows: seq<Row>)
    requires multiset(rows) == multiset(ToRows(prs))
    ensures (exists row :: row in rows && ShowsProgress(row.items))
       <==> exists pr :: pr in prs && ShowsProgress(FromState(pr.state))
  {
    forall row ensures row in rows <==> row in ToRows(prs) {
      assert row in multiset(rows) <==> row in multiset(ToRows(prs));
    }
    if pr :| pr in prs && ShowsProgress(FromState(pr.state)) {
      var i :| 0 <= i < |prs| && prs[i] == pr;
      assert ToRows(prs)[i] in rows;
    }
  }

  lemma AppearsInGroup(prs: seq<PullRequest>, pr: PullRequest)
    requires pr in prs && Given(pr.state)
    ensures exists g :: g in PromptGroups(prs) && pr.id in g.ids && g.item in FromState(pr.state)
  {
    SortSorts(ToRows(prs));
    GivenShows(pr.state);
    var i :| 0 <= i < |prs| && prs[i] == pr;
    assert ToRows(prs)[i] in multiset(SortById(ToRows(prs)));
    GroupsAreTheInverse(SortById(ToRows(prs)), FromState(pr.state)[0], pr.id);
  }

  lemma GroupAscends(prs: seq<PullRequest>, g: Group)
    requires DistinctIds(prs) && g in PromptGroups(prs)
    ensures Ascending(g.ids)
  {
    var rows := SortById(ToRows(prs));
    SortSorts(ToRows(prs));
    SortedStrictly(ToRows(prs));
    RowsTidy(prs, rows);
    GroupInRowOrder(rows, g.item);
    RowIdsAscending(rows, g.item);
  }

  /** With distinct numbers and given states, every pull request appears in some group, and every group lists its
      numbers in strictly ascending order. */
  lemma EveryPullRequestAppears(prs: seq<PullRequest>, pr: PullRequest)
    requires DistinctIds(prs) && (forall x | x in prs :: Given(x.state)) && pr in prs
    ensures exists g :: g in PromptGroups(prs) && pr.id in g.ids && g.item in FromState(pr.state)
    ensures forall g | g in PromptGroups(prs) :: Ascending(g.ids)
  {
    AppearsInGroup(prs, pr);
    forall g | g in PromptGroups(prs) ensures Ascending(g.ids) {
      GroupAscends(prs, g);
    }
  }

  lemma RowsTidy(prs: seq<PullRequest>, rows: seq<Row>)
    requires multiset(rows) == multiset(ToRows(prs))
    ensures forall r | r in rows :: NoRepeats(r.items)
  {
    forall r | r in rows ensures NoRepeats(r.items) {
      assert r in multiset(ToRows(prs));
      var i :| 0 <= i < |prs| && ToRows(prs)[i] == r;
      GivenShows(prs[i].state);
    }
  }
}
