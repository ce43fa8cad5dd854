/** The CI state of a pull request: the latest run of every check, folded by priority
    (src/contexts/evaluation/infrastructure/gh.rs `ci_from_node`, gh/schema.rs, gh/mapper.rs). */
module CiAggregation {
  import opened Numbers
  import opened Sequences

  datatype CheckContext =
    | CheckRun(runName: string, status: string, conclusion: Option<string>, startedAt: Option<string>)
    | StatusContext(context: string, state: string, createdAt: Option<string>)
    | Unknown
  {
    function Name(): Option<string> {
      match this
      case CheckRun(n, _, _, _) => Some(n)
      case StatusContext(c, _, _) => Some(c)
      case Unknown => None
    }

    /** The ISO 8601 time stamp, empty when missing; lexicographic order is the order in time. */
    function Recency(): string {
      match this
      case CheckRun(_, _, _, at) => if at.Some? then at.value else ""
      case StatusContext(_, _, at) => if at.Some? then at.value else ""
      case Unknown => ""
    }
  }

  datatype CheckBucket = Fail | Cancel | ActionRequired | Pending | Other

  /** The CI blocker of a pull request (domain/prompt/pull_request/state/blocked.rs). */
  datatype CiState = Failed | NeedsAction | Running

  function ContextToBucket(c: CheckContext): CheckBucket {
    match c
    case CheckRun(_, status, conclusion, _) =>
      if status != "COMPLETED" then Pending
      else if conclusion == Some("ACTION_REQUIRED") then ActionRequired
      else if conclusion == Some("CANCELLED") then Cancel
      else if conclusion in {Some("FAILURE"), Some("TIMED_OUT"), Some("STARTUP_FAILURE")} then Fail
      else Other
    case StatusContext(_, state, _) =>
      if state == "PENDING" || state == "EXPECTED" then Pending
      else if state == "ERROR" || state == "FAILURE" then Fail
      else Other
    case Unknown => Other
  }

  // ---- lexicographic order ---------------------------------------------------------------------

  predicate AtMost(a: string, b: string) {
    a == "" || (b != "" && (a[0] < b[0] || (a[0] == b[0] && AtMost(a[1..], b[1..]))))
  }

  lemma {:induction false} AtMostTotal(a: string, b: string)
    ensures AtMost(a, b) || AtMost(b, a)
    ensures AtMost(a, b) && AtMost(b, a) ==> a == b
  {
    if a != "" && b != "" {
      AtMostTotal(a[1..], b[1..]);
      assert a == [a[0]] + a[1..] && b == [b[0]] + b[1..];
    }
  }

  lemma {:induction false} AtMostTransitive(a: string, b: string, c: string)
    requires AtMost(a, b) && AtMost(b, c)
    ensures AtMost(a, c)
  {
    if a != "" && a[0] == b[0] == c[0] {
      AtMostTransitive(a[1..], b[1..], c[1..]);
    }
  }

  // ---- the reference ---------------------------------------------------------------------------

  /** Context `i` is the latest of its name: no other is more recent, and none before it is as recent. */
  ghost predicate IsLatest(contexts: seq<CheckContext>, i: nat) {
    && i < |contexts| && contexts[i].Name().Some?
    && forall j: nat | j < |contexts| && contexts[j].Name() == contexts[i].Name() ::
         && AtMost(contexts[j].Recency(), contexts[i].Recency())
         && (j < i ==> contexts[j].Recency() != contexts[i].Recency())
  }

  ghost predicate SomeLatest(contexts: seq<CheckContext>, buckets: set<CheckBucket>) {
    exists i: nat :: IsLatest(contexts, i) && ContextToBucket(contexts[i]) in buckets
  }

  /** The most urgent state among the latest runs. */
  ghost function LatestState(contexts: seq<CheckContext>): Option<CiState> {
    if SomeLatest(contexts, {Fail, Cancel}) then Some(Failed)
    else if SomeLatest(contexts, {ActionRequired}) then Some(NeedsAction)
    else if SomeLatest(contexts, {Pending}) then Some(Running)
    else None
  }

  // ---- the algorithm ---------------------------------------------------------------------------

  function AggregateCi(buckets: seq<CheckBucket>): Option<CiState> {
    if exists b :: b in buckets && (b == Fail || b == Cancel) then Some(Failed)
    else if exists b :: b in buckets && b == ActionRequired then Some(NeedsAction)
    else if exists b :: b in buckets && b == Pending then Some(Running)
    else None
  }

  /** `latest` maps every name among the first `n` contexts to the latest of them. */
  ghost predicate LatestSoFar(contexts: seq<CheckContext>, n: nat, latest: map<string, CheckContext>)
    requires n <= |contexts|
  {
    && (forall i: nat | i < n && contexts[i].Name().Some? :: contexts[i].Name().value in latest)
    && (forall name | name in latest :: exists i: nat ::
          IsLatest(contexts[..n], i) && contexts[i].Name() == Some(name) && contexts[i] == latest[name])
  }

  /** A context takes the place of its name unless the one there is at least as recent. */
  function Updated(latest: map<string, CheckContext>, ctx: CheckContext): map<string, CheckContext> {
    if ctx.Name().None? then latest
    else
      var name := ctx.Name().value;
      if name in latest && AtMost(ctx.Recency(), latest[name].Recency()) then latest else latest[name := ctx]
  }

  method CiFromNode(contexts: seq<CheckContext>) returns (ci: Option<CiState>)
    ensures ci == LatestState(contexts)
  {
    var latest: map<string, CheckContext> := map[];
    for n := 0 to |contexts|
      invariant LatestSoFar(contexts, n, latest)
    {
      ghost var before := latest;
      latest := Record(latest, contexts[n]);
      LatestStep(contexts, n, before, latest);
    }
    var buckets := BucketsOf(latest);
    LatestDecides(contexts, latest, buckets);
    ci := AggregateCi(buckets);
  }

  /** The body of the loop over the contexts. */
  method Record(before: map<string, CheckContext>, ctx: CheckContext) returns (latest: map<string, CheckContext>)
    ensures latest == Updated(before, ctx)
  {
    latest := before;
    if ctx.Name().Some? {
      var name := ctx.Name().value;
      if name !in latest || !AtMost(ctx.Recency(), latest[name].Recency()) {
        latest := latest[name := ctx];
      }
    }
  }

  /** The values of the map, in whatever order it is walked. */
  method BucketsOf(latest: map<string, CheckContext>) returns (buckets: seq<CheckBucket>)
    ensures forall b :: b in buckets <==> exists name :: name in latest && ContextToBucket(latest[name]) == b
  {
    buckets := [];
    var left := latest.Keys;
    while left != {}
      invariant left <= latest.Keys
      invariant forall b :: b in buckets <==>
                  exists name :: name in latest && name !in left && ContextToBucket(latest[name]) == b
      decreases left
    {
      var name :| name in left;
      ghost var b0 := ContextToBucket(latest[name]);
      buckets, left := buckets + [ContextToBucket(latest[name])], left - {name};
    }
  }

  lemma NamesKept(contexts: seq<CheckContext>, n: nat, before: map<string, CheckContext>, i: nat)
    requires i <= n < |contexts| && contexts[i].Name().Some?
    requires i < n ==> contexts[i].Name().value in before
    ensures contexts[i].Name().value in Updated(before, contexts[n])
  {
  }

  lemma LatestStep(contexts: seq<CheckContext>, n: nat, before: map<string, CheckContext>,
                   after: map<string, CheckContext>)
    requires n < |contexts| && LatestSoFar(contexts, n, before)
    requires after == Updated(before, contexts[n])
    ensures LatestSoFar(contexts, n + 1, after)
  {
    forall i: nat | i < n + 1 && contexts[i].Name().Some? ensures contexts[i].Name().value in after {
      NamesKept(contexts, n, before, i);
    }
    forall name | name in after
      ensures exists i: nat ::
                IsLatest(contexts[..n + 1], i) && contexts[i].Name() == Some(name) && contexts[i] == after[name]
    {
      StillLatest(contexts, n, before, after, name);
    }
  }

  lemma StillLatest(contexts: seq<CheckContext>, n: nat, before: map<string, CheckContext>,
                    after: map<string, CheckContext>, name: string)
    requires n < |contexts| && LatestSoFar(contexts, n, before) && name in after
    requires after == Updated(before, contexts[n])
    ensures exists i: nat ::
              IsLatest(contexts[..n + 1], i) && contexts[i].Name() == Some(name) && contexts[i] == after[name]
  {
    var ctx, longer := contexts[n], contexts[..n + 1];
    if name in before && after[name] == before[name] {
      var i: nat :| IsLatest(contexts[..n], i) && contexts[i].Name() == Some(name) && contexts[i] == before[name];
      forall j: nat | j < |longer| && longer[j].Name() == longer[i].Name()
        ensures AtMost(longer[j].Recency(), longer[i].Recency())
        ensures j < i ==> longer[j].Recency() != longer[i].Recency()
      {
        if j < n { assert contexts[..n][j] == longer[j]; }
      }
      assert IsLatest(longer, i);
    } else {
      forall j: nat | j < |longer| && longer[j].Name() == longer[n].Name()
        ensures AtMost(longer[j].Recency(), longer[n].Recency())
        ensures j < n ==> longer[j].Recency() != longer[n].Recency()
      {
        NewerThanAll(contexts, n, before, j);
      }
      assert IsLatest(longer, n);
    }
  }

  lemma NewerThanAll(contexts: seq<CheckContext>, n: nat, before: map<string, CheckContext>, j: nat)
    requires n < |contexts| && LatestSoFar(contexts, n, before) && contexts[n].Name().Some?
    requires var name := contexts[n].Name().value;
             name !in before || !AtMost(contexts[n].Recency(), before[name].Recency())
    requires j <= n && contexts[j].Name() == contexts[n].Name()
    ensures AtMost(contexts[j].Recency(), contexts[n].Recency())
    ensures j < n ==> contexts[j].Recency() != contexts[n].Recency()
  {
    AtMostTotal(contexts[n].Recency(), contexts[n].Recency());
    if j < n {
      var name := contexts[n].Name().value;
      var i: nat :| IsLatest(contexts[..n], i) && contexts[i].Name() == Some(name) && contexts[i] == before[name];
      assert contexts[..n][j] == contexts[j];
      AtMostTotal(contexts[n].Recency(), contexts[i].Recency());
      AtMostTransitive(contexts[j].Recency(), contexts[i].Recency(), contexts[n].Recency());
    }
  }

  lemma LatestUnique(contexts: seq<CheckContext>, i: nat, j: nat)
    requires IsLatest(contexts, i) && IsLatest(contexts, j) && contexts[i].Name() == contexts[j].Name()
    ensures i == j
  {
    AtMostTotal(contexts[i].Recency(), contexts[j].Recency());
  }

  lemma LatestDecides(contexts: seq<CheckContext>, latest: map<string, CheckContext>, buckets: seq<CheckBucket>)
    requires LatestSoFar(contexts, |contexts|, latest)
    requires forall b :: b in buckets <==> exists name :: name in latest && ContextToBucket(latest[name]) == b
    ensures AggregateCi(buckets) == LatestState(contexts)
  {
    assert contexts[..|contexts|] == contexts;
    forall b ensures b in buckets <==> SomeLatest(contexts, {b}) {
      if b in buckets {
        var name :| name in latest && ContextToBucket(latest[name]) == b;
        var i: nat :| IsLatest(contexts, i) && contexts[i].Name() == Some(name) && contexts[i] == latest[name];
      }
      if i: nat :| IsLatest(contexts, i) && ContextToBucket(contexts[i]) in {b} {
        var name := contexts[i].Name().value;
        var k: nat :| IsLatest(contexts, k) && contexts[k].Name() == Some(name) && contexts[k] == latest[name];
        LatestUnique(contexts, i, k);
      }
    }
    FailOrCancel(contexts);
  }

  lemma FailOrCancel(contexts: seq<CheckContext>)
    ensures SomeLatest(contexts, {Fail, Cancel}) <==> SomeLatest(contexts, {Fail}) || SomeLatest(contexts, {Cancel})
  {
  }

  // ---- what the result does not depend on ------------------------------------------------------

  lemma {:induction false} LatestExists(contexts: seq<CheckContext>, n: nat, k: nat) returns (i: nat)
    requires k < n <= |contexts| && contexts[k].Name().Some?
    ensures IsLatest(contexts[..n], i) && contexts[i].Name() == contexts[k].Name()
    decreases n
  {
    var last := n - 1;
    AtMostTotal(contexts[last].Recency(), contexts[last].Recency());
    if j: nat :| j < last && contexts[j].Name() == contexts[k].Name() {
      i := LatestExists(contexts, last, j);
      AtMostTotal(contexts[last].Recency(), contexts[i].Recency());
      if contexts[last].Name() == contexts[i].Name() && !AtMost(contexts[last].Recency(), contexts[i].Recency()) {
        LaterWins(contexts, n, i);
        i := last;
      } else {
        EarlierStays(contexts, n, i);
      }
    } else {
      i := last;
    }
  }

  lemma LaterWins(contexts: seq<CheckContext>, n: nat, i: nat)
    requires 0 < n <= |contexts| && IsLatest(contexts[..n - 1], i) && contexts[n - 1].Name() == contexts[i].Name()
    requires AtMost(contexts[i].Recency(), contexts[n - 1].Recency())
    requires !AtMost(contexts[n - 1].Recency(), contexts[i].Recency())
    ensures IsLatest(contexts[..n], n - 1)
  {
    var s := contexts[..n];
    forall j: nat | j < n && s[j].Name() == s[n - 1].Name()
      ensures AtMost(s[j].Recency(), s[n - 1].Recency()) && (j < n - 1 ==> s[j].Recency() != s[n - 1].Recency())
    {
      AtMostTotal(s[n - 1].Recency(), s[n - 1].Recency());
      if j < n - 1 {
        assert contexts[..n - 1][j] == s[j];
        AtMostTransitive(s[j].Recency(), contexts[i].Recency(), s[n - 1].Recency());
      }
    }
  }

  lemma EarlierStays(contexts: seq<CheckContext>, n: nat, i: nat)
    requires 0 < n <= |contexts| && IsLatest(contexts[..n - 1], i)
    requires contexts[n - 1].Name() == contexts[i].Name() ==> AtMost(contexts[n - 1].Recency(), contexts[i].Recency())
    ensures IsLatest(contexts[..n], i)
  {
    var s := contexts[..n];
    forall j: nat | j < n && s[j].Name() == s[i].Name()
      ensures AtMost(s[j].Recency(), s[i].Recency()) && (j < i ==> s[j].Recency() != s[i].Recency())
    {
      if j < n - 1 { assert contexts[..n - 1][j] == s[j]; }
    }
  }

  /** `c` is a run no other run of its name is more recent than, wherever it stands. */
  ghost predicate IsMaximal(contexts: seq<CheckContext>, c: CheckContext) {
    && c in contexts && c.Name().Some?
    && forall d | d in contexts && d.Name() == c.Name() :: AtMost(d.Recency(), c.Recency())
  }

  /** How urgent a context is, on the scale of the aggregated states. */
  function Urgency(c: CheckContext): nat {
    match ContextToBucket(c)
    case Fail | Cancel => 3
    case ActionRequired => 2
    case Pending => 1
    case Other => 0
  }

  /** Some latest run is that urgent or more. */
  ghost predicate LatestAtLeast(contexts: seq<CheckContext>, level: nat) {
    exists i: nat :: IsLatest(contexts, i) && Urgency(contexts[i]) >= level
  }

  lemma StateByLevels(contexts: seq<CheckContext>)
    ensures LatestState(contexts) ==
            if LatestAtLeast(contexts, 3) then Some(Failed)
            else if LatestAtLeast(contexts, 2) then Some(NeedsAction)
            else if LatestAtLeast(contexts, 1) then Some(Running)
            else None
  {
  }

  /** Whichever of the most recent runs of `d`'s check comes first, it is that urgent or more. */
  ghost predicate Insists(contexts: seq<CheckContext>, d: CheckContext, level: nat) {
    && IsMaximal(contexts, d)
    && forall x | IsMaximal(contexts, x) && x.Name() == d.Name() :: Urgency(x) >= level
  }

  /** A most recent run that, when it comes first, puts the pull request into some state. */
  ghost predicate CanDecide(contexts: seq<CheckContext>, c: CheckContext) { IsMaximal(contexts, c) && Urgency(c) > 0 }

  /** For every most recent run that can decide the state, some check is as urgent however its ties fall. */
  ghost predicate TiesHarmless(contexts: seq<CheckContext>) {
    forall c | CanDecide(contexts, c) :: exists d :: Insists(contexts, d, Urgency(c))
  }

  ghost predicate SameContexts(a: seq<CheckContext>, b: seq<CheckContext>) { forall c :: c in a <==> c in b }

  lemma LatestIsMaximal(contexts: seq<CheckContext>, i: nat)
    requires IsLatest(contexts, i)
    ensures IsMaximal(contexts, contexts[i])
  {
  }

  lemma MaximalInBoth(a: seq<CheckContext>, b: seq<CheckContext>, c: CheckContext)
    requires SameContexts(a, b)
    ensures IsMaximal(a, c) <==> IsMaximal(b, c)
  {
  }

  lemma InsistedIsReached(a: seq<CheckContext>, b: seq<CheckContext>, d: CheckContext, level: nat)
    requires SameContexts(a, b) && Insists(a, d, level)
    ensures LatestAtLeast(b, level)
  {
    assert d in b;
    var k: nat :| k < |b| && b[k] == d;
    var i := LatestExists(b, |b|, k);
    assert b[..|b|] == b;
    LatestIsMaximal(b, i);
    MaximalInBoth(a, b, b[i]);
  }

  lemma SameLevels(a: seq<CheckContext>, b: seq<CheckContext>, b': seq<CheckContext>, level: nat)
    requires TiesHarmless(a) && SameContexts(a, b) && SameContexts(a, b') && level > 0
    requires LatestAtLeast(b, level)
    ensures LatestAtLeast(b', level)
  {
    var i: nat :| IsLatest(b, i) && Urgency(b[i]) >= level;
    LatestIsMaximal(b, i);
    MaximalInBoth(a, b, b[i]);
    assert CanDecide(a, b[i]);
    var d :| Insists(a, d, Urgency(b[i]));
    InsistedIsReached(a, b', d, Urgency(b[i]));
  }

  /** When ties are harmless the result depends only on which contexts there are, not on their order or number. */
  lemma HarmlessTies(a: seq<CheckContext>, b: seq<CheckContext>)
    requires TiesHarmless(a) && SameContexts(a, b)
    ensures LatestState(a) == LatestState(b)
  {
    forall level: nat | level > 0 ensures LatestAtLeast(a, level) == LatestAtLeast(b, level) {
      if LatestAtLeast(a, level) { SameLevels(a, a, b, level); }
      if LatestAtLeast(b, level) { SameLevels(a, b, a, level); }
    }
    StateByLevels(a);
    StateByLevels(b);
  }

  /** The contexts below a level of urgency, and the others. */
  function Below(contexts: seq<CheckContext>, level: nat): seq<CheckContext> {
    if contexts == [] then []
    else (if Urgency(contexts[0]) < level then [contexts[0]] else []) + Below(contexts[1..], level)
  }

  function NotBelow(contexts: seq<CheckContext>, level: nat): seq<CheckContext> {
    if contexts == [] then []
    else (if Urgency(contexts[0]) < level then [] else [contexts[0]]) + NotBelow(contexts[1..], level)
  }

  lemma {:induction false} SplitByLevel(contexts: seq<CheckContext>, level: nat)
    ensures multiset(Below(contexts, level) + NotBelow(contexts, level)) == multiset(contexts)
    ensures forall c | c in Below(contexts, level) :: Urgency(c) < level
    ensures forall c | c in contexts && Urgency(c) < level :: c in Below(contexts, level)
  {
    if contexts != [] {
      SplitByLevel(contexts[1..], level);
      SeqHead(contexts);
    }
  }

  lemma SameMultiset(a: seq<CheckContext>, b: seq<CheckContext>)
    requires multiset(a) == multiset(b)
    ensures SameContexts(a, b)
  {
    forall c ensures c in a <==> c in b {
      assert c in multiset(a) <==> c in multiset(b);
    }
  }

  lemma MovedFirst(a: seq<CheckContext>, k: nat)
    requires k < |a|
    ensures multiset([a[k]] + (a[..k] + a[k + 1..])) == multiset(a)
  {
    assert a == a[..k] + [a[k]] + a[k + 1..];
  }

  lemma MaximalFirst(b: seq<CheckContext>)
    requires b != [] && IsMaximal(b, b[0])
    ensures IsLatest(b, 0)
  {
  }

  /** The order in which a given most recent run counts: it comes first. */
  lemma UrgentFirst(a: seq<CheckContext>, c: CheckContext) returns (b: seq<CheckContext>)
    requires IsMaximal(a, c)
    ensures multiset(b) == multiset(a) && LatestAtLeast(b, Urgency(c))
  {
    var k: nat :| k < |a| && a[k] == c;
    b := [c] + (a[..k] + a[k + 1..]);
    MovedFirst(a, k);
    SameMultiset(a, b);
    MaximalInBoth(a, b, c);
    MaximalFirst(b);
  }

  /** The order in which no run of a level counts unless its check insists on it: the less urgent come first. */
  lemma UrgentLast(a: seq<CheckContext>, level: nat) returns (b: seq<CheckContext>)
    requires forall d :: !Insists(a, d, level)
    ensures multiset(b) == multiset(a) && !LatestAtLeast(b, level)
  {
    b := Below(a, level) + NotBelow(a, level);
    SplitByLevel(a, level);
    SameMultiset(a, b);
    forall i: nat | IsLatest(b, i) ensures Urgency(b[i]) < level {
      LatestIsMaximal(b, i);
      MaximalInBoth(a, b, b[i]);
      assert !Insists(a, b[i], level);
      var x :| IsMaximal(a, x) && x.Name() == b[i].Name() && Urgency(x) < level;
      MaximalInBoth(a, b, x);
      LatestAmongLess(b, |Below(a, level)|, i, x);
    }
  }

  /** A latest run with an equally recent run among the first `n` is one of them itself. */
  lemma LatestAmongLess(b: seq<CheckContext>, n: nat, i: nat, x: CheckContext)
    requires n <= |b| && IsLatest(b, i) && IsMaximal(b, x) && x.Name() == b[i].Name() && x in b[..n]
    ensures i < n && b[i] in b[..n]
  {
    var j: nat :| j < n && b[j] == x;
    LatestIsMaximal(b, i);
    AtMostTotal(x.Recency(), b[i].Recency());
  }

  lemma DifferentLevels(a: seq<CheckContext>, b: seq<CheckContext>, level: nat)
    requires LatestAtLeast(a, level) && !LatestAtLeast(b, level) && 0 < level <= 3
    ensures LatestState(a) != LatestState(b)
  {
    StateByLevels(a);
    StateByLevels(b);
  }

  lemma HarmfulTies(a: seq<CheckContext>) returns (b: seq<CheckContext>)
    requires !TiesHarmless(a)
    ensures multiset(b) == multiset(a) && LatestState(b) != LatestState(a)
  {
    var c :| CanDecide(a, c) && forall d :: !Insists(a, d, Urgency(c));
    b := UrgentFirst(a, c);
    var last := UrgentLast(a, Urgency(c));
    DifferentLevels(b, last, Urgency(c));
    if LatestState(b) == LatestState(a) { b := last; }
  }

  /** The result is the same for every order of the contexts exactly when ties are harmless, and then it depends
      only on which contexts there are. */
  lemma OrderIsIrrelevantIff(a: seq<CheckContext>)
    ensures (forall b | multiset(b) == multiset(a) :: LatestState(b) == LatestState(a)) <==> TiesHarmless(a)
    ensures (forall b | SameContexts(a, b) :: LatestState(b) == LatestState(a)) <==> TiesHarmless(a)
  {
    if TiesHarmless(a) {
      forall b | SameContexts(a, b) ensures LatestState(b) == LatestState(a) {
        HarmlessTies(a, b);
      }
      forall b | multiset(b) == multiset(a) ensures SameContexts(a, b) {
        SameMultiset(a, b);
      }
    } else {
      var b := HarmfulTies(a);
      SameMultiset(a, b);
    }
  }

  /** Runs of one check with the same time stamp say the same; distinct time stamps are a special case. */
  ghost predicate TiesAgree(contexts: seq<CheckContext>) {
    forall c, d | c in contexts && d in contexts && c.Name().Some? && c.Name() == d.Name()
                  && c.Recency() == d.Recency() :: ContextToBucket(c) == ContextToBucket(d)
  }

  /** In particular when ties agree. */
  lemma OrderIsIrrelevant(a: seq<CheckContext>, b: seq<CheckContext>)
    requires TiesAgree(a) && SameContexts(a, b)
    ensures LatestState(a) == LatestState(b)
  {
    forall c | IsMaximal(a, c) ensures Insists(a, c, Urgency(c)) {
      forall x | IsMaximal(a, x) && x.Name() == c.Name() ensures Urgency(x) >= Urgency(c) {
        AtMostTotal(x.Recency(), c.Recency());
      }
    }
    HarmlessTies(a, b);
  }

  /** A tie that disagrees and is not harmless: the first of the two runs counts. */
  lemma TieOrderMatters()
    ensures exists a: CheckContext, b: CheckContext :: LatestState([a, b]) != LatestState([b, a])
  {
    var a := StatusContext("ci", "FAILURE", None);
    var b := StatusContext("ci", "SUCCESS", None);
    var ab, ba := [a, b], [b, a];
    assert IsLatest(ab, 0) && IsLatest(ba, 0);
    assert !IsLatest(ba, 1) by { assert ba[0].Name() == ba[1].Name(); }
    assert SomeLatest(ab, {Fail, Cancel});
    assert LatestState([a, b]) == Some(Failed) && LatestState([b, a]) == None;
  }

  // ---- what blocks -----------------------------------------------------------------------------

  /** A completed run that failed, timed out, could not start or was cancelled, or a status that failed. */
  predicate HasFailed(c: CheckContext) {
    match c
    case CheckRun(_, status, conclusion, _) =>
      status == "COMPLETED" && conclusion.Some?
      && (conclusion.value == "FAILURE" || conclusion.value == "TIMED_OUT" || conclusion.value == "STARTUP_FAILURE"
          || conclusion.value == "CANCELLED")
    case StatusContext(_, state, _) => state == "FAILURE" || state == "ERROR"
    case Unknown => false
  }

  predicate WantsAction(c: CheckContext) {
    c.CheckRun? && c.status == "COMPLETED" && c.conclusion == Some("ACTION_REQUIRED")
  }

  predicate IsRunning(c: CheckContext) {
    (c.CheckRun? && c.status != "COMPLETED") || (c.StatusContext? && (c.state == "PENDING" || c.state == "EXPECTED"))
  }

  lemma UrgencyByOutcome(c: CheckContext)
    ensures HasFailed(c) <==> Urgency(c) == 3
    ensures WantsAction(c) <==> Urgency(c) == 2
    ensures IsRunning(c) <==> Urgency(c) == 1
  {
  }

  /** The state by the outcomes of the latest runs: failed as soon as one failed, else in need of action as soon as one
      asks for it, else running while one is not done. */
  lemma StateByOutcome(contexts: seq<CheckContext>)
    ensures LatestState(contexts) ==
            if exists i: nat :: IsLatest(contexts, i) && HasFailed(contexts[i]) then Some(Failed)
            else if exists i: nat :: IsLatest(contexts, i) && WantsAction(contexts[i]) then Some(NeedsAction)
            else if exists i: nat :: IsLatest(contexts, i) && IsRunning(contexts[i]) then Some(Running)
            else None
  {
    forall i: nat | IsLatest(contexts, i) {
      UrgencyByOutcome(contexts[i]);
    }
    StateByLevels(contexts);
  }

  /** A run or status of the check `name` with time stamp `at`. */
  predicate Stamped(c: CheckContext, name: string, at: Option<string>) {
    match c
    case CheckRun(runName, _, _, startedAt) => runName == name && startedAt == at
    case StatusContext(context, _, createdAt) => context == name && createdAt == at
    case Unknown => false
  }

  /** Strictly earlier: missing, or shorter with the same beginning, or smaller at the first difference. */
  predicate Earlier(a: Option<string>, b: Option<string>) {
    && b.Some?
    && (if a.None? then b.value != ""
        else exists k: nat :: k <= |a.value| && k < |b.value| && a.value[..k] == b.value[..k]
                              && (k < |a.value| ==> a.value[k] < b.value[k]))
  }

  lemma {:induction false} FirstDifference(a: string, b: string, k: nat)
    requires k <= |a| && k < |b| && a[..k] == b[..k] && (k < |a| ==> a[k] < b[k])
    ensures AtMost(a, b) && !AtMost(b, a)
  {
    if k > 0 {
      assert a[0] == a[..k][0] == b[..k][0] == b[0];
      assert a[1..][..k - 1] == a[..k][1..] && b[1..][..k - 1] == b[..k][1..];
      FirstDifference(a[1..], b[1..], k - 1);
    }
  }

  lemma EarlierIs(a: Option<string>, b: Option<string>)
    requires Earlier(a, b)
    ensures var x, y := if a.Some? then a.value else "", if b.Some? then b.value else ""; AtMost(x, y) && !AtMost(y, x)
  {
    if a.Some? {
      var k: nat :| k <= |a.value| && k < |b.value| && a.value[..k] == b.value[..k]
                    && (k < |a.value| ==> a.value[k] < b.value[k]);
      FirstDifference(a.value, b.value, k);
    }
  }

  /** Of two contexts of one check the later alone counts, in either order, whichever kinds they are of; contexts of
      different checks both count. */
  lemma LaterCounts(c: CheckContext, d: CheckContext, name: string, name': string, at: Option<string>,
                    at': Option<string>)
    requires Stamped(c, name, at) && Stamped(d, name', at')
    ensures name == name' && Earlier(at, at') ==> IsLatest([c, d], 1) && !IsLatest([c, d], 0)
    ensures name == name' && Earlier(at', at) ==> IsLatest([c, d], 0) && !IsLatest([c, d], 1)
    ensures name == name' && at == at' ==> IsLatest([c, d], 0) && !IsLatest([c, d], 1)
    ensures name != name' ==> IsLatest([c, d], 0) && IsLatest([c, d], 1)
  {
    AtMostTotal(c.Recency(), c.Recency());
    AtMostTotal(d.Recency(), d.Recency());
    if Earlier(at, at') { EarlierIs(at, at'); }
    if Earlier(at', at) { EarlierIs(at', at); }
    var both := [c, d];
    assert both[0] == c && both[1] == d;
  }

  /** A context of an unknown kind, anywhere, changes nothing. */
  lemma UnknownIsIrrelevant(before: seq<CheckContext>, after: seq<CheckContext>)
    ensures LatestState(before + [Unknown] + after) == LatestState(before + after)
  {
    var longer, shorter := before + [Unknown] + after, before + after;
    forall buckets: set<CheckBucket> ensures SomeLatest(longer, buckets) == SomeLatest(shorter, buckets) {
      if i: nat :| IsLatest(shorter, i) && ContextToBucket(shorter[i]) in buckets {
        var k := if i < |before| then i else i + 1;
        LatestInLonger(before, after, i);
        assert longer[k] == shorter[i];
      }
      if k: nat :| IsLatest(longer, k) && ContextToBucket(longer[k]) in buckets {
        var i := if k < |before| then k else k - 1;
        LatestInShorter(before, after, k);
        assert longer[k] == shorter[i];
      }
    }
  }

  lemma LatestInLonger(before: seq<CheckContext>, after: seq<CheckContext>, i: nat)
    requires IsLatest(before + after, i)
    ensures IsLatest(before + [Unknown] + after, if i < |before| then i else i + 1)
  {
    var longer, shorter := before + [Unknown] + after, before + after;
    var k := if i < |before| then i else i + 1;
    forall j: nat | j < |longer| && longer[j].Name() == longer[k].Name()
      ensures AtMost(longer[j].Recency(), longer[k].Recency()) && (j < k ==> longer[j].Recency() != longer[k].Recency())
    {
      assert longer[j] == shorter[if j < |before| then j else j - 1];
    }
  }

  lemma LatestInShorter(before: seq<CheckContext>, after: seq<CheckContext>, k: nat)
    requires IsLatest(before + [Unknown] + after, k)
    ensures k != |before| && IsLatest(before + after, if k < |before| then k else k - 1)
  {
    var longer, shorter := before + [Unknown] + after, before + after;
    var i := if k < |before| then k else k - 1;
    forall j: nat | j < |shorter| && shorter[j].Name() == shorter[i].Name()
      ensures AtMost(shorter[j].Recency(), shorter[i].Recency())
      ensures j < i ==> shorter[j].Recency() != shorter[i].Recency()
    {
      assert shorter[j] == longer[if j < |before| then j else j + 1];
    }
  }
}
