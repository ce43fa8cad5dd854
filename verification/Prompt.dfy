/** The rendered prompt (src/contexts/evaluation/interface/prompt.rs): the joined text of the groups, the text of each
    pull request for the watch table, and the refresh mode. */
module Prompts {
  import opened Numbers
  import opened Sequences
  import opened RefreshModes
  import opened Rendering
  import opened StatusGrouping
  import opened CiAggregation

  datatype Prompt =
    | NoRepository
    | UnsupportedRepository
    | DefaultBranch
    | NoPullRequest
    | PullRequests(prs: seq<PullRequest>)

  /** What evaluation hands over: a prompt, or the message of an error. */
  datatype Evaluated = Evaluated(prompt: Prompt) | EvaluationError(message: string)

  datatype RenderResult = RenderResult(output: string, refreshMode: RefreshMode, prOutputs: seq<(PrId, string)>)

  /** How a status is shown beside the numbers of its pull requests. */
  type Show = (DisplayItem, string) -> string

  datatype DisplayConfig = DisplayConfig(
    token: DisplayItem -> TokenConfig, noPullRequest: TokenConfig, error: ErrorConfig)
  {
    function Compile<S>(st: Styling<S>): CompiledDisplayConfig<S> {
      CompiledDisplayConfig(item => token(item).Compile(st), noPullRequest.Compile(st), error.Compile(st))
    }

    /** Reads the format of the status on every use. */
    function Reading<S>(st: Styling<S>): Show {
      (item, ids) =>
        RenderFormat(token(item).format, TokenBindings(token(item).symbol, token(item).caption, Some(ids)), st)
    }
  }

  datatype CompiledDisplayConfig<S> = CompiledDisplayConfig(
    token: DisplayItem -> CompiledTokenConfig<S>, noPullRequest: CompiledTokenConfig<S>, error: CompiledErrorConfig<S>)
  {
    function Showing(st: Styling<S>): Show { (item, ids) => RenderToken(token(item), Some(ids), st) }
  }

  // ---- the texts -------------------------------------------------------------------------------

  /** The texts with one space between any two. */
  function Spaced(texts: seq<string>): string {
    if texts == [] then "" else if |texts| == 1 then texts[0] else texts[0] + " " + Spaced(texts[1..])
  }

  const DIGITS := "0123456789"

  function Decimal(n: nat): string { (if n < 10 then "" else Decimal(n / 10)) + [DIGITS[n % 10]] }

  function Numbered(ids: seq<PrId>): seq<string> { seq(|ids|, i requires 0 <= i < |ids| => "#" + Decimal(ids[i])) }

  function PrNumbers(ids: seq<PrId>): string { Spaced(Numbered(ids)) }

  function GroupTexts(groups: seq<Group>, multiple: bool, show: Show): seq<string> {
    seq(|groups|, i requires 0 <= i < |groups| =>
      show(groups[i].item, if multiple then PrNumbers(groups[i].ids) else ""))
  }

  /** The prompt: each status once, with the numbers of its pull requests unless there is only one. */
  function PromptText(prs: seq<PullRequest>, show: Show): string {
    Spaced(GroupTexts(PromptGroups(prs), |prs| > 1, show))
  }

  /** The statuses of one pull request, without numbers. */
  function WatchText(items: seq<DisplayItem>, show: Show): string {
    Spaced(seq(|items|, i requires 0 <= i < |items| => show(items[i], "")))
  }

  function WatchLines(rows: seq<Row>, show: Show): seq<(PrId, string)> {
    seq(|rows|, i requires 0 <= i < |rows| => (rows[i].id, WatchText(rows[i].items, show)))
  }

  /** Hot while something is being computed, for ever asleep once every pull request is closed. */
  function ModeOf(prs: seq<PullRequest>): RefreshMode {
    if prs == [] then Terminal
    else if exists pr :: pr in prs && ShowsProgress(FromState(pr.state)) then Hot
    else Warm
  }

  method Render<S>(evaluated: Evaluated, config: CompiledDisplayConfig<S>, st: Styling<S>) returns (r: RenderResult)
    ensures match evaluated
            case EvaluationError(message) => r == RenderResult(RenderErrorToken(config.error, message, st), Warm, [])
            case Evaluated(NoPullRequest) => r == RenderResult(RenderToken(config.noPullRequest, None, st), Warm, [])
            case Evaluated(PullRequests(prs)) =>
              && r.output == PromptText(prs, config.Showing(st)) && r.refreshMode == ModeOf(prs)
              && r.prOutputs == WatchLines(SortById(ToRows(prs)), config.Showing(st))
              && WatchListing(r.prOutputs, prs, config.Showing(st))
            case Evaluated(_) => r == RenderResult("", Warm, [])
  {
    match evaluated {
      case EvaluationError(message) => return RenderResult(RenderErrorToken(config.error, message, st), Warm, []);
      case Evaluated(NoPullRequest) => return RenderResult(RenderToken(config.noPullRequest, None, st), Warm, []);
      case Evaluated(PullRequests(prs)) => r := RenderPullRequests(prs, config.Showing(st));
      case Evaluated(_) => return RenderResult("", Warm, []);
    }
  }

  method RenderPullRequests(prs: seq<PullRequest>, show: Show) returns (r: RenderResult)
    ensures r.output == PromptText(prs, show) && r.refreshMode == ModeOf(prs)
    ensures r.prOutputs == WatchLines(SortById(ToRows(prs)), show) && WatchListing(r.prOutputs, prs, show)
  {
    if prs == [] {
      return RenderResult("", Terminal, []);
    }
    var rows := SortById(ToRows(prs));
    var mode := if exists row :: row in rows && ShowsProgress(row.items) then Hot else Warm;
    var groups := GroupByDisplayItem(rows);
    r := RenderResult(Spaced(GroupTexts(groups, |rows| > 1, show)), mode, WatchLines(rows, show));
    SortSorts(ToRows(prs));
    assert |multiset(rows)| == |rows| && |multiset(ToRows(prs))| == |prs|;
    RowsHot(prs, rows);
    SortedLines(prs, show);
  }

  /** The mode is hot exactly while a status is being computed or a check is running, and terminal exactly when there is
      nothing left to watch. */
  lemma ModeIff(prs: seq<PullRequest>)
    ensures ModeOf(prs) == Hot <==>
              exists pr :: pr in prs && (pr.state.Calculating? || (pr.state.Blocked? && pr.state.ci == Some(Running)))
    ensures ModeOf(prs) == Terminal <==> prs == []
  {
    forall pr: PullRequest
      ensures ShowsProgress(FromState(pr.state)) <==>
                pr.state.Calculating? || (pr.state.Blocked? && pr.state.ci == Some(Running))
    {
      ProgressIff(pr.state);
    }
  }

  // ---- the watch table -------------------------------------------------------------------------

  /** One line for each pull request, by number. */
  ghost predicate WatchListing(lines: seq<(PrId, string)>, prs: seq<PullRequest>, show: Show) {
    && multiset(lines) == multiset(WatchLines(ToRows(prs), show))
    && forall i, j | 0 <= i < j < |lines| :: lines[i].0 <= lines[j].0
  }

  lemma {:induction false} LinesOfMultiset(a: seq<Row>, b: seq<Row>, show: Show)
    requires multiset(a) == multiset(b)
    ensures multiset(WatchLines(a, show)) == multiset(WatchLines(b, show))
    decreases |a|
  {
    if a == [] {
      assert |multiset(b)| == 0;
    } else {
      assert a[0] in multiset(b);
      var k :| 0 <= k < |b| && b[k] == a[0];
      var rest := b[..k] + b[k + 1..];
      RestOfRows(a, b, k);
      LinesOfMultiset(a[1..], rest, show);
      LinesMovedFirst(b, k, show);
      assert WatchLines(a, show) == [WatchLines(a, show)[0]] + WatchLines(a[1..], show);
    }
  }

  lemma RestOfRows(a: seq<Row>, b: seq<Row>, k: nat)
    requires a != [] && k < |b| && b[k] == a[0] && multiset(a) == multiset(b)
    ensures multiset(a[1..]) == multiset(b[..k] + b[k + 1..])
  {
    assert a == [a[0]] + a[1..];
    assert multiset(a) == multiset{a[0]} + multiset(a[1..]);
    assert b == b[..k] + [b[k]] + b[k + 1..];
    assert multiset(b) == multiset{b[k]} + multiset(b[..k] + b[k + 1..]);
    assert multiset(a[1..]) == multiset(a) - multiset{a[0]};
  }

  lemma LinesMovedFirst(b: seq<Row>, k: nat, show: Show)
    requires k < |b|
    ensures multiset(WatchLines(b, show))
         == multiset{WatchLines(b, show)[k]} + multiset(WatchLines(b[..k] + b[k + 1..], show))
  {
    var lines := WatchLines(b, show);
    assert lines == lines[..k] + [lines[k]] + lines[k + 1..];
    assert WatchLines(b[..k] + b[k + 1..], show) == lines[..k] + lines[k + 1..];
  }

  lemma SortedLines(prs: seq<PullRequest>, show: Show)
    ensures WatchListing(WatchLines(SortById(ToRows(prs)), show), prs, show)
  {
    SortSorts(ToRows(prs));
    LinesOfMultiset(SortById(ToRows(prs)), ToRows(prs), show);
  }

  // ---- one pull request ------------------------------------------------------------------------

  lemma {:induction false} FirstSeenOfRow(id: PrId, items: seq<DisplayItem>)
    requires NoRepeats(items)
    ensures FirstSeen(RowPairs(id, items)) == items
  {
    if items != [] {
      var front := items[..|items| - 1];
      FirstSeenOfRow(id, front);
      assert RowPairs(id, items)[..|items| - 1] == RowPairs(id, front);
      assert items == front + [items[|items| - 1]];
    }
  }

  /** The prompt of a single pull request is its line of the watch table. */
  lemma SinglePullRequest(pr: PullRequest, show: Show)
    ensures PromptText([pr], show) == WatchText(FromState(pr.state), show)
  {
    var row, items := Row(pr.id, FromState(pr.state)), FromState(pr.state);
    assert ToRows([pr]) == [row];
    assert [row][..0] == [] && [row][1..] == [];
    assert SortById([row]) == [row];
    assert Pairs([row]) == RowPairs(pr.id, items);
    GivenShows(pr.state);
    FirstSeenOfRow(pr.id, items);
    var groups := PromptGroups([pr]);
    assert GroupTexts(groups, false, show) == seq(|items|, i requires 0 <= i < |items| => show(items[i], ""));
  }

  // ---- several pull requests -------------------------------------------------------------------

  /** Two pull requests with one status each: the status once with both numbers, the lower first, when they share it,
      and otherwise one after the other, each with its number. */
  lemma TwoPullRequests(a: PullRequest, b: PullRequest, x: DisplayItem, y: DisplayItem, show: Show)
    requires FromState(a.state) == [x] && FromState(b.state) == [y] && a.id < b.id
    ensures PromptText([a, b], show) == PromptText([b, a], show)
    ensures x == y ==> PromptText([a, b], show) == show(x, "#" + Decimal(a.id) + " #" + Decimal(b.id))
    ensures x != y ==> PromptText([a, b], show) == show(x, "#" + Decimal(a.id)) + " " + show(y, "#" + Decimal(b.id))
  {
    TwoSorted(a, b);
    TwoGroups(Row(a.id, [x]), Row(b.id, [y]), x, y);
    var groups := PromptGroups([a, b]);
    if x == y {
      OneText(groups, x, [a.id, b.id], show);
      TwoNumbers(a.id, b.id);
    } else {
      TwoTexts(groups, x, y, a.id, b.id, show);
    }
  }

  lemma OneSorted(row: Row)
    ensures SortById([row]) == [row]
  {
    var one := [row];
    assert one[..0] == [] && SortById(one[..0]) == [];
  }

  lemma TwoSorted(a: PullRequest, b: PullRequest)
    requires a.id < b.id
    ensures var rows := [Row(a.id, FromState(a.state)), Row(b.id, FromState(b.state))];
            SortById(ToRows([a, b])) == rows && SortById(ToRows([b, a])) == rows
  {
    var ra, rb := Row(a.id, FromState(a.state)), Row(b.id, FromState(b.state));
    assert ToRows([a, b]) == [ra, rb] && ToRows([b, a]) == [rb, ra];
    assert [ra, rb][..1] == [ra] && [rb, ra][..1] == [rb] && [rb][..0] == [];
    OneSorted(ra);
    OneSorted(rb);
    assert InsertById([], ra) == [ra] && [ra] + [rb] == [ra, rb];
  }

  lemma TwoGroups(first: Row, second: Row, x: DisplayItem, y: DisplayItem)
    requires first.items == [x] && second.items == [y]
    ensures Inverted(Pairs([first, second])) ==
            if x == y then [Group(x, [first.id, second.id])] else [Group(x, [first.id]), Group(y, [second.id])]
  {
    var rows := [first, second];
    var p: (DisplayItem, PrId), q: (DisplayItem, PrId) := (x, first.id), (y, second.id);
    var one: seq<(DisplayItem, PrId)> := [p];
    assert rows[1..] == [second] && [second][1..] == [];
    assert RowPairs(first.id, [x]) == [p] && RowPairs(second.id, [y]) == [q];
    assert Pairs([second]) == [q] && Pairs(rows) == [p, q];
    var two := [p, q];
    assert two[..1] == one && one[..0] == [];
    assert FirstSeen(one) == [x] && IdsOf(one, x) == [first.id] && (x != y ==> IdsOf(one, y) == []);
    assert FirstSeen(two) == if x == y then [x] else [x, y];
    assert IdsOf(two, x) == if x == y then [first.id, second.id] else [first.id];
    assert IdsOf(two, y) == if x == y then [first.id, second.id] else [second.id];
  }

  lemma OneText(groups: seq<Group>, x: DisplayItem, ids: seq<PrId>, show: Show)
    requires groups == [Group(x, ids)]
    ensures Spaced(GroupTexts(groups, true, show)) == show(x, PrNumbers(ids))
  {
    assert GroupTexts(groups, true, show) == [show(x, PrNumbers(ids))];
  }

  lemma TwoTexts(groups: seq<Group>, x: DisplayItem, y: DisplayItem, a: PrId, b: PrId, show: Show)
    requires groups == [Group(x, [a]), Group(y, [b])]
    ensures Spaced(GroupTexts(groups, true, show)) == show(x, "#" + Decimal(a)) + " " + show(y, "#" + Decimal(b))
  {
    assert Numbered([a]) == ["#" + Decimal(a)] && Numbered([b]) == ["#" + Decimal(b)];
    var texts := GroupTexts(groups, true, show);
    assert texts == [show(x, "#" + Decimal(a)), show(y, "#" + Decimal(b))];
    assert texts[1..] == [show(y, "#" + Decimal(b))];
  }

  lemma TwoNumbers(a: PrId, b: PrId)
    ensures PrNumbers([a, b]) == "#" + Decimal(a) + " #" + Decimal(b)
  {
    var texts := Numbered([a, b]);
    assert texts == ["#" + Decimal(a), "#" + Decimal(b)] && texts[1..] == ["#" + Decimal(b)];
    assert Spaced(texts[1..]) == "#" + Decimal(b);
    assert " " + ("#" + Decimal(b)) == " #" + Decimal(b);
  }

  // ---- the numbers -----------------------------------------------------------------------------

  predicate IsWord(w: string) { w != "" && ' ' !in w }

  lemma {:induction false} DecimalIsWord(n: nat)
    ensures IsWord(Decimal(n))
  {
    if n >= 10 { DecimalIsWord(n / 10); }
  }

  /** The number a string of digits stands for. */
  function ValueOf(digits: string): int {
    if digits == "" then 0
    else 10 * ValueOf(digits[..|digits| - 1]) + (digits[|digits| - 1] as int - '0' as int)
  }

  /** Numbers are written in decimal, with the digits 0 to 9 and no leading zero. */
  lemma {:induction false} DecimalReads(n: nat)
    ensures ValueOf(Decimal(n)) == n
    ensures forall c | c in Decimal(n) :: '0' <= c <= '9'
    ensures n > 0 ==> Decimal(n)[0] != '0'
  {
    DecimalEnds(n);
    DigitIs(n % 10);
    if n >= 10 { DecimalReads(n / 10); }
  }

  lemma DigitIs(d: nat)
    requires d < 10
    ensures DIGITS[d] as int == '0' as int + d
  {
  }

  /** The last digit, and what comes before it. */
  lemma DecimalEnds(n: nat)
    ensures var s := Decimal(n);
            && s[|s| - 1] == DIGITS[n % 10]
            && s[..|s| - 1] == (if n < 10 then "" else Decimal(n / 10))
            && (|s| == 1 <==> n < 10)
    ensures forall d, d' | 0 <= d < 10 && 0 <= d' < 10 && DIGITS[d] == DIGITS[d'] :: d == d'
  {
    if n >= 10 { DecimalIsWord(n / 10); }
  }

  lemma {:induction false} DecimalInjective(a: nat, b: nat)
    requires Decimal(a) == Decimal(b)
    ensures a == b
  {
    DecimalEnds(a);
    DecimalEnds(b);
    if a >= 10 && b >= 10 { DecimalInjective(a / 10, b / 10); }
  }

  /** Words can be told apart in the joined text. */
  lemma {:induction false} SpacedInjective(a: seq<string>, b: seq<string>)
    requires (forall w | w in a :: IsWord(w)) && (forall w | w in b :: IsWord(w))
    requires Spaced(a) == Spaced(b)
    ensures a == b
  {
    NothingSpaced(a);
    NothingSpaced(b);
    if a != [] {
      SameFirstWord(a, b);
      if |a| > 1 {
        var n := |a[0]| + 1;
        assert Spaced(a[1..]) == Spaced(a)[n..] == Spaced(b)[n..] == Spaced(b[1..]);
        SpacedInjective(a[1..], b[1..]);
      }
      SeqHead(a);
      SeqHead(b);
    }
  }

  lemma NothingSpaced(a: seq<string>)
    requires forall w | w in a :: IsWord(w)
    ensures a == [] <==> Spaced(a) == ""
  {
    if a != [] {
      assert a[0] in a;
      FirstWord(a);
    }
  }

  lemma FirstWord(a: seq<string>)
    requires a != []
    ensures a[0] <= Spaced(a)
    ensures |a| == 1 ==> Spaced(a) == a[0]
    ensures |a| > 1 ==> |Spaced(a)| > |a[0]| && Spaced(a)[|a[0]|] == ' '
  {
  }

  lemma SameFirstWord(a: seq<string>, b: seq<string>)
    requires a != [] && b != [] && IsWord(a[0]) && IsWord(b[0]) && Spaced(a) == Spaced(b)
    ensures a[0] == b[0] && (|a| == 1 <==> |b| == 1)
  {
    FirstWord(a);
    FirstWord(b);
    NotShorter(a, b);
    NotShorter(b, a);
  }

  lemma NotShorter(a: seq<string>, b: seq<string>)
    requires a != [] && b != [] && IsWord(b[0]) && Spaced(a) == Spaced(b)
    ensures |a[0]| >= |b[0]|
  {
    FirstWord(a);
    FirstWord(b);
    forall k | 0 <= k < |b[0]| ensures Spaced(b)[k] != ' ' {
      assert Spaced(b)[k] == b[0][k];
    }
  }

  /** The numbers of a group can be read back from its text. */
  lemma PrNumbersInjective(a: seq<PrId>, b: seq<PrId>)
    requires PrNumbers(a) == PrNumbers(b)
    ensures a == b
  {
    NumberedAreWords(a);
    NumberedAreWords(b);
    SpacedInjective(Numbered(a), Numbered(b));
    assert |a| == |Numbered(a)| == |Numbered(b)| == |b|;
    forall i | 0 <= i < |a| ensures a[i] == b[i] {
      assert Numbered(a)[i][1..] == Decimal(a[i]) && Numbered(b)[i][1..] == Decimal(b[i]);
      DecimalInjective(a[i], b[i]);
    }
  }

  lemma NumberedAreWords(ids: seq<PrId>)
    ensures forall w | w in Numbered(ids) :: IsWord(w)
  {
    forall i | 0 <= i < |ids| ensures IsWord(Numbered(ids)[i]) {
      DecimalIsWord(ids[i]);
    }
  }

  // ---- compiled formats ------------------------------------------------------------------------

  lemma ShowingReads<S>(config: DisplayConfig, item: DisplayItem, ids: string, st: Styling<S>)
    ensures config.Compile(st).Showing(st)(item, ids) == config.Reading(st)(item, ids)
  {
    RenderTokenReadsFormat(config.token(item), Some(ids), st);
  }

  /** Both texts are what the formats of the configuration say, although the formats were only read when the
      configuration was loaded. */
  lemma TextsReadFormats<S>(config: DisplayConfig, prs: seq<PullRequest>, items: seq<DisplayItem>, st: Styling<S>)
    ensures PromptText(prs, config.Compile(st).Showing(st)) == PromptText(prs, config.Reading(st))
    ensures WatchText(items, config.Compile(st).Showing(st)) == WatchText(items, config.Reading(st))
  {
    forall item, ids ensures config.Compile(st).Showing(st)(item, ids) == config.Reading(st)(item, ids) {
      ShowingReads(config, item, ids, st);
    }
    SameTexts(prs, items, config.Compile(st).Showing(st), config.Reading(st));
  }

  /** So are the texts without a pull request and of an error. */
  lemma OtherTextsReadFormats<S>(config: DisplayConfig, message: string, st: Styling<S>)
    ensures RenderToken(config.Compile(st).noPullRequest, None, st)
         == RenderFormat(config.noPullRequest.format,
                         TokenBindings(config.noPullRequest.symbol, config.noPullRequest.caption, None), st)
    ensures RenderErrorToken(config.Compile(st).error, message, st)
         == RenderFormat(config.error.format, ErrorBindings(config.error.symbol, message), st)
  {
    RenderTokenReadsFormat(config.noPullRequest, None, st);
    RenderErrorReadsFormat(config.error, message, st);
  }

  lemma SameTexts(prs: seq<PullRequest>, items: seq<DisplayItem>, show: Show, show': Show)
    requires forall item, ids :: show(item, ids) == show'(item, ids)
    ensures PromptText(prs, show) == PromptText(prs, show') && WatchText(items, show) == WatchText(items, show')
  {
    var groups := PromptGroups(prs);
    assert GroupTexts(groups, |prs| > 1, show) == GroupTexts(groups, |prs| > 1, show');
    assert seq(|items|, i requires 0 <= i < |items| => show(items[i], ""))
        == seq(|items|, i requires 0 <= i < |items| => show'(items[i], ""));
  }
}
