/** The format-string parser and its one-time compilation (src/contexts/evaluation/domain/format_parser.rs).
    Strings are sequences of characters; the four delimiters are single characters in the source too. */
module FormatParser {
  import opened Numbers
  import opened Sequences

  datatype Segment =
    | Text(text: string)
    | Styled(content: string, style: string)
    | Conditional(inner: seq<Segment>)

  /** The index of the first `c`. */
  function Find(s: string, c: char): (r: Option<nat>)
    ensures r.None? <==> c !in s
    ensures r.Some? ==> r.value < |s| && s[r.value] == c && c !in s[..r.value]
  {
    if s == "" then None
    else if s[0] == c then Some(0)
    else
      var rest := Find(s[1..], c);
      assert s == [s[0]] + s[1..];
      if rest.None? then None
      else
        assert s[..rest.value + 1] == [s[0]] + s[1..][..rest.value];
        Some(rest.value + 1)
  }

  lemma FindIs(s: string, c: char, i: nat)
    requires i < |s| && s[i] == c && c !in s[..i]
    ensures Find(s, c) == Some(i)
  {
    NotBefore(s, i, c);
    NotBefore(s, Find(s, c).value, c);
  }

  lemma NotBefore(s: string, n: nat, c: char)
    requires n <= |s| && c !in s[..n]
    ensures forall k | 0 <= k < n :: s[k] != c
  {
    forall k | 0 <= k < n ensures s[k] != c {
      assert s[..n][k] == s[k];
    }
  }

  /** What comes before and after the first `c`. */
  function Cut(s: string, c: char): (r: Option<(string, string)>)
    ensures r.None? <==> c !in s
    ensures r.Some? ==> s == r.value.0 + ([c] + r.value.1) && c !in r.value.0
  {
    match Find(s, c)
    case None => None
    case Some(i) => CutAt(s, i); Some((s[..i], s[i + 1..]))
  }

  lemma CutAt(s: string, i: nat)
    requires i < |s|
    ensures s == s[..i] + ([s[i]] + s[i + 1..])
  {
  }

  lemma CutAfter(before: string, c: char, after: string)
    requires c !in before
    ensures Cut(before + ([c] + after), c) == Some((before, after))
  {
    var s := before + ([c] + after);
    assert s[..|before|] == before && s[|before| + 1..] == after;
    FindIs(s, c, |before|);
  }

  lemma HeadOf(c: char, t: string)
    ensures ([c] + t)[0] == c && ([c] + t)[1..] == t
  {
  }

  // ---- the reference description ---------------------------------------------------------------

  /** A piece of markup at the front of a string: the segment it denotes and what follows it. */
  datatype Match = Match(segment: Segment, rest: string)

  /** `[content](style)` at the front of `s`: the content ends at the first `]`, which a `(` must follow at once,
      and the style ends at the next `)`. */
  function StyledAt(s: string): (m: Option<Match>)
    requires s != "" && s[0] == '['
    ensures m.Some? ==>
              && m.value.segment.Styled?
              && |m.value.segment.content| + |m.value.segment.style| + |m.value.rest| + 4 == |s|
  {
    match Cut(s[1..], ']')
    case None => None
    case Some((content, after)) =>
      if after == "" || after[0] != '(' then None
      else
        match Cut(after[1..], ')')
        case None => None
        case Some((style, rest)) => Some(Match(Styled(content, style), rest))
  }

  /** A string without markup as segments: at most one, and never an empty one. */
  function Plain(t: string): seq<Segment> { if t == "" then [] else [Text(t)] }

  /** `(inner)` at the front of `s`, up to the first `)`; the inside can hold no markup. */
  function ConditionalAt(s: string): (m: Option<Match>)
    requires s != "" && s[0] == '('
    ensures m.Some? ==> m.value.segment.Conditional? && |m.value.rest| + 2 <= |s|
  {
    match Cut(s[1..], ')')
    case None => None
    case Some((inner, rest)) => Some(Match(Conditional(Plain(inner)), rest))
  }

  function MarkupAt(s: string): (m: Option<Match>)
    ensures m.Some? ==> |m.value.rest| + 2 <= |s| && !m.value.segment.Text? && (s[0] == '[' || s[0] == '(')
  {
    if s == "" then None
    else if s[0] == '[' then StyledAt(s)
    else if s[0] == '(' then ConditionalAt(s)
    else None
  }

  /** No markup starts inside `t` when `rest` follows it. */
  ghost predicate Inert(t: string, rest: string) {
    forall k: nat | k < |t| :: MarkupAt(t[k..] + rest).None?
  }

  function Print(segment: Segment): string
    decreases segment, 0
  {
    match segment
    case Text(t) => t
    case Styled(content, style) => "[" + content + "](" + style + ")"
    case Conditional(inner) => "(" + PrintAll(inner) + ")"
  }

  function PrintAll(segments: seq<Segment>): string
    decreases segments, |segments|
  {
    if segments == [] then "" else Print(segments[0]) + PrintAll(segments[1..])
  }

  /** The segment lists that are parses: texts are not empty, not adjacent and hide no markup; the content and the
      style stop at their first delimiter; a conditional holds plain text without a `)`. */
  ghost predicate WellFormed(segments: seq<Segment>) {
    segments == []
    || (&& WellFormed(segments[1..])
        && match segments[0]
           case Text(t) =>
             && t != "" && Inert(t, PrintAll(segments[1..]))
             && (|segments| > 1 ==> !segments[1].Text?)
           case _ => WellFormedMarkup(segments[0]))
  }

  ghost predicate WellFormedMarkup(segment: Segment) {
    match segment
    case Text(_) => false
    case Styled(content, style) => ']' !in content && ')' !in style
    case Conditional(inner) => exists t: string :: inner == Plain(t) && ')' !in t
  }

  // ---- markup and printing ---------------------------------------------------------------------

  /** Markup prints back to exactly the characters it was read from. */
  lemma MarkupPrints(s: string)
    requires MarkupAt(s).Some?
    ensures var m := MarkupAt(s).value; Print(m.segment) + m.rest == s
    ensures WellFormedMarkup(MarkupAt(s).value.segment)
  {
    if s[0] == '[' { StyledPrints(s); } else { ConditionalPrints(s); }
  }

  /** The characters of a styled piece and what follows, grouped as they are read. */
  function StyledText(content: string, style: string, rest: string): string {
    ['['] + (content + ([']'] + (['('] + (style + ([')'] + rest)))))
  }

  lemma StyledShape(content: string, style: string, rest: string)
    ensures Print(Styled(content, style)) + rest == StyledText(content, style, rest)
  {
  }

  lemma StyledPrints(s: string)
    requires s != "" && s[0] == '[' && StyledAt(s).Some?
    ensures var m := StyledAt(s).value; Print(m.segment) + m.rest == s && WellFormedMarkup(m.segment)
  {
    var (content, after) := Cut(s[1..], ']').value;
    var (style, rest) := Cut(after[1..], ')').value;
    SeqHead(s);
    SeqHead(after);
    StyledShape(content, style, rest);
  }

  lemma ConditionalShape(t: string, rest: string)
    ensures Print(Conditional(Plain(t))) + rest == ['('] + (t + ([')'] + rest))
  {
    PlainPrints(t);
  }

  lemma ConditionalPrints(s: string)
    requires s != "" && s[0] == '(' && ConditionalAt(s).Some?
    ensures var m := ConditionalAt(s).value; Print(m.segment) + m.rest == s && WellFormedMarkup(m.segment)
  {
    var (t, rest) := Cut(s[1..], ')').value;
    SeqHead(s);
    ConditionalShape(t, rest);
  }

  lemma PlainPrints(t: string)
    ensures PrintAll(Plain(t)) == t
  {
    if t != "" {
      assert Plain(t)[1..] == [];
    }
  }

  /** Conversely, a printed piece of markup is read as itself, whatever follows it. */
  lemma PrintedMarkup(segment: Segment, rest: string)
    requires WellFormedMarkup(segment)
    ensures MarkupAt(Print(segment) + rest) == Some(Match(segment, rest))
  {
    match segment
    case Styled(content, style) =>
      StyledShape(content, style, rest);
      StyledRead(content, style, rest);
    case Conditional(inner) =>
      var t: string :| inner == Plain(t) && ')' !in t;
      ConditionalShape(t, rest);
      HeadOf('(', t + ([')'] + rest));
      CutAfter(t, ')', rest);
  }

  lemma StyledRead(content: string, style: string, rest: string)
    requires ']' !in content && ')' !in style
    ensures MarkupAt(StyledText(content, style, rest)) == Some(Match(Styled(content, style), rest))
  {
    var c := style + ([')'] + rest);
    var b := ['('] + c;
    HeadOf('[', content + ([']'] + b));
    CutAfter(content, ']', b);
    HeadOf('(', c);
    CutAfter(style, ')', rest);
  }

  // ---- the parse -------------------------------------------------------------------------------

  /** How many characters come before the first markup. */
  function TextLength(s: string): (n: nat)
    ensures n <= |s|
    ensures n < |s| ==> MarkupAt(s[n..]).Some?
    ensures forall k: nat | k < n :: MarkupAt(s[k..]).None?
  {
    if s == "" || MarkupAt(s).Some? then 0
    else
      var rest := TextLength(s[1..]);
      OneMoreCharacter(s, rest);
      rest + 1
  }

  lemma OneMoreCharacter(s: string, rest: nat)
    requires s != "" && MarkupAt(s).None? && rest <= |s[1..]|
    requires forall k: nat | k < rest :: MarkupAt(s[1..][k..]).None?
    requires rest < |s[1..]| ==> MarkupAt(s[1..][rest..]).Some?
    ensures rest + 1 < |s| ==> MarkupAt(s[rest + 1..]).Some?
    ensures forall k: nat | k < rest + 1 :: MarkupAt(s[k..]).None?
  {
    assert s[1..][rest..] == s[rest + 1..];
    forall k: nat | k < rest + 1 ensures MarkupAt(s[k..]).None? {
      if k == 0 {
        assert s[0..] == s;
      } else {
        assert s[k..] == s[1..][k - 1..];
      }
    }
  }

  /** The text before the first markup, that markup, and the parse of what follows. */
  function Parse(s: string): seq<Segment>
    decreases |s|
  {
    var n := TextLength(s);
    Plain(s[..n])
    + if n == |s| then [] else
        var m := MarkupAt(s[n..]).value;
        [m.segment] + Parse(m.rest)
  }

  lemma TextLengthIs(t: string, rest: string)
    requires Inert(t, rest) && (rest == "" || MarkupAt(rest).Some?)
    ensures TextLength(t + rest) == |t|
    ensures (t + rest)[..|t|] == t && (t + rest)[|t|..] == rest
  {
    var s := t + rest;
    assert s[|t|..] == rest;
    forall k: nat | k < |t| ensures MarkupAt(s[k..]).None? {
      assert s[k..] == t[k..] + rest;
    }
  }

  /** The parse of inert text followed by markup. */
  lemma ParseSplit(t: string, rest: string)
    requires Inert(t, rest) && MarkupAt(rest).Some?
    ensures Parse(t + rest) == Plain(t) + ([MarkupAt(rest).value.segment] + Parse(MarkupAt(rest).value.rest))
  {
    TextLengthIs(t, rest);
  }

  lemma ParseInert(t: string)
    requires Inert(t, "")
    ensures Parse(t) == Plain(t)
  {
    assert t + "" == t;
    TextLengthIs(t, "");
  }

  /** Every piece of markup contains a `)`, so text without one has none. */
  lemma NoCloseNoMarkup(t: string)
    requires ')' !in t
    ensures Inert(t, "") && Parse(t) == Plain(t)
  {
    forall k: nat | k < |t| ensures MarkupAt(t[k..] + "").None? {
      MarkupHasClose(t[k..] + "");
    }
    ParseInert(t);
  }

  lemma MarkupHasClose(s: string)
    ensures MarkupAt(s).Some? ==> ')' in s
  {
    if MarkupAt(s).Some? {
      MarkupPrints(s);
      var m := MarkupAt(s).value;
      match m.segment
      case Styled(content, style) => assert s[|content| + |style| + 3] == ')';
      case Conditional(inner) => assert s[|PrintAll(inner)| + 1] == ')';
    }
  }

  // ---- the parse and the printer are inverse ---------------------------------------------------

  lemma PrintPlainThen(t: string, tail: seq<Segment>)
    ensures PrintAll(Plain(t) + tail) == t + PrintAll(tail)
  {
    if t == "" {
      assert Plain(t) + tail == tail;
    } else {
      assert (Plain(t) + tail)[1..] == tail;
    }
  }

  lemma PrintParsed(t: string, m: Match, later: seq<Segment>)
    requires PrintAll(later) == m.rest
    ensures PrintAll(Plain(t) + ([m.segment] + later)) == t + (Print(m.segment) + m.rest)
  {
    var tail := [m.segment] + later;
    assert tail[1..] == later;
    PrintPlainThen(t, tail);
  }

  /** Printing the parse of any string, however malformed, gives the string back. */
  lemma {:induction false} ParsePrints(s: string)
    ensures PrintAll(Parse(s)) == s
    decreases |s|
  {
    var n := TextLength(s);
    SeqSplit(s, n);
    if n < |s| {
      var m := MarkupAt(s[n..]).value;
      ParsePrints(m.rest);
      MarkupPrints(s[n..]);
      PrintParsed(s[..n], m, Parse(m.rest));
    } else {
      PlainPrints(s);
      assert s[..n] == s && Plain(s) + [] == Plain(s);
    }
  }

  /** The parse of any string is well formed. */
  lemma {:induction false} ParseWellFormed(s: string)
    ensures WellFormed(Parse(s))
    decreases |s|
  {
    var n := TextLength(s);
    if n == |s| {
      InertPrefix(s, n);
      PlainWellFormed(s[..n], [], s[n..]);
      assert Parse(s) == Plain(s[..n]) + [];
    } else {
      var m := MarkupAt(s[n..]).value;
      MarkupPrints(s[n..]);
      ParseWellFormed(m.rest);
      ParsePrints(m.rest);
      var tail := [m.segment] + Parse(m.rest);
      assert tail[1..] == Parse(m.rest);
      InertPrefix(s, n);
      PlainWellFormed(s[..n], tail, s[n..]);
    }
  }

  lemma InertPrefix(s: string, n: nat)
    requires n <= TextLength(s)
    ensures Inert(s[..n], s[n..])
  {
    forall k: nat | k < n ensures MarkupAt(s[..n][k..] + s[n..]).None? {
      SliceJoin(s, k, n);
    }
  }

  lemma SliceJoin(s: string, k: nat, n: nat)
    requires k <= n <= |s|
    ensures s[..n][k..] + s[n..] == s[k..]
  {
  }

  lemma PlainWellFormed(t: string, tail: seq<Segment>, rest: string)
    requires WellFormed(tail) && (tail != [] ==> !tail[0].Text?)
    requires PrintAll(tail) == rest && Inert(t, rest)
    ensures WellFormed(Plain(t) + tail)
  {
    if t == "" {
      assert Plain(t) + tail == tail;
    } else {
      assert (Plain(t) + tail)[1..] == tail;
    }
  }

  lemma ParseAtMarkup(s: string)
    requires MarkupAt(s).Some?
    ensures Parse(s) == [MarkupAt(s).value.segment] + Parse(MarkupAt(s).value.rest)
  {
    assert "" + s == s;
    ParseSplit("", s);
    EmptyPlain([MarkupAt(s).value.segment] + Parse(MarkupAt(s).value.rest));
  }

  lemma EmptyPlain(tail: seq<Segment>)
    ensures Plain("") + tail == tail
  {
  }

  lemma ParseMarkup(segment: Segment, rest: string)
    requires WellFormedMarkup(segment)
    ensures Parse(Print(segment) + rest) == [segment] + Parse(rest)
  {
    PrintedMarkup(segment, rest);
    ParseAtMarkup(Print(segment) + rest);
  }

  lemma ParseTextThenMarkup(t: string, segment: Segment, rest: string)
    requires t != "" && Inert(t, Print(segment) + rest) && WellFormedMarkup(segment)
    ensures Parse(t + (Print(segment) + rest)) == [Text(t)] + Parse(Print(segment) + rest)
  {
    PrintedMarkup(segment, rest);
    ParseMarkup(segment, rest);
    ParseSplit(t, Print(segment) + rest);
  }

  /** A well-formed list of segments is the parse of what it prints. */
  lemma {:induction false} PrintParses(segments: seq<Segment>)
    requires WellFormed(segments)
    ensures Parse(PrintAll(segments)) == segments
    decreases |segments|
  {
    if segments != [] {
      var head, tail := segments[0], segments[1..];
      PrintParses(tail);
      SeqHead(segments);
      if !head.Text? {
        ParseMarkup(head, PrintAll(tail));
      } else if tail == [] {
        ParseInert(head.text);
        assert head.text + "" == head.text;
      } else {
        ParseTextThenMarkup(head.text, tail[0], PrintAll(tail[1..]));
      }
    }
  }

  /** The parse is the only well-formed list of segments that prints as the format. */
  lemma ParseIff(s: string, segments: seq<Segment>)
    ensures Parse(s) == segments <==> PrintAll(segments) == s && WellFormed(segments)
  {
    ParsePrints(s);
    ParseWellFormed(s);
    if PrintAll(segments) == s && WellFormed(segments) {
      PrintParses(segments);
    }
  }

  /** Two formats with the same parse are the same format. */
  lemma ParseInjective(a: string, b: string)
    requires Parse(a) == Parse(b)
    ensures a == b
  {
    ParsePrints(a);
    ParsePrints(b);
  }

  // ---- the parser's loop -----------------------------------------------------------------------

  /** What the loop keeps: the text gathered so far is inert, and the parse goes on from it. */
  ghost predicate Continues(segments: seq<Segment>, acc: string, rem: string, format: string) {
    Inert(acc, rem) && segments + Parse(acc + rem) == Parse(format)
  }

  lemma ContinueStart(format: string)
    ensures Continues([], "", format, format)
  {
    assert "" + format == format;
  }

  /** Without a delimiter the rest is text. */
  lemma ContinueToEnd(segments: seq<Segment>, acc: string, rem: string, format: string)
    requires Continues(segments, acc, rem, format) && '[' !in rem && '(' !in rem
    ensures Continues(segments, acc + rem, "", format)
  {
    assert rem[..|rem|] == rem;
    InertExtends(acc, rem, |rem|);
    assert acc + rem + "" == acc + rem;
  }

  /** A delimiter that starts no markup is text. */
  lemma ContinuePast(segments: seq<Segment>, acc: string, rem: string, n: nat, format: string)
    requires Continues(segments, acc, rem, format)
    requires n < |rem| && '[' !in rem[..n] && '(' !in rem[..n] && MarkupAt(rem[n..]).None?
    ensures Continues(segments, acc + rem[..n + 1], rem[n + 1..], format)
  {
    InertExtends(acc, rem, n);
    InertOneMore(acc, rem, n);
    SplitAcc(acc, rem, n);
  }

  /** Markup ends the text before it. */
  lemma ContinueAfter(segments: seq<Segment>, acc: string, rem: string, n: nat, format: string)
    requires Continues(segments, acc, rem, format)
    requires n < |rem| && '[' !in rem[..n] && '(' !in rem[..n] && MarkupAt(rem[n..]).Some?
    ensures var m := MarkupAt(rem[n..]).value;
            Continues(segments + Plain(acc + rem[..n]) + [m.segment], "", m.rest, format)
  {
    var m := MarkupAt(rem[n..]).value;
    InertExtends(acc, rem, n);
    SplitAcc(acc, rem, n);
    ParseSplit(acc + rem[..n], rem[n..]);
    SeqAssoc(segments + Plain(acc + rem[..n]), [m.segment], Parse(m.rest));
    SeqAssoc(segments, Plain(acc + rem[..n]), [m.segment] + Parse(m.rest));
    assert "" + m.rest == m.rest;
  }

  lemma ContinueDone(segments: seq<Segment>, acc: string, format: string)
    requires Continues(segments, acc, "", format)
    ensures segments + Plain(acc) == Parse(format)
  {
    assert acc + "" == acc;
    ParseInert(acc);
  }

  method ParseSegments(format: string) returns (segments: seq<Segment>)
    ensures segments == Parse(format)
    decreases |format|, 2
  {
    segments := [];
    var remaining, textAcc := format, "";
    ContinueStart(format);
    while remaining != ""
      invariant |remaining| <= |format|
      invariant Continues(segments, textAcc, remaining, format)
      decreases |remaining|
    {
      var at, found, segment, rest := NextDelimiter(remaining);
      if at == |remaining| {
        ContinueToEnd(segments, textAcc, remaining, format);
        textAcc, remaining := textAcc + remaining, "";
      } else if found {
        ContinueAfter(segments, textAcc, remaining, at, format);
        textAcc := textAcc + remaining[..at];
        textAcc, segments := FlushTextAcc(textAcc, segments);
        segments, remaining := segments + [segment], rest;
      } else {
        ContinuePast(segments, textAcc, remaining, at, format);
        textAcc, remaining := textAcc + remaining[..at + 1], remaining[at + 1..];
      }
    }
    ContinueDone(segments, textAcc, format);
    textAcc, segments := FlushTextAcc(textAcc, segments);
  }

  /** The next delimiter and the markup it starts, if any; the end of the string when there is no delimiter. */
  method NextDelimiter(s: string) returns (at: nat, found: bool, segment: Segment, rest: string)
    ensures at <= |s| && '[' !in s[..at] && '(' !in s[..at]
    ensures at < |s| ==> (found <==> MarkupAt(s[at..]).Some?)
    ensures found ==> at < |s| && MarkupAt(s[at..]) == Some(Match(segment, rest)) && |rest| < |s|
    decreases |s|, 1
  {
    var bracketPos, parenPos := Find(s, '['), Find(s, '(');
    at, found, segment, rest := |s|, false, Text(""), "";
    assert s[..|s|] == s;
    if bracketPos.Some? && (parenPos.None? || bracketPos.value <= parenPos.value) {
      at := bracketPos.value;
      NotInPrefix(s, '(', at, parenPos);
      found, segment, rest := TryStyled(s[at..]);
    } else if parenPos.Some? {
      at := parenPos.value;
      NotInPrefix(s, '[', at, bracketPos);
      found, segment, rest := TryConditional(s[at..]);
    }
  }

  lemma NotInPrefix(s: string, c: char, n: nat, found: Option<nat>)
    requires n <= |s| && found == Find(s, c) && (found.Some? ==> n <= found.value)
    ensures c !in s[..n]
  {
    if found.Some? {
      NotBefore(s, found.value, c);
    }
  }

  method FlushTextAcc(textAcc: string, segments: seq<Segment>) returns (emptied: string, flushed: seq<Segment>)
    ensures emptied == "" && flushed == segments + Plain(textAcc)
  {
    emptied, flushed := "", segments;
    if textAcc != "" {
      flushed := flushed + [Text(textAcc)];
    }
  }

  lemma SplitAcc(acc: string, rem: string, n: nat)
    requires n < |rem|
    ensures acc + rem[..n] + rem[n..] == acc + rem == acc + rem[..n + 1] + rem[n + 1..]
  {
  }

  /** The attempt to read `(content)`, at the parenthesis. */
  method TryConditional(s: string) returns (found: bool, segment: Segment, rest: string)
    requires s != "" && s[0] == '('
    ensures found <==> MarkupAt(s).Some?
    ensures found ==> MarkupAt(s) == Some(Match(segment, rest))
    decreases |s|, 0
  {
    found, segment, rest := false, Text(""), "";
    var afterParen := s[1..];
    var close := Find(afterParen, ')');
    if close.Some? {
      var inner := ParseSegments(afterParen[..close.value]);
      NoCloseNoMarkup(afterParen[..close.value]);
      found, segment, rest := true, Conditional(inner), afterParen[close.value + 1..];
    }
  }

  /** The attempt to read `[text](style)`, at the bracket. */
  method TryStyled(s: string) returns (found: bool, segment: Segment, rest: string)
    requires s != "" && s[0] == '['
    ensures found <==> MarkupAt(s).Some?
    ensures found ==> MarkupAt(s) == Some(Match(segment, rest))
  {
    found, segment, rest := false, Text(""), "";
    var afterOpen := s[1..];
    var closeBracket := Find(afterOpen, ']');
    if closeBracket.Some? {
      var afterBracket := afterOpen[closeBracket.value + 1..];
      if afterBracket != "" && afterBracket[0] == '(' {
        var afterParen := afterBracket[1..];
        var parenClose := Find(afterParen, ')');
        if parenClose.Some? {
          found, rest := true, afterParen[parenClose.value + 1..];
          segment := Styled(afterOpen[..closeBracket.value], afterParen[..parenClose.value]);
        }
      }
    }
  }

  /** Characters before the next delimiter start no markup. */
  lemma InertExtends(t: string, s: string, n: nat)
    requires Inert(t, s) && n <= |s| && '[' !in s[..n] && '(' !in s[..n]
    ensures Inert(t + s[..n], s[n..])
  {
    NotBefore(s, n, '[');
    NotBefore(s, n, '(');
    forall k: nat | k < |t + s[..n]| ensures MarkupAt((t + s[..n])[k..] + s[n..]).None? {
      if k < |t| {
        assert (t + s[..n])[k..] + s[n..] == t[k..] + s;
      } else {
        assert (t + s[..n])[k..] + s[n..] == s[k - |t|..];
      }
    }
  }

  lemma InertOneMore(t: string, s: string, n: nat)
    requires n < |s| && Inert(t + s[..n], s[n..]) && MarkupAt(s[n..]).None?
    ensures Inert(t + s[..n + 1], s[n + 1..])
  {
    var head, tail := s[..n + 1], s[n + 1..];
    forall k: nat | k < |t + head| ensures MarkupAt((t + head)[k..] + tail).None? {
      if k < |t| + n {
        assert (t + head)[k..] + tail == (t + s[..n])[k..] + s[n..];
      } else {
        assert (t + head)[k..] + tail == s[n..];
      }
    }
  }
}
