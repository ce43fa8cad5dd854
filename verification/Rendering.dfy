/** Compilation of a format (format_parser.rs) and evaluation of the compiled tree (display_config/render.rs),
    against an interpreter that reads the format string afresh on every render. Parsing a style and painting
    with it stay abstract: `Styling` holds any two functions. */
module Rendering {
  import opened Numbers
  import opened Sequences
  import opened FormatParser
  import opened Variables

  datatype Styling<!S> = Styling(parse: string -> S, paint: (S, string) -> string)

  datatype Compiled<S> =
    | CompiledText(text: string)
    | CompiledStyled(content: seq<Compiled<S>>, style: S)
    | CompiledConditional(inner: seq<Compiled<S>>)

  // ---- compilation -----------------------------------------------------------------------------

  /** Each recursive compilation is of a strictly shorter string, which is why this ends. */
  function CompileSegments<S>(format: string, st: Styling<S>): seq<Compiled<S>>
    decreases |format|, 2, 0
  {
    ParsePrints(format);
    CompileList(Parse(format), st)
  }

  function CompileList<S>(segments: seq<Segment>, st: Styling<S>): (r: seq<Compiled<S>>)
    ensures |r| == |segments|
    decreases |PrintAll(segments)|, 1, |segments|
  {
    if segments == [] then [] else [CompileSegment(segments[0], st)] + CompileList(segments[1..], st)
  }

  function CompileSegment<S>(segment: Segment, st: Styling<S>): Compiled<S>
    decreases |Print(segment)|, 0, 0
  {
    match segment
    case Text(t) => CompiledText(t)
    case Styled(content, style) => CompiledStyled(CompileSegments(content, st), st.parse(style))
    case Conditional(inner) => CompiledConditional(CompileList(inner, st))
  }

  // ---- evaluation ------------------------------------------------------------------------------

  function EvalSegments<S>(segments: seq<Compiled<S>>, vars: Bindings, st: Styling<S>): string
    decreases segments, |segments|
  {
    if segments == [] then "" else EvalSegment(segments[0], vars, st) + EvalSegments(segments[1..], vars, st)
  }

  function EvalSegment<S>(segment: Compiled<S>, vars: Bindings, st: Styling<S>): string
    decreases segment, 1
  {
    match segment
    case CompiledText(t) => Substitute(t, vars)
    case CompiledStyled(content, style) => st.paint(style, EvalSegments(content, vars, st))
    case CompiledConditional(inner) => EvalConditional(inner, vars, st)
  }

  function EvalConditional<S>(inner: seq<Compiled<S>>, vars: Bindings, st: Styling<S>): string
    decreases inner, |inner| + 1
  {
    if forall name | name in VarRefs(inner) :: !NonEmpty(vars, name) then "" else EvalSegments(inner, vars, st)
  }

  function VarRefs<S>(segments: seq<Compiled<S>>): seq<string>
    decreases segments, |segments|
  {
    if segments == [] then [] else SegmentRefs(segments[0]) + VarRefs(segments[1..])
  }

  function SegmentRefs<S>(segment: Compiled<S>): seq<string>
    decreases segment, 1
  {
    match segment
    case CompiledText(t) => VarNames(t)
    case CompiledStyled(content, _) => VarRefs(content)
    case CompiledConditional(inner) => VarRefs(inner)
  }

  method CollectVarRefs<S>(segments: seq<Compiled<S>>) returns (refs: seq<string>)
    ensures refs == VarRefs(segments)
    decreases segments, |segments|
  {
    refs := [];
    assert segments[0..] == segments;
    for i := 0 to |segments|
      invariant refs + VarRefs(segments[i..]) == VarRefs(segments)
    {
      assert segments[i..][1..] == segments[i + 1..];
      SeqAssoc(refs, SegmentRefs(segments[i]), VarRefs(segments[i + 1..]));
      refs := AppendRefs(segments[i], refs);
    }
  }

  method AppendRefs<S>(segment: Compiled<S>, out: seq<string>) returns (refs: seq<string>)
    ensures refs == out + SegmentRefs(segment)
    decreases segment, 1
  {
    match segment {
      case CompiledText(t) => refs := ExtractVarNames(t, out);
      case CompiledStyled(content, _) =>
        var more := CollectVarRefs(content);
        refs := out + more;
      case CompiledConditional(inner) =>
        var more := CollectVarRefs(inner);
        refs := out + more;
    }
  }

  // ---- the reference interpreter ---------------------------------------------------------------

  /** Renders the format by reading it from left to right: the text before the first markup, that markup, and
      then the rest. A conditional shows its text when a variable it references has a non-empty value. */
  function RenderFormat<S>(format: string, vars: Bindings, st: Styling<S>): string
    decreases |format|
  {
    var n := TextLength(format);
    Substitute(format[..n], vars)
    + if n == |format| then ""
      else
        var m := MarkupAt(format[n..]).value;
        (match m.segment
         case Styled(content, style) => st.paint(st.parse(style), RenderFormat(content, vars, st))
         case Conditional(inner) =>
           if ShowsSomething(PrintAll(inner), vars) then Substitute(PrintAll(inner), vars) else ""
         case Text(_) => "")
        + RenderFormat(m.rest, vars, st)
  }

  lemma EvalConcat<S>(a: seq<Compiled<S>>, b: seq<Compiled<S>>, vars: Bindings, st: Styling<S>)
    ensures EvalSegments(a + b, vars, st) == EvalSegments(a, vars, st) + EvalSegments(b, vars, st)
  {
    if a == [] {
      assert a + b == b;
    } else {
      assert (a + b)[1..] == a[1..] + b;
      EvalConcat(a[1..], b, vars, st);
    }
  }

  lemma CompileConcat<S>(a: seq<Segment>, b: seq<Segment>, st: Styling<S>)
    ensures CompileList(a + b, st) == CompileList(a, st) + CompileList(b, st)
  {
    if a == [] {
      assert a + b == b;
    } else {
      assert (a + b)[1..] == a[1..] + b;
      CompileConcat(a[1..], b, st);
    }
  }

  lemma EvalPlain<S>(t: string, vars: Bindings, st: Styling<S>)
    ensures EvalSegments(CompileList(Plain(t), st), vars, st) == Substitute(t, vars)
    ensures VarRefs(CompileList(Plain(t), st)) == VarNames(t)
  {
    if t != "" {
      CompileOne(Text(t), st);
      EvalOne(CompileSegment(Text(t), st), vars, st);
    }
  }

  lemma CompileOne<S>(segment: Segment, st: Styling<S>)
    ensures CompileList([segment], st) == [CompileSegment(segment, st)]
  {
    var one := [segment];
    assert one[1..] == [];
  }

  lemma EvalOne<S>(segment: Compiled<S>, vars: Bindings, st: Styling<S>)
    ensures EvalSegments([segment], vars, st) == EvalSegment(segment, vars, st)
    ensures VarRefs([segment]) == SegmentRefs(segment)
  {
    var one := [segment];
    assert one[1..] == [];
  }

  /** A compiled conditional shows its text, or nothing when every variable it references is unset or empty. */
  lemma EvalParsedConditional<S>(t: string, vars: Bindings, st: Styling<S>)
    ensures EvalConditional(CompileList(Plain(t), st), vars, st)
         == if ShowsSomething(t, vars) then Substitute(t, vars) else ""
  {
    EvalPlain(t, vars, st);
  }

  /** A conditional renders to nothing exactly when no variable it references has a non-empty value. */
  lemma ConditionalEmptyIff<S>(t: string, vars: Bindings, st: Styling<S>)
    ensures EvalConditional(CompileList(Plain(t), st), vars, st) == ""
       <==> forall name | name in VarNames(t) :: !NonEmpty(vars, name)
  {
    EvalParsedConditional(t, vars, st);
    if name :| name in VarNames(t) && NonEmpty(vars, name) {
      ShownValueNotEmpty(Tokens(t), vars, name);
    }
  }

  /** Compiling once and evaluating the tree gives what reading the format at render time gives. */
  lemma {:induction false} CompilePreservesMeaning<S>(format: string, vars: Bindings, st: Styling<S>)
    ensures EvalSegments(CompileSegments(format, st), vars, st) == RenderFormat(format, vars, st)
    decreases |format|
  {
    var n := TextLength(format);
    var plain := Plain(format[..n]);
    EvalPlain(format[..n], vars, st);
    if n == |format| {
      assert Parse(format) == plain;
    } else {
      var m := MarkupAt(format[n..]).value;
      MarkupPrints(format[n..]);
      CompilePreservesMeaning(m.rest, vars, st);
      CompileConcat(plain, [m.segment] + Parse(m.rest), st);
      EvalMarkup(m.segment, Parse(m.rest), vars, st);
      match m.segment {
        case Styled(content, style) => CompilePreservesMeaning(content, vars, st);
        case Conditional(inner) => EvalConditionalMarkup(inner, vars, st);
      }
      EvalConcat(CompileList(plain, st), CompileList([m.segment] + Parse(m.rest), st), vars, st);
    }
  }

  lemma EvalConditionalMarkup<S>(inner: seq<Segment>, vars: Bindings, st: Styling<S>)
    requires WellFormedMarkup(Conditional(inner))
    ensures EvalConditional(CompileList(inner, st), vars, st)
         == if ShowsSomething(PrintAll(inner), vars) then Substitute(PrintAll(inner), vars) else ""
  {
    var t: string :| inner == Plain(t) && ')' !in t;
    PlainPrints(t);
    EvalParsedConditional(t, vars, st);
  }

  lemma EvalMarkup<S>(segment: Segment, rest: seq<Segment>, vars: Bindings, st: Styling<S>)
    ensures EvalSegments(CompileList([segment] + rest, st), vars, st)
         == EvalSegment(CompileSegment(segment, st), vars, st) + EvalSegments(CompileList(rest, st), vars, st)
  {
    assert ([segment] + rest)[1..] == rest;
    var c := CompileList([segment] + rest, st);
    assert c[1..] == CompileList(rest, st);
  }

  // ---- what a format shows ---------------------------------------------------------------------

  /** A compiled format, rendered. */
  function Shown<S>(format: string, vars: Bindings, st: Styling<S>): string {
    EvalSegments(CompileSegments(format, st), vars, st)
  }

  /** Text that can hold no markup. */
  predicate IsPlainText(t: string) { '[' !in t && '(' !in t }

  lemma PlainIsInert(t: string, rest: string)
    requires IsPlainText(t)
    ensures Inert(t, rest) || t == ""
    ensures forall k: nat | k < |t| :: MarkupAt(t[k..] + rest).None?
  {
    forall k: nat | k < |t| ensures MarkupAt(t[k..] + rest).None? {
      assert (t[k..] + rest)[0] == t[k] && t[k] in t;
    }
  }

  lemma FormatSplit<S>(t: string, segment: Segment, rest: string, vars: Bindings, st: Styling<S>)
    requires IsPlainText(t) && WellFormedMarkup(segment)
    ensures segment.Styled? ==>
              RenderFormat(t + (Print(segment) + rest), vars, st)
                == Substitute(t, vars)
                   + (st.paint(st.parse(segment.style), RenderFormat(segment.content, vars, st))
                      + RenderFormat(rest, vars, st))
    ensures segment.Conditional? ==>
              var inner := PrintAll(segment.inner);
              RenderFormat(t + (Print(segment) + rest), vars, st)
                == Substitute(t, vars)
                   + ((if ShowsSomething(inner, vars) then Substitute(inner, vars) else "")
                      + RenderFormat(rest, vars, st))
  {
    PlainIsInert(t, Print(segment) + rest);
    PrintedMarkup(segment, rest);
    TextLengthIs(t, Print(segment) + rest);
    assert Print(segment) + rest != "";
  }

  /** Text shows with its references replaced. */
  lemma TextShown<S>(t: string, vars: Bindings, st: Styling<S>)
    requires IsPlainText(t)
    ensures Shown(t, vars, st) == Substitute(t, vars)
  {
    CompilePreservesMeaning(t, vars, st);
    PlainIsInert(t, "");
    assert t + "" == t;
    TextLengthIs(t, "");
    assert t[..|t|] == t && Substitute(t, vars) + "" == Substitute(t, vars);
  }

  /** After any text, `[content](style)` shows its content painted in its style, and then the rest. */
  lemma StyledShown<S>(t: string, content: string, style: string, rest: string, vars: Bindings, st: Styling<S>)
    requires IsPlainText(t) && ']' !in content && ')' !in style
    ensures Shown(t + ("[" + content + "](" + style + ")" + rest), vars, st)
         == Substitute(t, vars) + (st.paint(st.parse(style), Shown(content, vars, st)) + Shown(rest, vars, st))
  {
    CompilePreservesMeaning(t + ("[" + content + "](" + style + ")" + rest), vars, st);
    CompilePreservesMeaning(content, vars, st);
    CompilePreservesMeaning(rest, vars, st);
    FormatSplit(t, Styled(content, style), rest, vars, st);
  }

  /** After any text, `(inner)` shows with its references replaced when one of them has a value that is not empty, and
      otherwise shows nothing. */
  lemma ConditionalShown<S>(t: string, inner: string, rest: string, vars: Bindings, st: Styling<S>)
    requires IsPlainText(t) && ')' !in inner
    ensures (exists name :: name in VarNames(inner) && NonEmpty(vars, name)) ==>
              Shown(t + ("(" + inner + ")" + rest), vars, st)
                == Substitute(t, vars) + (Substitute(inner, vars) + Shown(rest, vars, st))
    ensures (forall name | name in VarNames(inner) :: !NonEmpty(vars, name)) ==>
              Shown(t + ("(" + inner + ")" + rest), vars, st) == Substitute(t, vars) + Shown(rest, vars, st)
  {
    var format := t + ("(" + inner + ")" + rest);
    CompilePreservesMeaning(format, vars, st);
    CompilePreservesMeaning(rest, vars, st);
    PlainPrints(inner);
    FormatSplit(t, Conditional(Plain(inner)), rest, vars, st);
    assert "" + RenderFormat(rest, vars, st) == RenderFormat(rest, vars, st);
  }

  // ---- what a format references ----------------------------------------------------------------

  /** The references of a compiled format. */
  function Refs<S>(format: string, st: Styling<S>): seq<string> { VarRefs(CompileSegments(format, st)) }

  lemma {:induction false} RefsConcat<S>(a: seq<Compiled<S>>, b: seq<Compiled<S>>)
    ensures VarRefs(a + b) == VarRefs(a) + VarRefs(b)
  {
    if a == [] {
      assert a + b == b;
    } else {
      assert (a + b)[1..] == a[1..] + b;
      RefsConcat(a[1..], b);
    }
  }

  lemma RefsSplit<S>(t: string, segment: Segment, rest: string, st: Styling<S>)
    requires IsPlainText(t) && WellFormedMarkup(segment)
    ensures Refs(t + (Print(segment) + rest), st)
         == VarNames(t) + (SegmentRefs(CompileSegment(segment, st)) + Refs(rest, st))
  {
    PlainIsInert(t, Print(segment) + rest);
    PrintedMarkup(segment, rest);
    ParseSplit(t, Print(segment) + rest);
    CompileConcat(Plain(t), [segment] + Parse(rest), st);
    CompileConcat([segment], Parse(rest), st);
    CompileOne(segment, st);
    EvalPlain(t, [], st);
    RefsConcat(CompileList(Plain(t), st), CompileList([segment] + Parse(rest), st));
    RefsConcat(CompileList([segment], st), CompileList(Parse(rest), st));
    EvalOne(CompileSegment(segment, st), [], st);
  }

  /** The references of a format are those of its text, then those inside its first markup, then those of the rest. */
  lemma RefsInOrder<S>(t: string, content: string, style: string, inner: string, rest: string, st: Styling<S>)
    requires IsPlainText(t) && ']' !in content && ')' !in style && ')' !in inner
    ensures Refs(t, st) == VarNames(t)
    ensures Refs(t + ("[" + content + "](" + style + ")" + rest), st)
         == VarNames(t) + (Refs(content, st) + Refs(rest, st))
    ensures Refs(t + ("(" + inner + ")" + rest), st) == VarNames(t) + (VarNames(inner) + Refs(rest, st))
  {
    RefsSplit(t, Styled(content, style), rest, st);
    PlainPrints(inner);
    RefsSplit(t, Conditional(Plain(inner)), rest, st);
    EvalPlain(inner, [], st);
    PlainIsInert(t, "");
    ParseInert(t);
    EvalPlain(t, [], st);
  }

  // ---- the shape of compiled trees -------------------------------------------------------------

  /** At most one text, and nothing else. */
  ghost predicate AtMostOneText<S>(cs: seq<Compiled<S>>) { |cs| <= 1 && forall c | c in cs :: c.CompiledText? }

  /** Conditionals hold at most one text, and the content of a styled piece holds no styled piece. */
  ghost predicate ShapedSegment<S>(c: Compiled<S>, insideStyled: bool)
    decreases c, 1
  {
    match c
    case CompiledText(_) => true
    case CompiledStyled(content, _) => !insideStyled && ShapedList(content, true)
    case CompiledConditional(inner) => AtMostOneText(inner)
  }

  ghost predicate ShapedList<S>(cs: seq<Compiled<S>>, insideStyled: bool)
    decreases cs, 0
  {
    forall c | c in cs :: ShapedSegment(c, insideStyled)
  }

  lemma {:induction false} CompiledShape<S>(format: string, st: Styling<S>, insideStyled: bool)
    requires insideStyled ==> ']' !in format
    ensures ShapedList(CompileSegments(format, st), insideStyled)
    decreases |format|
  {
    var n := TextLength(format);
    var plain := Plain(format[..n]);
    PlainShape(format[..n], st, insideStyled);
    if n == |format| {
      assert Parse(format) == plain;
    } else {
      var m := MarkupAt(format[n..]).value;
      MarkupPrints(format[n..]);
      if insideStyled { RestHasNoBracket(format, n); }
      CompiledShape(m.rest, st, insideStyled);
      CompileConcat(plain, [m.segment] + Parse(m.rest), st);
      CompileConcat([m.segment], Parse(m.rest), st);
      match m.segment {
        case Styled(content, style) => CompiledShape(content, st, true);
        case Conditional(inner) =>
          var t: string :| inner == Plain(t) && ')' !in t;
          PlainShape(t, st, insideStyled);
      }
      CompileOne(m.segment, st);
    }
  }

  lemma PlainShape<S>(t: string, st: Styling<S>, insideStyled: bool)
    ensures AtMostOneText(CompileList(Plain(t), st)) && ShapedList(CompileList(Plain(t), st), insideStyled)
  {
    if t != "" {
      CompileOne(Text(t), st);
    }
  }

  lemma RestHasNoBracket(format: string, n: nat)
    requires n < |format| && ']' !in format && MarkupAt(format[n..]).Some?
    ensures var m := MarkupAt(format[n..]).value; ']' !in m.rest && !m.segment.Styled?
  {
    SeqSplit(format, n);
    NotInParts(']', format[..n], format[n..]);
    MarkupHasNoBracket(format[n..]);
  }

  lemma MarkupHasNoBracket(s: string)
    requires MarkupAt(s).Some? && ']' !in s
    ensures var m := MarkupAt(s).value; ']' !in m.rest && !m.segment.Styled?
  {
    MarkupPrints(s);
    var m := MarkupAt(s).value;
    NotInParts(']', Print(m.segment), m.rest);
    StyledHasBracket(m.segment);
  }

  lemma NotInParts(c: char, a: string, b: string)
    requires c !in a + b
    ensures c !in a && c !in b
  {
  }

  lemma StyledHasBracket(segment: Segment)
    ensures segment.Styled? ==> ']' in Print(segment)
  {
    if segment.Styled? {
      assert Print(segment)[|segment.content| + 1] == ']';
    }
  }

  // ---- tokens of the prompt --------------------------------------------------------------------

  /** A display token: its symbol, its label and its format, and the same with the format compiled. */
  datatype TokenConfig = TokenConfig(symbol: string, caption: string, format: string) {
    function Compile<S>(st: Styling<S>): CompiledTokenConfig<S> {
      CompiledTokenConfig(symbol, caption, CompileSegments(format, st))
    }
  }

  datatype CompiledTokenConfig<S> = CompiledTokenConfig(symbol: string, caption: string, segments: seq<Compiled<S>>)

  function TokenBindings(symbol: string, caption: string, prIds: Option<string>): Bindings {
    [("symbol", symbol), ("label", caption)] + if prIds.Some? then [("pr_ids", prIds.value)] else []
  }

  function RenderToken<S>(token: CompiledTokenConfig<S>, prIds: Option<string>, st: Styling<S>): string {
    EvalSegments(token.segments, TokenBindings(token.symbol, token.caption, prIds), st)
  }

  /** The prompt shows what its format says, although the format was only read when the configuration was loaded. */
  lemma RenderTokenReadsFormat<S>(token: TokenConfig, prIds: Option<string>, st: Styling<S>)
    ensures RenderToken(token.Compile(st), prIds, st)
         == RenderFormat(token.format, TokenBindings(token.symbol, token.caption, prIds), st)
  {
    CompilePreservesMeaning(token.format, TokenBindings(token.symbol, token.caption, prIds), st);
  }

  /** The error token has a message in place of a label. */
  datatype ErrorConfig = ErrorConfig(symbol: string, format: string) {
    function Compile<S>(st: Styling<S>): CompiledErrorConfig<S> {
      CompiledErrorConfig(symbol, CompileSegments(format, st))
    }
  }

  datatype CompiledErrorConfig<S> = CompiledErrorConfig(symbol: string, segments: seq<Compiled<S>>)

  function ErrorBindings(symbol: string, message: string): Bindings { [("symbol", symbol), ("message", message)] }

  function RenderErrorToken<S>(config: CompiledErrorConfig<S>, message: string, st: Styling<S>): string {
    EvalSegments(config.segments, ErrorBindings(config.symbol, message), st)
  }

  lemma RenderErrorReadsFormat<S>(config: ErrorConfig, message: string, st: Styling<S>)
    ensures RenderErrorToken(config.Compile(st), message, st)
         == RenderFormat(config.format, ErrorBindings(config.symbol, message), st)
  {
    CompilePreservesMeaning(config.format, ErrorBindings(config.symbol, message), st);
  }

  // ---- the shipped formats ---------------------------------------------------------------------

  predicate IsName(name: string) {
    name != "" && forall c | c in name :: '0' <= c <= '9' || 'A' <= c <= 'Z' || 'a' <= c <= 'z' || c == '_'
  }

  /** A space and a reference at the end. */
  lemma TailShown(name: string, vars: Bindings, k: nat)
    requires IsName(name) && k < |vars| && vars[k].0 == name && forall i | 0 <= i < k :: vars[i].0 != name
    ensures Substitute(" " + ['$'] + name + "", vars) == " " + vars[k].1
    ensures VarNames(" " + ['$'] + name + "") == [name]
    ensures NonEmpty(vars, name) <==> vars[k].1 != ""
  {
    ReferenceReplaced(" ", name, "", vars);
    LiteralCopied("", "", vars);
    FirstBinding(vars, k, name);
    assert " " + vars[k].1 + "" == " " + vars[k].1 && [name] + [] == [name];
  }

  lemma HeadShown(name: string, rest: string, vars: Bindings)
    requires IsName(name) && vars != [] && vars[0].0 == name && rest != "" && rest[0] == ' '
    ensures Substitute(['$'] + name + rest, vars) == vars[0].1 + Substitute(rest, vars)
  {
    ReferenceReplaced("", name, rest, vars);
    assert "" + ['$'] + name + rest == ['$'] + name + rest;
    assert "" + vars[0].1 == vars[0].1;
  }

  /** `$first $second`, shown with both names bound. */
  lemma TwoShown(first: string, second: string, vars: Bindings)
    requires |vars| >= 2 && vars[0].0 == first != second == vars[1].0 && IsName(first) && IsName(second)
    ensures Substitute(PairFormat(first, second), vars) == vars[0].1 + " " + vars[1].1
  {
    TailShown(second, vars, 1);
    HeadShown(first, " " + ['$'] + second + "", vars);
    SeqAssoc(vars[0].1, " ", vars[1].1);
  }

  /** The format of every status as it is shipped, and the formats of the other two texts, with the names of their
      variables left open. */
  function StatusFormat(first: string, second: string, third: string): string {
    ['$'] + first + (" " + ['$'] + second + "") + ("(" + (" " + ['$'] + third + "") + ")" + "")
  }

  function PairFormat(first: string, second: string): string { ['$'] + first + (" " + ['$'] + second + "") }

  lemma ShippedFormats()
    ensures StatusFormat("symbol", "label", "pr_ids") == "$symbol $label( $pr_ids)"
    ensures PairFormat("symbol", "label") == "$symbol $label" && PairFormat("symbol", "message") == "$symbol $message"
  {
  }

  lemma NamesArePlain(first: string, second: string, third: string)
    requires IsName(first) && IsName(second) && IsName(third)
    ensures IsPlainText(PairFormat(first, second)) && ')' !in " " + ['$'] + third + ""
  {
  }

  lemma StatusShown<S>(first: string, second: string, third: string, vars: Bindings, st: Styling<S>)
    requires |vars| == 3 && IsName(first) && IsName(second) && IsName(third)
    requires vars[0].0 == first && vars[1].0 == second && vars[2].0 == third
    requires first != second && first != third && second != third
    ensures Shown(StatusFormat(first, second, third), vars, st)
         == vars[0].1 + " " + vars[1].1 + if vars[2].1 == "" then "" else " " + vars[2].1
  {
    NamesArePlain(first, second, third);
    TwoShown(first, second, vars);
    TailShown(third, vars, 2);
    ConditionalShown(PairFormat(first, second), " " + ['$'] + third + "", "", vars, st);
    TextShown("", vars, st);
    LiteralCopied("", "", vars);
  }

  lemma PairShown<S>(first: string, second: string, vars: Bindings, st: Styling<S>)
    requires |vars| >= 2 && vars[0].0 == first != second == vars[1].0 && IsName(first) && IsName(second)
    ensures Shown(PairFormat(first, second), vars, st) == vars[0].1 + " " + vars[1].1
  {
    NamesArePlain(first, second, first);
    TwoShown(first, second, vars);
    TextShown(PairFormat(first, second), vars, st);
  }

  /** A status with the shipped format shows its symbol, its label and, when there are any, its numbers. */
  lemma ShippedStatus<S>(token: TokenConfig, prIds: string, st: Styling<S>)
    requires token.format == StatusFormat("symbol", "label", "pr_ids")
    ensures RenderToken(token.Compile(st), Some(prIds), st)
         == token.symbol + " " + token.caption + if prIds == "" then "" else " " + prIds
  {
    var vars := TokenBindings(token.symbol, token.caption, Some(prIds));
    StatusShown("symbol", "label", "pr_ids", vars, st);
  }

  /** The shipped prompt without a pull request, and that of an error. */
  lemma ShippedOthers<S>(token: TokenConfig, config: ErrorConfig, message: string, st: Styling<S>)
    requires token.format == PairFormat("symbol", "label") && config.format == PairFormat("symbol", "message")
    ensures RenderToken(token.Compile(st), None, st) == token.symbol + " " + token.caption
    ensures RenderErrorToken(config.Compile(st), message, st) == config.symbol + " " + message
  {
    PairShown("symbol", "label", TokenBindings(token.symbol, token.caption, None), st);
    PairShown("symbol", "message", ErrorBindings(config.symbol, message), st);
  }
}
