/** What the prompt binary lets through to the terminal (src_prompt/main.rs, `sanitize_output`). */
module PromptOutput {
  import opened Sequences

  const ESC: char := '\U{1b}'

  /** C0 controls, DEL and C1 controls. */
  predicate IsDisallowedControl(c: char) { c <= '\U{1f}' || '\U{7f}' <= c <= '\U{9f}' }

  /** The bytes that end a control sequence (section 5.4 of ECMA-48). */
  predicate IsFinal(c: char) { '\U{40}' <= c <= '\U{7e}' }

  /** The number of characters up to and including the first final one; the whole string when there is none. */
  function SequenceLength(s: string): (n: nat)
    ensures n <= |s|
    ensures forall k | 0 <= k < n - 1 :: !IsFinal(s[k])
    ensures n < |s| ==> n > 0 && IsFinal(s[n - 1])
  {
    if s == "" then 0 else if IsFinal(s[0]) then 1 else 1 + SequenceLength(s[1..])
  }

  function Sanitize(s: string): string
    decreases |s|
  {
    if s == "" then ""
    else if s[0] == ESC then
      if |s| > 1 && s[1] == '[' then
        var n := 2 + SequenceLength(s[2..]);
        (if n > 2 && s[n - 1] == 'm' then s[..n] else "") + Sanitize(s[n..])
      else Sanitize(s[1..])
    else if IsDisallowedControl(s[0]) then Sanitize(s[1..])
    else [s[0]] + Sanitize(s[1..])
  }

  method SanitizeOutput(input: string) returns (out: string)
    ensures out == Sanitize(input)
  {
    out := "";
    var i := 0;
    assert input[0..] == input;
    while i < |input|
      invariant i <= |input|
      invariant out + Sanitize(input[i..]) == Sanitize(input)
    {
      var c := input[i];
      assert input[i..][1..] == input[i + 1..];
      i := i + 1;
      if c == ESC {
        if i < |input| && input[i] == '[' {
          var kept, next := ReadSequence(input, i - 1);
          SequenceRead(input, i - 1, next);
          SeqAssoc(out, kept, Sanitize(input[next..]));
          out, i := out + kept, next;
        }
      } else if !IsDisallowedControl(c) {
        SeqAssoc(out, [c], Sanitize(input[i..]));
        out := out + [c];
      }
    }
  }

  /** The control sequence at `start` stops at `next`: after its final byte, or at the end of the input. */
  predicate EndsSequence(input: string, start: nat, next: nat) {
    && start + 2 <= next <= |input|
    && (forall k | start + 2 <= k < next - 1 :: !IsFinal(input[k]))
    && (next < |input| ==> next > start + 2 && IsFinal(input[next - 1]))
  }

  function KeptPart(input: string, start: nat, next: nat): string
    requires start + 2 <= next <= |input|
  {
    if next > start + 2 && input[next - 1] == 'm' then input[start..next] else ""
  }

  /** Consumes the control sequence whose ESC is at `start`; only one that ends in `m` is kept. */
  method ReadSequence(input: string, start: nat) returns (kept: string, next: nat)
    requires start + 1 < |input| && input[start] == ESC && input[start + 1] == '['
    ensures EndsSequence(input, start, next)
    ensures kept == KeptPart(input, start, next)
  {
    var seqn := [ESC, '['];
    assert seqn == input[start..start + 2];
    var terminatedWithM := false;
    next := start + 2;
    while next < |input|
      invariant start + 2 <= next <= |input| && seqn == input[start..next]
      invariant forall k | start + 2 <= k < next :: !IsFinal(input[k])
      invariant !terminatedWithM
      decreases |input| - next
    {
      var sc := input[next];
      OneMore(input, start, next);
      seqn, next := seqn + [sc], next + 1;
      if IsFinal(sc) {
        terminatedWithM := sc == 'm';
        break;
      }
    }
    kept := if terminatedWithM then seqn else "";
  }

  lemma OneMore(input: string, start: nat, next: nat)
    requires start <= next < |input|
    ensures input[start..next] + [input[next]] == input[start..next + 1]
  {
  }

  lemma SequenceEnds(input: string, start: nat, next: nat)
    requires EndsSequence(input, start, next)
    ensures next == start + 2 + SequenceLength(input[start + 2..])
    ensures input[start..][next - start..] == input[next..] && input[start..][..next - start] == input[start..next]
  {
    var s, length := input[start + 2..], next - start - 2;
    forall k | 0 <= k < length - 1 ensures !IsFinal(s[k]) {
      assert s[k] == input[start + 2 + k];
    }
    assert length > 0 ==> s[length - 1] == input[next - 1];
  }

  lemma SequenceFirst(s: string, n: nat)
    requires |s| > 1 && s[0] == ESC && s[1] == '[' && n == 2 + SequenceLength(s[2..])
    ensures Sanitize(s) == KeptPart(s, 0, n) + Sanitize(s[n..])
  {
    assert s[0..n] == s[..n];
  }

  lemma SequenceRead(input: string, start: nat, next: nat)
    requires EndsSequence(input, start, next) && input[start] == ESC && input[start + 1] == '['
    ensures Sanitize(input[start..]) == KeptPart(input, start, next) + Sanitize(input[next..])
  {
    SequenceEnds(input, start, next);
    var s, n := input[start..], next - start;
    assert s[2..] == input[start + 2..];
    SequenceFirst(s, n);
    assert s[0..n] == input[start..next];
  }

  // ---- clean output ----------------------------------------------------------------------------

  /** One allowed character, or ESC [ followed by characters that are not final and an `m`. */
  predicate IsPiece(p: string) {
    || (|p| == 1 && p[0] != ESC && !IsDisallowedControl(p[0]))
    || (|p| > 2 && p[0] == ESC && p[1] == '[' && p[|p| - 1] == 'm' && forall k | 2 <= k < |p| - 1 :: !IsFinal(p[k]))
  }

  predicate AllPieces(pieces: seq<string>) { forall p | p in pieces :: IsPiece(p) }

  /** A concatenation of allowed characters and colour sequences. */
  ghost predicate Clean(s: string) { exists pieces: seq<string> :: AllPieces(pieces) && Flatten(pieces) == s }

  lemma SequencePasses(p: string, rest: string)
    requires IsPiece(p) && |p| > 1
    ensures Sanitize(p + rest) == p + Sanitize(rest)
  {
    var s := p + rest;
    SequenceRead(s, 0, |p|);
    assert s[0..] == s && s[0..|p|] == p && s[|p|..] == rest;
  }

  /** A piece passes through, whatever follows it. */
  lemma PiecePasses(p: string, rest: string)
    requires IsPiece(p)
    ensures Sanitize(p + rest) == p + Sanitize(rest)
  {
    if |p| == 1 {
      var s := p + rest;
      assert s[1..] == rest && p == [s[0]];
    } else {
      SequencePasses(p, rest);
    }
  }

  lemma PieceThen(p: string, clean: string, rest: string)
    requires IsPiece(p) && Sanitize(clean + rest) == clean + Sanitize(rest)
    ensures Sanitize(p + clean + rest) == p + clean + Sanitize(rest)
  {
    SeqAssoc(p, clean, rest);
    SeqAssoc(p, clean, Sanitize(rest));
    PiecePasses(p, clean + rest);
  }

  lemma {:induction false} PiecesPass(pieces: seq<string>, rest: string)
    requires AllPieces(pieces)
    ensures Sanitize(Flatten(pieces) + rest) == Flatten(pieces) + Sanitize(rest)
  {
    if pieces == [] {
      assert "" + rest == rest;
    } else {
      PiecesPass(pieces[1..], rest);
      PieceThen(pieces[0], Flatten(pieces[1..]), rest);
    }
  }

  /** What is kept of the input, in order: allowed characters and whole sequences. */
  function Kept(s: string): seq<string>
    decreases |s|
  {
    if s == "" then []
    else if s[0] == ESC && |s| > 1 && s[1] == '[' then
      var n := 2 + SequenceLength(s[2..]);
      (if n > 2 && s[n - 1] == 'm' then [s[..n]] else []) + Kept(s[n..])
    else (if s[0] == ESC || IsDisallowedControl(s[0]) then [] else [[s[0]]]) + Kept(s[1..])
  }

  /** The output splits into pieces. */
  lemma {:induction false} KeptPieces(s: string)
    ensures AllPieces(Kept(s)) && Flatten(Kept(s)) == Sanitize(s)
    decreases |s|
  {
    if s != "" {
      var n := if s[0] == ESC && |s| > 1 && s[1] == '[' then 2 + SequenceLength(s[2..]) else 1;
      KeptPieces(s[n..]);
      if n > 2 && s[n - 1] == 'm' { KeptIsPiece(s, n); }
      FlattenOne(s[..n]);
      FlattenOne([s[0]]);
      FlattenConcat([s[..n]], Kept(s[n..]));
      FlattenConcat([[s[0]]], Kept(s[n..]));
      assert [] + Kept(s[n..]) == Kept(s[n..]);
    }
  }

  lemma KeptIsPiece(s: string, n: nat)
    requires |s| > 1 && s[0] == ESC && s[1] == '[' && n == 2 + SequenceLength(s[2..]) && n > 2 && s[n - 1] == 'm'
    ensures IsPiece(s[..n])
  {
    forall k | 2 <= k < n - 1 ensures !IsFinal(s[..n][k]) {
      assert !IsFinal(s[2..][k - 2]);
    }
  }

  /** Exactly the clean strings come out unchanged. */
  lemma UnchangedIffClean(s: string)
    ensures Sanitize(s) == s <==> Clean(s)
  {
    if Clean(s) {
      var pieces: seq<string> :| AllPieces(pieces) && Flatten(pieces) == s;
      PiecesPass(pieces, "");
      assert s + "" == s;
    } else {
      KeptPieces(s);
    }
  }

  /** The output is clean, so sanitizing twice is sanitizing once. */
  lemma SanitizeIdempotent(s: string)
    ensures Clean(Sanitize(s)) && Sanitize(Sanitize(s)) == Sanitize(s)
  {
    KeptPieces(s);
    UnchangedIffClean(Sanitize(s));
  }

  /** A clean beginning, a colour sequence for instance, passes through and does not affect what follows. */
  lemma CleanPrefixPasses(s: string, rest: string)
    requires Clean(s)
    ensures Sanitize(s + rest) == s + Sanitize(rest)
  {
    var pieces: seq<string> :| AllPieces(pieces) && Flatten(pieces) == s;
    PiecesPass(pieces, rest);
  }

  // ---- what the documentation promises ---------------------------------------------------------

  /** A colour sequence in the form of section 5.4 of ECMA-48: parameter bytes, then intermediate bytes, then `m`. */
  predicate IsColour(p: string) {
    && IsPiece(p) && |p| > 1
    && exists n: nat :: 2 <= n < |p| && AllWithin(p[2..n], '\U{30}', '\U{3f}')
                        && AllWithin(p[n..|p| - 1], '\U{20}', '\U{2f}')
  }

  predicate AllWithin(s: string, low: char, high: char) { forall c | c in s :: low <= c <= high }

  /** An allowed character or a colour sequence. */
  predicate IsPromised(p: string) { IsPiece(p) && (|p| > 1 ==> IsColour(p)) }

  predicate AllPromised(pieces: seq<string>) { forall p | p in pieces :: IsPromised(p) }

  /** Nothing but allowed characters and colour sequences. */
  ghost predicate AsPromised(s: string) {
    exists pieces: seq<string> :: AllPromised(pieces) && Flatten(pieces) == s
  }

  /** A piece ends where its first character says, so it can be told apart from what follows. */
  lemma SamePiece(p: string, q: string, rest: string, rest': string)
    requires IsPiece(p) && IsPiece(q) && p + rest == q + rest'
    ensures p == q && rest == rest'
  {
    var s := p + rest;
    assert forall k | 0 <= k < |p| :: s[k] == p[k];
    assert forall k | 0 <= k < |q| :: s[k] == q[k];
    PieceEnd(p, q, s);
    PieceEnd(q, p, s);
    assert p == s[..|p|] && q == s[..|q|] && rest == s[|p|..] && rest' == s[|q|..];
  }

  lemma PieceEnd(p: string, q: string, s: string)
    requires IsPiece(p) && IsPiece(q) && |p| <= |s| && |q| <= |s|
    requires forall k | 0 <= k < |p| :: s[k] == p[k]
    requires forall k | 0 <= k < |q| :: s[k] == q[k]
    ensures |p| <= |q|
  {
    assert s[0] == p[0] == q[0];
    if |q| > 1 {
      assert IsFinal(s[|q| - 1]);
    }
  }

  /** A string splits into pieces in one way only. */
  lemma {:induction false} SamePieces(a: seq<string>, b: seq<string>)
    requires AllPieces(a) && AllPieces(b) && Flatten(a) == Flatten(b)
    ensures a == b
  {
    if a != [] && b != [] {
      SamePiece(a[0], b[0], Flatten(a[1..]), Flatten(b[1..]));
      SamePieces(a[1..], b[1..]);
      SeqHead(a);
      SeqHead(b);
    } else {
      assert a != [] ==> IsPiece(a[0]);
      assert b != [] ==> IsPiece(b[0]);
    }
  }

  /** The documentation promises that only colour sequences survive among the control characters. That is so exactly
      when every sequence that is kept, from its ESC [ to the first final byte, is one: its inside is not looked at. */
  lemma PromisedIff(s: string)
    ensures AsPromised(Sanitize(s)) <==> forall p | p in Kept(s) && |p| > 1 :: IsColour(p)
  {
    KeptPieces(s);
    assert AllPromised(Kept(s)) <==> forall p | p in Kept(s) && |p| > 1 :: IsColour(p);
    if AsPromised(Sanitize(s)) {
      var pieces: seq<string> :| AllPromised(pieces) && Flatten(pieces) == Sanitize(s);
      assert AllPieces(pieces);
      SamePieces(pieces, Kept(s));
    }
  }

  /** A line break inside a sequence gets through. */
  lemma LineBreakKept()
    ensures var s := [ESC, '[', '\n', 'm']; Sanitize(s) == s && !AsPromised(Sanitize(s))
  {
    var s := [ESC, '[', '\n', 'm'];
    assert s[2..] == ['\n', 'm'] && s[2..][1..] == ['m'] && s[4..] == "" && s[..4] == s;
    assert SequenceLength(['m']) == 1 && SequenceLength(s[2..]) == 2;
    assert Kept(s) == [s];
    assert !IsColour(s) by {
      forall n: nat | 2 <= n < |s| ensures '\n' in s[2..n] || '\n' in s[n..|s| - 1] {
        assert if n > 2 then s[2..n][0] == '\n' else s[n..|s| - 1][0] == '\n';
      }
    }
    PromisedIff(s);
  }

  // ---- what is removed -------------------------------------------------------------------------

  /** The character ends a control sequence. */
  predicate Ends(c: char) { '@' <= c <= '~' }

  /** Character by character: a printable one is copied; any other control character is dropped, and so is an ESC that
      no `[` follows, alone; a sequence is kept whole when it ends in `m`, and otherwise dropped whole, to the end of
      the input if it does not end. */
  lemma SanitizeByCharacter(c: char, body: string, last: char, rest: string)
    requires forall k | 0 <= k < |body| :: !Ends(body[k])
    ensures c > '\U{1f}' && !('\U{7f}' <= c <= '\U{9f}') ==> Sanitize([c] + rest) == [c] + Sanitize(rest)
    ensures (c <= '\U{1f}' && c != '\U{1b}') || '\U{7f}' <= c <= '\U{9f}' ==> Sanitize([c] + rest) == Sanitize(rest)
    ensures rest == "" || rest[0] != '[' ==> Sanitize(['\U{1b}'] + rest) == Sanitize(rest)
    ensures last == 'm' ==>
              Sanitize("\U{1b}[" + body + [last] + rest) == "\U{1b}[" + body + [last] + Sanitize(rest)
    ensures Ends(last) && last != 'm' ==> Sanitize("\U{1b}[" + body + [last] + rest) == Sanitize(rest)
    ensures Sanitize("\U{1b}[" + body) == ""
  {
    assert ([c] + rest)[1..] == rest && (['\U{1b}'] + rest)[1..] == rest;
    Terminated(body, last, rest);
    Unterminated(body);
  }

  lemma {:induction false} LengthIs(body: string, rest: string)
    requires forall k | 0 <= k < |body| :: !IsFinal(body[k])
    ensures rest != "" && IsFinal(rest[0]) ==> SequenceLength(body + rest) == |body| + 1
    ensures rest == "" ==> SequenceLength(body + rest) == |body|
  {
    if body == "" {
      assert body + rest == rest;
    } else {
      assert (body + rest)[1..] == body[1..] + rest;
      LengthIs(body[1..], rest);
    }
  }

  lemma Terminated(body: string, last: char, rest: string)
    requires forall k | 0 <= k < |body| :: !Ends(body[k])
    ensures last == 'm' ==>
              Sanitize("\U{1b}[" + body + [last] + rest) == "\U{1b}[" + body + [last] + Sanitize(rest)
    ensures Ends(last) && last != 'm' ==> Sanitize("\U{1b}[" + body + [last] + rest) == Sanitize(rest)
  {
    var s, n := "\U{1b}[" + body + [last] + rest, 3 + |body|;
    assert s[2..] == body + ([last] + rest);
    LengthIs(body, [last] + rest);
    assert s[n..] == rest && s[..n] == "\U{1b}[" + body + [last];
    assert "" + Sanitize(rest) == Sanitize(rest);
  }

  lemma Unterminated(body: string)
    requires forall k | 0 <= k < |body| :: !Ends(body[k])
    ensures Sanitize("\U{1b}[" + body) == ""
  {
    var s := "\U{1b}[" + body;
    assert s[2..] == body + "";
    LengthIs(body, "");
    assert s[2 + |body|..] == "";
    assert |body| > 0 ==> s[2 + |body| - 1] == body[|body| - 1];
  }

  // ---- nothing is added ------------------------------------------------------------------------

  /** `a` is `b` with some characters left out. */
  predicate IsSubsequence(a: string, b: string) {
    a == "" || (b != "" && ((a[0] == b[0] && IsSubsequence(a[1..], b[1..])) || IsSubsequence(a, b[1..])))
  }

  lemma {:induction false} KeepPrefix(p: string, a: string, b: string)
    requires IsSubsequence(a, b)
    ensures IsSubsequence(p + a, p + b)
  {
    if p == "" {
      assert p + a == a && p + b == b;
    } else {
      KeepPrefix(p[1..], a, b);
      assert (p + a)[1..] == p[1..] + a && (p + b)[1..] == p[1..] + b;
    }
  }

  lemma {:induction false} SkipPrefix(p: string, a: string, b: string)
    requires IsSubsequence(a, b)
    ensures IsSubsequence(a, p + b)
  {
    if p == "" {
      assert p + b == b;
    } else {
      SkipPrefix(p[1..], a, b);
      assert (p + b)[1..] == p[1..] + b;
    }
  }

  lemma {:induction false} OutputIsSubsequence(s: string)
    ensures IsSubsequence(Sanitize(s), s)
    decreases |s|
  {
    if s != "" {
      var n := if s[0] == ESC && |s| > 1 && s[1] == '[' then 2 + SequenceLength(s[2..]) else 1;
      OutputIsSubsequence(s[n..]);
      assert s == s[..n] + s[n..];
      KeepPrefix(s[..n], Sanitize(s[n..]), s[n..]);
      SkipPrefix(s[..n], Sanitize(s[n..]), s[n..]);
      assert n == 1 ==> s[..n] == [s[0]];
      assert "" + Sanitize(s[n..]) == Sanitize(s[n..]);
    }
  }

  /** A string without ESC loses its control characters and nothing else. */
  function Printable(s: string): string {
    if s == "" then "" else (if IsDisallowedControl(s[0]) then "" else [s[0]]) + Printable(s[1..])
  }

  lemma {:induction false} WithoutEscape(s: string)
    requires ESC !in s
    ensures Sanitize(s) == Printable(s)
  {
    if s != "" {
      assert s[0] in s;
      WithoutEscape(s[1..]);
    }
  }
}
