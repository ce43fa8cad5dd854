/** The two scanners for `$name` references (src/contexts/evaluation/domain/display_config/render.rs). The source
    scans bytes; every byte it looks for is ASCII, so scanning characters gives the same result. */
module Variables {
  import opened Numbers
  import opened Sequences

  type Bindings = seq<(string, string)>

  /** The value of the first binding of `name`. */
  function Value(vars: Bindings, name: string): Option<string> {
    if vars == [] then None
    else if vars[0].0 == name then Some(vars[0].1)
    else Value(vars[1..], name)
  }

  predicate NonEmpty(vars: Bindings, name: string) { Value(vars, name).Some? && Value(vars, name).value != "" }

  predicate IsNameChar(c: char) { '0' <= c <= '9' || 'A' <= c <= 'Z' || 'a' <= c <= 'z' || c == '_' }

  /** The number of name characters at the front. */
  function NameLength(s: string): (n: nat)
    ensures n <= |s|
    ensures forall k | 0 <= k < n :: IsNameChar(s[k])
    ensures n < |s| ==> !IsNameChar(s[n])
  {
    if s == "" || !IsNameChar(s[0]) then 0 else 1 + NameLength(s[1..])
  }

  // ---- the reference reading of a text ---------------------------------------------------------

  datatype Token = Literal(c: char) | Variable(name: string)

  /** A `$` followed by a name is a variable, the longest there is; every other character stands for itself. */
  function Tokens(s: string): seq<Token>
    decreases |s|
  {
    if s == "" then []
    else if s[0] == '$' && NameLength(s[1..]) > 0 then
      [Variable(s[1..1 + NameLength(s[1..])])] + Tokens(s[1 + NameLength(s[1..])..])
    else [Literal(s[0])] + Tokens(s[1..])
  }

  function Fill(tokens: seq<Token>, vars: Bindings): string {
    if tokens == [] then ""
    else
      (match tokens[0]
       case Literal(c) => [c]
       case Variable(name) => Written(vars, name))
      + Fill(tokens[1..], vars)
  }

  function Names(tokens: seq<Token>): seq<string> {
    if tokens == [] then []
    else (if tokens[0].Variable? then [tokens[0].name] else []) + Names(tokens[1..])
  }

  function Substitute(s: string, vars: Bindings): string { Fill(Tokens(s), vars) }

  function VarNames(s: string): seq<string> { Names(Tokens(s)) }

  /** Some variable the text references has a non-empty value. */
  predicate ShowsSomething(s: string, vars: Bindings) { exists name | name in VarNames(s) :: NonEmpty(vars, name) }

  // ---- the two scanners ------------------------------------------------------------------------

  method ExtractVarNames(s: string, out: seq<string>) returns (names: seq<string>)
    ensures names == out + VarNames(s)
  {
    names := out;
    var i := 0;
    assert s[0..] == s;
    while i < |s|
      invariant i <= |s|
      invariant names + VarNames(s[i..]) == out + VarNames(s)
    {
      var found, length := NextName(s[i..]);
      SuffixDrop(s, i, length);
      SeqAssoc(names, found, VarNames(s[i + length..]));
      names, i := names + found, i + length;
    }
  }

  /** The body of that loop: the name referenced at the front, if any, and how far the scan moves. */
  method NextName(s: string) returns (found: seq<string>, length: nat)
    requires s != ""
    ensures 0 < length <= |s|
    ensures VarNames(s) == found + VarNames(s[length..])
  {
    found, length := [], 1;
    if s[0] == '$' {
      var end := 1 + NameLength(s[1..]);
      if end > 1 {
        VariableFirst(s, []);
        found := [s[1..end]];
      } else {
        LiteralFirst(s, []);
      }
      length := end;
    } else {
      LiteralFirst(s, []);
    }
  }

  method SubstituteVars(s: string, vars: Bindings) returns (result: string)
    ensures result == Substitute(s, vars)
  {
    result := "";
    var i := 0;
    assert s[0..] == s;
    while i < |s|
      invariant i <= |s|
      invariant result + Substitute(s[i..], vars) == Substitute(s, vars)
    {
      var piece, length := NextPiece(s[i..], vars);
      SuffixDrop(s, i, length);
      SeqAssoc(result, piece, Substitute(s[i + length..], vars));
      result, i := result + piece, i + length;
    }
  }

  /** The body of that loop: what is written for the front of the text, and how far the scan moves. */
  method NextPiece(s: string, vars: Bindings) returns (piece: string, length: nat)
    requires s != ""
    ensures 0 < length <= |s|
    ensures Substitute(s, vars) == piece + Substitute(s[length..], vars)
  {
    if s[0] == '$' {
      var end := 1 + NameLength(s[1..]);
      if end > 1 {
        VariableFirst(s, vars);
        var name := s[1..end];
        var val := Value(vars, name);
        piece := if val.Some? then val.value else ['$'] + name;
        length := end;
      } else {
        LiteralFirst(s, vars);
        piece, length := ['$'], 1;
      }
    } else {
      // The source copies the run of characters up to the next `$` at once.
      length := UntilDollar(s);
      SeqSplit(s, length);
      LiteralRun(s[..length], s[length..], vars);
      piece := s[..length];
    }
  }

  /** The number of characters before the first `$`. */
  function UntilDollar(s: string): (n: nat)
    ensures n <= |s| && (s != "" && s[0] != '$' ==> n > 0)
    ensures forall k | 0 <= k < n :: s[k] != '$'
  {
    if s == "" || s[0] == '$' then 0 else 1 + UntilDollar(s[1..])
  }

  function Written(vars: Bindings, name: string): string {
    if Value(vars, name).Some? then Value(vars, name).value else ['$'] + name
  }

  /** Either reading of a text that starts with a reference. */
  lemma VariableFirst(s: string, vars: Bindings)
    requires s != "" && s[0] == '$' && NameLength(s[1..]) > 0
    ensures var end := 1 + NameLength(s[1..]);
            && VarNames(s) == [s[1..end]] + VarNames(s[end..])
            && Substitute(s, vars) == Written(vars, s[1..end]) + Substitute(s[end..], vars)
  {
    var end := 1 + NameLength(s[1..]);
    TokenFirst(Variable(s[1..end]), Tokens(s[end..]), vars);
  }

  /** Either reading of any other text. */
  lemma LiteralFirst(s: string, vars: Bindings)
    requires s != "" && (s[0] == '$' ==> NameLength(s[1..]) == 0)
    ensures VarNames(s) == VarNames(s[1..]) && [] + VarNames(s[1..]) == VarNames(s[1..])
    ensures Substitute(s, vars) == [s[0]] + Substitute(s[1..], vars)
  {
    TokenFirst(Literal(s[0]), Tokens(s[1..]), vars);
  }

  lemma TokenFirst(token: Token, rest: seq<Token>, vars: Bindings)
    ensures Names([token] + rest) == (if token.Variable? then [token.name] else []) + Names(rest)
    ensures token.Literal? ==> Names([token] + rest) == Names(rest)
    ensures Fill([token] + rest, vars)
         == (if token.Variable? then Written(vars, token.name) else [token.c]) + Fill(rest, vars)
  {
    assert ([token] + rest)[1..] == rest;
  }

  lemma SuffixDrop(s: string, i: nat, n: nat)
    requires i + n <= |s|
    ensures s[i..][n..] == s[i + n..]
  {
  }

  lemma {:induction false} LiteralRun(run: string, rest: string, vars: Bindings)
    requires forall k | 0 <= k < |run| :: run[k] != '$'
    ensures Substitute(run + rest, vars) == run + Substitute(rest, vars) && VarNames(run + rest) == VarNames(rest)
  {
    if run == "" {
      assert run + rest == rest;
    } else {
      LiteralRun(run[1..], rest, vars);
      ConsRun(run, rest);
      LiteralFirst(run + rest, vars);
      SeqAssoc([run[0]], run[1..], Substitute(rest, vars));
    }
  }

  lemma ConsRun(run: string, rest: string)
    requires run != ""
    ensures run + rest != "" && (run + rest)[0] == run[0] && (run + rest)[1..] == run[1..] + rest
    ensures run == [run[0]] + run[1..]
  {
  }

  // ---- how the scanners agree ------------------------------------------------------------------

  /** Substitution reads no binding but those of the names the other scanner finds. */
  lemma SubstituteDependsOnNames(s: string, vars: Bindings, vars': Bindings)
    requires forall name | name in VarNames(s) :: Value(vars, name) == Value(vars', name)
    ensures Substitute(s, vars) == Substitute(s, vars')
  {
    FillDependsOnNames(Tokens(s), vars, vars');
  }

  lemma {:induction false} FillDependsOnNames(tokens: seq<Token>, vars: Bindings, vars': Bindings)
    requires forall name | name in Names(tokens) :: Value(vars, name) == Value(vars', name)
    ensures Fill(tokens, vars) == Fill(tokens, vars')
  {
    if tokens != [] {
      FillDependsOnNames(tokens[1..], vars, vars');
    }
  }

  /** The text the tokens were read from. */
  function PrintTokens(tokens: seq<Token>): string {
    if tokens == [] then ""
    else (if tokens[0].Variable? then ['$'] + tokens[0].name else [tokens[0].c]) + PrintTokens(tokens[1..])
  }

  lemma {:induction false} TokensPrint(s: string)
    ensures PrintTokens(Tokens(s)) == s
    decreases |s|
  {
    if s != "" {
      var end := 1 + if s[0] == '$' then NameLength(s[1..]) else 0;
      TokensPrint(s[end..]);
      SeqSplit(s, end);
      assert s[..end] == [s[0]] + s[1..end];
      PrintFirst(if end > 1 then Variable(s[1..end]) else Literal(s[0]), Tokens(s[end..]));
    }
  }

  lemma PrintFirst(token: Token, rest: seq<Token>)
    ensures PrintTokens([token] + rest)
         == (if token.Variable? then ['$'] + token.name else [token.c]) + PrintTokens(rest)
  {
    assert ([token] + rest)[1..] == rest;
  }

  lemma {:induction false} FillUnbound(tokens: seq<Token>, vars: Bindings)
    requires forall name | name in Names(tokens) :: Value(vars, name).None?
    ensures Fill(tokens, vars) == PrintTokens(tokens)
  {
    if tokens != [] {
      FillUnbound(tokens[1..], vars);
    }
  }

  /** A text none of whose names is bound is left as it is. */
  lemma UnboundUnchanged(s: string, vars: Bindings)
    requires forall name | name in VarNames(s) :: Value(vars, name).None?
    ensures Substitute(s, vars) == s
  {
    FillUnbound(Tokens(s), vars);
    TokensPrint(s);
  }

  /** A non-empty value of a referenced name shows in the result. */
  lemma {:induction false} ShownValueNotEmpty(tokens: seq<Token>, vars: Bindings, name: string)
    requires name in Names(tokens) && NonEmpty(vars, name)
    ensures Fill(tokens, vars) != ""
  {
    if tokens[0] != Variable(name) {
      ShownValueNotEmpty(tokens[1..], vars, name);
    }
  }

  // ---- what substitution does ------------------------------------------------------------------

  lemma {:induction false} NameLengthIs(name: string, rest: string)
    requires forall k | 0 <= k < |name| :: IsNameChar(name[k])
    requires rest == "" || !IsNameChar(rest[0])
    ensures NameLength(name + rest) == |name|
  {
    if name == "" {
      assert name + rest == rest;
    } else {
      assert (name + rest)[1..] == name[1..] + rest;
      NameLengthIs(name[1..], rest);
    }
  }

  lemma {:induction false} FirstBinding(vars: Bindings, k: nat, name: string)
    requires k < |vars| && vars[k].0 == name && forall i | 0 <= i < k :: vars[i].0 != name
    ensures Value(vars, name) == Some(vars[k].1)
  {
    if k > 0 { FirstBinding(vars[1..], k - 1, name); }
  }

  lemma {:induction false} NoBinding(vars: Bindings, name: string)
    requires forall i | 0 <= i < |vars| :: vars[i].0 != name
    ensures Value(vars, name) == None
  {
    if vars != [] { NoBinding(vars[1..], name); }
  }

  lemma ReferenceRead(name: string, rest: string, vars: Bindings)
    requires name != "" && forall k | 0 <= k < |name| :: IsNameChar(name[k])
    requires rest == "" || !IsNameChar(rest[0])
    ensures Substitute(['$'] + (name + rest), vars) == Written(vars, name) + Substitute(rest, vars)
    ensures VarNames(['$'] + (name + rest)) == [name] + VarNames(rest)
  {
    var s := ['$'] + (name + rest);
    NameLengthIs(name, rest);
    assert s[1..] == name + rest;
    assert s[1..1 + |name|] == name && s[1 + |name|..] == rest;
    VariableFirst(s, vars);
  }

  /** A reference is replaced by the value of its first binding, once, and stays when there is none; what surrounds it
      is read on its own. A name is the longest run of ASCII letters, digits and underscores. */
  lemma ReferenceReplaced(before: string, name: string, rest: string, vars: Bindings)
    requires '$' !in before && name != ""
    requires forall c | c in name :: '0' <= c <= '9' || 'A' <= c <= 'Z' || 'a' <= c <= 'z' || c == '_'
    requires rest != "" ==>
               !('0' <= rest[0] <= '9' || 'A' <= rest[0] <= 'Z' || 'a' <= rest[0] <= 'z' || rest[0] == '_')
    ensures forall k | 0 <= k < |vars| && vars[k].0 == name && (forall i | 0 <= i < k :: vars[i].0 != name) ::
              Substitute(before + ['$'] + name + rest, vars) == before + vars[k].1 + Substitute(rest, vars)
    ensures (forall i | 0 <= i < |vars| :: vars[i].0 != name) ==>
              Substitute(before + ['$'] + name + rest, vars) == before + ['$'] + name + Substitute(rest, vars)
    ensures VarNames(before + ['$'] + name + rest) == [name] + VarNames(rest)
  {
    assert before + ['$'] + name + rest == before + (['$'] + (name + rest));
    forall k | 0 <= k < |name| ensures IsNameChar(name[k]) {
      assert name[k] in name;
    }
    LiteralRun(before, ['$'] + (name + rest), vars);
    ReferenceRead(name, rest, vars);
    SeqAssoc(before, Written(vars, name), Substitute(rest, vars));
    forall k | 0 <= k < |vars| && vars[k].0 == name && (forall i | 0 <= i < k :: vars[i].0 != name)
      ensures Written(vars, name) == vars[k].1
    {
      FirstBinding(vars, k, name);
    }
    if forall i | 0 <= i < |vars| :: vars[i].0 != name {
      NoBinding(vars, name);
      assert before + (['$'] + name) == before + ['$'] + name;
    }
  }

  /** Text without `$`, and a `$` that starts no name, are copied. */
  lemma LiteralCopied(before: string, rest: string, vars: Bindings)
    requires '$' !in before
    ensures Substitute(before, vars) == before && VarNames(before) == []
    ensures (rest == "" || !IsNameChar(rest[0])) ==>
              Substitute(before + ['$'] + rest, vars) == before + ['$'] + Substitute(rest, vars)
  {
    LiteralRun(before, "", vars);
    assert before + "" == before && Substitute("", vars) == "";
    LiteralNames(before);
    if rest == "" || !IsNameChar(rest[0]) {
      var s := ['$'] + rest;
      assert before + ['$'] + rest == before + s && s[1..] == rest;
      LiteralRun(before, s, vars);
      LiteralFirst(s, vars);
      SeqAssoc(before, ['$'], Substitute(rest, vars));
    }
  }

  lemma {:induction false} LiteralNames(run: string)
    requires '$' !in run
    ensures VarNames(run) == []
  {
    if run != "" {
      assert run == [run[0]] + run[1..];
      LiteralNames(run[1..]);
      LiteralFirst(run, []);
    }
  }
}
