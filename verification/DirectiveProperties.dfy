/** Properties of the directive layer that relate several steps or pin a
    handler's whole effect down for one shape of input. */
module DirectiveProperties {
  import opened Tokens
  import opened Macros
  import opened Diagnostics
  import opened DirectiveParser

  /** The tokens of the line from position `b` up to, not including, its
      newline or end of input, with their locations reset: what a
      definition whose body starts at `b` stores. */
  function LineTokens(input: seq<Token>, b: nat): (r: seq<Token>)
    ensures |r| == LineEnd(input, b) - b
  {
    seq(LineEnd(input, b) - b, k requires 0 <= k => Neutral(TokenAt(input, b + k)))
  }

  /** What `CaptureReplacements` returns is the replacement list of the line
      from the slot on. */
  lemma CapturedReplacements(input: seq<Token>, st: State)
    ensures CaptureReplacements(input, st).0 == LineTokens(input, st.pos)
  {
  }

  // ----- #define -----

  /** A `#define` whose name is not an identifier reports that token and
      leaves the table alone. */
  lemma DefineRejectsNonIdentifier(input: seq<Token>, s: State)
    requires At(input, s, "define")
    requires !TokenAt(input, s.pos + 1).kind.Identifier?
    ensures var r := ParseDefine(input, s);
      && r.macros == s.macros
      && r.diagnostics == s.diagnostics + [About(UnexpectedTokenInDirective, TokenAt(input, s.pos + 1))]
      && r.pos == s.pos + 1
  {
  }

  /** A `#define` of a reserved name reports MACRO_NAME_RESERVED and leaves
      the table alone. */
  lemma DefineRejectsReservedName(input: seq<Token>, s: State)
    requires At(input, s, "define")
    requires TokenAt(input, s.pos + 1).kind.Identifier?
    requires IsMacroNameReserved(TokenAt(input, s.pos + 1).value)
    ensures var r := ParseDefine(input, s);
      && r.macros == s.macros
      && r.diagnostics == s.diagnostics + [About(MacroNameReserved, TokenAt(input, s.pos + 1))]
      && r.pos == s.pos + 1
  {
  }

  /** When the name is not followed by `(` without space, the macro is
      object-like and its replacement list is the rest of the line after
      the name. */
  lemma DefineObjectLike(input: seq<Token>, s: State)
    requires At(input, s, "define")
    requires TokenAt(input, s.pos + 1).kind.Identifier?
    requires !IsMacroNameReserved(TokenAt(input, s.pos + 1).value)
    requires !(TokenAt(input, s.pos + 2).kind.LParen? && !TokenAt(input, s.pos + 2).leadingSpace)
    ensures var r := ParseMacro(input, s);
      && r.Parsed?
      && r.value.kind == Obj
      && r.value.name == TokenAt(input, s.pos + 1).value
      && r.value.parameters == []
      && r.value.replacements == LineTokens(input, s.pos + 2)
      && r.state.pos == LineEnd(input, s.pos + 2)
      && r.state.diagnostics == s.diagnostics
  {
    ObjectLikeMacro(input, s);
  }

  /** An object-like definition: no parameters, and the replacement list
      captured from the token after the name. */
  lemma ObjectLikeMacro(input: seq<Token>, s: State)
    requires At(input, s, "define")
    requires TokenAt(input, s.pos + 1).kind.Identifier?
    requires !IsMacroNameReserved(TokenAt(input, s.pos + 1).value)
    requires !(TokenAt(input, s.pos + 2).kind.LParen? && !TokenAt(input, s.pos + 2).leadingSpace)
    ensures var cr := CaptureReplacements(input, s.(pos := s.pos + 2));
      ParseMacro(input, s) == Parsed(Macro(Obj, TokenAt(input, s.pos + 1).value, [], cr.0), cr.1)
  {
    assert ParseSignature(input, s) == Parsed(Signature(Obj, TokenAt(input, s.pos + 1).value, []), s.(pos := s.pos + 2));
  }

  /** A `#define` of an unreserved name followed directly by `(`, whose
      parameter list is closed by `)`. */
  predicate ClosedFunctionLike(input: seq<Token>, s: State)
  {
    && At(input, s, "define")
    && TokenAt(input, s.pos + 1).kind.Identifier?
    && !IsMacroNameReserved(TokenAt(input, s.pos + 1).value)
    && TokenAt(input, s.pos + 2).kind.LParen? && !TokenAt(input, s.pos + 2).leadingSpace
    && TokenAt(input, ParamEnd(input, s.pos + 3)).kind.RParen?
  }

  /** When the name is followed by `(` without space and the list is closed
      by `)`, the macro is function-like and its parameters are the list's
      identifiers in order. */
  lemma DefineFunctionLike(input: seq<Token>, s: State)
    requires ClosedFunctionLike(input, s)
    ensures var i := s.pos + 3; var j := ParamEnd(input, i); var r := ParseMacro(input, s);
      && r.Parsed?
      && r.value.kind == Func
      && r.value.name == TokenAt(input, s.pos + 1).value
      && r.value.parameters == ListNames(input, i, j)
  {
    var a := s.(pos := s.pos + 2);
    FunctionLikeParameters(input, s);
    ParametersInOrder(input, a);
  }

  /** A function-like definition whose list is closed keeps what the
      parameter loop collected. */
  lemma FunctionLikeParameters(input: seq<Token>, s: State)
    requires ClosedFunctionLike(input, s)
    ensures var r := ParseMacro(input, s);
      && r.Parsed?
      && r.value.kind == Func
      && r.value.name == TokenAt(input, s.pos + 1).value
      && r.value.parameters == ParseParameters(input, s.(pos := s.pos + 2)).0
  {
    FunctionLikeSignature(input, s);
  }

  /** The replacement list of a function-like definition is the rest of the
      line after the `)`, where the slot is left. */
  lemma FunctionLikeReplacements(input: seq<Token>, s: State)
    requires ClosedFunctionLike(input, s)
    ensures var j := ParamEnd(input, s.pos + 3); var r := ParseMacro(input, s);
      && r.Parsed?
      && r.value.replacements == LineTokens(input, j + 1)
      && r.state.pos == LineEnd(input, j + 1)
      && r.state.diagnostics == s.diagnostics
  {
    FunctionLikeBody(input, s);
    FunctionLikeEndsLine(input, s);
  }

  /** The stored list of a function-like definition whose list is closed is
      the line after the `)`. */
  lemma FunctionLikeBody(input: seq<Token>, s: State)
    requires ClosedFunctionLike(input, s)
    ensures var r := ParseMacro(input, s);
      r.Parsed? && r.value.replacements == LineTokens(input, ParamEnd(input, s.pos + 3) + 1)
  {
    var j := ParamEnd(input, s.pos + 3);
    var e := ParseParameters(input, s.(pos := s.pos + 2)).1;
    FunctionLikeMacro(input, s);
    CapturedReplacements(input, e.(pos := j + 1));
  }

  /** A function-like definition whose list is closed ends at the end of
      the line the `)` is on. */
  lemma FunctionLikeEndsLine(input: seq<Token>, s: State)
    requires ClosedFunctionLike(input, s)
    ensures var r := ParseMacro(input, s);
      r.Parsed? && r.state.pos == LineEnd(input, ParamEnd(input, s.pos + 3) + 1)
  {
    FunctionLikeSignature(input, s);
    SignatureStaysOnLine(input, s);
    MacroConsumesLine(input, s);
    LineEndFrom(input, s.pos, ParamEnd(input, s.pos + 3) + 1);
  }

  /** A function-like definition whose list is closed: the parameter loop's
      result, and the replacement list captured from one past the `)`. */
  lemma FunctionLikeMacro(input: seq<Token>, s: State)
    requires ClosedFunctionLike(input, s)
    ensures var pp := ParseParameters(input, s.(pos := s.pos + 2));
      var cr := CaptureReplacements(input, pp.1.(pos := ParamEnd(input, s.pos + 3) + 1));
      ParseMacro(input, s) == Parsed(Macro(Func, TokenAt(input, s.pos + 1).value, pp.0, cr.0), cr.1)
  {
    FunctionLikeSignature(input, s);
    var e := ParseParameters(input, s.(pos := s.pos + 2)).1;
    assert Advance(input, e) == e.(pos := ParamEnd(input, s.pos + 3) + 1);
  }

  /** The signature of a function-like definition whose list is closed:
      the parameter loop's result, with `)` left in the slot. */
  lemma FunctionLikeSignature(input: seq<Token>, s: State)
    requires ClosedFunctionLike(input, s)
    ensures var pp := ParseParameters(input, s.(pos := s.pos + 2));
      ParseSignature(input, s) == Parsed(Signature(Func, TokenAt(input, s.pos + 1).value, pp.0), pp.1)
  {
  }

  /** Every name of a parameter list comes from an identifier token: the
      `k`-th name is the value of the identifier `2 * k` tokens in. */
  lemma {:induction false} ListNamesAreIdentifiers(input: seq<Token>, i: nat, j: nat, k: nat)
    requires ParamList(input, i, j)
    requires k < |ListNames(input, i, j)|
    ensures TokenAt(input, i + 2 * k).kind.Identifier?
    ensures ListNames(input, i, j)[k] == TokenAt(input, i + 2 * k).value
    decreases k
  {
    if 0 < k {
      ListNamesAreIdentifiers(input, i + 2, j, k - 1);
    }
  }

  /** A parameter list that is not closed by `)` reports the token that
      ended it and stores nothing. */
  lemma DefineUnclosedParameterList(input: seq<Token>, s: State)
    requires At(input, s, "define")
    requires TokenAt(input, s.pos + 1).kind.Identifier?
    requires !IsMacroNameReserved(TokenAt(input, s.pos + 1).value)
    requires TokenAt(input, s.pos + 2).kind.LParen? && !TokenAt(input, s.pos + 2).leadingSpace
    requires !TokenAt(input, ParamEnd(input, s.pos + 3)).kind.RParen?
    ensures var j := ParamEnd(input, s.pos + 3); var r := ParseDefine(input, s);
      && r.macros == s.macros
      && r.diagnostics == s.diagnostics + [About(UnexpectedTokenInDirective, TokenAt(input, j))]
      && r.pos == j
  {
  }

  /** As written, a function-like definition stores the closing `)` in
      front of the replacement list it is meant to store. */
  lemma AsWrittenStoresCloseParen(input: seq<Token>, s: State)
    requires ClosedFunctionLike(input, s)
    ensures var j := ParamEnd(input, s.pos + 3); var w := ParseMacroAsWritten(input, s);
      && w.Parsed?
      && w.value.replacements == [Neutral(TokenAt(input, j))] + ParseMacro(input, s).value.replacements
  {
    var j := ParamEnd(input, s.pos + 3);
    FunctionLikeReplacements(input, s);
    AsWrittenReplacements(input, s);
    LineTokensStep(input, j);
  }

  /** A line that does not end at `b` holds the token at `b` followed by
      the line from `b + 1`. */
  lemma LineTokensStep(input: seq<Token>, b: nat)
    requires !EndsLine(TokenAt(input, b))
    ensures LineTokens(input, b) == [Neutral(TokenAt(input, b))] + LineTokens(input, b + 1)
  {
    assert LineEnd(input, b) == LineEnd(input, b + 1);
  }

  /** As written, the replacement list of a function-like definition is the
      rest of the line from the `)` on. */
  lemma AsWrittenReplacements(input: seq<Token>, s: State)
    requires ClosedFunctionLike(input, s)
    ensures var w := ParseMacroAsWritten(input, s);
      && w.Parsed?
      && w.value.replacements == LineTokens(input, ParamEnd(input, s.pos + 3))
  {
    var e := ParseParameters(input, s.(pos := s.pos + 2)).1;
    AsWrittenFunctionLike(input, s);
    CapturedReplacements(input, e);
    assert ParseMacroAsWritten(input, s).value.replacements == CaptureReplacements(input, e).0;
  }

  /** As written, a function-like definition whose list is closed captures
      its replacement list from the `)` itself. */
  lemma AsWrittenFunctionLike(input: seq<Token>, s: State)
    requires ClosedFunctionLike(input, s)
    ensures var pp := ParseParameters(input, s.(pos := s.pos + 2));
      var cr := CaptureReplacements(input, pp.1);
      ParseMacroAsWritten(input, s) == Parsed(Macro(Func, TokenAt(input, s.pos + 1).value, pp.0, cr.0), cr.1)
  {
    FunctionLikeSignature(input, s);
  }

  /** The smallest witness: `#define F(x) x` as written stores `) x`, where
      the intended replacement list is `x`. */
  lemma CloseParenExample()
    ensures var input := ExampleFunctionLike();
      && ParseMacroAsWritten(input, State(1, map[], [])).value.replacements
           == [Neutral(input[5]), Neutral(input[6])]
      && ParseMacro(input, State(1, map[], [])).value.replacements == [Neutral(input[6])]
  {
    var input := ExampleFunctionLike();
    var s := State(1, map[], []);
    assert ParamEnd(input, 4) == 5;
    assert LineEnd(input, 6) == 7;
    DefineFunctionLike(input, s);
    AsWrittenStoresCloseParen(input, s);
  }

  /** The tokens of `#define F(x) x` and its newline. */
  function ExampleFunctionLike(): seq<Token>
  {
    [ Token(Hash, "#", SourceLocation(0, 1), false),
      Token(Identifier, "define", SourceLocation(0, 1), false),
      Token(Identifier, "F", SourceLocation(0, 1), true),
      Token(LParen, "(", SourceLocation(0, 1), false),
      Token(Identifier, "x", SourceLocation(0, 1), false),
      Token(RParen, ")", SourceLocation(0, 1), false),
      Token(Identifier, "x", SourceLocation(0, 1), true),
      Token(Newline, "\n", SourceLocation(0, 1), false) ]
  }

  /** Defining a macro whose equal is already in the table changes nothing
      and reports nothing. */
  lemma IdenticalRedefinitionIsSilent(input: seq<Token>, s: State, m: Macro)
    requires m.name in s.macros && s.macros[m.name] == m
    ensures DefineMacro(input, s, m) == s
  {
  }

  /** On `#define F(x) x`, the handler as written binds `F` to `) x`; the
      corrected one binds it to `x`. */
  lemma CloseParenExampleDefine()
    ensures var input := ExampleFunctionLike(); var s := State(1, map[], []);
      var w := ParseDefineAsWritten(input, s); var r := ParseDefine(input, s);
      && "F" in w.macros && w.macros["F"].replacements == [Neutral(input[5]), Neutral(input[6])]
      && "F" in r.macros && r.macros["F"].replacements == [Neutral(input[6])]
  {
    CloseParenExample();
  }

  // ----- directive lines -----

  /** Every directive but `#if` and `#line` runs its handler on the token
      after `#` and then the leftover checks. */
  lemma HandlerThenFinish(input: seq<Token>, s: State)
    requires Current(input, s).kind.Hash?
    requires !Classify(TokenAt(input, s.pos + 1)).If? && !Classify(TokenAt(input, s.pos + 1)).Line?
    ensures ParseDirective(input, s) == Done(Finish(input, RunHandler(input, s.(pos := s.pos + 1))))
  {
  }

  /** A bare `#` followed by a newline reports nothing and changes nothing. */
  lemma BareHashReportsNothing(input: seq<Token>, s: State)
    requires Current(input, s).kind.Hash?
    requires TokenAt(input, s.pos + 1).kind.Newline?
    ensures ParseDirective(input, s) == Done(s.(pos := s.pos + 1))
  {
  }

  /** The report a finished directive line ends with: EOF_IN_DIRECTIVE when
      end of input came before a newline. */
  function EndReport(input: seq<Token>, j: nat): seq<Diagnostic>
  {
    if TokenAt(input, j).kind.Eof? then [About(EofInDirective, TokenAt(input, j))] else []
  }

  /** The report for a leftover token at `i`: none when it ends the line. */
  function LeftoverReport(input: seq<Token>, i: nat): seq<Diagnostic>
  {
    if EndsLine(TokenAt(input, i)) then [] else [About(UnexpectedTokenInDirective, TokenAt(input, i))]
  }

  /** A keyword no handler recognizes is itself the leftover token: it is
      reported once and the rest of the line is discarded. */
  lemma UnrecognizedKeywordIsLeftover(input: seq<Token>, s: State)
    requires Current(input, s).kind.Hash?
    requires Classify(TokenAt(input, s.pos + 1)).Unrecognized?
    ensures var k := s.pos + 1; var j := LineEnd(input, k); var r := ParseDirective(input, s);
      && r.Done?
      && r.state.pos == j
      && r.state.macros == s.macros
      && r.state.diagnostics == s.diagnostics + LeftoverReport(input, k) + EndReport(input, j)
  {
    var k := s.(pos := s.pos + 1);
    assert RunHandler(input, k) == k;
    assert ParseDirective(input, s) == Done(Finish(input, k));
  }

  /** A stub handler lexes one token only, so its operand (`X` in
      `#ifdef X`) is the leftover token. */
  lemma StubLeavesOperand(input: seq<Token>, s: State)
    requires Current(input, s).kind.Hash?
    requires IsStub(Classify(TokenAt(input, s.pos + 1)))
    ensures var o := s.pos + 2; var j := LineEnd(input, o); var r := ParseDirective(input, s);
      && r.Done?
      && r.state.pos == j
      && r.state.macros == s.macros
      && r.state.diagnostics == s.diagnostics + LeftoverReport(input, o) + EndReport(input, j)
  {
    StubDirectiveFinishes(input, s);
    var f := Finish(input, s.(pos := s.pos + 2));
    assert f.diagnostics == s.diagnostics + LeftoverReport(input, s.pos + 2) + EndReport(input, f.pos);
  }

  /** After a stub handler only the line's leftover checks run, from the
      token after the keyword. */
  lemma StubDirectiveFinishes(input: seq<Token>, s: State)
    requires Current(input, s).kind.Hash?
    requires IsStub(Classify(TokenAt(input, s.pos + 1)))
    ensures ParseDirective(input, s) == Done(Finish(input, s.(pos := s.pos + 2)))
  {
    StubHandlerLexesOnce(input, s.(pos := s.pos + 1));
  }

  /** The handler of a stub keyword only moves the slot one token on. */
  lemma StubHandlerLexesOnce(input: seq<Token>, k: State)
    requires IsStub(Classify(Current(input, k)))
    ensures RunHandler(input, k) == k.(pos := k.pos + 1)
  {
  }

  /** A `#define` whose name is some other token on the line reports that
      token twice: once in the handler and once as the leftover. */
  lemma DefineBadNameReportedTwice(input: seq<Token>, s: State)
    requires Current(input, s).kind.Hash?
    requires Classify(TokenAt(input, s.pos + 1)).Define?
    requires !TokenAt(input, s.pos + 2).kind.Identifier? && !EndsLine(TokenAt(input, s.pos + 2))
    ensures var n := TokenAt(input, s.pos + 2); var j := LineEnd(input, s.pos + 2); var r := ParseDirective(input, s);
      && r.Done?
      && r.state.macros == s.macros
      && r.state.diagnostics == s.diagnostics
           + [About(UnexpectedTokenInDirective, n), About(UnexpectedTokenInDirective, n)]
           + EndReport(input, j)
  {
    var k := s.(pos := s.pos + 1);
    HandlerThenFinish(input, s);
    assert RunHandler(input, k) == ParseDefine(input, k);
    DefineRejectsNonIdentifier(input, k);
  }

  /** A whole `#define NAME ...` line for a name not yet defined adds
      exactly that name, bound to the parsed macro, and reports nothing but
      a missing final newline. */
  lemma DefineDirectiveAddsMacro(input: seq<Token>, s: State)
    requires Current(input, s).kind.Hash?
    requires Classify(TokenAt(input, s.pos + 1)).Define?
    requires ParseMacro(input, s.(pos := s.pos + 1)).Parsed?
    requires ParseMacro(input, s.(pos := s.pos + 1)).value.name !in s.macros
    ensures var m := ParseMacro(input, s.(pos := s.pos + 1)); var r := ParseDirective(input, s);
      && r.Done?
      && r.state.macros == s.macros[m.value.name := m.value]
      && r.state.pos == m.state.pos
      && r.state.diagnostics == s.diagnostics + EndReport(input, m.state.pos)
  {
    var k := s.(pos := s.pos + 1);
    var m := ParseMacro(input, k);
    HandlerThenFinish(input, s);
    assert RunHandler(input, k) == ParseDefine(input, k);
    assert ParseDefine(input, k) == DefineMacro(input, m.state, m.value);
    assert LineEnd(input, m.state.pos) == m.state.pos;
  }

  /** A whole `#define NAME ...` line for a name already defined leaves the
      table as it is; MACRO_REDEFINED is reported, at the newline or end of
      input that ends the line, exactly when the parsed macro differs from
      the one in the table. */
  lemma DefineDirectiveRedefines(input: seq<Token>, s: State)
    requires Current(input, s).kind.Hash?
    requires Classify(TokenAt(input, s.pos + 1)).Define?
    requires ParseMacro(input, s.(pos := s.pos + 1)).Parsed?
    requires ParseMacro(input, s.(pos := s.pos + 1)).value.name in s.macros
    ensures var m := ParseMacro(input, s.(pos := s.pos + 1)); var r := ParseDirective(input, s);
      && r.Done?
      && r.state.macros == s.macros
      && r.state.pos == m.state.pos
      && r.state.diagnostics == s.diagnostics
           + (if s.macros[m.value.name] == m.value then []
              else [Diagnostic(MacroRedefined, TokenAt(input, m.state.pos).location, m.value.name)])
           + EndReport(input, m.state.pos)
  {
    var k := s.(pos := s.pos + 1);
    var m := ParseMacro(input, k);
    HandlerThenFinish(input, s);
    assert RunHandler(input, k) == ParseDefine(input, k);
    assert LineEnd(input, m.state.pos) == m.state.pos;
  }

  /** A whole `#undef NAME` line removes NAME, leaves every other entry
      alone and reports only what is left on the line. */
  lemma UndefDirectiveRemovesName(input: seq<Token>, s: State)
    requires Current(input, s).kind.Hash?
    requires Classify(TokenAt(input, s.pos + 1)).Undef?
    requires TokenAt(input, s.pos + 2).kind.Identifier?
    ensures var j := LineEnd(input, s.pos + 3); var r := ParseDirective(input, s);
      && r.Done?
      && r.state.macros == s.macros - {TokenAt(input, s.pos + 2).value}
      && r.state.pos == j
      && r.state.diagnostics == s.diagnostics + LeftoverReport(input, s.pos + 3) + EndReport(input, j)
  {
    var k := s.(pos := s.pos + 1);
    HandlerThenFinish(input, s);
    assert RunHandler(input, k) == ParseUndef(input, k);
  }

  // ----- DirectiveParser::lex -----

  /** On input without directives, `lex` returns the first token that is not
      a newline and changes neither the table nor the diagnostics. */
  lemma {:induction false} LexWithoutDirectives(input: seq<Token>, s: State)
    requires forall k | s.pos <= k < |input| :: !input[k].kind.Hash?
    ensures var r := Lex(input, s);
      && r.Done?
      && s.pos <= r.state.pos
      && (forall k | s.pos <= k < r.state.pos :: TokenAt(input, k).kind.Newline?)
      && r.state.macros == s.macros
      && r.state.diagnostics == s.diagnostics
    decreases |input| - s.pos
  {
    if Current(input, s).kind.Newline? {
      LexWithoutDirectives(input, s.(pos := s.pos + 1));
    }
  }

  /** The signature never runs past the directive's line; a function-like
      one stops on its `)`, before the line's end. */
  lemma SignatureStaysOnLine(input: seq<Token>, s: State)
    requires At(input, s, "define")
    ensures var r := ParseSignature(input, s);
      && r.state.pos <= LineEnd(input, s.pos)
      && (r.Parsed? && r.value.kind == Func ==> r.state.pos < LineEnd(input, s.pos))
  {
    assert LineEnd(input, s.pos) == LineEnd(input, s.pos + 1);
    var n := TokenAt(input, s.pos + 1);
    var a := TokenAt(input, s.pos + 2);
    if n.kind.Identifier? && a.kind.LParen? {
      assert LineEnd(input, s.pos + 1) == LineEnd(input, s.pos + 2) == LineEnd(input, s.pos + 3);
      ParamEndWithinLine(input, s.pos + 3);
    }
  }

  /** A parsed definition ends exactly at the end of its line, and a
      refused one stops on the line. */
  lemma MacroConsumesLine(input: seq<Token>, s: State)
    requires At(input, s, "define")
    ensures var r := ParseMacro(input, s);
      && r.state.pos <= LineEnd(input, s.pos)
      && (r.Parsed? ==> r.state.pos == LineEnd(input, s.pos))
  {
    SignatureStaysOnLine(input, s);
    var g := ParseSignature(input, s);
    if g.Parsed? {
      var start := if g.value.kind == Func then g.state.pos + 1 else g.state.pos;
      LineEndFrom(input, s.pos, start);
    }
  }

  /** No handler moves the slot past the end of the directive's line. */
  lemma HandlerStaysOnLine(input: seq<Token>, k: State)
    requires !Classify(Current(input, k)).If? && !Classify(Current(input, k)).Line?
    ensures RunHandler(input, k).pos <= LineEnd(input, k.pos)
  {
    var d := Classify(Current(input, k));
    if d.Define? {
      MacroConsumesLine(input, k);
      assert RunHandler(input, k) == ParseDefine(input, k);
    } else if d.Undef? {
      assert LineEnd(input, k.pos) == LineEnd(input, k.pos + 1);
      assert RunHandler(input, k) == ParseUndef(input, k);
    } else if IsStub(d) {
      StubHandlerLexesOnce(input, k);
    }
  }

  /** Every directive but `#if` and `#line` consumes exactly its own line:
      it stops on the first newline or end of input after the `#`. */
  lemma DirectiveConsumesLine(input: seq<Token>, s: State)
    requires Current(input, s).kind.Hash?
    ensures var r := ParseDirective(input, s);
      r.Done? ==> r.state.pos == LineEnd(input, s.pos + 1)
  {
    var k := s.(pos := s.pos + 1);
    var d := Classify(Current(input, k));
    if !d.If? && !d.Line? {
      HandlerThenFinish(input, s);
      HandlerStaysOnLine(input, k);
      LineEndFrom(input, k.pos, RunHandler(input, k).pos);
    }
  }

  /** A directive that does not hand off stops where the token kinds say:
      on the next token, or on the newline after which it is found. */
  lemma DirectiveStopsBeforeNextToken(input: seq<Token>, s: State)
    requires Current(input, s).kind.Hash?
    ensures var r := ParseDirective(input, s);
      r.Done? ==>
        if Current(input, r.state).kind.Newline? then NextToken(input, s.pos) == NextToken(input, r.state.pos + 1)
        else NextToken(input, s.pos) == r.state.pos
  {
    DirectiveConsumesLine(input, s);
  }

  /** At a `#`, `lex` runs the directive; after a line that ends in a
      newline it goes on from the token after it, and otherwise returns
      what the directive left: the token at end of input, or a hand-off.
      The directive line runs up to its first newline or end of input. */
  lemma LexAtDirective(input: seq<Token>, s: State)
    requires Current(input, s).kind.Hash?
    ensures var r := ParseDirective(input, s);
      && (r.Done? ==> r.state.pos == LineEnd(input, s.pos + 1))
      && (r.Done? ==>
            if Current(input, r.state).kind.Newline? then NextToken(input, s.pos) == NextToken(input, r.state.pos + 1)
            else NextToken(input, s.pos) == r.state.pos)
      && Lex(input, s) == if r.Done? && Current(input, r.state).kind.Newline? then Lex(input, r.state.(pos := r.state.pos + 1)) else r
  {
    DirectiveConsumesLine(input, s);
    DirectiveStopsBeforeNextToken(input, s);
  }

  /** One round of `lex`: it goes on from a later slot, with the same
      outcome and the same stopping place, or it ends at `s` -- on the token
      there, or with the outcome of the directive there. */
  lemma LexStep(input: seq<Token>, s: State) returns (n: State, more: bool)
    ensures more ==>
      && s.pos < |input| && s.pos < n.pos
      && Lex(input, s) == Lex(input, n)
      && NextToken(input, s.pos) == NextToken(input, n.pos)
      && n.macros == if Current(input, s).kind.Hash? then ParseDirective(input, s).state.macros else s.macros
    ensures !more ==>
      && (Lex(input, s) == Done(s) || (Current(input, s).kind.Hash? && Lex(input, s) == ParseDirective(input, s)))
      && (Lex(input, s).Done? ==> Lex(input, s).state.pos == NextToken(input, s.pos))
  {
    var t := Current(input, s);
    n, more := s, false;
    if t.kind.Hash? {
      LexAtDirective(input, s);
      var r := ParseDirective(input, s);
      if r.Done? && Current(input, r.state).kind.Newline? {
        n, more := r.state.(pos := r.state.pos + 1), true;
      }
    } else if t.kind.Newline? {
      n, more := s.(pos := s.pos + 1), true;
    }
  }

  /** Whenever `lex` finishes without handing off, it stops exactly where
      the token kinds alone say: past every newline and every directive
      line, on the first token that is neither. */
  lemma {:induction false} LexStopsAtNextToken(input: seq<Token>, s: State)
    requires Lex(input, s).Done?
    ensures Lex(input, s).state.pos == NextToken(input, s.pos)
    decreases |input| - s.pos
  {
    var n, more := LexStep(input, s);
    if more {
      LexStopsAtNextToken(input, n);
    }
  }

  /** The slot holds the keyword of an `#if` or `#line` line, right after
      its `#`. */
  predicate AtIfOrLine(input: seq<Token>, k: State)
  {
    && 0 < k.pos
    && TokenAt(input, k.pos - 1).kind.Hash?
    && (Classify(Current(input, k)).If? || Classify(Current(input, k)).Line?)
  }

  /** `lex` hands off only right after the `#` of an `#if` or `#line`
      line. */
  lemma {:induction false} LexHandsOffAtIfOrLine(input: seq<Token>, s: State)
    ensures Lex(input, s).Handoff? ==> AtIfOrLine(input, Lex(input, s).state)
    decreases |input| - s.pos
  {
    var n, more := LexStep(input, s);
    if more {
      LexHandsOffAtIfOrLine(input, n);
    } else if Current(input, s).kind.Hash? {
      var r := ParseDirective(input, s);
      assert r.Handoff? ==> AtIfOrLine(input, r.state);
    }
  }

  // ----- reserved names -----

  /** `#define` never puts a reserved name into a table that has none. */
  lemma DefineKeepsNamesUnreserved(input: seq<Token>, s: State)
    requires At(input, s, "define")
    requires NoReservedNames(s.macros)
    ensures NoReservedNames(ParseDefine(input, s).macros)
  {
    var m := ParseMacro(input, s);
    if m.Parsed? {
      assert ParseDefine(input, s) == DefineMacro(input, m.state, m.value);
    }
  }

  /** No directive line puts a reserved name into a table that has none. */
  lemma DirectiveKeepsNamesUnreserved(input: seq<Token>, s: State)
    requires Current(input, s).kind.Hash?
    requires NoReservedNames(s.macros)
    ensures NoReservedNames(ParseDirective(input, s).state.macros)
  {
    var k := s.(pos := s.pos + 1);
    var d := Classify(Current(input, k));
    if !d.If? && !d.Line? {
      HandlerThenFinish(input, s);
      if d.Define? {
        assert RunHandler(input, k) == ParseDefine(input, k);
        DefineKeepsNamesUnreserved(input, k);
      }
    }
  }

  /** However many directives one call to `lex` runs, the table never gains
      a reserved name. */
  lemma {:induction false} LexKeepsNamesUnreserved(input: seq<Token>, s: State)
    requires NoReservedNames(s.macros)
    ensures NoReservedNames(Lex(input, s).state.macros)
    decreases |input| - s.pos
  {
    var n, more := LexStep(input, s);
    if Current(input, s).kind.Hash? {
      DirectiveKeepsNamesUnreserved(input, s);
    }
    if more {
      LexKeepsNamesUnreserved(input, n);
    }
  }
}
