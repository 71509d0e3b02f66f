/** The directive layer: pulls tokens from the tokenizer, runs `#` directives
    against the macro table and passes every other token through.

    Every function takes the tokenizer's input, which no step changes, and a
    `State`. The token at the state's position is the token in the slot the
    source's handlers pass along: the one most recently lexed. */
module DirectiveParser {
  import opened Tokens
  import opened Macros
  import opened Diagnostics

  datatype State = State(pos: nat, macros: MacroTable, diagnostics: seq<Diagnostic>)

  /** The token in the slot. */
  function Current(input: seq<Token>, s: State): Token
  {
    TokenAt(input, s.pos)
  }

  /** Lexes the next token into the slot. */
  function Advance(input: seq<Token>, s: State): (r: State)
    ensures r.macros == s.macros && r.diagnostics == s.diagnostics
    ensures !Current(input, s).kind.Eof? ==> r.pos == s.pos + 1
  {
    s.(pos := Step(input, s.pos))
  }

  /** Appends a report about the token in the slot. */
  function Report(input: seq<Token>, s: State, kind: DiagnosticKind): State
  {
    s.(diagnostics := s.diagnostics + [About(kind, Current(input, s))])
  }

  /** The position of the token at or after `i` that ends the line. */
  function LineEnd(input: seq<Token>, i: nat): (j: nat)
    ensures i <= j
    ensures EndsLine(TokenAt(input, j))
    ensures i < j ==> j <= |input|
    decreases |input| - i
  {
    if EndsLine(TokenAt(input, i)) then i else LineEnd(input, i + 1)
  }

  /** `LineEnd` finds the first such token: none before it ends the line. */
  lemma {:induction false} LineEndIsFirst(input: seq<Token>, i: nat, k: nat)
    requires i <= k < LineEnd(input, i)
    ensures !EndsLine(TokenAt(input, k))
    decreases k - i
  {
    if i < k {
      LineEndIsFirst(input, i + 1, k);
    }
  }

  /** Every position from `i` up to its line's end belongs to the same line. */
  lemma {:induction false} LineEndFrom(input: seq<Token>, i: nat, j: nat)
    requires i <= j <= LineEnd(input, i)
    ensures LineEnd(input, j) == LineEnd(input, i)
    decreases j - i
  {
    if i < j {
      LineEndFrom(input, i + 1, j);
    }
  }

  /** The rest of the directive line is discarded; reaching end of input
      before a newline reports EOF_IN_DIRECTIVE. */
  function SkipLine(input: seq<Token>, s: State): (r: State)
    ensures r.pos == LineEnd(input, s.pos)
    ensures r.macros == s.macros
    ensures r.diagnostics == s.diagnostics +
      (if Current(input, r).kind.Eof? then [About(EofInDirective, Current(input, r))] else [])
    decreases |input| - s.pos
  {
    if Current(input, s).kind.Newline? then s
    else if Current(input, s).kind.Eof? then Report(input, s, EofInDirective)
    else SkipLine(input, Advance(input, s))
  }

  /** What follows every directive handler: a leftover token that does not
      end the line is reported once, then the line is discarded. */
  function Finish(input: seq<Token>, s: State): (r: State)
    ensures r.pos == LineEnd(input, s.pos)
    ensures r.macros == s.macros
    ensures r.diagnostics == s.diagnostics
      + (if EndsLine(Current(input, s)) then [] else [About(UnexpectedTokenInDirective, Current(input, s))])
      + (if Current(input, r).kind.Eof? then [About(EofInDirective, Current(input, r))] else [])
  {
    var checked := if EndsLine(Current(input, s)) then s else Report(input, s, UnexpectedTokenInDirective);
    SkipLine(input, checked)
  }

  /** The replacement list: every token from the slot up to, not including,
      the first newline or end of input, each with its location reset. The
      slot is left on that newline or end of input. */
  function CaptureReplacements(input: seq<Token>, s: State): (r: (seq<Token>, State))
    ensures r.1.pos == LineEnd(input, s.pos)
    ensures |r.0| == r.1.pos - s.pos
    ensures forall k | 0 <= k < |r.0| :: r.0[k] == Neutral(TokenAt(input, s.pos + k))
    ensures r.1.macros == s.macros && r.1.diagnostics == s.diagnostics
    decreases |input| - s.pos
  {
    if EndsLine(Current(input, s)) then ([], s)
    else
      var (rest, e) := CaptureReplacements(input, Advance(input, s));
      ([Neutral(Current(input, s))] + rest, e)
  }

  /** The tokens from `i` up to, not including, `j` alternate identifier and
      comma, starting with an identifier. */
  predicate ParamList(input: seq<Token>, i: nat, j: nat)
    decreases j - i
  {
    i < j ==>
      && TokenAt(input, i).kind.Identifier?
      && (i + 1 < j ==> TokenAt(input, i + 1).kind.Comma? && ParamList(input, i + 2, j))
  }

  /** The values of the tokens from `i` up to, not including, `j` at even
      offsets from `i`: the names of a parameter list. */
  function ListNames(input: seq<Token>, i: nat, j: nat): seq<string>
    decreases j - i
  {
    if j <= i then [] else [TokenAt(input, i).value] + ListNames(input, i + 2, j)
  }

  /** The position of the first token at or after `i` that does not fit a
      parameter list starting at `i`: an identifier is expected after an
      even number of tokens, a comma after an odd one. */
  function ParamEnd(input: seq<Token>, i: nat): (j: nat)
    ensures i <= j
    decreases |input| - i
  {
    if !TokenAt(input, i).kind.Identifier? then i
    else if !TokenAt(input, i + 1).kind.Comma? then i + 1
    else ParamEnd(input, i + 2)
  }

  /** The tokens before the stop form a parameter list, and the token at
      the stop does not fit where it stands. */
  lemma {:induction false} ParamEndIsList(input: seq<Token>, i: nat)
    ensures var j := ParamEnd(input, i);
      && ParamList(input, i, j)
      && if (j - i) % 2 == 0 then !TokenAt(input, j).kind.Identifier? else !TokenAt(input, j).kind.Comma?
    decreases |input| - i
  {
    if TokenAt(input, i).kind.Identifier? && TokenAt(input, i + 1).kind.Comma? {
      ParamEndIsList(input, i + 2);
    }
  }

  /** A parameter list never runs past the end of its line. */
  lemma {:induction false} ParamEndWithinLine(input: seq<Token>, i: nat)
    ensures ParamEnd(input, i) <= LineEnd(input, i)
    decreases |input| - i
  {
    if TokenAt(input, i).kind.Identifier? && TokenAt(input, i + 1).kind.Comma? {
      ParamEndWithinLine(input, i + 2);
    }
  }

  /** The parameter loop, entered with `(` in the slot: it collects
      identifiers while each is followed by a comma and stops on the first
      token that does not fit, which is left in the slot. */
  function ParseParameters(input: seq<Token>, s: State): (r: (seq<string>, State))
    requires !Current(input, s).kind.Eof?
    ensures var i := s.pos + 1; var j := ParamEnd(input, i);
      && r.1.pos == j
      && j <= i + 2 * |r.0| <= j + 1
    ensures r.1.macros == s.macros && r.1.diagnostics == s.diagnostics
    decreases |input| - s.pos
  {
    var p := Advance(input, s);
    if !Current(input, p).kind.Identifier? then ([], p)
    else
      var c := Advance(input, p);
      if Current(input, c).kind.Comma? then
        var (rest, e) := ParseParameters(input, c);
        assert ParamEnd(input, s.pos + 1) == ParamEnd(input, s.pos + 3);
        ([Current(input, p).value] + rest, e)
      else ([Current(input, p).value], c)
  }

  /** The collected parameters are the names of the list, in order. */
  lemma {:induction false} ParametersInOrder(input: seq<Token>, s: State)
    requires !Current(input, s).kind.Eof?
    ensures ParseParameters(input, s).0 == ListNames(input, s.pos + 1, ParamEnd(input, s.pos + 1))
    decreases |input| - s.pos
  {
    var p := Advance(input, s);
    if Current(input, p).kind.Identifier? {
      var c := Advance(input, p);
      if Current(input, c).kind.Comma? {
        ParametersInOrder(input, c);
        assert ParamEnd(input, s.pos + 1) == ParamEnd(input, s.pos + 3);
      }
    }
  }

  /** The result of a parsing step that may be refused. */
  datatype Parse<T> = Parsed(value: T, state: State) | Failed(state: State)

  /** What `#define` learns before its replacement list. */
  datatype Signature = Signature(kind: MacroKind, name: string, parameters: seq<string>)

  /** The slot holds the directive keyword `word`. */
  predicate At(input: seq<Token>, s: State, word: string)
  {
    Current(input, s).kind.Identifier? && Current(input, s).value == word
  }

  /** The macro name and, for a function-like macro, its parameter list.
      For a function-like macro the slot is left on the closing `)`. */
  function ParseSignature(input: seq<Token>, s: State): (r: Parse<Signature>)
    requires At(input, s, "define")
    ensures var name := TokenAt(input, s.pos + 1); var next := TokenAt(input, s.pos + 2);
      match r
      case Failed(e) =>
        && e.macros == s.macros
        && s.pos < e.pos
        && (|| e.diagnostics == s.diagnostics + [About(UnexpectedTokenInDirective, Current(input, e))]
            || e.diagnostics == s.diagnostics + [About(MacroNameReserved, Current(input, e))])
      case Parsed(sig, e) =>
        && name.kind.Identifier?
        && sig.name == name.value
        && !IsMacroNameReserved(sig.name)
        && (sig.kind == Func <==> next.kind.LParen? && !next.leadingSpace)
        && (sig.kind == Obj ==> sig.parameters == [] && e.pos == s.pos + 2)
        && (sig.kind == Func ==> Current(input, e).kind.RParen? && s.pos + 2 < e.pos)
        && e.macros == s.macros
        && e.diagnostics == s.diagnostics
  {
    var n := Advance(input, s);
    if !Current(input, n).kind.Identifier? then
      Failed(Report(input, n, UnexpectedTokenInDirective))
    else if IsMacroNameReserved(Current(input, n).value) then
      Failed(Report(input, n, MacroNameReserved))
    else
      var a := Advance(input, n);
      if Current(input, a).kind.LParen? && !Current(input, a).leadingSpace then
        var (params, c) := ParseParameters(input, a);
        if !Current(input, c).kind.RParen? then
          Failed(Report(input, c, UnexpectedTokenInDirective))
        else
          Parsed(Signature(Func, Current(input, n).value, params), c)
      else
        Parsed(Signature(Obj, Current(input, n).value, []), a)
  }

  /** `#define` parsing as written: the replacement list is captured from the
      token in the slot, which for a function-like macro is still the
      closing `)`. */
  function ParseMacroAsWritten(input: seq<Token>, s: State): (r: Parse<Macro>)
    requires At(input, s, "define")
    ensures r.state.macros == s.macros
    ensures r.Parsed? && r.value.kind == Func ==>
      0 < |r.value.replacements| && r.value.replacements[0].kind.RParen?
  {
    match ParseSignature(input, s)
    case Failed(e) => Failed(e)
    case Parsed(sig, e) =>
      var (body, e') := CaptureReplacements(input, e);
      Parsed(Macro(sig.kind, sig.name, sig.parameters, body), e')
  }

  /** `#define` parsing with the closing `)` consumed before the replacement
      list is captured, so that the list holds only what follows the
      parameter list. */
  function ParseMacro(input: seq<Token>, s: State): (r: Parse<Macro>)
    requires At(input, s, "define")
    ensures r.state.macros == s.macros
    ensures s.pos < r.state.pos
    ensures r.Parsed? ==>
      && r.value.name == TokenAt(input, s.pos + 1).value
      && !IsMacroNameReserved(r.value.name)
      && EndsLine(Current(input, r.state))
      && r.state.diagnostics == s.diagnostics
    ensures r.Failed? ==> |r.state.diagnostics| == |s.diagnostics| + 1
  {
    match ParseSignature(input, s)
    case Failed(e) => Failed(e)
    case Parsed(sig, e) =>
      var start := if sig.kind == Func then Advance(input, e) else e;
      var (body, e') := CaptureReplacements(input, start);
      Parsed(Macro(sig.kind, sig.name, sig.parameters, body), e')
  }

  /** The redefinition check followed by `map::insert`: a new name is added;
      a name already defined keeps its first definition, and a different
      redefinition reports MACRO_REDEFINED at the token in the slot. */
  function DefineMacro(input: seq<Token>, s: State, macro: Macro): (r: State)
    ensures r.pos == s.pos
    ensures r.macros.Keys == s.macros.Keys + {macro.name}
    ensures forall n | n in s.macros :: r.macros[n] == s.macros[n]
    ensures macro.name !in s.macros ==> r.macros[macro.name] == macro && r.diagnostics == s.diagnostics
    ensures macro.name in s.macros ==> r.macros == s.macros
    ensures macro.name in s.macros ==>
      r.diagnostics == s.diagnostics +
        (if s.macros[macro.name] == macro then []
         else [Diagnostic(MacroRedefined, Current(input, s).location, macro.name)])
  {
    if macro.name in s.macros && s.macros[macro.name] != macro then
      s.(diagnostics := s.diagnostics + [Diagnostic(MacroRedefined, Current(input, s).location, macro.name)])
    else if macro.name in s.macros then
      s
    else
      s.(macros := s.macros[macro.name := macro])
  }

  /** What a `#define` does once its macro `m` is parsed from state `s`: a
      refused definition leaves the table alone with one report; a new name
      is added, bound to the macro, without a report; a name already
      defined keeps its entry, and MACRO_REDEFINED is reported at the token
      that ends the line exactly when the macro differs from that entry. */
  predicate DefineEffect(input: seq<Token>, s: State, m: Parse<Macro>, r: State)
  {
    && (m.Failed? ==> r.macros == s.macros && |r.diagnostics| == |s.diagnostics| + 1)
    && (m.Parsed? ==> r.pos == m.state.pos)
    && (m.Parsed? && m.value.name !in s.macros ==>
          r.macros == s.macros[m.value.name := m.value] && r.diagnostics == s.diagnostics)
    && (m.Parsed? && m.value.name in s.macros ==>
          && r.macros == s.macros
          && r.diagnostics == s.diagnostics +
               (if s.macros[m.value.name] == m.value then []
                else [Diagnostic(MacroRedefined, TokenAt(input, m.state.pos).location, m.value.name)]))
  }

  /** `#define`, entered with the keyword in the slot, storing the corrected
      replacement list of `ParseMacro`. */
  function ParseDefine(input: seq<Token>, s: State): (r: State)
    requires At(input, s, "define")
    ensures forall n | n in s.macros :: n in r.macros && r.macros[n] == s.macros[n]
    ensures r.macros.Keys <= s.macros.Keys + {TokenAt(input, s.pos + 1).value}
    ensures s.diagnostics <= r.diagnostics && |r.diagnostics| <= |s.diagnostics| + 1
    ensures s.pos < r.pos
    ensures DefineEffect(input, s, ParseMacro(input, s), r)
  {
    match ParseMacro(input, s)
    case Failed(e) => e
    case Parsed(m, e) => DefineMacro(input, e, m)
  }

  /** `#define` as written: the macro stored is the one `ParseMacroAsWritten`
      parses, whose function-like replacement list starts with `)`. */
  function ParseDefineAsWritten(input: seq<Token>, s: State): (r: State)
    requires At(input, s, "define")
    ensures forall n | n in s.macros :: n in r.macros && r.macros[n] == s.macros[n]
    ensures r.macros.Keys <= s.macros.Keys + {TokenAt(input, s.pos + 1).value}
    ensures s.diagnostics <= r.diagnostics && |r.diagnostics| <= |s.diagnostics| + 1
    ensures s.pos < r.pos
    ensures DefineEffect(input, s, ParseMacroAsWritten(input, s), r)
  {
    match ParseMacroAsWritten(input, s)
    case Failed(e) => e
    case Parsed(m, e) => DefineMacro(input, e, m)
  }

  /** `#undef`, entered with the keyword in the slot: an identifier operand
      is removed from the table if present, without a report either way. */
  function ParseUndef(input: seq<Token>, s: State): (r: State)
    requires At(input, s, "undef")
    ensures var n := TokenAt(input, s.pos + 1);
      if n.kind.Identifier? then
        && r.macros == s.macros - {n.value}
        && r.diagnostics == s.diagnostics
        && r.pos == s.pos + 2
      else
        && r.macros == s.macros
        && r.diagnostics == s.diagnostics + [About(UnexpectedTokenInDirective, n)]
        && r.pos == s.pos + 1
  {
    var n := Advance(input, s);
    if !Current(input, n).kind.Identifier? then
      Report(input, n, UnexpectedTokenInDirective)
    else
      var name := Current(input, n).value;
      var removed := if name in n.macros then n.macros - {name} else n.macros;
      Advance(input, n.(macros := removed))
  }

  /** The handlers that are still stubs (`ifdef`, `ifndef`, `else`, `elif`,
      `endif`, `error`, `pragma`, `extension`, `version`): each lexes one
      token and does nothing else. */
  function ParseStub(input: seq<Token>, s: State): (r: State)
    requires !Current(input, s).kind.Eof?
    ensures r == s.(pos := s.pos + 1)
  {
    Advance(input, s)
  }

  datatype Directive =
    | Define | Undef | If | Ifdef | Ifndef | Else | Elif | Endif
    | Error | Pragma | Extension | Version | Line
    | Unrecognized

  /** The directive a keyword token names; anything that is not one of the
      thirteen keywords, a non-identifier included, is unrecognized. */
  function Classify(t: Token): Directive
  {
    if !t.kind.Identifier? then Unrecognized
    else if t.value == "define" then Define
    else if t.value == "undef" then Undef
    else if t.value == "if" then If
    else if t.value == "ifdef" then Ifdef
    else if t.value == "ifndef" then Ifndef
    else if t.value == "else" then Else
    else if t.value == "elif" then Elif
    else if t.value == "endif" then Endif
    else if t.value == "error" then Error
    else if t.value == "pragma" then Pragma
    else if t.value == "extension" then Extension
    else if t.value == "version" then Version
    else if t.value == "line" then Line
    else Unrecognized
  }

  predicate IsStub(d: Directive)
  {
    d.Ifdef? || d.Ifndef? || d.Else? || d.Elif? || d.Endif? || d.Error? || d.Pragma? || d.Extension? || d.Version?
  }

  /** How a step ends: `Done` with the resulting state, or `Handoff` on
      reaching `#if` or `#line`, whose handlers pass the rest of the line to
      the macro expander and expression parser; its state is the one those
      handlers are entered with. */
  datatype Outcome = Done(state: State) | Handoff(state: State)

  /** Runs the handler the keyword in the slot names; an unrecognized
      keyword has none and stays in the slot. */
  function RunHandler(input: seq<Token>, k: State): (r: State)
    requires !Classify(Current(input, k)).If? && !Classify(Current(input, k)).Line?
    ensures k.pos <= r.pos
    ensures k.diagnostics <= r.diagnostics
  {
    var d := Classify(Current(input, k));
    if d.Define? then ParseDefine(input, k)
    else if d.Undef? then ParseUndef(input, k)
    else if IsStub(d) then ParseStub(input, k)
    else k
  }

  /** `parseDirective`, entered with `#` in the slot. */
  function ParseDirective(input: seq<Token>, s: State): (r: Outcome)
    requires Current(input, s).kind.Hash?
    ensures var d := Classify(TokenAt(input, s.pos + 1)); r.Handoff? <==> d.If? || d.Line?
    ensures r.Handoff? ==> r.state == s.(pos := s.pos + 1)
    ensures r.Done? ==>
      && EndsLine(Current(input, r.state))
      && s.pos < r.state.pos
      && s.diagnostics <= r.state.diagnostics
  {
    var k := Advance(input, s);
    var d := Classify(Current(input, k));
    if d.If? || d.Line? then Handoff(k) else Done(Finish(input, RunHandler(input, k)))
  }

  /** `DirectiveParser::lex`, starting from the token at the state's
      position: every `#` runs a directive, newlines are swallowed, and the
      first other token is returned in the slot. The next call starts one
      step past it. */
  function Lex(input: seq<Token>, s: State): (r: Outcome)
    ensures r.Done? ==> !Current(input, r.state).kind.Newline? && !Current(input, r.state).kind.Hash?
    ensures s.pos <= r.state.pos
    ensures s.diagnostics <= r.state.diagnostics
    decreases |input| - s.pos
  {
    var t := Current(input, s);
    if t.kind.Hash? then
      match ParseDirective(input, s)
      case Handoff(h) => Handoff(h)
      case Done(d) =>
        if Current(input, d).kind.Newline? then Lex(input, Advance(input, d)) else Done(d)
    else if t.kind.Newline? then Lex(input, Advance(input, s))
    else Done(s)
  }

  /** Where `lex` stops, judged from the token kinds alone: a newline is
      passed over, a directive line is passed over through its newline, and
      the first other token, end of input included, is where it stops. */
  function NextToken(input: seq<Token>, i: nat): (j: nat)
    ensures i <= j
    ensures !TokenAt(input, j).kind.Newline? && !TokenAt(input, j).kind.Hash?
    decreases |input| - i
  {
    var t := TokenAt(input, i);
    if t.kind.Newline? then NextToken(input, i + 1)
    else if t.kind.Hash? then
      var e := LineEnd(input, i + 1);
      if TokenAt(input, e).kind.Newline? then NextToken(input, e + 1) else e
    else i
  }
}
