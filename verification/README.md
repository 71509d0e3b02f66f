# ANGLE preprocessor directive layer, in Dafny

This project models the directive layer of ANGLE's shader preprocessor
(`DirectiveParser` in `src/compiler/preprocessor/new/DirectiveParser.cpp`).
The layer pulls tokens from the tokenizer and runs every `#` directive against
the macro table. It swallows newlines and passes every other token up to its
caller. Problems go to a diagnostics sink, and after each directive the layer
resynchronises at the end of the line.

The model is functional:

- **Tokenizer.** The tokenizer is its already-lexed token sequence plus a
  position. Past the end it yields an end-of-input token forever
  (`Tokens.TokenAt`, `Tokens.Step`).
- **State.** The handlers' in/out `Token*` slot, the `MacroSet` and the
  `Diagnostics` sink together form one `DirectiveParser.State`:
  - a position, where the token at the position is the one in the slot;
  - a `map<string, Macro>`;
  - an append-only `seq<Diagnostic>`.
- **Handlers.** Each handler is a pure function from a state to a state, or
  to a result carrying one. `ParseDefine`, `ParseUndef`, `ParseStub` and the
  post-directive checks `Finish` return a state. `ParseSignature` and
  `ParseMacro` return a `Parse` (parsed value or failure, each with the
  state). The dispatcher `ParseDirective` and the outer loop `Lex` return an
  `Outcome` (`Done` or `Handoff`, each with the state).

Modules:

- `Strings` — `std::string::find` and `substr`.
- `Tokens` — `Token` and `SourceLocation`, and the tokenizer as a sequence and a position.
- `Macros` — `Macro`, the macro table and the reserved-name rule.
- `Diagnostics` — report kinds and reports.
- `DirectiveParser` — the handlers.
- `DirectiveProperties` — properties that relate several steps, or that pin down a whole directive line.

## Model

| member | source | states |
|---|---|---|
| Macros.IsMacroNameReserved | src/compiler/preprocessor/new/DirectiveParser.cpp:33-44 | a name is reserved exactly when it starts with `GL_` or contains `__` at some position |
| Strings.Substr | src/compiler/preprocessor/new/DirectiveParser.cpp:36 | `substr(0, 3)` yields the first three characters, or the whole name when it is shorter |
| Strings.Find | src/compiler/preprocessor/new/DirectiveParser.cpp:40 | `find` yields the first index at or after the start where the pattern occurs, and npos exactly when it occurs nowhere there |
| Macros.FindMatchesDoubleUnderscore | src/compiler/preprocessor/new/DirectiveParser.cpp:39-41 | `find("__")` succeeds exactly when two consecutive underscores occur somewhere in the name |
| Tokens.Step | src/compiler/preprocessor/new/DirectiveParser.cpp:78 | one call to `Tokenizer::lex` moves one token on, except at end of input, where it stays |
| DirectiveParser.LineEnd | src/compiler/preprocessor/new/DirectiveParser.cpp:123-132 | the line's end is at or after the start, is a newline or end of input, and lies within the input when it is not the start itself |
| DirectiveParser.LineEndIsFirst | src/compiler/preprocessor/new/DirectiveParser.cpp:123-132 | no token before the line's end ends the line: the discard loop stops at the first newline or end of input |
| DirectiveParser.LineEndFrom | src/compiler/preprocessor/new/DirectiveParser.cpp:123-132 | resumed from any token of a line up to its end, the discard loop stops at the same newline or end of input |
| DirectiveParser.SkipLine | src/compiler/preprocessor/new/DirectiveParser.cpp:123-132 | discarding stops at the line's end and leaves the table alone; EOF_IN_DIRECTIVE is reported once exactly when it stops at end of input |
| DirectiveParser.Finish | src/compiler/preprocessor/new/DirectiveParser.cpp:118-132 | a leftover token other than newline or end of input gets exactly one UNEXPECTED_TOKEN_IN_DIRECTIVE; then the line is discarded, with EOF_IN_DIRECTIVE if it ends at end of input; the table is unchanged |
| DirectiveParser.CaptureReplacements | src/compiler/preprocessor/new/DirectiveParser.cpp:182-190 | the captured list has one entry per token up to the line's end, each that token with its location reset; the slot is left on the newline or end of input |
| DirectiveProperties.CapturedReplacements | src/compiler/preprocessor/new/DirectiveParser.cpp:182-190 | the captured list equals the line's remaining tokens with default locations (`LineTokens`) |
| DirectiveParser.ParamEndIsList | src/compiler/preprocessor/new/DirectiveParser.cpp:164-171 | the tokens before the parameter loop's stop alternate identifier and comma, and the stop token does not fit the slot where it stands |
| DirectiveParser.ParamEndWithinLine | src/compiler/preprocessor/new/DirectiveParser.cpp:164-171 | the parameter loop never runs past the end of the directive's line |
| DirectiveParser.ParseParameters | src/compiler/preprocessor/new/DirectiveParser.cpp:164-171 | the parameter loop stops on the first token that does not fit the list and collects one name per identifier before it |
| DirectiveParser.ParametersInOrder | src/compiler/preprocessor/new/DirectiveParser.cpp:164-171 | the collected parameters are the list's names in source order |
| DirectiveProperties.ListNamesAreIdentifiers | src/compiler/preprocessor/new/DirectiveParser.cpp:165-168 | the k-th name of a parameter list is the value of the identifier 2k tokens into the list |
| DirectiveParser.ParseSignature | src/compiler/preprocessor/new/DirectiveParser.cpp:139-180 | a non-identifier or reserved name fails with exactly one report and no table change; otherwise the name is the identifier after `define`, and the macro is function-like exactly when `(` without leading space follows; a function-like signature ends on `)` |
| DirectiveParser.ParseMacroAsWritten | src/compiler/preprocessor/new/DirectiveParser.cpp:155-190 | as written, a function-like macro's replacement list starts with the closing `)` |
| DirectiveParser.ParseMacro | src/compiler/preprocessor/new/DirectiveParser.cpp:155-190 | a parsed macro has the name after `define`, is not reserved, ends on a newline or end of input and adds no report; a failure adds exactly one report; the table is unchanged |
| DirectiveParser.DefineMacro | src/compiler/preprocessor/new/DirectiveParser.cpp:192-201 | a new name is added and every other entry is untouched; an existing name keeps its old definition; MACRO_REDEFINED is reported exactly when the new macro differs from the old one |
| DirectiveParser.ParseDefine | src/compiler/preprocessor/new/DirectiveParser.cpp:135-202 | a refused definition leaves the table alone with one report; a parsed one for a new name adds exactly that name, bound to the parsed macro, with no report; a parsed one for a defined name leaves the table alone and reports MACRO_REDEFINED, at the token ending the line, exactly when the parsed macro differs from the entry; every existing entry survives |
| DirectiveParser.ParseDefineAsWritten | src/compiler/preprocessor/new/DirectiveParser.cpp:135-202 | as written, `#define` has the same effect on the table and the reports, with the macro `ParseMacroAsWritten` parses |
| DirectiveParser.ParseUndef | src/compiler/preprocessor/new/DirectiveParser.cpp:204-222 | an identifier operand is removed if present, with every other entry kept and no report; a non-identifier operand is reported and changes nothing |
| DirectiveParser.ParseStub | src/compiler/preprocessor/new/DirectiveParser.cpp:245-306 | a stub handler moves the slot one token on and changes nothing else |
| DirectiveParser.RunHandler | src/compiler/preprocessor/new/DirectiveParser.cpp:88-116 | a handler never moves the slot backwards and never removes a report |
| DirectiveParser.ParseDirective | src/compiler/preprocessor/new/DirectiveParser.cpp:83-133 | control passes to the expression or macro-expansion stage exactly for `#if` and `#line`, with the slot on the keyword after `#` and nothing else changed; every other directive ends on a newline or end of input, past the `#`, keeping earlier reports |
| DirectiveParser.Lex | src/compiler/preprocessor/new/DirectiveParser.cpp:74-81 | a returned token is never a newline and never `#`; the slot never moves back; earlier reports are kept |
| DirectiveProperties.DefineRejectsNonIdentifier | src/compiler/preprocessor/new/DirectiveParser.cpp:139-146 | a `#define` whose name is not an identifier reports that token as unexpected and leaves the table unchanged |
| DirectiveProperties.DefineRejectsReservedName | src/compiler/preprocessor/new/DirectiveParser.cpp:147-153 | a `#define` of a reserved name reports MACRO_NAME_RESERVED and leaves the table unchanged |
| DirectiveProperties.DefineObjectLike | src/compiler/preprocessor/new/DirectiveParser.cpp:155-190 | without `(` directly after the name, the macro is object-like, has no parameters, stores the rest of the line after the name and leaves the slot at the line's end |
| DirectiveProperties.DefineFunctionLike | src/compiler/preprocessor/new/DirectiveParser.cpp:159-179 | with `(` directly after the name and a list closed by `)`, the macro is function-like and its parameters are the list's identifiers in order |
| DirectiveProperties.FunctionLikeReplacements | src/compiler/preprocessor/new/DirectiveParser.cpp:173-190 | once the `)` is consumed, a function-like macro stores the rest of the line after `)` and leaves the slot at the line's end |
| DirectiveProperties.DefineUnclosedParameterList | src/compiler/preprocessor/new/DirectiveParser.cpp:173-179 | a parameter list that ends on anything but `)` reports that token as unexpected and stores nothing |
| DirectiveProperties.AsWrittenStoresCloseParen | src/compiler/preprocessor/new/DirectiveParser.cpp:173-190 | as written, the stored list is the `)` followed by the intended list |
| DirectiveProperties.CloseParenExample | src/compiler/preprocessor/new/DirectiveParser.cpp:159-190 | for `#define F(x) x`, the code as written stores `) x`, where `x` is intended |
| DirectiveProperties.CloseParenExampleDefine | src/compiler/preprocessor/new/DirectiveParser.cpp:159-201 | on `#define F(x) x`, the handler as written binds `F` to `) x`, while the corrected one binds it to `x` |
| DirectiveProperties.IdenticalRedefinitionIsSilent | src/compiler/preprocessor/new/DirectiveParser.cpp:192-201 | defining a macro whose equal is already in the table changes nothing and reports nothing |
| DirectiveProperties.BareHashReportsNothing | src/compiler/preprocessor/new/DirectiveParser.cpp:83-133 | a bare `#` followed by a newline reports nothing and changes nothing |
| DirectiveProperties.UnrecognizedKeywordIsLeftover | src/compiler/preprocessor/new/DirectiveParser.cpp:88-132 | an unknown keyword is reported once as the leftover token, and the rest of its line is discarded |
| DirectiveProperties.StubLeavesOperand | src/compiler/preprocessor/new/DirectiveParser.cpp:245-250 | after a stub keyword, the token after it (`X` in `#ifdef X`) is reported as the leftover token |
| DirectiveProperties.DefineBadNameReportedTwice | src/compiler/preprocessor/new/DirectiveParser.cpp:118-121 | a `#define` whose name is some other token on the line reports that token twice, once from the handler and once as the leftover |
| DirectiveProperties.DefineDirectiveAddsMacro | src/compiler/preprocessor/new/DirectiveParser.cpp:192-201 | a whole `#define` line for a new name adds exactly that name, bound to the parsed macro, and reports only a missing final newline |
| DirectiveProperties.DefineDirectiveRedefines | src/compiler/preprocessor/new/DirectiveParser.cpp:135-201 | a whole `#define` line for a name already defined leaves the table alone; MACRO_REDEFINED is reported at the token ending the line exactly when the parsed macro differs from the entry, followed only by a missing-final-newline report |
| DirectiveProperties.UndefDirectiveRemovesName | src/compiler/preprocessor/new/DirectiveParser.cpp:204-222 | a whole `#undef NAME` line removes exactly NAME and reports only what is left on the line |
| DirectiveProperties.LexWithoutDirectives | src/compiler/preprocessor/new/DirectiveParser.cpp:74-81 | on input without `#`, `lex` returns the first token that is not a newline and changes neither the table nor the reports |
| DirectiveProperties.SignatureStaysOnLine | src/compiler/preprocessor/new/DirectiveParser.cpp:139-180 | the signature never runs past the end of the directive's line, and a function-like one stops on its `)` before that end |
| DirectiveProperties.MacroConsumesLine | src/compiler/preprocessor/new/DirectiveParser.cpp:155-190 | a parsed definition stops exactly at the end of its line, and a refused one stops on the line |
| DirectiveProperties.HandlerStaysOnLine | src/compiler/preprocessor/new/DirectiveParser.cpp:88-116 | no handler moves the slot past the end of the directive's line |
| DirectiveProperties.DirectiveConsumesLine | src/compiler/preprocessor/new/DirectiveParser.cpp:83-133 | every directive but `#if` and `#line` stops exactly on the first newline or end of input after its `#` |
| DirectiveProperties.LexAtDirective | src/compiler/preprocessor/new/DirectiveParser.cpp:74-81 | at a `#`, `lex` runs the directive and, when the line ends in a newline, goes on from the token after it; otherwise it returns what the directive left |
| DirectiveProperties.LexStopsAtNextToken | src/compiler/preprocessor/new/DirectiveParser.cpp:74-132 | whenever `lex` finishes without handing off, it stops on the token that the token kinds alone designate: past every newline and every directive line, on the first token that is neither (`NextToken`) |
| DirectiveProperties.LexHandsOffAtIfOrLine | src/compiler/preprocessor/new/DirectiveParser.cpp:74-116 | `lex` hands off only with the slot on the keyword of an `#if` or `#line` line, right after its `#` |
| DirectiveProperties.DefineKeepsNamesUnreserved | src/compiler/preprocessor/new/DirectiveParser.cpp:147-153 | `#define` never adds a reserved name to a table that has none |
| DirectiveProperties.DirectiveKeepsNamesUnreserved | src/compiler/preprocessor/new/DirectiveParser.cpp:83-133 | no directive line adds a reserved name to a table that has none |
| DirectiveProperties.LexKeepsNamesUnreserved | src/compiler/preprocessor/new/DirectiveParser.cpp:74-81 | however many directives one call to `lex` runs, the table never gains a reserved name |

## Assumptions

- **End of input.** The code tests end of input as type `0` (lines 118 and 125) and as `Token::LAST` (line 182). Both are the single `Eof` kind here.
- **Token and macro equality.** `Token::equals` and `Macro::equals` are not part of this model. Both are taken as structural equality over every field, location and leading-space flag included.
  - The comment at lines 184-186 resets locations so that token equality can compare macros. That only makes sense if the location takes part in the comparison.
  - A looser equality on type and text alone is therefore not modelled.
- **Other token types.** Every token type the layer does not test for is `Other`, tagged with its type code (`Tokens.OtherCode`). That code is never end of input, nor the character code of a newline, `#`, `(`, `)` or `,`, so no token has two kinds.
- **`map::insert`.** It never overwrites. A redefinition, identical or not, keeps the entry already in the table.
- **`#if` and `#line`.** These hand the rest of the line to `MacroExpander` and `ExpressionParser`, which are not part of this model. `ParseDirective` and `Lex` stop there with `Handoff`, carrying the state the handler would be entered with.
- **Entry to `lex`.** `Lex` starts from the token already in the slot, where the source's loop first calls `Tokenizer::lex`. One call to `DirectiveParser::lex` is therefore one `Lex` from `Tokens.Step(input, p)`, where `p` is the position of the previously returned token: the position after it, or `p` itself when that token is end of input, where the tokenizer stays.

## Left out

- `parseIf` (lines 224-243) and `parseLine` (lines 308-314): their work is done by `MacroExpander` and `ExpressionParser`, whose sources are not part of this model. The model stops at the hand-off.
- `DefinedParser` (lines 49-63): it is a pass-through stub with no behaviour of its own.
- Conditional-block stacks, and the meaning of `#ifdef`, `#ifndef`, `#else`, `#elif`, `#endif`, `#error`, `#pragma`, `#extension` and `#version`: the handlers are stubs that lex one token, and that one step is exactly what is modelled.
- The `Tokenizer`, `MacroSet` and `Diagnostics` implementations: they are not part of this model.
  - The tokenizer is its token sequence.
  - The sink is a list of (kind, location, text) reports.
  - The error/warning classification is left out.
- `samples/angle/sample_util/SampleApplication.cpp`: window, EGL and timing glue, with nothing to state about the directive layer.
- The `assert` calls at the top of each handler: the handlers' `requires` clauses take their place.
- DirectiveParser.ParseDefine: it stores the corrected replacement list of `ParseMacro`, not the list that begins with `)` which the code as written stores. The handler as written is `ParseDefineAsWritten`, and `CloseParenExampleDefine` shows the two differ.
- DirectiveParser.RunHandler: its `#define` branch runs `ParseDefine`, so it stores the corrected list, not the one beginning with `)` that the code as written stores.
- DirectiveParser.ParseDirective: a `#define` line runs `ParseDefine` through `RunHandler`, so it stores the corrected list, not the one beginning with `)` that the code as written stores.
- DirectiveParser.Lex: the `#define` lines it runs go through `ParseDirective`, so a call to `lex` stores the corrected list, not the one beginning with `)` that the code as written stores.
- DirectiveProperties.DefineDirectiveAddsMacro: the macro it binds is the one the corrected `ParseMacro` parses. For a function-like macro, the code as written would bind the list with `)` in front.
- DirectiveProperties.DefineDirectiveRedefines: the macro it compares with the entry is the one the corrected `ParseMacro` parses. For a function-like macro, the code as written would compare the list with `)` in front.

## Findings

| source | as written | input that shows it | evidently intended | confidence | as-written member | corrected member |
|---|---|---|---|---|---|---|
| src/compiler/preprocessor/new/DirectiveParser.cpp:173-190 | when the parameter list is closed by `)`, no further token is lexed, so the capture loop starts on the `)` and stores it as the first replacement token | `#define F(x) x` followed by a newline stores the replacement list `) x` | lex past the `)` so that the list is `x`, the tokens after the parameter list | not executed; the counterexample is proved for the model | DirectiveParser.ParseMacroAsWritten, DirectiveParser.ParseDefineAsWritten, DirectiveProperties.AsWrittenStoresCloseParen, DirectiveProperties.CloseParenExample, DirectiveProperties.CloseParenExampleDefine | DirectiveParser.ParseMacro, DirectiveParser.ParseDefine, DirectiveProperties.FunctionLikeReplacements |

`ParseDefine`, and through it `ParseDirective` and `Lex`, use the corrected `ParseMacro`; `ParseDefineAsWritten` is the `#define` handler as written.
