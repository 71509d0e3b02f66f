/** The diagnostics the directive layer reports. */
module Diagnostics {
  import opened Tokens

  datatype DiagnosticKind =
    | UnexpectedTokenInDirective
    | EofInDirective
    | MacroNameReserved
    | MacroRedefined

  /** One report: its kind, where it points and the text it carries. */
  datatype Diagnostic = Diagnostic(kind: DiagnosticKind, location: SourceLocation, text: string)

  /** A report about a token: at the token's location, carrying its text. */
  function About(kind: DiagnosticKind, t: Token): Diagnostic
  {
    Diagnostic(kind, t.location, t.value)
  }
}
