/** Macro definitions, the macro table and the reserved-name rule. */
module Macros {
  import opened Strings
  import opened Tokens

  datatype MacroKind = Obj | Func

  /** A macro as `#define` records it. Two macros are equal when every field
      is; replacement tokens have their locations reset before they are
      stored, so two definitions of the same text compare equal. */
  datatype Macro = Macro(kind: MacroKind, name: string, parameters: seq<string>, replacements: seq<Token>)

  /** At most one definition per name. */
  type MacroTable = map<string, Macro>

  predicate HasGlPrefix(name: string)
  {
    |name| >= 3 && name[..3] == "GL_"
  }

  predicate DoubleUnderscoreAt(name: string, i: nat)
  {
    i + 1 < |name| && name[i] == '_' && name[i + 1] == '_'
  }

  predicate HasDoubleUnderscore(name: string)
  {
    exists i | 0 <= i < |name| :: DoubleUnderscoreAt(name, i)
  }

  /** Names starting with "GL_" or containing "__" anywhere are reserved. */
  function IsMacroNameReserved(name: string): (r: bool)
    ensures r <==> HasGlPrefix(name) || HasDoubleUnderscore(name)
  {
    FindMatchesDoubleUnderscore(name);
    if Substr(name, 0, 3) == "GL_" then true
    else if Find(name, "__", 0).Some? then true
    else false
  }

  /** No reserved name has a definition in the table. */
  predicate NoReservedNames(t: MacroTable)
  {
    forall n | n in t :: !IsMacroNameReserved(n)
  }

  /** Looking for "__" finds something exactly when two underscores are adjacent. */
  lemma FindMatchesDoubleUnderscore(name: string)
    ensures Find(name, "__", 0).Some? <==> HasDoubleUnderscore(name)
  {
    forall i: nat
      ensures OccursAt(name, "__", i) <==> DoubleUnderscoreAt(name, i)
    {
      if i + 2 <= |name| {
        assert name[i..i + 2][0] == name[i] && name[i..i + 2][1] == name[i + 1];
        if name[i] == '_' && name[i + 1] == '_' {
          assert name[i..i + 2] == "__";
        }
      }
    }
    var r := Find(name, "__", 0);
    if r.Some? {
      assert DoubleUnderscoreAt(name, r.value);
    }
  }
}
