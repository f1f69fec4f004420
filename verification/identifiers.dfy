/**
 Identifier validation and boolean conversion used by the `input` statement.
 Character classes follow the "C" locale: letters are the ASCII letters only.
 */
module Identifiers {

  /** Reserved words of the logic statements. */
  const LogicKeywords: set<string> := {"and", "or", "not", "min", "set"}

  /** Reserved words of the two built-in statements. */
  const FunctionKeywords: set<string> := {"print", "input"}

  predicate IsLetter(c: char)
  {
    'A' <= c <= 'Z' || 'a' <= c <= 'z'
  }

  predicate IsDigit(c: char)
  {
    '0' <= c <= '9'
  }

  predicate IsWordChar(c: char)
  {
    IsLetter(c) || IsDigit(c) || c == '_'
  }

  /** The loop over the characters after the first: false at the first bad one. */
  function TailIsWordChars(s: string, i: nat): (r: bool)
    requires i <= |s|
    ensures r <==> forall j :: i <= j < |s| ==> IsWordChar(s[j])
    decreases |s| - i
  {
    if i == |s| then true
    else if !IsWordChar(s[i]) then false
    else TailIsWordChars(s, i + 1)
  }

  /**
   The identifier check of the `input` statement. The keyword test requires
   membership in BOTH keyword sets, which are disjoint, so it never rejects:
   the result depends on the character classes alone.
   */
  function IsValidCppIdentifier(s: string): (r: bool)
    ensures r <==> 0 < |s| && (IsLetter(s[0]) || s[0] == '_')
                   && forall j :: 1 <= j < |s| ==> IsWordChar(s[j])
  {
    if |s| == 0 then false
    else if !IsLetter(s[0]) && s[0] != '_' then false
    else if !TailIsWordChars(s, 1) then false
    else if s in LogicKeywords && s in FunctionKeywords then false
    else true
  }

  /** Every reserved word passes the identifier check. */
  lemma KeywordsAreAccepted(k: string)
    requires k in LogicKeywords + FunctionKeywords
    ensures IsValidCppIdentifier(k)
  {
  }

  /** Only the exact text "1" converts to true. */
  function ConvertToBool(s: string): bool
  {
    s == "1"
  }

  /**
   The two literals read back as the values they spell; every other text,
   including the empty word read at the end of the input and spellings such
   as "true" or "01", reads as false.
   */
  lemma ConvertToBoolLiterals(b: bool, s: string)
    ensures ConvertToBool(if b then "1" else "0") == b
    ensures s != "1" ==> !ConvertToBool(s)
    ensures !ConvertToBool("") && !ConvertToBool("true") && !ConvertToBool("01")
  {
  }
}
