/** The two .NET string tests the provider client relies on. */
module Strings {

  /** `char.IsWhiteSpace`: the Unicode space, line and paragraph separators,
      the C0 controls TAB to CR, NEXT LINE and NO-BREAK SPACE. */
  predicate IsWhiteSpace(c: char)
  {
    || c == ' ' || ('\t' <= c <= '\r') || c == '\U{85}' || c == '\U{A0}'
    || c == '\U{1680}' || ('\U{2000}' <= c <= '\U{200A}')
    || c == '\U{2028}' || c == '\U{2029}'
    || c == '\U{202F}' || c == '\U{205F}' || c == '\U{3000}'
  }

  /** `string.IsNullOrWhiteSpace` on a non-null string: empty, or nothing
      but white space. */
  predicate IsNullOrWhiteSpace(s: string)
    ensures IsNullOrWhiteSpace(s) <==> forall i :: 0 <= i < |s| ==> IsWhiteSpace(s[i])
  {
    |s| == 0 || (IsWhiteSpace(s[0]) && IsNullOrWhiteSpace(s[1..]))
  }

  /** A visible ASCII character is not white space, so a body holding one
      (a JSON brace, say) is not blank. */
  lemma VisibleCharNotBlank(s: string, i: int)
    requires 0 <= i < |s| && '!' <= s[i] <= '~'
    ensures !IsWhiteSpace(s[i]) && !IsNullOrWhiteSpace(s)
  {
  }

  /** `value` occurs in `s` starting at index `i`. */
  predicate OccursAt(s: string, value: string, i: int)
  {
    0 <= i <= |s| - |value| && s[i..i + |value|] == value
  }

  /** `string.Contains(value)` with ordinal comparison: `value` occurs in `s`
      at some position. */
  predicate Contains(s: string, value: string)
    ensures Contains(s, value) <==> exists i :: OccursAt(s, value, i)
    decreases |s|
  {
    if |value| > |s| then
      false
    else if s[..|value|] == value then
      assert OccursAt(s, value, 0);
      true
    else
      assert forall i :: OccursAt(s[1..], value, i) <==> OccursAt(s, value, i + 1) by {
        forall i ensures OccursAt(s[1..], value, i) <==> OccursAt(s, value, i + 1) {
          if 0 <= i <= |s| - 1 - |value| {
            assert s[1..][i..i + |value|] == s[i + 1..i + 1 + |value|];
          }
        }
      }
      assert !OccursAt(s, value, 0);
      assert (exists i :: OccursAt(s, value, i)) ==> exists j :: OccursAt(s[1..], value, j) by {
        if exists i :: OccursAt(s, value, i) {
          var i :| OccursAt(s, value, i);
          assert OccursAt(s[1..], value, i - 1);
        }
      }
      Contains(s[1..], value)
  }
}
