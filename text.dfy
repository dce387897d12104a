/**
 * `String.prototype.trim` and JavaScript truthiness of strings, as the use
 * cases test their text fields with `!s || !s.trim()`.
 */
module Text {
  import opened Wrappers

  /** ECMAScript WhiteSpace and LineTerminator code points, which `trim` strips. */
  predicate IsWhitespace(c: char) {
    var n := c as int;
    n == 0x09 || n == 0x0A || n == 0x0B || n == 0x0C || n == 0x0D || n == 0x20
    || n == 0xA0 || n == 0x1680 || (0x2000 <= n <= 0x200A) || n == 0x2028
    || n == 0x2029 || n == 0x202F || n == 0x205F || n == 0x3000 || n == 0xFEFF
  }

  /** Every character is whitespace (the empty string included). */
  predicate Blank(s: string) {
    forall i :: 0 <= i < |s| ==> IsWhitespace(s[i])
  }

  /** Leading whitespace removed: the longest suffix that does not start with whitespace. */
  function TrimStart(s: string): (t: string)
    ensures |t| <= |s| && t == s[|s| - |t|..]
    ensures forall i :: 0 <= i < |s| - |t| ==> IsWhitespace(s[i])
    ensures t != [] ==> !IsWhitespace(t[0])
  {
    if s != [] && IsWhitespace(s[0]) then TrimStart(s[1..]) else s
  }

  /** Trailing whitespace removed: the longest prefix that does not end with whitespace. */
  function TrimEnd(s: string): (t: string)
    ensures |t| <= |s| && t == s[..|t|]
    ensures forall i :: |t| <= i < |s| ==> IsWhitespace(s[i])
    ensures t != [] ==> !IsWhitespace(t[|t| - 1])
  {
    if s != [] && IsWhitespace(s[|s| - 1]) then TrimEnd(s[..|s| - 1]) else s
  }

  /**
   * `s.trim()`: the piece of `s` left after its leading whitespace, with
   * neither leading nor trailing whitespace; it is empty exactly when `s` is
   * blank.
   */
  function Trim(s: string): (t: string)
    ensures var k := |s| - |TrimStart(s)|; k + |t| <= |s| && t == s[k..k + |t|]
    ensures var k := |s| - |TrimStart(s)|; forall i :: 0 <= i < k ==> IsWhitespace(s[i])
    ensures var k := |s| - |TrimStart(s)|; forall i :: k + |t| <= i < |s| ==> IsWhitespace(s[i])
    ensures t != [] ==> !IsWhitespace(t[0]) && !IsWhitespace(t[|t| - 1])
    ensures t == [] <==> Blank(s)
  {
    TrimmedTail(s, TrimStart(s));
    TrimEnd(TrimStart(s))
  }

  /** What `TrimEnd` drops from a suffix `u` of `s` is whitespace of `s`. */
  lemma TrimmedTail(s: string, u: string)
    requires |u| <= |s| && u == s[|s| - |u|..]
    ensures forall i :: |s| - |u| + |TrimEnd(u)| <= i < |s| ==> IsWhitespace(s[i])
  {
    var k := |s| - |u|;
    forall i | k + |TrimEnd(u)| <= i < |s| ensures IsWhitespace(s[i]) {
      assert s[i] == u[i - k];
    }
  }

  /** `!s || !s.trim()`: the field is undefined, empty or whitespace only. */
  predicate MissingOrBlank(s: Option<string>) {
    s.None? || s.value == "" || Trim(s.value) == ""
  }

  /** The guard `!s || !s.trim()` rejects exactly the undefined and the blank fields. */
  lemma MissingOrBlankMeaning(s: Option<string>)
    ensures MissingOrBlank(s) <==> s.None? || Blank(s.value)
  {
    if s.Some? {
      var _ := Trim(s.value);
    }
  }

  /** A field whose first character is visible passes the guard. */
  lemma VisibleFirstNotBlank(s: string)
    requires s != [] && !IsWhitespace(s[0])
    ensures !MissingOrBlank(Some(s))
  {
    var _ := Trim(s);
  }
}
