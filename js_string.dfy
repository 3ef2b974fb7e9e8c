/**
 * The part of JavaScript's string semantics the habit editor relies on:
 * String.prototype.trim, and the truthiness test `!s.trim()` that rejects a
 * name made only of white space.
 */
module JsString {

  /**
   * The characters trim removes: the ECMAScript WhiteSpace set (tab, vertical
   * tab, form feed, no-break space, the byte order mark and every "space
   * separator" of Unicode) together with the LineTerminator set.
   */
  predicate IsWhitespace(c: char) {
    var n := c as int;
    || n == 0x09 || n == 0x0A || n == 0x0B || n == 0x0C || n == 0x0D
    || n == 0x20 || n == 0xA0 || n == 0x1680
    || (0x2000 <= n <= 0x200A)
    || n == 0x2028 || n == 0x2029 || n == 0x202F || n == 0x205F
    || n == 0x3000 || n == 0xFEFF
  }

  /** Every character of `s` is white space (vacuously true of ""). */
  predicate AllWhitespace(s: string) {
    forall i :: 0 <= i < |s| ==> IsWhitespace(s[i])
  }

  /** Drops the leading white space: the result is the longest suffix that does not start with it. */
  function TrimStart(s: string): (r: string)
    ensures |r| <= |s| && r == s[|s| - |r|..]
    ensures AllWhitespace(s[..|s| - |r|])
    ensures r != [] ==> !IsWhitespace(r[0])
    decreases |s|
  {
    if s != [] && IsWhitespace(s[0]) then
      var rest := TrimStart(s[1..]);
      assert s[1..][..|s| - 1 - |rest|] == s[1..|s| - |rest|];
      rest
    else
      s
  }

  /** Drops the trailing white space: the result is the longest prefix that does not end with it. */
  function TrimEnd(s: string): (r: string)
    ensures |r| <= |s| && r == s[..|r|]
    ensures AllWhitespace(s[|r|..])
    ensures r != [] ==> !IsWhitespace(r[|r| - 1])
    decreases |s|
  {
    if s != [] && IsWhitespace(s[|s| - 1]) then
      var rest := TrimEnd(s[..|s| - 1]);
      assert s[..|s| - 1][|rest|..] + [s[|s| - 1]] == s[|rest|..];
      rest
    else
      s
  }

  /** String.prototype.trim: white space removed from both ends. */
  function Trim(s: string): string {
    TrimEnd(TrimStart(s))
  }

  /**
   * What trim yields: a contiguous slice s[lo..hi] of the input, with only
   * white space cut off on either side and none left at either end.
   */
  lemma TrimIsSlice(s: string)
    ensures exists lo, hi ::
              && 0 <= lo <= hi <= |s| && Trim(s) == s[lo..hi]
              && AllWhitespace(s[..lo]) && AllWhitespace(s[hi..])
    ensures Trim(s) != [] ==> !IsWhitespace(Trim(s)[0]) && !IsWhitespace(Trim(s)[|Trim(s)| - 1])
  {
    var t := TrimStart(s);
    var lo := |s| - |t|;
    var hi := lo + |TrimEnd(t)|;
    assert Trim(s) == s[lo..hi];
    assert s[hi..] == t[|TrimEnd(t)|..];
  }

  /** The name test of the editor: `!s.trim()` holds exactly when trim leaves the empty string. */
  predicate IsBlank(s: string) {
    Trim(s) == []
  }

  /** A name is blank exactly when every character of it is white space. */
  lemma BlankIffAllWhitespace(s: string)
    ensures IsBlank(s) <==> AllWhitespace(s)
  {
  }

  /** Trimming twice removes nothing more. */
  lemma TrimIdempotent(s: string)
    ensures Trim(Trim(s)) == Trim(s)
  {
  }
}
