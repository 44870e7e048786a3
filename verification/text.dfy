/** Character classes and string operations the pipeline relies on.

    Characters follow an ASCII model: Python's `str.lower`, the regular
    expression classes `\w` and `\s` and `str.strip` are Unicode-aware; here
    only their ASCII part is modelled, and every non-ASCII character is
    treated as neither a word character nor whitespace.
 */
module Text {

  /** Python's whitespace restricted to ASCII: \t \n \v \f \r (9-13), the
      separators \x1c-\x1f (28-31) and the space (32). The same class is used
      by the regular expression `\s` and by `str.strip()`. */
  predicate IsSpace(c: char) {
    var n := c as int;
    (9 <= n <= 13) || (28 <= n <= 32)
  }

  predicate IsUpper(c: char) {
    'A' <= c <= 'Z'
  }

  predicate IsLower(c: char) {
    'a' <= c <= 'z'
  }

  predicate IsDigit(c: char) {
    '0' <= c <= '9'
  }

  /** The regular expression class `\w`: letters, digits and the underscore. */
  predicate IsWordChar(c: char) {
    IsUpper(c) || IsLower(c) || IsDigit(c) || c == '_'
  }

  /** `str.lower` on one character. */
  function LowerChar(c: char): (d: char)
    ensures !IsUpper(d)
    ensures IsUpper(c) ==> IsLower(d) && d as int - c as int == 32
    ensures !IsUpper(c) ==> d == c
  {
    if IsUpper(c) then (c as int + 32) as char else c
  }

  /** `str.lower` on a string. */
  function ToLower(s: string): (r: string)
    ensures |r| == |s|
    ensures forall i :: 0 <= i < |s| ==> r[i] == LowerChar(s[i])
  {
    seq(|s|, i requires 0 <= i < |s| => LowerChar(s[i]))
  }

  predicate HasNoUpper(s: string) {
    forall i :: 0 <= i < |s| ==> !IsUpper(s[i])
  }

  lemma LowerHasNoUpper(s: string)
    ensures HasNoUpper(ToLower(s))
  {
  }

  /** Lower-casing a string that has no upper-case letter changes nothing;
      in particular lower-casing is idempotent. */
  lemma LowerOfLowerIsIdentity(s: string)
    requires HasNoUpper(s)
    ensures ToLower(s) == s
  {
  }

  lemma ToLowerIdempotent(s: string)
    ensures ToLower(ToLower(s)) == ToLower(s)
  {
    LowerOfLowerIsIdentity(ToLower(s));
  }

  /** Lower-casing commutes with slicing. */
  lemma LowerOfSlice(s: string, i: nat, j: nat)
    requires i <= j <= |s|
    ensures ToLower(s[i..j]) == ToLower(s)[i..j]
  {
  }

  // ---------------------------------------------------------------------------
  // Substring membership: Python's `needle in hay`.

  /** `needle` occurs in `hay` starting at position `i`. */
  predicate OccursAt(needle: string, hay: string, i: nat) {
    i + |needle| <= |hay| && hay[i..i + |needle|] == needle
  }

  /** The reference meaning of `needle in hay`: some window of `hay` equals `needle`. */
  ghost predicate Occurs(needle: string, hay: string) {
    exists i: nat :: OccursAt(needle, hay, i)
  }

  /** The executable substring test: try every start position left to right. */
  function Contains(hay: string, needle: string): (found: bool)
    ensures found <==> Occurs(needle, hay)
    decreases |hay|
  {
    if |needle| > |hay| then
      assert forall i: nat :: !OccursAt(needle, hay, i);
      false
    else if hay[..|needle|] == needle then
      assert OccursAt(needle, hay, 0);
      true
    else
      var rest := Contains(hay[1..], needle);
      assert forall i: nat :: OccursAt(needle, hay[1..], i) <==> OccursAt(needle, hay, i + 1) by {
        forall i: nat ensures OccursAt(needle, hay[1..], i) <==> OccursAt(needle, hay, i + 1) {
          if i + |needle| <= |hay[1..]| {
            assert hay[1..][i..i + |needle|] == hay[i + 1..i + 1 + |needle|];
          }
        }
      }
      assert Occurs(needle, hay) ==> Occurs(needle, hay[1..]) by {
        if Occurs(needle, hay) {
          var i: nat :| OccursAt(needle, hay, i);
          assert i != 0;
          assert OccursAt(needle, hay[1..], i - 1);
        }
      }
      rest
  }

  /** Occurrence is transitive: a substring of a substring is a substring. */
  lemma OccursTransitive(a: string, b: string, c: string)
    requires Occurs(a, b) && Occurs(b, c)
    ensures Occurs(a, c)
  {
    var i: nat :| OccursAt(a, b, i);
    var j: nat :| OccursAt(b, c, j);
    forall k | 0 <= k < |a|
      ensures c[j + i + k] == a[k]
    {
      assert c[j..j + |b|][i + k] == b[i + k];
    }
    assert OccursAt(a, c, j + i);
  }

  /** Lower-casing preserves occurrences. */
  lemma OccursLower(a: string, b: string)
    requires Occurs(a, b)
    ensures Occurs(ToLower(a), ToLower(b))
  {
    var i: nat :| OccursAt(a, b, i);
    LowerOfSlice(b, i, i + |a|);
    assert OccursAt(ToLower(a), ToLower(b), i);
  }

  // ---------------------------------------------------------------------------
  // `str.strip()`: remove whitespace at both ends.

  /** The first position at or after `i` that is not whitespace, or `|s|`. */
  function SkipSpace(s: string, i: nat): (j: nat)
    requires i <= |s|
    ensures i <= j <= |s|
    ensures forall k :: i <= k < j ==> IsSpace(s[k])
    ensures j == |s| || !IsSpace(s[j])
    decreases |s| - i
  {
    if i < |s| && IsSpace(s[i]) then SkipSpace(s, i + 1) else i
  }

  /** The end of `s[lo..j]` with trailing whitespace removed. */
  function SkipSpaceBack(s: string, lo: nat, j: nat): (e: nat)
    requires lo <= j <= |s|
    ensures lo <= e <= j
    ensures forall k :: e <= k < j ==> IsSpace(s[k])
    ensures e == lo || !IsSpace(s[e - 1])
    decreases j - lo
  {
    if lo < j && IsSpace(s[j - 1]) then SkipSpaceBack(s, lo, j - 1) else j
  }

  /** No whitespace at either end. */
  predicate IsTrimmed(s: string) {
    s == [] || (!IsSpace(s[0]) && !IsSpace(s[|s| - 1]))
  }

  /** `r` is `s[i..j]` and everything outside `[i, j)` is whitespace. */
  predicate CutsSpaceOnly(s: string, r: string, i: nat, j: nat) {
    && i <= j <= |s| && r == s[i..j]
    && (forall k :: 0 <= k < i ==> IsSpace(s[k]))
    && (forall k :: j <= k < |s| ==> IsSpace(s[k]))
  }

  /** `str.strip()`: the result is a contiguous piece of the input, everything
      cut off is whitespace, and nothing left at the ends is. */
  function Strip(s: string): (r: string)
    ensures IsTrimmed(r)
    ensures exists i: nat, j: nat :: CutsSpaceOnly(s, r, i, j)
  {
    var i := SkipSpace(s, 0);
    var j := SkipSpaceBack(s, i, |s|);
    assert CutsSpaceOnly(s, s[i..j], i, j);
    s[i..j]
  }

  /** Stripping an already trimmed string changes nothing. */
  lemma StripTrimmed(s: string)
    requires IsTrimmed(s)
    ensures Strip(s) == s
  {
  }
}
