/** Python's `str.strip()` with no argument: removal of leading and trailing
    whitespace, where "whitespace" is what `str.isspace` accepts. */
module PyText {

  /** The code points for which Python 3's `str.isspace` is true: the ASCII
      controls TAB..CR and FS..US, SPACE, NEL, NO-BREAK SPACE, OGHAM SPACE
      MARK, EN QUAD..HAIR SPACE, LINE and PARAGRAPH SEPARATOR, NARROW NO-BREAK
      SPACE, MEDIUM MATHEMATICAL SPACE and IDEOGRAPHIC SPACE. */
  predicate IsSpace(c: char) {
    || ('\U{0009}' <= c <= '\U{000D}')
    || ('\U{001C}' <= c <= '\U{001F}')
    || c == ' '
    || c == '\U{0085}'
    || c == '\U{00A0}'
    || c == '\U{1680}'
    || ('\U{2000}' <= c <= '\U{200A}')
    || c == '\U{2028}'
    || c == '\U{2029}'
    || c == '\U{202F}'
    || c == '\U{205F}'
    || c == '\U{3000}'
  }

  /** Every character of `s` is whitespace (in particular, `s` may be empty). */
  predicate AllSpace(s: string) {
    forall k | 0 <= k < |s| :: IsSpace(s[k])
  }

  /** `s` neither starts nor ends with whitespace. */
  predicate NoEdgeSpace(s: string) {
    |s| == 0 || (!IsSpace(s[0]) && !IsSpace(s[|s| - 1]))
  }

  /** The first index at or after `i` that does not hold whitespace, or
      `|s|` if there is none. */
  function SkipSpaces(s: string, i: nat): (n: nat)
    requires i <= |s|
    ensures i <= n <= |s|
    ensures forall k | i <= k < n :: IsSpace(s[k])
    ensures n < |s| ==> !IsSpace(s[n])
    decreases |s| - i
  {
    if i == |s| || !IsSpace(s[i]) then i
    else SkipSpaces(s, i + 1)
  }

  /** The last index up to `j` such that `s[n - 1]` is not whitespace, or 0 if
      `s[..j]` is whitespace only: `s[n..j]` is the trailing whitespace. */
  function SkipSpacesBack(s: string, j: nat): (n: nat)
    requires j <= |s|
    ensures n <= j
    ensures forall k | n <= k < j :: IsSpace(s[k])
    ensures n > 0 ==> !IsSpace(s[n - 1])
  {
    if j == 0 || !IsSpace(s[j - 1]) then j
    else SkipSpacesBack(s, j - 1)
  }

  /** `s.strip()`: `s` with its leading and trailing whitespace removed;
      empty exactly when `s` is whitespace only. */
  function Strip(s: string): (r: string)
    ensures NoEdgeSpace(r)
    ensures |r| == 0 <==> AllSpace(s)
  {
    var i := SkipSpaces(s, 0);
    if i == |s| then []
    else s[i..SkipSpacesBack(s, |s|)]
  }

  /** Where the stripped text sits in `s`, when `s` is not all whitespace. */
  lemma StripBounds(s: string)
    requires !AllSpace(s)
    ensures SkipSpaces(s, 0) < SkipSpacesBack(s, |s|)
    ensures Strip(s) == s[SkipSpaces(s, 0)..SkipSpacesBack(s, |s|)]
  {}

  /** Every non-whitespace character of `s` lies inside the stripped part. */
  lemma NonSpaceIsKept(s: string, k: nat)
    requires k < |s| && !IsSpace(s[k])
    ensures SkipSpaces(s, 0) <= k < SkipSpacesBack(s, |s|)
  {}

  /** Strip removes only whitespace: the result sits in `s` between an
      all-whitespace prefix and an all-whitespace suffix. */
  lemma StripSplits(s: string)
    ensures exists i, j :: 0 <= i <= j <= |s| && Strip(s) == s[i..j] && AllSpace(s[..i]) && AllSpace(s[j..])
  {
    if AllSpace(s) {
      assert Strip(s) == s[0..0] && AllSpace(s[..0]) && s[0..] == s;
    } else {
      StripBounds(s);
      var i, j := SkipSpaces(s, 0), SkipSpacesBack(s, |s|);
      assert AllSpace(s[..i]) && AllSpace(s[j..]);
    }
  }

  /** Strip is characterised by the split it picks: whatever whitespace
      surrounds a string without edge whitespace, stripping recovers it. */
  lemma StripUnique(a: string, m: string, b: string)
    requires AllSpace(a) && AllSpace(b) && NoEdgeSpace(m)
    ensures Strip(a + m + b) == m
  {
    var s := a + m + b;
    if |m| == 0 {
      assert AllSpace(s) by {
        forall k | 0 <= k < |s| ensures IsSpace(s[k]) {
          if k < |a| { assert s[k] == a[k]; } else { assert s[k] == b[k - |a|]; }
        }
      }
    } else {
      assert s[|a|] == m[0] && s[|a| + |m| - 1] == m[|m| - 1];
      assert forall k | 0 <= k < |a| :: s[k] == a[k];
      assert forall k | |a| + |m| <= k < |s| :: s[k] == b[k - |a| - |m|];
      assert SkipSpaces(s, 0) == |a|;
      assert SkipSpacesBack(s, |s|) == |a| + |m|;
      assert s[|a|..|a| + |m|] == m;
    }
  }

  /** A string without edge whitespace is left as it is. */
  lemma StripKeepsUnpadded(s: string)
    requires NoEdgeSpace(s)
    ensures Strip(s) == s
  {
    assert [] + s + [] == s;
    StripUnique([], s, []);
  }

  /** Stripping twice is stripping once. */
  lemma StripIdempotent(s: string)
    ensures Strip(Strip(s)) == Strip(s)
  {
    StripKeepsUnpadded(Strip(s));
  }

  /** Stripping never adds or removes a character that is not whitespace. */
  lemma StripKeeps(s: string, c: char)
    requires !IsSpace(c)
    ensures c in Strip(s) <==> c in s
  {
    if !AllSpace(s) {
      StripBounds(s);
      var i := SkipSpaces(s, 0);
      if c in s {
        var k :| 0 <= k < |s| && s[k] == c;
        NonSpaceIsKept(s, k);
        assert Strip(s)[k - i] == c;
      }
      if c in Strip(s) {
        var k :| 0 <= k < |Strip(s)| && Strip(s)[k] == c;
        assert s[i + k] == c;
      }
    }
  }
}
