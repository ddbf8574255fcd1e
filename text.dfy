/** The string operations the validators and the name/title filters rely on. */
module Text {

  /** String.trim() removes every leading and trailing char whose code is at most U+0020. */
  predicate IsTrimmable(c: char) {
    c <= ' '
  }

  /** Both ends of `s` (if any) are chars that trim() keeps. */
  predicate HasCleanEdges(s: string) {
    s == [] || (!IsTrimmable(s[0]) && !IsTrimmable(s[|s| - 1]))
  }

  /** Drops the leading trimmable chars: the result is the suffix that starts at the first kept char. */
  function TrimStart(s: string): (r: string)
    ensures |r| <= |s| && r == s[|s| - |r|..]
    ensures forall k :: 0 <= k < |s| - |r| ==> IsTrimmable(s[k])
    ensures r == [] || !IsTrimmable(r[0])
  {
    if s != [] && IsTrimmable(s[0]) then TrimStart(s[1..]) else s
  }

  /** Drops the trailing trimmable chars: the result is the prefix that ends at the last kept char. */
  function TrimEnd(s: string): (r: string)
    ensures |r| <= |s| && r == s[..|r|]
    ensures forall k :: |r| <= k < |s| ==> IsTrimmable(s[k])
    ensures r == [] || !IsTrimmable(r[|r| - 1])
  {
    if s != [] && IsTrimmable(s[|s| - 1]) then TrimEnd(s[..|s| - 1]) else s
  }

  /** `r` sits at index `i` of `s`, and every char of `s` before or after it is trimmable. */
  predicate PaddedAt(s: string, r: string, i: int) {
    0 <= i <= |s| - |r| && r == s[i..i + |r|]
    && (forall k :: 0 <= k < i ==> IsTrimmable(s[k]))
    && (forall k :: i + |r| <= k < |s| ==> IsTrimmable(s[k]))
  }

  /**
   * java.lang.String.trim(): the result is the infix of `s` left once the trimmable chars before
   * and after it are dropped, and it has clean edges.
   */
  function Trim(s: string): (r: string)
    ensures |r| <= |s| && HasCleanEdges(r)
    ensures exists i :: PaddedAt(s, r, i)
    ensures (forall k :: 0 <= k < |s| ==> IsTrimmable(s[k])) ==> r == []
  {
    TrimPaddedAt(s);
    TrimEnd(TrimStart(s))
  }

  /** The two trimming passes leave the infix at index |s| - |TrimStart(s)|. */
  lemma TrimPaddedAt(s: string)
    ensures PaddedAt(s, TrimEnd(TrimStart(s)), |s| - |TrimStart(s)|)
  {
    PrefixOfSuffixPaddedAt(s, TrimStart(s), TrimEnd(TrimStart(s)));
  }

  /** A prefix `r` of a suffix `t` of `s`, with only trimmable chars cut off, is padded in `s`. */
  lemma PrefixOfSuffixPaddedAt(s: string, t: string, r: string)
    requires |t| <= |s| && t == s[|s| - |t|..]
    requires forall k :: 0 <= k < |s| - |t| ==> IsTrimmable(s[k])
    requires |r| <= |t| && r == t[..|r|]
    requires forall k :: |r| <= k < |t| ==> IsTrimmable(t[k])
    ensures PaddedAt(s, r, |s| - |t|)
  {
    var i := |s| - |t|;
    assert r == s[i..i + |r|];
    forall k | i + |r| <= k < |s| ensures IsTrimmable(s[k]) {
      assert s[k] == t[k - i];
    }
  }

  lemma {:induction false} TrimStartPadded(pre: string, s: string)
    requires forall k :: 0 <= k < |pre| ==> IsTrimmable(pre[k])
    requires s == [] || !IsTrimmable(s[0])
    ensures TrimStart(pre + s) == s
  {
    if pre != [] {
      assert (pre + s)[1..] == pre[1..] + s;
      TrimStartPadded(pre[1..], s);
    } else {
      assert pre + s == s;
    }
  }

  lemma {:induction false} TrimEndPadded(s: string, post: string)
    requires forall k :: 0 <= k < |post| ==> IsTrimmable(post[k])
    requires s == [] || !IsTrimmable(s[|s| - 1])
    ensures TrimEnd(s + post) == s
  {
    if post != [] {
      var last := |post| - 1;
      assert (s + post)[..|s + post| - 1] == s + post[..last];
      TrimEndPadded(s, post[..last]);
    } else {
      assert s + post == s;
    }
  }

  /** Surrounding a string with clean edges by trimmable padding does not change what trim() returns. */
  lemma TrimPadded(pre: string, s: string, post: string)
    requires forall k :: 0 <= k < |pre| ==> IsTrimmable(pre[k])
    requires forall k :: 0 <= k < |post| ==> IsTrimmable(post[k])
    requires s != [] && HasCleanEdges(s)
    ensures Trim(pre + s + post) == s
  {
    assert pre + s + post == pre + (s + post);
    TrimStartPadded(pre, s + post);
    TrimEndPadded(s, post);
  }

  /** trim() is idempotent. */
  lemma TrimIdempotent(s: string)
    ensures Trim(Trim(s)) == Trim(s)
  {
    var t := Trim(s);
    if t != [] {
      TrimPadded([], t, []);
      assert [] + t + [] == t;
    }
  }

  /**
   * ASCII lower-casing of one char, as SQL lower() does and as String.toLowerCase() does under a
   * default locale that maps ASCII capitals to ASCII (any locale but Turkish and Azeri, where
   * 'I' lowers to U+0131).
   */
  function LowerChar(c: char): char {
    if 'A' <= c <= 'Z' then (c as int + 32) as char else c
  }

  function Lower(s: string): (r: string)
    ensures |r| == |s| && forall k :: 0 <= k < |s| ==> r[k] == LowerChar(s[k])
  {
    seq(|s|, k requires 0 <= k < |s| => LowerChar(s[k]))
  }

  /** `needle` occurs in `hay` starting at index `i`. */
  predicate OccursAt(hay: string, needle: string, i: int)
    requires 0 <= i && i + |needle| <= |hay|
  {
    hay[i..i + |needle|] == needle
  }

  /** `needle` is a substring of `hay`. */
  predicate Contains(hay: string, needle: string) {
    exists i :: 0 <= i && i + |needle| <= |hay| && OccursAt(hay, needle, i)
  }

  /** The meaning of `lower(field) LIKE '%' + needle.toLowerCase() + '%'` for a needle without wildcards. */
  predicate ContainsIgnoreCase(hay: string, needle: string) {
    Contains(Lower(hay), Lower(needle))
  }

  /** An empty search string matches every value. */
  lemma EmptyNeedleMatches(hay: string)
    ensures ContainsIgnoreCase(hay, [])
  {
    assert OccursAt(Lower(hay), Lower([]), 0);
  }

  /** A value matches every search string it contains literally. */
  lemma InfixMatches(before: string, needle: string, after: string)
    ensures ContainsIgnoreCase(before + needle + after, needle)
  {
    var hay := before + needle + after;
    var i := |before|;
    assert Lower(hay)[i..i + |needle|] == Lower(needle) by {
      forall k | 0 <= k < |needle|
        ensures Lower(hay)[i..i + |needle|][k] == Lower(needle)[k]
      {
        assert hay[i + k] == needle[k];
      }
    }
    assert OccursAt(Lower(hay), Lower(needle), i);
  }

  /** Lower-casing twice is lower-casing once: a lowered char is no ASCII capital. */
  lemma LowerIdempotent(s: string)
    ensures Lower(Lower(s)) == Lower(s)
  {
    forall k | 0 <= k < |s| ensures Lower(Lower(s))[k] == Lower(s)[k] {
      assert !('A' <= LowerChar(s[k]) <= 'Z');
    }
  }

  /** Since lower-casing is idempotent, the case of either side of the match does not matter. */
  lemma MatchIgnoresCase(hay: string, needle: string)
    ensures ContainsIgnoreCase(Lower(hay), Lower(needle)) == ContainsIgnoreCase(hay, needle)
  {
    LowerIdempotent(hay);
    LowerIdempotent(needle);
  }
}
