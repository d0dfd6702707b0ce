/** The parts of Python's `str` that the report service relies on:
    `isspace`, `strip()`, `endswith()`, the substring test `in` and `upper()`. */
module PyStr {

  /** Python's `str.isspace` for one character: the ASCII whitespace and
      separator controls, NEL, NO-BREAK SPACE and the Unicode space separators. */
  predicate IsSpace(c: char) {
    c == ' ' || ('\t' <= c <= '\r') || ('\U{1C}' <= c <= '\U{1F}')
    || c == '\U{85}' || c == '\U{A0}' || c == '\U{1680}'
    || ('\U{2000}' <= c <= '\U{200A}') || c == '\U{2028}' || c == '\U{2029}'
    || c == '\U{202F}' || c == '\U{205F}' || c == '\U{3000}'
  }

  /** On ASCII, the only printable whitespace is the space; tab, line feed,
      vertical tab, form feed and carriage return are whitespace too. */
  lemma AsciiSpace(c: char)
    ensures ' ' <= c <= '~' ==> (IsSpace(c) <==> c == ' ')
    ensures '\t' <= c <= '\r' ==> IsSpace(c)
  {
  }

  predicate AllSpace(s: string) {
    forall k :: 0 <= k < |s| ==> IsSpace(s[k])
  }

  /** Every character of `s` at an index in `[lo, hi)` is whitespace. */
  predicate SpaceBetween(s: string, lo: int, hi: int) {
    forall k :: lo <= k < hi && 0 <= k < |s| ==> IsSpace(s[k])
  }

  /** `s.lstrip()`: the suffix of `s` left after its leading whitespace. */
  function TrimLeft(s: string): (r: string)
    ensures |r| <= |s| && r == s[|s| - |r|..]
    ensures SpaceBetween(s, 0, |s| - |r|)
    ensures r != [] ==> !IsSpace(r[0])
  {
    if s != [] && IsSpace(s[0]) then TrimLeft(s[1..]) else s
  }

  /** `s.rstrip()`: the prefix of `s` left before its trailing whitespace. */
  function TrimRight(s: string): (r: string)
    ensures |r| <= |s| && r == s[..|r|]
    ensures SpaceBetween(s, |r|, |s|)
    ensures r != [] ==> !IsSpace(r[|r| - 1])
  {
    if s != [] && IsSpace(s[|s| - 1]) then TrimRight(s[..|s| - 1]) else s
  }

  /** `r` sits in `s` at offset `i`, everything around it is whitespace,
      and `r` neither starts nor ends with whitespace. */
  predicate StrippedAt(s: string, r: string, i: int) {
    0 <= i && i + |r| <= |s| && s[i..i + |r|] == r
    && SpaceBetween(s, 0, i) && SpaceBetween(s, i + |r|, |s|)
    && (r != [] ==> !IsSpace(r[0]) && !IsSpace(r[|r| - 1]))
  }

  /** A left trim `left` of `s` followed by a right trim `r` of `left`
      leaves the core of `s`, found where the left trim stopped. */
  lemma CoreOfTrims(s: string, left: string, r: string)
    requires |left| <= |s| && left == s[|s| - |left|..] && SpaceBetween(s, 0, |s| - |left|)
    requires left != [] ==> !IsSpace(left[0])
    requires |r| <= |left| && r == left[..|r|] && SpaceBetween(left, |r|, |left|)
    requires r != [] ==> !IsSpace(r[|r| - 1])
    ensures StrippedAt(s, r, |s| - |left|)
  {
    var i := |s| - |left|;
    forall k | i + |r| <= k < |s|
      ensures IsSpace(s[k])
    {
      assert s[k] == left[k - i];
    }
    assert s[i..i + |r|] == left[..|r|];
  }

  /** `s.strip()` */
  function Strip(s: string): (r: string)
    ensures exists i :: StrippedAt(s, r, i)
  {
    var left := TrimLeft(s);
    var r := TrimRight(left);
    CoreOfTrims(s, left, r);
    r
  }

  /** Every non-whitespace character of `s` lies inside the stripped core. */
  lemma CoreHoldsNonSpace(s: string, r: string, i: int)
    requires StrippedAt(s, r, i)
    ensures forall j :: 0 <= j < |s| && !IsSpace(s[j]) ==> i <= j < i + |r|
    ensures r != [] ==> s[i] == r[0] && s[i + |r| - 1] == r[|r| - 1]
  {
  }

  /** There is only one way to strip a string: the core that the
      whitespace-only margins surround is unique. */
  lemma StrippedAtUnique(s: string, r1: string, i1: int, r2: string, i2: int)
    requires StrippedAt(s, r1, i1) && StrippedAt(s, r2, i2)
    ensures r1 == r2
  {
    CoreHoldsNonSpace(s, r1, i1);
    CoreHoldsNonSpace(s, r2, i2);
    assert r1 != [] <==> r2 != [];
    if r1 != [] {
      assert i1 == i2 && i1 + |r1| == i2 + |r2|;
    }
  }

  /** Whitespace margins around a stripped core stay margins when more
      whitespace is added outside them. */
  lemma StrippedAtPadded(w1: string, c: string, w2: string, r: string, i: int)
    requires AllSpace(w1) && AllSpace(w2) && StrippedAt(c, r, i)
    ensures StrippedAt(w1 + c + w2, r, |w1| + i)
  {
    var s := w1 + c + w2;
    var j := |w1| + i;
    assert s[j..j + |r|] == c[i..i + |r|];
  }

  /** `Strip` returns the one core that the characterization allows. */
  lemma StripIsCore(s: string, r: string, i: int)
    requires StrippedAt(s, r, i)
    ensures Strip(s) == r
  {
    var j :| StrippedAt(s, Strip(s), j);
    StrippedAtUnique(s, r, i, Strip(s), j);
  }

  /** A stripped core of `c` is what `strip()` returns once `c` is padded. */
  lemma PaddedCore(w1: string, c: string, w2: string, r: string, i: int)
    requires AllSpace(w1) && AllSpace(w2) && StrippedAt(c, r, i)
    ensures Strip(w1 + c + w2) == r
  {
    StrippedAtPadded(w1, c, w2, r, i);
    StripIsCore(w1 + c + w2, r, |w1| + i);
  }

  /** Whitespace added around a string is removed again by `strip()`. */
  lemma StripPadded(w1: string, c: string, w2: string)
    requires AllSpace(w1) && AllSpace(w2)
    ensures Strip(w1 + c + w2) == Strip(c)
  {
    var i :| StrippedAt(c, Strip(c), i);
    PaddedCore(w1, c, w2, Strip(c), i);
  }

  /** Whitespace added after a string is removed again by `strip()`. */
  lemma StripPaddedRight(c: string, w: string)
    requires AllSpace(w)
    ensures Strip(c + w) == Strip(c)
  {
    assert [] + c + w == c + w;
    StripPadded([], c, w);
  }

  /** `s.endswith(suffix)` */
  predicate EndsWith(s: string, suffix: string)
    ensures EndsWith(s, suffix) ==> |suffix| <= |s|
    ensures suffix == [] || suffix == s ==> EndsWith(s, suffix)
  {
    |suffix| <= |s| && s[|s| - |suffix|..] == suffix
  }

  /** A stripped core reaches every non-whitespace character; when the
      last character of `s` is not whitespace, the core runs to the end. */
  lemma CoreReachesEnd(s: string, r: string, i: int, j: int)
    requires StrippedAt(s, r, i)
    requires 0 <= j < |s| && !IsSpace(s[j]) && !IsSpace(s[|s| - 1])
    ensures i <= j && i + |r| == |s|
  {
    CoreHoldsNonSpace(s, r, i);
  }

  /** A suffix of `s` that starts no later than `t` does still ends with `t`. */
  lemma SuffixKeepsEnding(s: string, i: int, t: string)
    requires EndsWith(s, t) && 0 <= i <= |s| - |t|
    ensures EndsWith(s[i..], t)
  {
    assert s[i..][|s| - i - |t|..] == s[|s| - |t|..];
  }

  /** A suffix without whitespace lies inside the stripped core. */
  lemma CoreKeepsSolidSuffix(s: string, r: string, i: int, t: string)
    requires StrippedAt(s, r, i) && t != []
    requires EndsWith(s, t) && forall k :: 0 <= k < |t| ==> !IsSpace(t[k])
    ensures EndsWith(r, t)
  {
    var n := |s|;
    assert !IsSpace(s[n - 1]) && !IsSpace(s[n - |t|]) by {
      assert s[n - 1] == t[|t| - 1] && s[n - |t|] == t[0];
    }
    CoreReachesEnd(s, r, i, n - |t|);
    SuffixKeepsEnding(s, i, t);
  }

  /** A suffix without whitespace survives `strip()`. */
  lemma StripKeepsSolidSuffix(s: string, t: string)
    requires EndsWith(s, t) && forall k :: 0 <= k < |t| ==> !IsSpace(t[k])
    ensures EndsWith(Strip(s), t)
  {
    if t != [] {
      var i :| StrippedAt(s, Strip(s), i);
      CoreKeepsSolidSuffix(s, Strip(s), i, t);
    }
  }

  /** `t` occurs in `s` starting at index `k`. */
  predicate OccursAt(s: string, t: string, k: int) {
    0 <= k && k + |t| <= |s| && s[k..k + |t|] == t
  }

  /** Python's substring test `t in s`. */
  predicate Contains(s: string, t: string)
    ensures Contains(s, t) ==> |t| <= |s|
    ensures OccursAt(s, t, 0) ==> Contains(s, t)
  {
    exists k :: 0 <= k <= |s| - |t| && OccursAt(s, t, k)
  }

  /** A string in which character `c` never appears contains no substring
      that starts with `c`. */
  lemma NotContainsWithoutFirst(s: string, t: string)
    requires t != [] && t[0] !in s
    ensures !Contains(s, t)
  {
  }

  /** Python's `str.upper()` on one character, for ASCII letters. */
  function UpperChar(c: char): char {
    if 'a' <= c <= 'z' then (c as int - 32) as char else c
  }

  predicate IsAsciiLetter(c: char) {
    'a' <= c <= 'z' || 'A' <= c <= 'Z'
  }

  /** Two characters are the same letter up to case, or simply equal. */
  predicate SameIgnoringCase(x: char, y: char) {
    x == y || (IsAsciiLetter(x) && IsAsciiLetter(y) && (x as int - y as int == 32 || y as int - x as int == 32))
  }

  /** `s.upper()`: each lower-case ASCII letter becomes its capital, every
      other character is kept. */
  function Upper(s: string): (r: string)
    ensures |r| == |s|
    ensures forall i :: 0 <= i < |s| ==> r[i] == UpperChar(s[i])
    ensures forall i :: 0 <= i < |r| ==> !('a' <= r[i] <= 'z')
  {
    if s == [] then [] else [UpperChar(s[0])] + Upper(s[1..])
  }

  /** Two characters upper-case alike exactly when they are the same
      character up to the case of an ASCII letter. */
  lemma UpperCharEqualIff(x: char, y: char)
    ensures UpperChar(x) == UpperChar(y) <==> SameIgnoringCase(x, y)
  {
  }

  /** Upper-casing twice is upper-casing once. */
  lemma UpperIdempotent(s: string)
    ensures Upper(Upper(s)) == Upper(s)
  {
    assert forall i :: 0 <= i < |s| ==> Upper(Upper(s))[i] == Upper(s)[i];
  }

  /** Two strings upper-case to the same string exactly when they have the
      same length and differ only in the case of ASCII letters. */
  lemma UpperEqualIff(a: string, b: string)
    ensures Upper(a) == Upper(b) <==> |a| == |b| && forall i :: 0 <= i < |a| ==> SameIgnoringCase(a[i], b[i])
  {
    if Upper(a) == Upper(b) {
      forall i | 0 <= i < |a|
        ensures SameIgnoringCase(a[i], b[i])
      {
        assert Upper(a)[i] == Upper(b)[i];
        UpperCharEqualIff(a[i], b[i]);
      }
    }
    if |a| == |b| && forall i :: 0 <= i < |a| ==> SameIgnoringCase(a[i], b[i]) {
      forall i | 0 <= i < |a|
        ensures Upper(a)[i] == Upper(b)[i]
      {
        UpperCharEqualIff(a[i], b[i]);
      }
    }
  }
}
