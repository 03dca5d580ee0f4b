/** Python's string primitives used by the runner (find, rfind, split,
    replace, lower, the "in" test for substrings), stated over sequences. */
module Text {
  import opened Values

  /** str.find for one element: the first index holding x. */
  function FirstIndex<T(==)>(s: seq<T>, x: T): (r: Option<nat>)
    ensures r.None? <==> x !in s
    ensures r.Some? ==> r.value < |s| && s[r.value] == x && x !in s[..r.value]
  {
    if s == [] then None
    else if s[0] == x then Some(0)
    else match FirstIndex(s[1..], x)
      case None => None
      case Some(i) => assert s[1..][..i] == s[1..i + 1]; Some(i + 1)
  }

  /** str.rfind for one element: the last index holding x. */
  function LastIndex<T(==)>(s: seq<T>, x: T): (r: Option<nat>)
    ensures r.None? <==> x !in s
    ensures r.Some? ==> r.value < |s| && s[r.value] == x && x !in s[r.value + 1..]
  {
    if s == [] then None
    else if s[|s| - 1] == x then Some(|s| - 1)
    else
      assert s == s[..|s| - 1] + [s[|s| - 1]];
      match LastIndex(s[..|s| - 1], x)
      case None => None
      case Some(i) => assert s[i + 1..] == s[..|s| - 1][i + 1..] + [s[|s| - 1]]; Some(i)
  }

  /** str.split(d) for a one-element separator: the maximal runs between
      occurrences of d, in order; there is always one more part than
      there are separators. */
  function Split<T(==)>(s: seq<T>, d: T): (parts: seq<seq<T>>)
    ensures |parts| > 0
    ensures forall i :: 0 <= i < |parts| ==> d !in parts[i]
    ensures d in s ==> forall i :: 0 <= i < |parts| ==> |parts[i]| < |s|
    decreases |s|
  {
    match FirstIndex(s, d)
    case None => [s]
    case Some(i) =>
      assert s == s[..i] + [d] + s[i + 1..];
      [s[..i]] + Split(s[i + 1..], d)
  }

  /** str.join: the parts with d between consecutive ones. */
  function Join<T>(parts: seq<seq<T>>, d: T): seq<T>
    requires |parts| > 0
  {
    if |parts| == 1 then parts[0] else parts[0] + [d] + Join(parts[1..], d)
  }

  /** Splitting and joining again gives back the original sequence. */
  lemma {:induction false} SplitJoin<T>(s: seq<T>, d: T)
    ensures Join(Split(s, d), d) == s
    decreases |s|
  {
    match FirstIndex(s, d)
    case None =>
    case Some(i) =>
      assert s == s[..i] + [d] + s[i + 1..];
      SplitJoin(s[i + 1..], d);
  }

  /** Whether pat occurs in s at index i. */
  predicate OccursAt<T(==)>(s: seq<T>, pat: seq<T>, i: nat) {
    i + |pat| <= |s| && s[i..i + |pat|] == pat
  }

  /** str.replace(pat, rep) for a non-empty pat: every non-overlapping
      occurrence, scanning left to right, is replaced by rep. */
  function ReplaceAll<T(==)>(s: seq<T>, pat: seq<T>, rep: seq<T>): (r: seq<T>)
    requires |pat| > 0
    ensures |rep| == |pat| ==> |r| == |s|
    ensures s == pat ==> r == rep
    decreases |s|
  {
    if |s| < |pat| then s
    else if s[..|pat|] == pat then rep + ReplaceAll(s[|pat|..], pat, rep)
    else [s[0]] + ReplaceAll(s[1..], pat, rep)
  }

  /** Every copy of the pattern is replaced, not only the first: when the
      pattern's last element occurs in it only at its end and not in a, the
      copy right after a becomes rep and replacing goes on after it. */
  lemma {:induction false} ReplaceAllAfter<T>(a: seq<T>, pat: seq<T>, b: seq<T>, rep: seq<T>)
    requires |pat| > 0 && pat[|pat| - 1] !in a && pat[|pat| - 1] !in pat[..|pat| - 1]
    ensures ReplaceAll(a + pat + b, pat, rep) == a + rep + ReplaceAll(b, pat, rep)
    decreases |a|
  {
    if a == [] {
      ReplacesFront(pat, b, rep);
      assert a + pat + b == pat + b && a + rep == rep;
    } else {
      assert pat[|pat| - 1] !in a[1..];
      ReplaceAllAfter(a[1..], pat, b, rep);
      ReplaceAllAfterStep(a, pat, b, rep);
    }
  }

  /** The step of ReplaceAllAfter: what holds after a[1..] holds after a. */
  lemma ReplaceAllAfterStep<T>(a: seq<T>, pat: seq<T>, b: seq<T>, rep: seq<T>)
    requires |pat| > 0 && pat[|pat| - 1] !in a && pat[|pat| - 1] !in pat[..|pat| - 1] && a != []
    requires ReplaceAll(a[1..] + pat + b, pat, rep) == a[1..] + rep + ReplaceAll(b, pat, rep)
    ensures ReplaceAll(a + pat + b, pat, rep) == a + rep + ReplaceAll(b, pat, rep)
  {
    var x := ReplaceAll(b, pat, rep);
    CopiesFirst(a, pat, b, rep);
    assert a + rep + x == [a[0]] + (a[1..] + rep + x);
  }

  /** A copy of the pattern at the front is replaced, and replacing goes
      on after it. */
  lemma ReplacesFront<T>(pat: seq<T>, b: seq<T>, rep: seq<T>)
    requires |pat| > 0
    ensures ReplaceAll(pat + b, pat, rep) == rep + ReplaceAll(b, pat, rep)
  {
    var s := pat + b;
    assert s[..|pat|] == pat && s[|pat|..] == b;
  }

  /** With no copy of the pattern starting at the front of a, the first
      element of a is copied through unchanged. */
  lemma CopiesFirst<T>(a: seq<T>, pat: seq<T>, b: seq<T>, rep: seq<T>)
    requires |pat| > 0 && pat[|pat| - 1] !in a && pat[|pat| - 1] !in pat[..|pat| - 1] && a != []
    ensures ReplaceAll(a + pat + b, pat, rep) == [a[0]] + ReplaceAll(a[1..] + pat + b, pat, rep)
  {
    var s := a + pat + b;
    PatternNotAhead(a, pat, b);
    assert s[1..] == a[1..] + pat + b;
  }

  /** With the pattern's last element absent from a non-empty a, no copy of
      the pattern starts inside a. */
  lemma PatternNotAhead<T>(a: seq<T>, pat: seq<T>, b: seq<T>)
    requires |pat| > 0 && pat[|pat| - 1] !in a && pat[|pat| - 1] !in pat[..|pat| - 1] && a != []
    ensures |a + pat + b| >= |pat| && (a + pat + b)[..|pat|] != pat
  {
    var s := a + pat + b;
    var last := |pat| - 1;
    if last < |a| {
      assert s[..|pat|][last] == a[last];
    } else {
      assert s[..|pat|][last] == pat[last - |a|] == pat[..last][last - |a|];
    }
  }

  /** Replacing cannot make more copies of x than the pattern held and the
      replacement adds: with a pattern holding x and a replacement without
      it, no copy of x is created. */
  lemma {:induction false} ReplaceAllCountLe<T>(s: seq<T>, pat: seq<T>, rep: seq<T>, x: T)
    requires |pat| > 0 && multiset(rep)[x] == 0
    ensures multiset(ReplaceAll(s, pat, rep))[x] <= multiset(s)[x]
    decreases |s|
  {
    if |s| < |pat| {
    } else if s[..|pat|] == pat {
      assert s == pat + s[|pat|..];
      ReplaceAllCountLe(s[|pat|..], pat, rep, x);
    } else {
      assert s == [s[0]] + s[1..];
      ReplaceAllCountLe(s[1..], pat, rep, x);
    }
  }

  /** When the pattern holds x, the replacement does not, and the pattern
      occurs at all, replacing strictly lowers the number of copies of x. */
  lemma {:induction false} ReplaceAllCountLt<T>(s: seq<T>, pat: seq<T>, rep: seq<T>, x: T, i: nat)
    requires |pat| > 0 && multiset(rep)[x] == 0 && x in pat
    requires OccursAt(s, pat, i)
    ensures multiset(ReplaceAll(s, pat, rep))[x] < multiset(s)[x]
    decreases |s|
  {
    if s[..|pat|] == pat {
      ReplaceAllCountFront(s, pat, rep, x);
    } else {
      var tail := s[1..];
      assert i > 0;
      assert tail[i - 1..i - 1 + |pat|] == s[i..i + |pat|];
      ReplaceAllCountLt(tail, pat, rep, x, i - 1);
      ReplaceAllCountStep(s, pat, rep, x);
    }
  }

  /** The step of ReplaceAllCountLt past a first element that starts no copy. */
  lemma ReplaceAllCountStep<T>(s: seq<T>, pat: seq<T>, rep: seq<T>, x: T)
    requires 0 < |pat| <= |s| && s[..|pat|] != pat
    requires multiset(ReplaceAll(s[1..], pat, rep))[x] < multiset(s[1..])[x]
    ensures multiset(ReplaceAll(s, pat, rep))[x] < multiset(s)[x]
  {
    var tail := s[1..];
    assert s == [s[0]] + tail;
    assert ReplaceAll(s, pat, rep) == [s[0]] + ReplaceAll(tail, pat, rep);
  }

  /** The case of ReplaceAllCountLt where the pattern starts s. */
  lemma ReplaceAllCountFront<T>(s: seq<T>, pat: seq<T>, rep: seq<T>, x: T)
    requires |pat| > 0 && multiset(rep)[x] == 0 && x in pat
    requires |pat| <= |s| && s[..|pat|] == pat
    ensures multiset(ReplaceAll(s, pat, rep))[x] < multiset(s)[x]
  {
    var tail := s[|pat|..];
    assert s == pat + tail;
    assert ReplaceAll(s, pat, rep) == rep + ReplaceAll(tail, pat, rep);
    assert multiset(s)[x] == multiset(pat)[x] + multiset(tail)[x];
    ReplaceAllCountLe(tail, pat, rep, x);
  }

  /** A replacement never introduces an element that is neither in the
      original nor in the replacement. */
  lemma {:induction false} ReplaceAllElems<T>(s: seq<T>, pat: seq<T>, rep: seq<T>, x: T)
    requires |pat| > 0 && x !in s && x !in rep
    ensures x !in ReplaceAll(s, pat, rep)
    decreases |s|
  {
    if |s| < |pat| {
    } else if s[..|pat|] == pat {
      ReplaceAllElems(s[|pat|..], pat, rep, x);
    } else {
      ReplaceAllElems(s[1..], pat, rep, x);
    }
  }

  /** The substring test `pat in s` and str.find for a substring. */
  function FindSub<T(==)>(s: seq<T>, pat: seq<T>): (r: Option<nat>)
    ensures r.Some? ==> OccursAt(s, pat, r.value)
    ensures r.Some? ==> forall j :: 0 <= j < r.value ==> !OccursAt(s, pat, j)
    ensures r.None? ==> forall j :: 0 <= j <= |s| ==> !OccursAt(s, pat, j)
    decreases |s|
  {
    if |s| < |pat| then None
    else if s[..|pat|] == pat then Some(0)
    else match FindSub(s[1..], pat)
      case None =>
        assert forall j :: 1 <= j <= |s| ==> (OccursAt(s, pat, j) <==> OccursAt(s[1..], pat, j - 1));
        None
      case Some(i) =>
        assert forall j :: 1 <= j <= |s| ==> (OccursAt(s, pat, j) <==> OccursAt(s[1..], pat, j - 1));
        Some(i + 1)
  }

  /** str.replace(" ", ""): the string without its space characters. */
  function StripSpaces(s: string): (r: string)
    ensures ' ' !in r
    ensures forall c :: c != ' ' ==> multiset(r)[c] == multiset(s)[c]
    ensures ' ' !in s ==> r == s
  {
    if s == [] then []
    else if s[0] == ' ' then assert s == [s[0]] + s[1..]; StripSpaces(s[1..])
    else assert s == [s[0]] + s[1..]; [s[0]] + StripSpaces(s[1..])
  }

  /** Removing spaces works piece by piece, so the characters that stay keep
      their order. */
  lemma {:induction false} StripSpacesAppend(a: string, b: string)
    ensures StripSpaces(a + b) == StripSpaces(a) + StripSpaces(b)
    decreases |a|
  {
    if a == [] {
      assert a + b == b;
    } else {
      assert (a + b)[0] == a[0] && (a + b)[1..] == a[1..] + b;
      StripSpacesAppend(a[1..], b);
    }
  }

  /** ASCII lower-casing of one character. */
  function LowerChar(c: char): (r: char)
    ensures 'A' <= c <= 'Z' ==> 'a' <= r <= 'z'
    ensures !('A' <= c <= 'Z') ==> r == c
  {
    if 'A' <= c <= 'Z' then (c as int - 'A' as int + 'a' as int) as char else c
  }

  /** str.lower() restricted to ASCII letters. */
  function Lower(s: string): (r: string)
    ensures |r| == |s|
    ensures forall i :: 0 <= i < |s| ==> r[i] == LowerChar(s[i])
  {
    if s == [] then [] else [LowerChar(s[0])] + Lower(s[1..])
  }

  /** The whitespace that float() skips around a number: the characters
      for which Python's str.isspace() holds. */
  predicate IsSpace(c: char) {
    ('\t' <= c <= '\r') || ('\U{1C}' <= c <= ' ') || c == '\U{85}' || c == '\U{A0}' || c == '\U{1680}' ||
    ('\U{2000}' <= c <= '\U{200A}') || c == '\U{2028}' || c == '\U{2029}' || c == '\U{202F}' ||
    c == '\U{205F}' || c == '\U{3000}'
  }

  /** Whether every character of s is whitespace. */
  predicate AllSpace(s: string) {
    forall k :: 0 <= k < |s| ==> IsSpace(s[k])
  }

  /** str.strip(): the string without leading and trailing whitespace. */
  function Trim(s: string): (r: string)
    ensures |r| <= |s|
    ensures r != [] ==> !IsSpace(r[0]) && !IsSpace(r[|r| - 1])
    decreases |s|
  {
    if s == [] then []
    else if IsSpace(s[0]) then Trim(s[1..])
    else if IsSpace(s[|s| - 1]) then
      assert s == s[..|s| - 1] + [s[|s| - 1]];
      Trim(s[..|s| - 1])
    else s
  }

  /** What strip() removes is whitespace at the two ends and nothing else:
      the result is a slice of s with only whitespace before and after it
      (and, by the contract of Trim, none at its own ends). */
  lemma {:induction false} TrimSlice(s: string)
    ensures exists i, j :: 0 <= i <= j <= |s| && Trim(s) == s[i..j] && AllSpace(s[..i]) && AllSpace(s[j..])
    decreases |s|
  {
    if s == [] {
      assert Trim(s) == s[0..0] && AllSpace(s[..0]) && AllSpace(s[0..]);
    } else if IsSpace(s[0]) {
      assert Trim(s) == Trim(s[1..]);
      TrimSlice(s[1..]);
      var i, j :| 0 <= i <= j <= |s| - 1 && Trim(s[1..]) == s[1..][i..j] && AllSpace(s[1..][..i]) && AllSpace(s[1..][j..]);
      SliceAfterSpace(s, i, j);
    } else if IsSpace(s[|s| - 1]) {
      var p := s[..|s| - 1];
      assert Trim(s) == Trim(p);
      TrimSlice(p);
      var i, j :| 0 <= i <= j <= |p| && Trim(p) == p[i..j] && AllSpace(p[..i]) && AllSpace(p[j..]);
      SliceBeforeSpace(s, i, j);
    } else {
      assert Trim(s) == s[0..|s|] && AllSpace(s[..0]) && AllSpace(s[|s|..]);
    }
  }

  /** A slice of s[1..] framed by whitespace is a slice of s framed by
      whitespace when s starts with whitespace. */
  lemma SliceAfterSpace(s: string, i: int, j: int)
    requires s != [] && IsSpace(s[0]) && 0 <= i <= j <= |s| - 1
    requires AllSpace(s[1..][..i]) && AllSpace(s[1..][j..])
    ensures s[1..][i..j] == s[i + 1..j + 1] && AllSpace(s[..i + 1]) && AllSpace(s[j + 1..])
  {
    assert s[1..][j..] == s[j + 1..];
    var head := s[..i + 1];
    forall k | 0 <= k < |head| ensures IsSpace(head[k]) {
      if k > 0 { assert head[k] == s[1..][..i][k - 1]; }
    }
  }

  /** A slice of s[..|s| - 1] framed by whitespace is a slice of s framed
      by whitespace when s ends with whitespace. */
  lemma SliceBeforeSpace(s: string, i: int, j: int)
    requires s != [] && IsSpace(s[|s| - 1]) && 0 <= i <= j <= |s| - 1
    requires AllSpace(s[..|s| - 1][..i]) && AllSpace(s[..|s| - 1][j..])
    ensures s[..|s| - 1][i..j] == s[i..j] && AllSpace(s[..i]) && AllSpace(s[j..])
  {
    assert s[..|s| - 1][..i] == s[..i];
    var tail := s[j..];
    forall k | 0 <= k < |tail| ensures IsSpace(tail[k]) {
      if j + k < |s| - 1 { assert tail[k] == s[..|s| - 1][j..][k]; }
    }
  }
}
