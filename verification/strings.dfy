/**
 * The parts of Python's `str` type that the core relies on: `isspace`,
 * `strip`, `split`, `join`, `count`, `replace`, `int()` and `str()` of an int.
 * Strings are `seq<char>`; whitespace is exactly the set `str.isspace`
 * accepts, which is also the set the `\s` escape of a `str` regex matches.
 */
module PyStr {
  import opened Wrappers

  /** `c.isspace()`: tab to carriage return, the four information separators,
      space, NEL, no-break space and the Unicode space separators. */
  predicate IsSpace(c: char) {
    var n := c as int;
    (0x09 <= n <= 0x0D) || (0x1C <= n <= 0x20) || n == 0x85 || n == 0xA0 ||
    n == 0x1680 || (0x2000 <= n <= 0x200A) || n == 0x2028 || n == 0x2029 ||
    n == 0x202F || n == 0x205F || n == 0x3000
  }

  /** The ASCII part of `\d`. */
  predicate IsDigit(c: char) { '0' <= c <= '9' }

  predicate IsAsciiLetter(c: char) { ('a' <= c <= 'z') || ('A' <= c <= 'Z') }

  /** The ASCII part of `\w`: letters, digits and the underscore. */
  predicate IsWordChar(c: char) { IsAsciiLetter(c) || IsDigit(c) || c == '_' }

  predicate AllDigits(s: string) { forall i :: 0 <= i < |s| ==> IsDigit(s[i]) }

  predicate NoSpace(s: string) { forall i :: 0 <= i < |s| ==> !IsSpace(s[i]) }

  // ---------------------------------------------------------------- strip

  /** `s.lstrip()` */
  function LStrip(s: string): (r: string)
    ensures |r| <= |s| && r == s[|s| - |r|..]
    ensures r == [] || !IsSpace(r[0])
    ensures forall i :: 0 <= i < |s| - |r| ==> IsSpace(s[i])
  {
    if |s| > 0 && IsSpace(s[0]) then LStrip(s[1..]) else s
  }

  /** `s.rstrip()` */
  function RStrip(s: string): (r: string)
    ensures |r| <= |s| && r == s[..|r|]
    ensures r == [] || !IsSpace(r[|r| - 1])
    ensures forall i :: |r| <= i < |s| ==> IsSpace(s[i])
  {
    if |s| > 0 && IsSpace(s[|s| - 1]) then RStrip(s[..|s| - 1]) else s
  }

  /** `s.strip()`: the longest middle part that neither starts nor ends with
      whitespace. */
  function Strip(s: string): (r: string)
    ensures |r| <= |s| && NoEdgeSpace(r)
  {
    RStrip(LStrip(s))
  }

  /** What is left after stripping is a slice of the string. */
  lemma StripSlice(s: string) returns (i: nat)
    ensures i + |Strip(s)| <= |s| && Strip(s) == s[i..i + |Strip(s)|]
  {
    var l := LStrip(s);
    i := |s| - |l|;
    var r := RStrip(l);
    assert Strip(s) == r;
    assert l == s[i..];
    assert r == l[..|r|];
    SliceOfSuffix(s, i, |r|);
  }

  lemma SliceOfSuffix(s: string, i: nat, k: nat)
    requires i + k <= |s|
    ensures s[i..][..k] == s[i..i + k]
  {
  }

  /** Neither the first nor the last character is whitespace. */
  predicate NoEdgeSpace(s: string) { s == [] || (!IsSpace(s[0]) && !IsSpace(s[|s| - 1])) }

  /** Stripping a string that neither starts nor ends with whitespace
      changes nothing; in particular stripping twice is stripping once. */
  lemma StripEdgeless(s: string)
    requires NoEdgeSpace(s)
    ensures Strip(s) == s
  {
  }

  /** Stripping a string that has no whitespace at all changes nothing. */
  lemma StripNoSpace(s: string)
    requires NoSpace(s)
    ensures LStrip(s) == s && RStrip(s) == s && Strip(s) == s
  {
  }

  /** Number of leading whitespace characters (the greedy `\s*`). */
  function SpaceRun(s: string): (k: nat)
    ensures k <= |s|
    ensures forall i :: 0 <= i < k ==> IsSpace(s[i])
    ensures k == |s| || !IsSpace(s[k])
  {
    if |s| > 0 && IsSpace(s[0]) then 1 + SpaceRun(s[1..]) else 0
  }

  /** Every character is whitespace. */
  predicate AllSpace(s: string) { forall i :: 0 <= i < |s| ==> IsSpace(s[i]) }

  lemma {:induction false} SpaceRunConcat(w: string, x: string)
    requires AllSpace(w)
    ensures SpaceRun(w + x) == |w| + SpaceRun(x)
    decreases |w|
  {
    if |w| == 0 {
      assert w + x == x;
    } else {
      assert (w + x)[1..] == w[1..] + x;
      SpaceRunConcat(w[1..], x);
    }
  }

  lemma {:induction false} LStripPadded(w: string, x: string)
    requires AllSpace(w)
    ensures LStrip(w + x) == LStrip(x)
    decreases |w|
  {
    if |w| == 0 {
      assert w + x == x;
    } else {
      assert (w + x)[1..] == w[1..] + x;
      LStripPadded(w[1..], x);
    }
  }

  lemma {:induction false} RStripPadded(x: string, w: string)
    requires AllSpace(w)
    ensures RStrip(x + w) == RStrip(x)
    decreases |w|
  {
    if |w| == 0 {
      assert x + w == x;
    } else {
      assert (x + w)[..|x + w| - 1] == x + w[..|w| - 1];
      RStripPadded(x, w[..|w| - 1]);
    }
  }

  lemma {:induction false} LStripTrailing(x: string, w: string)
    requires AllSpace(w)
    ensures LStrip(x) != [] ==> LStrip(x + w) == LStrip(x) + w
    ensures LStrip(x) == [] ==> LStrip(x + w) == []
    decreases |x|
  {
    if |x| == 0 {
      assert x + w == w;
      LStripPadded(w, []);
      assert w + [] == w;
    } else {
      assert (x + w)[0] == x[0];
      assert (x + w)[1..] == x[1..] + w;
      if IsSpace(x[0]) {
        LStripTrailing(x[1..], w);
      }
    }
  }

  /** Whitespace around a string does not change what it strips to. */
  lemma StripPadded(w1: string, b: string, w2: string)
    requires AllSpace(w1) && AllSpace(w2)
    ensures Strip(w1 + b + w2) == Strip(b)
  {
    assert w1 + b + w2 == w1 + (b + w2);
    LStripPadded(w1, b + w2);
    assert LStrip(w1 + b + w2) == LStrip(b + w2);
    StripTrailing(b, w2);
  }

  /** Whitespace after a string does not change what it strips to. */
  lemma StripTrailing(b: string, w: string)
    requires AllSpace(w)
    ensures Strip(b + w) == Strip(b)
  {
    LStripTrailing(b, w);
    var l := LStrip(b);
    if l != [] {
      RStripPadded(l, w);
    }
  }

  // ---------------------------------------------------------------- count / replace

  /** `s.count(c)` for a one-character argument. */
  function Count(s: string, c: char): (n: nat)
    ensures n <= |s|
  {
    if |s| == 0 then 0 else (if s[0] == c then 1 else 0) + Count(s[1..], c)
  }

  /** Concatenation regrouped, for sequences of any element type. */
  lemma AppendAssoc<T>(a: seq<T>, b: seq<T>, c: seq<T>)
    ensures (a + b) + c == a + (b + c)
  {
  }

  lemma {:induction false} CountConcat(a: string, b: string, c: char)
    ensures Count(a + b, c) == Count(a, c) + Count(b, c)
  {
    if |a| > 0 {
      assert (a + b)[1..] == a[1..] + b;
      CountConcat(a[1..], b, c);
    } else {
      assert a + b == b;
    }
  }

  /** A character is absent exactly when it is counted zero times. */
  lemma {:induction false} CountZeroIff(s: string, c: char)
    ensures Count(s, c) == 0 <==> c !in s
  {
    if |s| > 0 {
      CountZeroIff(s[1..], c);
      assert s == [s[0]] + s[1..];
      assert c in s <==> s[0] == c || c in s[1..];
    }
  }

  /** `s.replace(a, b)` for one-character `a` and `b`. */
  function ReplaceChar(s: string, a: char, b: char): (r: string)
    ensures |r| == |s|
    ensures forall i :: 0 <= i < |s| ==> r[i] == if s[i] == a then b else s[i]
  {
    if |s| == 0 then [] else [if s[0] == a then b else s[0]] + ReplaceChar(s[1..], a, b)
  }

  lemma ReplaceCharConcat(x: string, y: string, a: char, b: char)
    ensures ReplaceChar(x + y, a, b) == ReplaceChar(x, a, b) + ReplaceChar(y, a, b)
  {
    var l, rx, ry := ReplaceChar(x + y, a, b), ReplaceChar(x, a, b), ReplaceChar(y, a, b);
    var r := rx + ry;
    forall i | 0 <= i < |l| ensures l[i] == r[i] {
      if i < |x| {
        assert (x + y)[i] == x[i];
        assert r[i] == rx[i];
      } else {
        assert (x + y)[i] == y[i - |x|];
        assert r[i] == ry[i - |x|];
      }
    }
  }

  /** `s.replace(a, "")` */
  function RemoveChar(s: string, a: char): (r: string)
    ensures |r| <= |s|
    ensures a !in r
    ensures forall x :: x in r ==> x in s
  {
    if |s| == 0 then [] else (if s[0] == a then [] else [s[0]]) + RemoveChar(s[1..], a)
  }

  lemma {:induction false} RemoveAbsent(s: string, a: char)
    requires a !in s
    ensures RemoveChar(s, a) == s
  {
    if |s| > 0 {
      RemoveAbsent(s[1..], a);
    }
  }

  /** `c * n` */
  function Repeat(c: char, n: nat): (r: string)
    ensures |r| == n && forall i :: 0 <= i < n ==> r[i] == c
  {
    if n == 0 then [] else [c] + Repeat(c, n - 1)
  }

  lemma {:induction false} CountRepeat(c: char, n: nat, d: char)
    ensures Count(Repeat(c, n), d) == if c == d then n else 0
  {
    if n > 0 {
      assert Repeat(c, n)[1..] == Repeat(c, n - 1);
      CountRepeat(c, n - 1, d);
    }
  }

  // ---------------------------------------------------------------- prefixes and substrings

  predicate StartsWith(s: string, p: string) { |p| <= |s| && s[..|p|] == p }

  predicate EndsWith(s: string, p: string) { |p| <= |s| && s[|s| - |p|..] == p }

  /** `sub in s` */
  predicate Contains(s: string, sub: string)
    decreases |s|
  {
    StartsWith(s, sub) || (|s| > 0 && Contains(s[1..], sub))
  }

  // ---------------------------------------------------------------- slices

  /** Where the slice `s[:k]` of a list of length `n` ends: a negative `k`
      counts from the end, and the end is clamped to `0 .. n`. */
  function SliceEnd(n: nat, k: int): (e: nat)
    ensures e <= n
    ensures k >= 0 ==> e == if k < n then k else n
    ensures k < 0 ==> e == if n + k > 0 then n + k else 0
  {
    if k >= 0 then (if k < n then k else n)
    else if n + k > 0 then n + k else 0
  }

  /** `s[:k]` */
  function Take<T>(s: seq<T>, k: int): (r: seq<T>)
    ensures |r| <= |s| && r == s[..|r|]
    ensures k >= 0 ==> |r| <= k
  {
    s[..SliceEnd(|s|, k)]
  }

  // ---------------------------------------------------------------- split / join

  /** `sub` occurs in `s` starting at index `i`. */
  predicate OccursAt(s: string, sub: string, i: nat) {
    i + |sub| <= |s| && s[i..i + |sub|] == sub
  }

  /** `s.split(sep)` for a non-empty separator: cut at every occurrence of
      `sep`, scanning left to right; always at least one part. */
  function Split(s: string, sep: string): (parts: seq<string>)
    requires sep != []
    ensures |parts| >= 1
    decreases |s|
  {
    if |s| < |sep| then [s]
    else if s[..|sep|] == sep then [[]] + Split(s[|sep|..], sep)
    else
      var rest := Split(s[1..], sep);
      [[s[0]] + rest[0]] + rest[1..]
  }

  /** `sep.join(parts)` */
  function Join(parts: seq<string>, sep: string): string
  {
    if |parts| == 0 then []
    else if |parts| == 1 then parts[0]
    else parts[0] + sep + Join(parts[1..], sep)
  }

  lemma JoinConsHead(a: string, x: string, r: seq<string>, sep: string)
    ensures Join([a + x] + r, sep) == a + Join([x] + r, sep)
  {
    assert ([a + x] + r)[1..] == r;
    assert ([x] + r)[1..] == r;
  }

  /** Splitting and joining back with the same separator gives the original
      string. */
  lemma {:induction false} JoinSplit(s: string, sep: string)
    requires sep != []
    ensures Join(Split(s, sep), sep) == s
    decreases |s|
  {
    if |s| < |sep| {
    } else if s[..|sep|] == sep {
      var t := s[|sep|..];
      JoinSplit(t, sep);
      SplitAtSep(s, sep);
      JoinCons([], Split(t, sep), sep);
      assert s == sep + t;
    } else {
      var rest := Split(s[1..], sep);
      JoinSplit(s[1..], sep);
      SplitAtChar(s, sep);
      JoinConsHead([s[0]], rest[0], rest[1..], sep);
      assert [rest[0]] + rest[1..] == rest;
      assert s == [s[0]] + s[1..];
    }
  }

  lemma SplitAtSep(s: string, sep: string)
    requires sep != [] && |s| >= |sep| && s[..|sep|] == sep
    ensures Split(s, sep) == [[]] + Split(s[|sep|..], sep)
  {
  }

  lemma SplitAtChar(s: string, sep: string)
    requires sep != [] && |s| >= |sep| && s[..|sep|] != sep
    ensures var rest := Split(s[1..], sep);
      Split(s, sep) == [[s[0]] + rest[0]] + rest[1..]
  {
  }

  lemma JoinCons(a: string, r: seq<string>, sep: string)
    requires |r| >= 1
    ensures Join([a] + r, sep) == a + sep + Join(r, sep)
  {
    assert ([a] + r)[1..] == r;
  }

  /** The last part of a split is a suffix of the string. */
  lemma {:induction false} SplitLastSuffix(s: string, sep: string)
    requires sep != []
    ensures LastPartSuffix(s, sep)
    decreases |s|
  {
    if |s| < |sep| {
    } else if s[..|sep|] == sep {
      SplitLastSuffix(s[|sep|..], sep);
      LastPartSuffixAtSep(s, sep);
    } else {
      SplitLastSuffix(s[1..], sep);
      LastPartSuffixAtChar(s, sep);
    }
  }

  /** The last part of splitting `s` is a suffix of `s`. */
  predicate LastPartSuffix(s: string, sep: string)
    requires sep != []
  {
    var parts := Split(s, sep);
    |parts[|parts| - 1]| <= |s| && parts[|parts| - 1] == s[|s| - |parts[|parts| - 1]|..]
  }

  lemma LastPartSuffixAtSep(s: string, sep: string)
    requires sep != [] && |s| >= |sep| && s[..|sep|] == sep
    requires LastPartSuffix(s[|sep|..], sep)
    ensures LastPartSuffix(s, sep)
  {
    var rt := Split(s[|sep|..], sep);
    LastAtSep(s, sep);
    SuffixOfTail(s, |sep|, |rt[|rt| - 1]|);
  }

  lemma LastPartSuffixAtChar(s: string, sep: string)
    requires sep != [] && |s| >= |sep| && s[..|sep|] != sep
    requires LastPartSuffix(s[1..], sep)
    ensures LastPartSuffix(s, sep)
  {
    var t := s[1..];
    var rt := Split(t, sep);
    LastAtChar(s, sep);
    if |rt| == 1 {
      JoinSplit(t, sep);
      assert [s[0]] + t == s;
    } else {
      SuffixOfTail(s, 1, |rt[|rt| - 1]|);
    }
  }

  /** At a separator, the last part is the last part of what follows it. */
  lemma LastAtSep(s: string, sep: string)
    requires sep != [] && |s| >= |sep| && s[..|sep|] == sep
    ensures var parts, rt := Split(s, sep), Split(s[|sep|..], sep);
      parts[|parts| - 1] == rt[|rt| - 1]
  {
    SplitAtSep(s, sep);
  }

  /** Elsewhere the last part is that of the tail, or the first character
      and the tail's only part. */
  lemma LastAtChar(s: string, sep: string)
    requires sep != [] && |s| >= |sep| && s[..|sep|] != sep
    ensures var parts, rt := Split(s, sep), Split(s[1..], sep);
      && (|rt| == 1 ==> |parts| == 1 && parts[0] == [s[0]] + rt[0])
      && (|rt| > 1 ==> parts[|parts| - 1] == rt[|rt| - 1])
  {
    var rt := Split(s[1..], sep);
    var tail := rt[1..];
    SplitAtChar(s, sep);
    var parts := Split(s, sep);
    assert parts == [[s[0]] + rt[0]] + tail;
    assert |parts| == |rt| && parts[0] == [s[0]] + rt[0];
    if |rt| > 1 {
      assert parts[|parts| - 1] == tail[|tail| - 1] == rt[|rt| - 1];
    }
  }

  /** The last `k` characters of a tail are the last `k` of the whole. */
  lemma SuffixOfTail(s: string, j: nat, k: nat)
    requires j <= |s| && k <= |s| - j
    ensures s[j..][|s| - j - k..] == s[|s| - k..]
  {
  }

  /** When no occurrence of `sep` starts inside `x`, splitting `x + sep + y`
      yields `x` followed by the parts of `y`. */
  lemma {:induction false} SplitAfterPrefix(x: string, sep: string, y: string)
    requires sep != []
    requires forall i :: 0 <= i < |x| ==> !OccursAt(x + sep + y, sep, i)
    ensures Split(x + sep + y, sep) == [x] + Split(y, sep)
    decreases |x|
  {
    var s := x + sep + y;
    if |x| == 0 {
      assert s[..|sep|] == sep;
      assert s[|sep|..] == y;
    } else {
      assert s[..|sep|] == s[0..0 + |sep|];
      assert s[1..] == x[1..] + sep + y;
      assert !OccursAt(s, sep, 0);
      forall i | 0 <= i < |x[1..]|
        ensures !OccursAt(x[1..] + sep + y, sep, i)
      {
        assert !OccursAt(s, sep, i + 1);
        assert (x[1..] + sep + y)[i..i + |sep|] == s[1..][i..i + |sep|] == s[i + 1..i + 1 + |sep|];
      }
      SplitAfterPrefix(x[1..], sep, y);
      assert [s[0]] + x[1..] == x;
    }
  }

  /** When no occurrence of `sep` starts inside `p`, the first part of
      `p + z` is `p` followed by the first part of `z`. */
  lemma {:induction false} SplitFirstPrefix(p: string, z: string, sep: string)
    requires sep != []
    requires forall i :: 0 <= i < |p| ==> !OccursAt(p + z, sep, i)
    ensures Split(p + z, sep)[0] == p + Split(z, sep)[0]
    decreases |p|
  {
    var s := p + z;
    if |p| == 0 {
      assert s == z;
    } else {
      assert !OccursAt(s, sep, 0);
      if |s| >= |sep| {
        SplitFirstStep(s, sep);
        assert s[1..] == p[1..] + z;
        NoOccurrenceShift(p, z, sep);
        SplitFirstPrefix(p[1..], z, sep);
        AppendAssoc([s[0]], p[1..], Split(z, sep)[0]);
        assert [s[0]] + p[1..] == p;
      } else {
        assert Split(s, sep) == [s];
        assert Split(z, sep) == [z];
      }
    }
  }

  /** Dropping the first character of `p` keeps `sep` from starting
      inside what is left of it. */
  lemma NoOccurrenceShift(p: string, z: string, sep: string)
    requires |p| > 0
    requires forall i :: 0 <= i < |p| ==> !OccursAt(p + z, sep, i)
    ensures forall i :: 0 <= i < |p[1..]| ==> !OccursAt(p[1..] + z, sep, i)
  {
    var s := p + z;
    assert s[1..] == p[1..] + z;
    forall i | 0 <= i < |p[1..]|
      ensures !OccursAt(p[1..] + z, sep, i)
    {
      assert !OccursAt(s, sep, i + 1);
      assert i + |sep| <= |s[1..]| ==> s[1..][i..i + |sep|] == s[i + 1..i + 1 + |sep|];
    }
  }

  /** Where `sep` does not start at the front, the first part keeps the
      first character. */
  lemma SplitFirstStep(s: string, sep: string)
    requires sep != [] && |s| >= |sep| && !OccursAt(s, sep, 0)
    ensures Split(s, sep)[0] == [s[0]] + Split(s[1..], sep)[0]
  {
    assert s[..|sep|] == s[0..0 + |sep|];
  }

  /** A string in which `sep` does not occur is a single part. */
  lemma {:induction false} SplitNoOccurrence(x: string, sep: string)
    requires sep != []
    requires forall i :: 0 <= i < |x| ==> !OccursAt(x, sep, i)
    ensures Split(x, sep) == [x]
    decreases |x|
  {
    if |x| >= |sep| {
      assert x[..|sep|] == x[0..0 + |sep|];
      assert !OccursAt(x, sep, 0);
      forall i | 0 <= i < |x[1..]|
        ensures !OccursAt(x[1..], sep, i)
      {
        assert !OccursAt(x, sep, i + 1);
        assert i + |sep| <= |x[1..]| ==> x[1..][i..i + |sep|] == x[i + 1..i + 1 + |sep|];
      }
      SplitNoOccurrence(x[1..], sep);
      assert [x[0]] + x[1..] == x;
    }
  }

  /** Splitting on one character: no part holds that character, and every
      character of a part comes from the string. */
  lemma {:induction false} SplitOnCharParts(s: string, c: char)
    ensures forall k, i :: 0 <= k < |Split(s, [c])| && 0 <= i < |Split(s, [c])[k]| ==>
              Split(s, [c])[k][i] != c && Split(s, [c])[k][i] in s
    decreases |s|
  {
    var parts := Split(s, [c]);
    if |s| >= 1 {
      SplitOnCharParts(s[1..], c);
      var rest := Split(s[1..], [c]);
      forall k, i | 0 <= k < |parts| && 0 <= i < |parts[k]|
        ensures parts[k][i] != c && parts[k][i] in s
      {
        if s[..1] == [c] {
          assert parts[k] == ([[]] + rest)[k];
          assert parts[k] == rest[k - 1];
          assert rest[k - 1][i] in s[1..];
        } else if k == 0 {
          assert parts[0] == [s[0]] + rest[0];
          if i > 0 { assert parts[0][i] == rest[0][i - 1]; assert rest[0][i - 1] in s[1..]; }
          else { assert s[0] != c by { assert s[..1] == [s[0]]; } }
        } else {
          assert parts[k] == rest[k];
          assert rest[k][i] in s[1..];
        }
      }
    }
  }

  /** Splitting on one character `c` a string that does not end in `c` and
      never holds `c` twice in a row: every part after the first is
      non-empty, and so is the first when the string does not start with
      `c`. */
  lemma {:induction false} SplitOnCharNonEmpty(s: string, c: char)
    requires |s| == 0 || s[|s| - 1] != c
    requires forall i :: 0 <= i < |s| - 1 && s[i] == c ==> s[i + 1] != c
    ensures |s| > 0 && s[0] != c ==> |Split(s, [c])[0]| > 0
    ensures forall k :: 1 <= k < |Split(s, [c])| ==> |Split(s, [c])[k]| > 0
    decreases |s|
  {
    var parts := Split(s, [c]);
    if |s| >= 1 {
      var t := s[1..];
      assert |t| == 0 || t[|t| - 1] != c;
      assert forall i :: 0 <= i < |t| - 1 && t[i] == c ==> t[i + 1] != c by {
        forall i | 0 <= i < |t| - 1 && t[i] == c ensures t[i + 1] != c {
          assert s[i + 1] == c;
        }
      }
      SplitOnCharNonEmpty(t, c);
      var rest := Split(t, [c]);
      if s[..1] == [c] {
        assert s[0] == c;
        assert |s| >= 2 && t[0] != c;
        assert parts == [[]] + rest;
        forall k | 1 <= k < |parts| ensures |parts[k]| > 0 {
          assert parts[k] == rest[k - 1];
        }
      } else {
        assert s[0] != c by { assert s[..1] == [s[0]]; }
        assert parts == [[s[0]] + rest[0]] + rest[1..];
        forall k | 1 <= k < |parts| ensures |parts[k]| > 0 {
          assert parts[k] == rest[k];
        }
      }
    }
  }

  // ---------------------------------------------------------------- int() and str()

  function DigitValue(c: char): nat
    requires IsDigit(c)
  {
    (c as int) - ('0' as int)
  }

  function DigitChar(d: nat): (c: char)
    requires d < 10
    ensures IsDigit(c) && DigitValue(c) == d
  {
    (('0' as int) + d) as char
  }

  /** The value of a string of ASCII digits read in base ten. */
  function DigitsValue(ds: string): nat
    requires AllDigits(ds)
  {
    if |ds| == 0 then 0 else 10 * DigitsValue(ds[..|ds| - 1]) + DigitValue(ds[|ds| - 1])
  }

  /** `str(n)` for a non-negative int: decimal, no leading zeros. */
  function NatToString(n: nat): (s: string)
    ensures |s| >= 1 && AllDigits(s)
    ensures |s| > 1 ==> s[0] != '0'
  {
    if n < 10 then [DigitChar(n)] else NatToString(n / 10) + [DigitChar(n % 10)]
  }

  /** `str(i)` */
  function IntToString(i: int): string
  {
    if i < 0 then "-" + NatToString(-i) else NatToString(i)
  }

  lemma {:induction false} NatToStringValue(n: nat)
    ensures DigitsValue(NatToString(n)) == n
  {
    if n >= 10 {
      NatToStringValue(n / 10);
      var s := NatToString(n);
      assert s[..|s| - 1] == NatToString(n / 10);
    }
  }

  /** The body that `int()` accepts after its optional sign: ASCII digits
      with single underscores between digits. */
  predicate IsDigitGroup(b: string) {
    && |b| > 0 && IsDigit(b[0]) && IsDigit(b[|b| - 1])
    && forall i :: 0 <= i < |b| ==> IsDigit(b[i]) || (b[i] == '_' && i + 1 < |b| && IsDigit(b[i + 1]))
  }

  lemma {:induction false} RemoveUnderscoresDigits(b: string)
    requires forall i :: 0 <= i < |b| ==> IsDigit(b[i]) || b[i] == '_'
    ensures AllDigits(RemoveChar(b, '_'))
  {
    if |b| > 0 {
      RemoveUnderscoresDigits(b[1..]);
    }
  }

  function GroupValue(b: string): nat
    requires IsDigitGroup(b)
  {
    forall i | 0 <= i < |b| ensures IsDigit(b[i]) || b[i] == '_' {
      assert IsDigit(b[i]) || (b[i] == '_' && i + 1 < |b| && IsDigit(b[i + 1]));
    }
    RemoveUnderscoresDigits(b);
    DigitsValue(RemoveChar(b, '_'))
  }

  /** `int(s)` for a `str` argument, with `None` where Python raises
      `ValueError`. */
  function ParseInt(s: string): (r: Option<int>)
  {
    var t := Strip(s);
    if |t| > 0 && (t[0] == '+' || t[0] == '-') then
      if IsDigitGroup(t[1..]) then
        var v: int := GroupValue(t[1..]);
        Some(if t[0] == '-' then -v else v)
      else None
    else if IsDigitGroup(t) then Some(GroupValue(t))
    else None
  }

  /** `int()` of a non-empty run of ASCII digits is its base-ten value. */
  lemma ParseIntDigits(s: string)
    requires |s| > 0 && AllDigits(s)
    ensures ParseInt(s) == Some(DigitsValue(s))
  {
    DigitsStripped(s);
    DigitsGroup(s);
    ParseIntOfGroup(s);
  }

  lemma DigitsStripped(s: string)
    requires AllDigits(s)
    ensures Strip(s) == s
  {
    assert NoSpace(s) by {
      forall i | 0 <= i < |s| ensures !IsSpace(s[i]) {
        assert IsDigit(s[i]);
      }
    }
    StripNoSpace(s);
  }

  /** A run of digits is a digit group whose value is its own. */
  lemma DigitsGroup(s: string)
    requires |s| > 0 && AllDigits(s)
    ensures IsDigitGroup(s) && GroupValue(s) == DigitsValue(s)
  {
    assert '_' !in s by {
      forall i | 0 <= i < |s| ensures s[i] != '_' {
        assert IsDigit(s[i]);
      }
    }
    RemoveAbsent(s, '_');
  }

  /** An unsigned digit group with no edge whitespace parses to its value. */
  lemma ParseIntOfGroup(t: string)
    requires Strip(t) == t && IsDigitGroup(t)
    ensures ParseInt(t) == Some(GroupValue(t))
  {
    assert t[0] != '+' && t[0] != '-' by { assert IsDigit(t[0]); }
  }

  /** `int(str(n)) == n` */
  lemma ParseIntOfNatToString(n: nat)
    ensures ParseInt(NatToString(n)) == Some(n)
  {
    ParseIntDigits(NatToString(n));
    NatToStringValue(n);
  }

  /** `int()` of a string without a minus sign is never negative. */
  lemma ParseIntNoMinus(s: string)
    requires '-' !in s
    requires ParseInt(s).Some?
    ensures ParseInt(s).value >= 0
  {
    var t := Strip(s);
    if |t| > 0 {
      assert t[0] != '-' by {
        var i := StripSlice(s);
        assert t[0] == s[i];
      }
    }
    ParseIntUnsigned(s);
  }

  /** Without a leading minus sign after stripping, `int()` is not negative. */
  lemma ParseIntUnsigned(s: string)
    requires Strip(s) == [] || Strip(s)[0] != '-'
    requires ParseInt(s).Some?
    ensures ParseInt(s).value >= 0
  {
  }

  /** `int()` of a string of ASCII digits, when it succeeds, is not
      negative. */
  lemma ParseIntOfDigits(s: string, v: int)
    requires AllDigits(s) && ParseInt(s) == Some(v)
    ensures v >= 0
  {
    if |s| > 0 {
      ParseIntDigits(s);
    }
  }
}
