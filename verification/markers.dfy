/**
 * Citation-marker syntax, written as hand-made scanners instead of regular
 * expressions. Two patterns appear in the core:
 *  - `\[(.*?)\]` (no DOTALL): a `[`, then the shortest run of non-newline
 *    characters up to the next `]`. `re.findall` and `re.sub` both walk the
 *    text left to right, resuming after each match; `Scan` cuts the text the
 *    same way into plain characters and bracketed markers.
 *  - `^\[(\d+)\]`: a numbered prefix such as `[24]` at the very start.
 */
module Markers {
  import opened Wrappers
  import opened PyStr

  /** One step of the left-to-right walk: a character outside any marker, or
      a whole marker `[inner]`. */
  datatype Piece = Plain(c: char) | Bracket(inner: string)

  /** The first index at or after `k` holding `]` or a newline. */
  function CloseIndex(s: string, k: nat): (r: Option<nat>)
    requires k <= |s|
    ensures r.Some? ==> k <= r.value < |s| && (s[r.value] == ']' || s[r.value] == '\n')
    ensures r.Some? ==> forall i :: k <= i < r.value ==> s[i] != ']' && s[i] != '\n'
    ensures r.None? ==> forall i :: k <= i < |s| ==> s[i] != ']' && s[i] != '\n'
    decreases |s| - k
  {
    if k == |s| then None
    else if s[k] == ']' || s[k] == '\n' then Some(k)
    else CloseIndex(s, k + 1)
  }

  /** Where `\[(.*?)\]` matches at the start of `s`: the index of its `]`. */
  function MarkerEnd(s: string): (r: Option<nat>)
    ensures r.Some? ==> 0 < r.value < |s| && s[0] == '[' && s[r.value] == ']'
    ensures r.Some? ==> forall i :: 1 <= i < r.value ==> s[i] != ']' && s[i] != '\n'
  {
    if |s| > 0 && s[0] == '[' then
      var c := CloseIndex(s, 1);
      if c.Some? && s[c.value] == ']' then Some(c.value) else None
    else None
  }

  /** The walk that `re.findall` and `re.sub` make with `\[(.*?)\]`. */
  function Scan(s: string): seq<Piece>
    decreases |s|
  {
    if |s| == 0 then []
    else match MarkerEnd(s)
      case Some(j) => [Bracket(s[1..j])] + Scan(s[j + 1..])
      case None => [Plain(s[0])] + Scan(s[1..])
  }

  function Render(p: Piece): string {
    match p
    case Plain(c) => [c]
    case Bracket(inner) => "[" + inner + "]"
  }

  function RenderAll(ps: seq<Piece>): string {
    if |ps| == 0 then [] else Render(ps[0]) + RenderAll(ps[1..])
  }

  /** The walk loses nothing: putting the pieces back together gives the
      text. */
  lemma {:induction false} ScanLossless(s: string)
    ensures RenderAll(Scan(s)) == s
    decreases |s|
  {
    if |s| > 0 {
      var m := MarkerEnd(s);
      if m.Some? {
        ScanLossless(s[m.value + 1..]);
        MarkerStep(s, m.value);
      } else {
        ScanLossless(s[1..]);
        PlainStep(s);
      }
    }
  }

  lemma MarkerStep(s: string, j: nat)
    requires MarkerEnd(s) == Some(j)
    requires RenderAll(Scan(s[j + 1..])) == s[j + 1..]
    ensures RenderAll(Scan(s)) == s
  {
    var rest := s[j + 1..];
    var inner := s[1..j];
    ScanMarker(s, j);
    RenderAllCons(Bracket(inner), Scan(rest));
    SplitMarker(s, j);
  }

  lemma ScanMarker(s: string, j: nat)
    requires MarkerEnd(s) == Some(j)
    ensures Scan(s) == [Bracket(s[1..j])] + Scan(s[j + 1..])
  {
  }

  lemma SplitMarker(s: string, j: nat)
    requires 0 < j < |s| && s[0] == '[' && s[j] == ']'
    ensures s == "[" + s[1..j] + "]" + s[j + 1..]
  {
    assert s[..1] == "[" && s[j..j + 1] == "]";
    assert s == s[..1] + s[1..j] + s[j..j + 1] + s[j + 1..];
  }

  lemma PlainStep(s: string)
    requires |s| > 0 && MarkerEnd(s).None?
    requires RenderAll(Scan(s[1..])) == s[1..]
    ensures RenderAll(Scan(s)) == s
  {
    assert Scan(s) == [Plain(s[0])] + Scan(s[1..]);
    RenderAllCons(Plain(s[0]), Scan(s[1..]));
    assert s == [s[0]] + s[1..];
  }

  lemma RenderAllCons(p: Piece, ps: seq<Piece>)
    ensures RenderAll([p] + ps) == Render(p) + RenderAll(ps)
  {
    assert ([p] + ps)[1..] == ps;
  }

  /** The interiors of the markers, in order: `re.findall(r"\[(.*?)\]", s)`. */
  function Interiors(ps: seq<Piece>): seq<string> {
    if |ps| == 0 then []
    else (if ps[0].Bracket? then [ps[0].inner] else []) + Interiors(ps[1..])
  }

  function FindAll(s: string): seq<string> {
    Interiors(Scan(s))
  }

  predicate NoCloseOrNewline(t: string) {
    forall i :: 0 <= i < |t| ==> t[i] != ']' && t[i] != '\n'
  }

  /** Every interior found lies inside one line and holds no `]`. */
  lemma {:induction false} FindAllInteriors(s: string)
    ensures forall t :: t in FindAll(s) ==> NoCloseOrNewline(t)
    decreases |s|
  {
    if |s| > 0 {
      match MarkerEnd(s)
      case Some(j) =>
        FindAllInteriors(s[j + 1..]);
        assert FindAll(s) == [s[1..j]] + FindAll(s[j + 1..]);
      case None =>
        FindAllInteriors(s[1..]);
        assert FindAll(s) == FindAll(s[1..]);
    }
  }

  /** Text without `[` holds no marker. */
  lemma {:induction false} FindAllNoBracket(s: string)
    requires '[' !in s
    ensures FindAll(s) == []
    decreases |s|
  {
    if |s| > 0 {
      assert s[0] != '[';
      FindAllNoBracket(s[1..]);
    }
  }

  /** A marker at the front is found first, and the walk resumes after it. */
  lemma ScanMarkerFirst(inner: string, rest: string)
    requires NoCloseOrNewline(inner)
    ensures Scan("[" + inner + "]" + rest) == [Bracket(inner)] + Scan(rest)
  {
    var s := "[" + inner + "]" + rest;
    var j := |inner| + 1;
    assert s[j] == ']';
    assert forall i :: 1 <= i < j ==> s[i] == inner[i - 1];
    assert MarkerEnd(s) == Some(j);
    assert s[1..j] == inner;
    assert s[j + 1..] == rest;
  }

  // ---------------------------------------------------------------- numbered prefix

  /** Length of the run of ASCII digits at the start of `s`. */
  function DigitRun(s: string): (k: nat)
    ensures k <= |s| && AllDigits(s[..k])
    ensures k == |s| || !IsDigit(s[k])
  {
    if |s| > 0 && IsDigit(s[0]) then
      var k := 1 + DigitRun(s[1..]);
      assert s[..k] == [s[0]] + s[1..][..k - 1];
      k
    else 0
  }

  /** A match of `^\[(\d+)\]`: the digits and what follows the `]`. */
  datatype NumberPrefix = NumberPrefix(digits: string, rest: string)

  function NumberedPrefix(s: string): (r: Option<NumberPrefix>)
    ensures r.Some? ==> |r.value.digits| > 0 && AllDigits(r.value.digits)
    ensures r.Some? ==> s == "[" + r.value.digits + "]" + r.value.rest
  {
    if |s| > 0 && s[0] == '[' then
      var k := DigitRun(s[1..]);
      if k > 0 && 1 + k < |s| && s[1 + k] == ']' then
        assert s == "[" + s[1..][..k] + "]" + s[k + 2..];
        Some(NumberPrefix(s[1..][..k], s[k + 2..]))
      else None
    else None
  }

  /** A string that starts with `[`, digits and `]` has exactly that prefix. */
  lemma NumberedPrefixOf(digits: string, rest: string)
    requires |digits| > 0 && AllDigits(digits)
    ensures NumberedPrefix("[" + digits + "]" + rest) == Some(NumberPrefix(digits, rest))
  {
    var s := "[" + digits + "]" + rest;
    assert s[1..] == digits + "]" + rest;
    DigitRunOf(digits, "]" + rest);
    assert s[1 + |digits|] == ']';
    assert s[1..][..|digits|] == digits;
    assert s[|digits| + 2..] == rest;
  }

  lemma {:induction false} DigitRunOf(digits: string, rest: string)
    requires AllDigits(digits)
    requires rest == [] || !IsDigit(rest[0])
    ensures DigitRun(digits + rest) == |digits|
    decreases |digits|
  {
    if |digits| > 0 {
      assert (digits + rest)[1..] == digits[1..] + rest;
      DigitRunOf(digits[1..], rest);
    } else {
      assert digits + rest == rest;
    }
  }
}
