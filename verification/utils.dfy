/**
 * The string utilities of the pipeline: citation-marker expansion and
 * extraction, duplicate removal by content, reference-line parsing, the
 * JSON text repair, and file-name sanitising.
 */
module Utils {
  import opened Wrappers
  import opened PyStr
  import opened Markers

  // ================================================================ expand_citation_ranges

  /** `list(map(str, range(a, b + 1)))`: every integer from `a` to `b`,
      ascending; nothing when `a > b`. */
  function RangeStrings(a: int, b: int): (r: seq<string>)
    ensures |r| == if a <= b then b - a + 1 else 0
    ensures forall i :: 0 <= i < |r| ==> r[i] == IntToString(a + i)
    decreases b - a
  {
    if a > b then [] else [IntToString(a)] + RangeStrings(a + 1, b)
  }

  /** What one comma-separated part contributes: a range `a-b` with exactly
      one hyphen and two integer bounds expands; any other part holding a
      hyphen is skipped; a part without a hyphen stands for itself, stripped. */
  function ExpandPart(part: string): seq<string>
  {
    if '-' in part then
      var halves := Split(part, "-");
      if |halves| == 2 then
        match (ParseInt(halves[0]), ParseInt(halves[1]))
        case (Some(a), Some(b)) => RangeStrings(a, b)
        case _ => []
      else []
    else [Strip(part)]
  }

  /** `f` of every part, concatenated in order. */
  function ConcatMap(f: string -> seq<string>, parts: seq<string>): seq<string>
  {
    if |parts| == 0 then []
    else ConcatMap(f, parts[..|parts| - 1]) + f(parts[|parts| - 1])
  }

  lemma {:induction false} ConcatMapConcat(f: string -> seq<string>, p: seq<string>, q: seq<string>)
    ensures ConcatMap(f, p + q) == ConcatMap(f, p) + ConcatMap(f, q)
    decreases |q|
  {
    if |q| == 0 {
      assert p + q == p;
    } else {
      var q' := q[..|q| - 1];
      var last := q[|q| - 1];
      assert (p + q)[..|p + q| - 1] == p + q';
      assert (p + q)[|p + q| - 1] == last;
      ConcatMapConcat(f, p, q');
      AppendAssoc(ConcatMap(f, p), ConcatMap(f, q'), f(last));
    }
  }

  lemma ConcatMapStep(f: string -> seq<string>, parts: seq<string>, i: nat)
    requires i < |parts|
    ensures ConcatMap(f, parts[..i + 1]) == ConcatMap(f, parts[..i]) + f(parts[i])
  {
    assert parts[..i + 1][..i] == parts[..i];
  }

  lemma ConcatMapSingle(f: string -> seq<string>, part: string)
    ensures ConcatMap(f, [part]) == f(part)
  {
    assert [part][..0] == [];
  }

  /** The parts' contributions, concatenated in order. */
  function ExpandAll(parts: seq<string>): seq<string>
  {
    ConcatMap(ExpandPart, parts)
  }

  /** What `expand_citation_ranges(citation)` returns. */
  function Expansion(citation: string): seq<string>
  {
    ExpandAll(Split(citation, ","))
  }

  /** `expand_citation_ranges`: split on commas, expand each part. */
  method ExpandCitationRanges(citation: string) returns (expanded: seq<string>)
    ensures expanded == Expansion(citation)
  {
    var parts := Split(citation, ",");
    expanded := [];
    for i := 0 to |parts|
      invariant expanded == ExpandAll(parts[..i])
    {
      var part := parts[i];
      var contribution := [];
      if '-' in part {
        var rangeParts := Split(part, "-");
        if |rangeParts| == 2 {
          var start, end := ParseInt(rangeParts[0]), ParseInt(rangeParts[1]);
          if start.Some? && end.Some? {
            contribution := RangeStrings(start.value, end.value);
          }
          // otherwise "Invalid range format": the part is skipped
        }
        // otherwise "Unexpected range format": the part is skipped
      } else {
        contribution := [Strip(part)];
      }
      assert contribution == ExpandPart(part);
      ExpandAllStep(parts, i);
      expanded := expanded + contribution;
    }
    assert parts[..|parts|] == parts;
  }

  lemma ExpandAllStep(parts: seq<string>, i: nat)
    requires i < |parts|
    ensures ExpandAll(parts[..i + 1]) == ExpandAll(parts[..i]) + ExpandPart(parts[i])
  {
    ConcatMapStep(ExpandPart, parts, i);
  }

  lemma ExpandAllConcat(p: seq<string>, q: seq<string>)
    ensures ExpandAll(p + q) == ExpandAll(p) + ExpandAll(q)
  {
    ConcatMapConcat(ExpandPart, p, q);
  }

  lemma ExpandAllSingle(part: string)
    ensures ExpandAll([part]) == ExpandPart(part)
  {
    ConcatMapSingle(ExpandPart, part);
  }

  /** Parts are independent: a part that fails to parse contributes nothing
      and the parts after it are still expanded. */
  lemma ExpansionCons(first: string, rest: string)
    requires ',' !in first
    ensures Expansion(first + "," + rest) == ExpandPart(first) + Expansion(rest)
  {
    forall i | 0 <= i < |first|
      ensures !OccursAt(first + "," + rest, ",", i)
    {
      assert (first + "," + rest)[i] == first[i];
    }
    SplitAfterPrefix(first, ",", rest);
    ExpandAllConcat([first], Split(rest, ","));
    ExpandAllSingle(first);
  }

  /** A text without commas is a single part. */
  lemma ExpansionSingle(part: string)
    requires ',' !in part
    ensures Expansion(part) == ExpandPart(part)
  {
    forall i | 0 <= i < |part| ensures !OccursAt(part, ",", i) {
      assert part[i] != ',';
    }
    SplitNoOccurrence(part, ",");
    ExpandAllSingle(part);
  }

  /** A range part `x-y` with integer bounds expands to every integer from
      the first bound to the second, ascending (nothing when it is empty). */
  lemma RangePart(x: string, y: string, a: int, b: int)
    requires '-' !in x && '-' !in y
    requires ParseInt(x) == Some(a) && ParseInt(y) == Some(b)
    ensures ExpandPart(x + "-" + y) == RangeStrings(a, b)
    ensures |ExpandPart(x + "-" + y)| == if a <= b then b - a + 1 else 0
  {
    var part := x + "-" + y;
    assert part[|x|] == '-';
    SplitHyphen(x, y);
    ExpandRange(part, x, y);
  }

  lemma ExpandRange(part: string, x: string, y: string)
    requires '-' in part && Split(part, "-") == [x, y]
    requires ParseInt(x).Some? && ParseInt(y).Some?
    ensures ExpandPart(part) == RangeStrings(ParseInt(x).value, ParseInt(y).value)
  {
  }

  /** A part with two or more hyphens is skipped. */
  lemma TwoHyphensSkipped(x: string, y: string, z: string)
    requires '-' !in x && '-' !in y
    ensures ExpandPart(x + "-" + y + "-" + z) == []
  {
    var tail := y + "-" + z;
    var part := x + "-" + tail;
    assert part == x + "-" + y + "-" + z;
    forall i | 0 <= i < |x| ensures !OccursAt(part, "-", i) {
      assert part[i] == x[i];
    }
    SplitAfterPrefix(x, "-", tail);
    forall i | 0 <= i < |y| ensures !OccursAt(tail, "-", i) {
      assert tail[i] == y[i];
    }
    SplitAfterPrefix(y, "-", z);
    assert part[|x|] == '-';
    assert |Split(part, "-")| == 2 + |Split(z, "-")|;
  }

  /** A one-hyphen part whose bounds are not both integers, such as `-5`
      or `x-3`, is skipped. */
  lemma BadBoundSkipped(x: string, y: string)
    requires '-' !in x && '-' !in y
    requires ParseInt(x).None? || ParseInt(y).None?
    ensures ExpandPart(x + "-" + y) == []
  {
    var part := x + "-" + y;
    assert part[|x|] == '-';
    SplitHyphen(x, y);
  }

  /** A text with one hyphen splits into the two sides. */
  lemma SplitHyphen(x: string, y: string)
    requires '-' !in x && '-' !in y
    ensures Split(x + "-" + y, "-") == [x, y]
  {
    var part := x + "-" + y;
    forall i | 0 <= i < |x| ensures !OccursAt(part, "-", i) {
      assert part[i] == x[i];
    }
    SplitAfterPrefix(x, "-", y);
    forall i | 0 <= i < |y| ensures !OccursAt(y, "-", i) {
      assert y[i] != '-';
    }
    SplitNoOccurrence(y, "-");
  }

  /** A part without a hyphen is kept as its stripped text. */
  lemma PlainPart(part: string)
    requires '-' !in part
    ensures ExpandPart(part) == [Strip(part)]
  {
  }

  /** A listed number followed by a range, as in `2,23-25`: the number
      stands for itself and the range expands. */
  lemma NumberThenRange(n: nat, a: nat, b: nat)
    ensures Expansion(NatToString(n) + "," + NatToString(a) + "-" + NatToString(b))
         == [NatToString(n)] + RangeStrings(a, b)
  {
    var first, x, y := NatToString(n), NatToString(a), NatToString(b);
    assert first + "," + x + "-" + y == first + "," + (x + "-" + y);
    DigitsAvoid(first, ',');
    DigitsAvoid(x, ',');
    DigitsAvoid(y, ',');
    DigitsAvoid(first, '-');
    DigitsAvoid(x, '-');
    DigitsAvoid(y, '-');
    ExpansionCons(first, x + "-" + y);
    ExpansionSingle(x + "-" + y);
    DigitsNoSpace(first);
    StripNoSpace(first);
    PlainPart(first);
    ParseIntOfNatToString(a);
    ParseIntOfNatToString(b);
    RangePart(x, y, a, b);
  }

  lemma DigitsAvoid(s: string, c: char)
    requires AllDigits(s) && !IsDigit(c)
    ensures c !in s
  {
  }

  lemma DigitsNoSpace(s: string)
    requires AllDigits(s)
    ensures NoSpace(s)
  {
    forall i | 0 <= i < |s| ensures !IsSpace(s[i]) {
      assert IsDigit(s[i]);
    }
  }

  // ================================================================ extract_citations

  /** `re.match(r"^\d+([,-]\d+)*$", m)` for a text without newlines: digit
      runs separated by single commas or hyphens. */
  predicate IsCitationList(m: string) {
    && |m| > 0 && IsDigit(m[0]) && IsDigit(m[|m| - 1])
    && forall i {:trigger m[i]} :: 0 <= i < |m| ==>
         IsDigit(m[i]) || ((m[i] == ',' || m[i] == '-') && i + 1 < |m| && IsDigit(m[i + 1]))
  }

  /** The expansions of the bracket interiors that pass the pattern, in
      order, duplicates kept. */
  function CitationsOf(interiors: seq<string>): seq<string>
  {
    if |interiors| == 0 then []
    else
      var last := interiors[|interiors| - 1];
      CitationsOf(interiors[..|interiors| - 1]) + (if IsCitationList(last) then Expansion(last) else [])
  }

  /** What `extract_citations(line)` returns. */
  function ExtractedCitations(line: string): seq<string>
  {
    CitationsOf(FindAll(line))
  }

  /** `extract_citations`: expand every bracket interior that is a list of
      numbers and ranges. */
  method ExtractCitations(line: string) returns (citations: seq<string>)
    ensures citations == ExtractedCitations(line)
  {
    var matches := FindAll(line);
    citations := [];
    for i := 0 to |matches|
      invariant citations == CitationsOf(matches[..i])
    {
      if IsCitationList(matches[i]) {
        var expanded := ExpandCitationRanges(matches[i]);
        citations := citations + expanded;
      }
      assert matches[..i + 1][..i] == matches[..i];
    }
    assert matches[..|matches|] == matches;
  }

  /** A non-empty run of ASCII digits. */
  predicate IsNumeral(s: string) { |s| > 0 && AllDigits(s) }

  predicate AllNumerals(xs: seq<string>) { forall j :: 0 <= j < |xs| ==> IsNumeral(xs[j]) }

  /** A part made of digits and hyphens contributes only numerals. */
  lemma ExpandPartNumerals(part: string)
    requires |part| > 0
    requires forall i :: 0 <= i < |part| ==> IsDigit(part[i]) || part[i] == '-'
    ensures AllNumerals(ExpandPart(part))
  {
    if '-' in part {
      var halves := Split(part, "-");
      SplitOnCharParts(part, '-');
      if |halves| == 2 {
        assert AllDigits(halves[0]) && AllDigits(halves[1]) by {
          forall k, i | 0 <= k < 2 && 0 <= i < |halves[k]| ensures IsDigit(halves[k][i]) {
            var j :| 0 <= j < |part| && part[j] == halves[k][i];
          }
        }
        match (ParseInt(halves[0]), ParseInt(halves[1]))
        case (Some(lo), Some(hi)) =>
          ParseIntOfDigits(halves[0], lo);
          var r := RangeStrings(lo, hi);
          forall j | 0 <= j < |r| ensures IsNumeral(r[j]) {
            assert r[j] == NatToString(lo + j);
          }
        case _ =>
      }
    } else {
      assert AllDigits(part);
      DigitsNoSpace(part);
      StripNoSpace(part);
    }
  }

  lemma {:induction false} ExpandAllNumerals(parts: seq<string>)
    requires forall k :: 0 <= k < |parts| ==> |parts[k]| > 0
    requires forall k, i :: 0 <= k < |parts| && 0 <= i < |parts[k]| ==>
               IsDigit(parts[k][i]) || parts[k][i] == '-'
    ensures AllNumerals(ExpandAll(parts))
    decreases |parts|
  {
    if |parts| > 0 {
      var init := parts[..|parts| - 1];
      ExpandAllNumerals(init);
      ExpandPartNumerals(parts[|parts| - 1]);
    }
  }

  /** Every number a citation list expands to is written with digits only:
      ranges never produce negative numbers here. */
  lemma CitationListNumerals(m: string)
    requires IsCitationList(m)
    ensures AllNumerals(Expansion(m))
  {
    var parts := Split(m, ",");
    SplitOnCharParts(m, ',');
    assert forall i :: 0 <= i < |m| - 1 && m[i] == ',' ==> m[i + 1] != ',' by {
      forall i | 0 <= i < |m| - 1 && m[i] == ',' ensures m[i + 1] != ',' {
        assert IsDigit(m[i + 1]);
      }
    }
    SplitOnCharNonEmpty(m, ',');
    forall k, i | 0 <= k < |parts| && 0 <= i < |parts[k]|
      ensures IsDigit(parts[k][i]) || parts[k][i] == '-'
    {
      var j :| 0 <= j < |m| && m[j] == parts[k][i];
      assert IsDigit(m[j]) || ((m[j] == ',' || m[j] == '-') && j + 1 < |m| && IsDigit(m[j + 1]));
    }
    ExpandAllNumerals(parts);
  }

  lemma {:induction false} CitationsOfNumerals(interiors: seq<string>)
    ensures AllNumerals(CitationsOf(interiors))
    decreases |interiors|
  {
    if |interiors| > 0 {
      var last := interiors[|interiors| - 1];
      CitationsOfNumerals(interiors[..|interiors| - 1]);
      if IsCitationList(last) {
        CitationListNumerals(last);
      }
    }
  }

  /** Whatever a line contains, the citations extracted from it are
      non-empty strings of digits. */
  lemma ExtractedAreNumerals(line: string)
    ensures AllNumerals(ExtractedCitations(line))
  {
    CitationsOfNumerals(FindAll(line));
  }

  /** Text without any `[` cites nothing. */
  lemma NoBracketNoCitations(line: string)
    requires '[' !in line
    ensures ExtractedCitations(line) == []
  {
    FindAllNoBracket(line);
  }

  /** An author-year bracket is not a citation marker. */
  lemma AuthorYearIgnored()
    ensures ExtractedCitations("[Smith 2020]") == []
  {
    var m := "Smith 2020";
    assert "[Smith 2020]" == "[" + m + "]";
    FindAllOneMarker(m);
    assert !IsDigit(m[0]);
    CitationsOfOne(m);
  }

  /** A text that is a single marker has that marker's interior only. */
  lemma FindAllOneMarker(m: string)
    requires NoCloseOrNewline(m)
    ensures FindAll("[" + m + "]") == [m]
  {
    ScanMarkerFirst(m, "");
    assert "[" + m + "]" + "" == "[" + m + "]";
    assert Scan("") == [];
    assert Interiors([Bracket(m)]) == [m] + Interiors([]);
  }

  /** One interior that is not a citation list contributes nothing. */
  lemma CitationsOfOne(m: string)
    requires !IsCitationList(m)
    ensures CitationsOf([m]) == []
  {
    assert [m][..0] == [];
  }

  // ================================================================ remove_duplicates

  /** A search result: its `content` text and the rest of its fields. */
  datatype SearchResult = SearchResult(content: string, metadata: map<string, string>)

  /** The contents present in a list of results. */
  function ContentSet(rs: seq<SearchResult>): (cs: set<string>)
    ensures forall i :: 0 <= i < |rs| ==> rs[i].content in cs
  {
    if |rs| == 0 then {} else ContentSet(rs[..|rs| - 1]) + {rs[|rs| - 1].content}
  }

  /** No two results share a content. */
  predicate DistinctContents(rs: seq<SearchResult>) {
    forall i, j :: 0 <= i < j < |rs| ==> rs[i].content != rs[j].content
  }

  /** What `remove_duplicates(results)` returns: the results in order, each
      dropped when a result with the same content was kept before it. */
  function Dedup(rs: seq<SearchResult>): seq<SearchResult>
  {
    if |rs| == 0 then []
    else
      var kept := Dedup(rs[..|rs| - 1]);
      if rs[|rs| - 1].content in ContentSet(kept) then kept else kept + [rs[|rs| - 1]]
  }

  /** `remove_duplicates`: keep a result unless its content was seen
      already. The content digest of the original is its content here. */
  method RemoveDuplicates(results: seq<SearchResult>) returns (unique: seq<SearchResult>)
    ensures unique == Dedup(results)
  {
    var seen: set<string> := {};
    unique := [];
    for i := 0 to |results|
      invariant unique == Dedup(results[..i])
      invariant seen == ContentSet(unique)
    {
      assert results[..i + 1][..i] == results[..i];
      if results[i].content !in seen {
        unique := unique + [results[i]];
        assert unique[..|unique| - 1] == Dedup(results[..i]);
        seen := seen + {results[i].content};
      }
    }
    assert results[..|results|] == results;
  }

  /** The index of the first result with content `c`. */
  function FirstIndex(rs: seq<SearchResult>, c: string): (i: nat)
    requires c in ContentSet(rs)
    ensures i < |rs| && rs[i].content == c
    ensures forall j :: 0 <= j < i ==> rs[j].content != c
  {
    var init := rs[..|rs| - 1];
    if c in ContentSet(init) then
      var i := FirstIndex(init, c);
      assert forall j :: 0 <= j < i ==> rs[j] == init[j];
      i
    else
      assert forall j :: 0 <= j < |init| ==> rs[j] == init[j];
      |rs| - 1
  }

  /** The kept results have pairwise different contents, and every content
      of the input is kept. */
  lemma {:induction false} DedupContents(rs: seq<SearchResult>)
    ensures DistinctContents(Dedup(rs))
    ensures ContentSet(Dedup(rs)) == ContentSet(rs)
    decreases |rs|
  {
    if |rs| > 0 {
      var init := rs[..|rs| - 1];
      var kept := Dedup(init);
      DedupContents(init);
      if rs[|rs| - 1].content !in ContentSet(kept) {
        var d := kept + [rs[|rs| - 1]];
        assert d[..|d| - 1] == kept;
        forall i, j | 0 <= i < j < |d| ensures d[i].content != d[j].content {
          if j == |d| - 1 {
            assert d[i] == kept[i];
          }
        }
      }
    }
  }

  /** Appending a result does not move the first occurrence of a content
      already present. */
  lemma FirstIndexExtend(rs: seq<SearchResult>, c: string)
    requires |rs| > 0 && c in ContentSet(rs[..|rs| - 1])
    ensures FirstIndex(rs, c) == FirstIndex(rs[..|rs| - 1], c)
  {
  }

  /** Each kept result is the first result of the input with its content. */
  lemma {:induction false} DedupKeepsFirsts(rs: seq<SearchResult>)
    ensures ContentSet(Dedup(rs)) == ContentSet(rs)
    ensures forall k :: 0 <= k < |Dedup(rs)| ==>
              Dedup(rs)[k] == rs[FirstIndex(rs, Dedup(rs)[k].content)]
    decreases |rs|
  {
    DedupContents(rs);
    if |rs| > 0 {
      var init := rs[..|rs| - 1];
      var kept := Dedup(init);
      DedupKeepsFirsts(init);
      var d := Dedup(rs);
      forall k | 0 <= k < |d| ensures d[k] == rs[FirstIndex(rs, d[k].content)] {
        if k < |kept| {
          assert d[k] == kept[k];
          FirstIndexExtend(rs, kept[k].content);
        }
      }
    }
  }

  /** The kept results come in the order of their first occurrences. */
  lemma {:induction false} DedupKeepsOrder(rs: seq<SearchResult>)
    ensures ContentSet(Dedup(rs)) == ContentSet(rs)
    ensures forall k, l :: 0 <= k < l < |Dedup(rs)| ==>
              FirstIndex(rs, Dedup(rs)[k].content) < FirstIndex(rs, Dedup(rs)[l].content)
    decreases |rs|
  {
    DedupContents(rs);
    if |rs| > 0 {
      var init := rs[..|rs| - 1];
      var kept := Dedup(init);
      DedupKeepsOrder(init);
      DedupContents(init);
      var d := Dedup(rs);
      forall k, l | 0 <= k < l < |d|
        ensures FirstIndex(rs, d[k].content) < FirstIndex(rs, d[l].content)
      {
        assert d[k] == kept[k];
        FirstIndexExtend(rs, kept[k].content);
        if l < |kept| {
          assert d[l] == kept[l];
          FirstIndexExtend(rs, kept[l].content);
        }
      }
    }
  }

  /** A list whose contents are already distinct is returned unchanged. */
  lemma {:induction false} DedupOfDistinct(rs: seq<SearchResult>)
    requires DistinctContents(rs)
    ensures Dedup(rs) == rs
    decreases |rs|
  {
    if |rs| > 0 {
      var init := rs[..|rs| - 1];
      DistinctInit(rs);
      DedupOfDistinct(init);
      assert Dedup(rs) == init + [rs[|rs| - 1]];
      assert init + [rs[|rs| - 1]] == rs;
    }
  }

  /** Dropping the last result keeps the contents distinct, and the last
      content is not among the others. */
  lemma DistinctInit(rs: seq<SearchResult>)
    requires |rs| > 0 && DistinctContents(rs)
    ensures DistinctContents(rs[..|rs| - 1])
    ensures rs[|rs| - 1].content !in ContentSet(rs[..|rs| - 1])
  {
    var init := rs[..|rs| - 1];
    forall i, j | 0 <= i < j < |init| ensures init[i].content != init[j].content {
      assert init[i] == rs[i] && init[j] == rs[j];
    }
    if rs[|rs| - 1].content in ContentSet(init) {
      var i := FirstIndex(init, rs[|rs| - 1].content);
      assert false;
    }
  }

  /** Removing duplicates twice is the same as once. */
  lemma DedupIdempotent(rs: seq<SearchResult>)
    ensures Dedup(Dedup(rs)) == Dedup(rs)
  {
    DedupContents(rs);
    DedupOfDistinct(Dedup(rs));
  }

  // ================================================================ parse_reference

  /** A reference line split into its number and its citation text. */
  datatype ParsedReference = ParsedReference(referenceNumber: nat, citation: string)

  /** The text up to the first newline (what `.*` matches without DOTALL). */
  function TakeLine(s: string): (r: string)
    ensures '\n' !in r
    ensures r == s || (|r| < |s| && s[|r|] == '\n')
    ensures s[..|r|] == r
  {
    if |s| == 0 || s[0] == '\n' then [] else [s[0]] + TakeLine(s[1..])
  }

  /** `parse_reference`: a line that starts with `[n]` gives `n` and the
      rest of its first line, stripped; any other line gives `None`. */
  function ParseReference(refStr: string): (r: Option<ParsedReference>)
    ensures r.None? <==> NumberedPrefix(refStr).None?
    ensures r.Some? ==> '\n' !in r.value.citation
  {
    match NumberedPrefix(refStr)
    case None => None
    case Some(p) =>
      var rest := p.rest[SpaceRun(p.rest)..];
      Some(ParsedReference(DigitsValue(p.digits), Strip(TakeLine(rest))))
  }

  /** Formatting a reference line and parsing it back gives the number and
      the citation: for a citation on one line without surrounding
      whitespace. */
  lemma ParseReferenceRoundTrip(n: nat, citation: string)
    requires '\n' !in citation && NoEdgeSpace(citation)
    ensures ParseReference("[" + NatToString(n) + "] " + citation)
         == Some(ParsedReference(n, citation))
  {
    var digits := NatToString(n);
    var rest := " " + citation;
    assert "[" + digits + "] " + citation == "[" + digits + "]" + rest;
    NumberedPrefixOf(digits, rest);
    assert SpaceRun(rest) == 1 by {
      assert rest[1..] == citation;
      assert |citation| == 0 || !IsSpace(citation[0]);
    }
    assert rest[1..] == citation;
    assert TakeLine(citation) == citation;
    StripEdgeless(citation);
    NatToStringValue(n);
  }

  // ================================================================ clean_json

  /** One character of the fence tag `json` under `re.IGNORECASE`: either
      ASCII case, and the long s `ſ` (U+017F) for `s`. */
  predicate TagCharMatches(c: char, lower: char) {
    c == lower || c as int + 32 == lower as int || (lower == 's' && c == 'ſ')
  }

  /** The tag `json` at position `at`, in any case. */
  predicate TagAt(s: string, at: nat) {
    && at + 4 <= |s|
    && TagCharMatches(s[at], 'j') && TagCharMatches(s[at + 1], 's')
    && TagCharMatches(s[at + 2], 'o') && TagCharMatches(s[at + 3], 'n')
  }

  /** The first group of the fence pattern with `ticks` backticks, on a
      stripped text: three backticks and `json`, whitespace, an optional
      newline, the body (lazily), an optional newline and three closing
      backticks at the end; or, with one backtick, the same without the
      optional newlines. Since the text does not end in a newline, the end
      anchor is the end of the text. */
  function FenceBody(text: string, ticks: nat): (r: Option<string>)
    requires ticks == 1 || ticks == 3
    requires NoEdgeSpace(text)
    ensures r.Some? <==>
      && |text| >= 2 * ticks + 4
      && text[..ticks] == Repeat('`', ticks) && TagAt(text, ticks)
      && text[|text| - ticks..] == Repeat('`', ticks)
  {
    if |text| >= 2 * ticks + 4 && text[..ticks] == Repeat('`', ticks) && TagAt(text, ticks)
       && text[|text| - ticks..] == Repeat('`', ticks)
    then
      assert text[|text| - ticks] == '`';
      var span := FenceSpan(text, ticks);
      Some(text[span.0..span.1])
    else None
  }

  /** Where the body of a matched fence starts and stops: after the tag and
      the whitespace that follows it, and before the closing backticks and,
      with three of them, the newline that may precede them. */
  function FenceSpan(text: string, ticks: nat): (span: (nat, nat))
    requires ticks == 1 || ticks == 3
    requires |text| >= 2 * ticks + 4 && text[|text| - ticks] == '`'
    ensures ticks + 4 <= span.0 <= span.1 <= |text| - ticks
    ensures AllSpace(text[ticks + 4..span.0]) && AllSpace(text[span.1..|text| - ticks])
  {
    var pre := ticks + 4;
    var run := SpaceRun(text[pre..]);
    RunBefore(text, pre, run, |text| - ticks);
    var start := pre + run;
    var stop :=
      if ticks == 3 && |text| - 4 >= start && text[|text| - 4] == '\n' then |text| - 4
      else |text| - ticks;
    TrailingNewlineSpace(text, stop, |text| - ticks);
    (start, stop)
  }

  /** What the fence removal keeps is a slice of the text with only
      whitespace between it and the tag, and between it and the closing
      backticks; so, once stripped, it is the text between the tag and the
      closing backticks, stripped (`StripPaddedSlice`). */
  lemma FenceBodyStripped(text: string, ticks: nat) returns (span: (nat, nat))
    requires ticks == 1 || ticks == 3
    requires NoEdgeSpace(text)
    requires FenceBody(text, ticks).Some?
    ensures ticks + 4 <= span.0 <= span.1 <= |text| - ticks
    ensures AllSpace(text[ticks + 4..span.0]) && AllSpace(text[span.1..|text| - ticks])
    ensures FenceBody(text, ticks).value == text[span.0..span.1]
  {
    assert text[|text| - ticks] == '`';
    span := FenceSpan(text, ticks);
  }

  /** Stripping a slice that is whitespace, then `text[b..c]`, then
      whitespace gives `text[b..c]` stripped. */
  lemma StripPaddedSlice(text: string, a: nat, b: nat, c: nat, d: nat)
    requires a <= b <= c <= d <= |text|
    requires AllSpace(text[a..b]) && AllSpace(text[c..d])
    ensures Strip(text[b..c]) == Strip(text[a..d])
  {
    SliceThree(text, a, b, c, d);
    StripPadded(text[a..b], text[b..c], text[c..d]);
  }

  /** A slice cut in three. */
  lemma SliceThree(s: string, a: nat, b: nat, c: nat, d: nat)
    requires a <= b <= c <= d <= |s|
    ensures s[a..d] == s[a..b] + s[b..c] + s[c..d]
  {
  }

  /** The whitespace run found after position `pre` is all whitespace and
      ends before a character that is not. */
  lemma RunBefore(text: string, pre: nat, run: nat, end: nat)
    requires pre <= end < |text| && !IsSpace(text[end]) && run == SpaceRun(text[pre..])
    ensures pre + run <= end && AllSpace(text[pre..pre + run])
  {
    LeadingRunSpace(text, pre, run);
    assert text[pre..][end - pre] == text[end];
  }

  /** The whitespace run found after position `pre` is all whitespace. */
  lemma LeadingRunSpace(text: string, pre: nat, run: nat)
    requires pre <= |text| && run == SpaceRun(text[pre..])
    ensures AllSpace(text[pre..pre + run])
  {
    var w := text[pre..pre + run];
    forall i | 0 <= i < |w| ensures IsSpace(w[i]) {
      assert w[i] == text[pre..][i];
    }
  }

  /** The slice before the closing backticks is empty or one newline. */
  lemma TrailingNewlineSpace(text: string, stop: nat, end: nat)
    requires stop <= end <= |text|
    requires stop == end || (stop + 1 == end && text[stop] == '\n')
    ensures AllSpace(text[stop..end])
  {
  }


  /** The text with its code fence, if any, removed: the first of the two
      patterns that matches gives its stripped body. */
  function Unfenced(t: string): (r: string)
    requires NoEdgeSpace(t)
  {
    match FenceBody(t, 3)
    case Some(b) => Strip(b)
    case None =>
      match FenceBody(t, 1)
      case Some(b) => Strip(b)
      case None => t
  }

  /** `re.sub(r'\}\s*\{', '},{', s)`: every closing brace followed, after
      optional whitespace, by an opening brace becomes `},{`. */
  function InsertCommas(s: string): (r: string)
    ensures |s| > 0 ==> |r| > 0 && r[0] == s[0]
    decreases |s|
  {
    if |s| == 0 then []
    else if GluedAt(s, 0) then
      var k := SpaceRun(s[1..]);
      "},{" + InsertCommas(s[2 + k..])
    else [s[0]] + InsertCommas(s[1..])
  }

  /** The repair that closes what is left open: as many `]` as there are
      more `[` than `]`, then as many `}` as there are more `{` than `}`. */
  function CloseOpen(q: string): (r: string)
    ensures Count(r, '[') <= Count(r, ']') && Count(r, '{') <= Count(r, '}')
    ensures forall c :: c in r ==> c in q || c == ']' || c == '}'
  {
    var openBrackets := Count(q, '[') - Count(q, ']');
    var openBraces := Count(q, '{') - Count(q, '}');
    var a := if openBrackets > 0 then Repeat(']', openBrackets) else [];
    var b := if openBraces > 0 then Repeat('}', openBraces) else [];
    CloseOpenCounts(q, a, b);
    q + a + b
  }

  lemma CloseOpenCounts(q: string, a: string, b: string)
    requires a == if Count(q, '[') > Count(q, ']') then Repeat(']', Count(q, '[') - Count(q, ']')) else []
    requires b == if Count(q, '{') > Count(q, '}') then Repeat('}', Count(q, '{') - Count(q, '}')) else []
    ensures Count(q + a + b, '[') <= Count(q + a + b, ']')
    ensures Count(q + a + b, '{') <= Count(q + a + b, '}')
  {
    forall c | c in "[]{}" ensures Count(q + a + b, c) == Count(q, c) + Count(a, c) + Count(b, c) {
      CountConcat(q + a, b, c);
      CountConcat(q, a, c);
    }
    CountRepeat(']', |a|, '[');
    CountRepeat(']', |a|, ']');
    CountRepeat(']', |a|, '{');
    CountRepeat(']', |a|, '}');
    CountRepeat('}', |b|, '[');
    CountRepeat('}', |b|, ']');
    CountRepeat('}', |b|, '{');
    CountRepeat('}', |b|, '}');
  }

  /** The repaired text is the original followed only by closers: first
      the missing `]`s, then the missing `}`s. Openers keep their counts,
      and each kind of closer ends up exactly as frequent as the larger of
      its opener and closer counts in the original. */
  lemma CloseOpenShape(q: string)
    ensures var r := CloseOpen(q);
      && |q| <= |r| && r[..|q|] == q
      && (forall i :: |q| <= i < |r| ==> r[i] == ']' || r[i] == '}')
      && (forall i, j :: |q| <= i < j < |r| && r[j] == ']' ==> r[i] == ']')
    ensures Count(CloseOpen(q), '[') == Count(q, '[') && Count(CloseOpen(q), '{') == Count(q, '{')
    ensures Count(CloseOpen(q), ']') == if Count(q, '[') > Count(q, ']') then Count(q, '[') else Count(q, ']')
    ensures Count(CloseOpen(q), '}') == if Count(q, '{') > Count(q, '}') then Count(q, '{') else Count(q, '}')
  {
    var openBrackets := Count(q, '[') - Count(q, ']');
    var openBraces := Count(q, '{') - Count(q, '}');
    var a := if openBrackets > 0 then Repeat(']', openBrackets) else [];
    var b := if openBraces > 0 then Repeat('}', openBraces) else [];
    assert CloseOpen(q) == q + a + b;
    AppendClosers(q, a, b);
    ClosersCounts(q, a, b);
  }

  /** Text followed by `]`s and then `}`s: the text is a prefix, and only
      closers follow, brackets before braces. */
  lemma AppendClosers(q: string, a: string, b: string)
    requires forall i :: 0 <= i < |a| ==> a[i] == ']'
    requires forall i :: 0 <= i < |b| ==> b[i] == '}'
    ensures var r := q + a + b;
      && |q| <= |r| && r[..|q|] == q
      && (forall i :: |q| <= i < |r| ==> r[i] == ']' || r[i] == '}')
      && (forall i, j :: |q| <= i < j < |r| && r[j] == ']' ==> r[i] == ']')
  {
    var r := q + a + b;
    assert r[..|q|] == q;
    assert forall i :: |q| <= i < |q| + |a| ==> r[i] == a[i - |q|];
    assert forall i :: |q| + |a| <= i < |r| ==> r[i] == b[i - |q| - |a|];
  }

  /** Appending `]`s and `}`s adds to the closer counts only. */
  lemma ClosersCounts(q: string, a: string, b: string)
    requires a == Repeat(']', |a|) && b == Repeat('}', |b|)
    ensures Count(q + a + b, '[') == Count(q, '[') && Count(q + a + b, '{') == Count(q, '{')
    ensures Count(q + a + b, ']') == Count(q, ']') + |a| && Count(q + a + b, '}') == Count(q, '}') + |b|
  {
    forall c | c in "[]{}" ensures Count(q + a + b, c) == Count(q, c) + Count(a, c) + Count(b, c) {
      CountConcat(q + a, b, c);
      CountConcat(q, a, c);
    }
    CountRepeat(']', |a|, '[');
    CountRepeat(']', |a|, ']');
    CountRepeat(']', |a|, '{');
    CountRepeat(']', |a|, '}');
    CountRepeat('}', |b|, '[');
    CountRepeat('}', |b|, ']');
    CountRepeat('}', |b|, '{');
    CountRepeat('}', |b|, '}');
  }

  /** Appending the missing `]`s, then the missing `}`s, is `CloseOpen`. */
  lemma CloseOpenAppends(q: string, openBrackets: int, openBraces: int, closed: string)
    requires openBrackets == Count(q, '[') - Count(q, ']')
    requires openBraces == Count(q, '{') - Count(q, '}')
    requires closed == q + (if openBrackets > 0 then Repeat(']', openBrackets) else [])
                         + (if openBraces > 0 then Repeat('}', openBraces) else [])
    ensures closed == CloseOpen(q)
  {
  }

  /** What `clean_json(text)` returns. */
  function CleanedJson(text: string): string
  {
    InsertCommas(CloseOpen(ReplaceChar(Unfenced(Strip(text)), '\'', '"')))
  }

  /** The fence-removal loop of `clean_json`: try the two patterns in turn
      and keep the stripped body of the first that matches. */
  method RemoveFence(original: string) returns (cleaned: string)
    requires NoEdgeSpace(original)
    ensures cleaned == Unfenced(original)
  {
    cleaned := original;
    var patterns: seq<nat> := [3, 1];
    for i := 0 to |patterns|
      invariant cleaned == original
      invariant i >= 1 ==> FenceBody(original, 3).None?
      invariant i >= 2 ==> FenceBody(original, 1).None?
    {
      var ticks := patterns[i];
      var m := FenceBody(cleaned, ticks);
      if m.Some? {
        cleaned := Strip(m.value);
        assert ticks == if i == 0 then 3 else 1;
        break;
      }
    }
  }

  /** `clean_json`: strip, remove the first fence pattern that matches, turn
      single quotes into double quotes, close unclosed brackets and braces,
      and put commas between adjacent objects. */
  method CleanJson(text: string) returns (cleaned: string)
    ensures cleaned == CleanedJson(text)
  {
    cleaned := RemoveFence(Strip(text));
    cleaned := ReplaceChar(cleaned, '\'', '"');
    ghost var q := cleaned;
    var openBrackets := Count(cleaned, '[') - Count(cleaned, ']');
    var openBraces := Count(cleaned, '{') - Count(cleaned, '}');
    if openBrackets > 0 {
      cleaned := cleaned + Repeat(']', openBrackets);
    }
    if openBraces > 0 {
      cleaned := cleaned + Repeat('}', openBraces);
    }
    CloseOpenAppends(q, openBrackets, openBraces, cleaned);
    cleaned := InsertCommas(cleaned);
  }

  /** A closing brace that `re.sub(r'\}\s*\{', ...)` would match at `i`. */
  predicate GluedAt(s: string, i: nat)
    requires i < |s|
  {
    s[i] == '}' && i + 1 + SpaceRun(s[i + 1..]) < |s| && s[i + 1 + SpaceRun(s[i + 1..])] == '{'
  }

  /** No closing brace is followed, after optional whitespace, by an
      opening brace. */
  predicate NoGlued(s: string) {
    forall i :: 0 <= i < |s| ==> !GluedAt(s, i)
  }

  lemma GluedShift(p: string, r: string, j: nat)
    requires j < |r|
    ensures GluedAt(p + r, |p| + j) == GluedAt(r, j)
  {
    assert (p + r)[|p| + j + 1..] == r[j + 1..];
  }

  lemma NotGluedHead(c: char, r: string)
    requires c == '}' ==> SpaceRun(r) == |r| || r[SpaceRun(r)] != '{'
    ensures !GluedAt([c] + r, 0)
  {
    assert ([c] + r)[1..] == r;
  }

  lemma NoGluedAfter(p: string, r: string)
    requires NoGlued(r)
    ensures forall i :: |p| <= i < |p| + |r| ==> !GluedAt(p + r, i)
  {
    forall i | |p| <= i < |p| + |r| ensures !GluedAt(p + r, i) {
      GluedShift(p, r, i - |p|);
    }
  }

  lemma NoGluedCons(c: char, r: string)
    requires NoGlued(r)
    requires c == '}' ==> SpaceRun(r) == |r| || r[SpaceRun(r)] != '{'
    ensures NoGlued([c] + r)
  {
    NotGluedHead(c, r);
    NoGluedAfter([c], r);
  }

  lemma NoGluedCommaPrefix(r: string)
    requires NoGlued(r)
    ensures NoGlued("},{" + r)
  {
    assert "{" + r == ['{'] + r;
    NoGluedCons('{', r);
    assert ",{" + r == [','] + ("{" + r);
    NoGluedCons(',', "{" + r);
    assert "},{" + r == ['}'] + (",{" + r);
    NoGluedCons('}', ",{" + r);
  }

  /** At a glued `}`: the run up to the `{` becomes `},{`. */
  lemma InsertCommasGlued(s: string)
    requires |s| > 0 && GluedAt(s, 0)
    ensures InsertCommas(s) == "},{" + InsertCommas(s[2 + SpaceRun(s[1..])..])
  {
  }

  /** Elsewhere the first character is kept. */
  lemma InsertCommasHead(s: string)
    requires |s| > 0 && !GluedAt(s, 0)
    ensures InsertCommas(s) == [s[0]] + InsertCommas(s[1..])
  {
  }

  /** After the substitution no closing brace is glued to an opening one. */
  lemma {:induction false} InsertCommasNoGlued(s: string)
    ensures NoGlued(InsertCommas(s))
    decreases |s|
  {
    if |s| > 0 {
      var k := SpaceRun(s[1..]);
      if GluedAt(s, 0) {
        assert s[1..] == s[0 + 1..];
        InsertCommasNoGlued(s[2 + k..]);
        InsertCommasGlued(s);
        NoGluedCommaPrefix(InsertCommas(s[2 + k..]));
      } else {
        InsertCommasNoGlued(s[1..]);
        InsertCommasHead(s);
        if s[0] == '}' {
          assert s[1..] == s[0 + 1..];
          NextNotOpen(s[1..]);
        }
        NoGluedCons(s[0], InsertCommas(s[1..]));
      }
    }
  }

  /** When the whitespace run of `t` does not end at a `{`, neither does the
      run of the substituted text: leading whitespace is kept as it is. */
  lemma {:induction false} NextNotOpen(t: string)
    requires SpaceRun(t) == |t| || t[SpaceRun(t)] != '{'
    ensures SpaceRun(InsertCommas(t)) == |InsertCommas(t)| || InsertCommas(t)[SpaceRun(InsertCommas(t))] != '{'
    decreases |t|
  {
    var r := InsertCommas(t);
    if |t| == 0 {
    } else if IsSpace(t[0]) {
      var tail := t[1..];
      var r' := InsertCommas(tail);
      assert SpaceRun(t) == 1 + SpaceRun(tail);
      NextNotOpen(tail);
      InsertCommasHead(t);
      RunAfterSpaceHead(t[0], r', r);
    } else {
      assert SpaceRun(t) == 0 && r[0] == t[0];
      assert SpaceRun(r) == 0;
    }
  }

  /** A leading whitespace character does not change what the
      whitespace run ends at. */
  lemma RunAfterSpaceHead(c: char, r': string, r: string)
    requires IsSpace(c) && r == [c] + r'
    requires SpaceRun(r') == |r'| || r'[SpaceRun(r')] != '{'
    ensures SpaceRun(r) == |r| || r[SpaceRun(r)] != '{'
  {
    SpaceRunSpaceHead(c, r');
    if SpaceRun(r') < |r'| {
      assert r[1 + SpaceRun(r')] == r'[SpaceRun(r')];
    }
  }

  /** A leading whitespace character adds one to the whitespace run. */
  lemma SpaceRunSpaceHead(c: char, r: string)
    requires IsSpace(c)
    ensures SpaceRun([c] + r) == 1 + SpaceRun(r)
  {
    assert ([c] + r)[1..] == r;
  }

  /** The substitution changes nothing in a text without glued braces. */
  lemma {:induction false} InsertCommasUnglued(s: string)
    requires NoGlued(s)
    ensures InsertCommas(s) == s
    decreases |s|
  {
    if |s| > 0 {
      assert !GluedAt(s, 0);
      assert NoGlued(s[1..]) by {
        forall j | 0 <= j < |s[1..]| ensures !GluedAt(s[1..], j) {
          assert s == [s[0]] + s[1..];
          GluedShift([s[0]], s[1..], j);
        }
      }
      InsertCommasUnglued(s[1..]);
      assert s == [s[0]] + s[1..];
    }
  }

  /** The substitution keeps the number of every character other than
      commas and whitespace. */
  lemma {:induction false} InsertCommasCount(s: string, c: char)
    requires c != ',' && !IsSpace(c)
    ensures Count(InsertCommas(s), c) == Count(s, c)
    decreases |s|
  {
    if |s| > 0 {
      if GluedAt(s, 0) {
        var k := SpaceRun(s[1..]);
        assert s[1..] == s[0 + 1..];
        InsertCommasCount(s[2 + k..], c);
        InsertCommasGlued(s);
        CountConcat("},{", InsertCommas(s[2 + k..]), c);
        CountGlued(s, c);
      } else {
        InsertCommasCount(s[1..], c);
        InsertCommasHead(s);
        CountConcat([s[0]], InsertCommas(s[1..]), c);
        assert s == [s[0]] + s[1..];
        CountConcat([s[0]], s[1..], c);
      }
    }
  }

  /** A glued `}`, its whitespace and its `{` count as `},{` for any
      character other than a comma or whitespace. */
  lemma CountGlued(s: string, c: char)
    requires |s| > 0 && GluedAt(s, 0) && c != ',' && !IsSpace(c)
    ensures Count(s, c) == Count("},{", c) + Count(s[2 + SpaceRun(s[1..])..], c)
  {
    assert s[1..] == s[0 + 1..];
    var k := SpaceRun(s[1..]);
    var w := s[1..1 + k];
    var rest := s[2 + k..];
    SplitAround(s, k);
    CountConcat("}" + w + "{", rest, c);
    CountConcat("}" + w, "{", c);
    CountConcat("}", w, c);
    assert forall i :: 0 <= i < |w| ==> w[i] == s[1..][i] && w[i] != c;
    CountZeroIff(w, c);
    CountBraces(c);
  }

  /** A text opening with `}` and holding `{` at `1 + k` is the brace, the
      `k` characters between, the other brace and the rest. */
  lemma SplitAround(s: string, k: nat)
    requires 2 + k <= |s| && s[0] == '}' && s[1 + k] == '{'
    ensures s == "}" + s[1..1 + k] + "{" + s[2 + k..]
  {
    assert s == s[..1] + s[1..1 + k] + s[1 + k..2 + k] + s[2 + k..];
  }

  lemma CountBraces(c: char)
    requires c != ','
    ensures Count("},{", c) == Count("}", c) + Count("{", c)
  {
    assert "},{"[1..] == ",{" && ",{"[1..] == "{";
  }

  /** `clean_json` never leaves a single quote. */
  lemma CleanedJsonNoSingleQuote(text: string)
    ensures '\'' !in CleanedJson(text)
  {
    var q := ReplaceChar(Unfenced(Strip(text)), '\'', '"');
    assert '\'' !in q;
    var closed := CloseOpen(q);
    CountZeroIff(closed, '\'');
    InsertCommasCount(closed, '\'');
    CountZeroIff(InsertCommas(closed), '\'');
  }

  /** `clean_json` leaves no bracket or brace unclosed: there are at least
      as many closing as opening ones. */
  lemma CleanedJsonClosed(text: string)
    ensures Count(CleanedJson(text), '[') <= Count(CleanedJson(text), ']')
    ensures Count(CleanedJson(text), '{') <= Count(CleanedJson(text), '}')
  {
    var closed := CloseOpen(ReplaceChar(Unfenced(Strip(text)), '\'', '"'));
    InsertCommasCount(closed, '[');
    InsertCommasCount(closed, ']');
    InsertCommasCount(closed, '{');
    InsertCommasCount(closed, '}');
  }

  /** After `clean_json` no closing brace is glued to an opening brace. */
  lemma CleanedJsonNoGlued(text: string)
    ensures NoGlued(CleanedJson(text))
  {
    InsertCommasNoGlued(CloseOpen(ReplaceChar(Unfenced(Strip(text)), '\'', '"')));
  }

  /** A text that does not start with a backtick has no fence to remove. */
  lemma UnfencedPlain(t: string)
    requires NoEdgeSpace(t) && (t == [] || t[0] != '`')
    ensures Unfenced(t) == t
  {
    if |t| >= 1 {
      assert t[..1] != Repeat('`', 1);
      assert |t| >= 3 ==> t[..3] != Repeat('`', 3);
    }
  }

  /** Nothing is appended when nothing is left open. */
  lemma CloseOpenClosed(q: string)
    requires Count(q, '[') <= Count(q, ']') && Count(q, '{') <= Count(q, '}')
    ensures CloseOpen(q) == q
  {
    assert q + [] + [] == q;
  }

  /** JSON text that is already clean (stripped, not fenced, no single
      quotes, nothing left open, no glued braces) comes back unchanged. */
  lemma CleanedJsonUnchanged(text: string)
    requires NoEdgeSpace(text) && (text == [] || text[0] != '`')
    requires '\'' !in text
    requires Count(text, '[') <= Count(text, ']') && Count(text, '{') <= Count(text, '}')
    requires NoGlued(text)
    ensures CleanedJson(text) == text
  {
    StripEdgeless(text);
    UnfencedPlain(text);
    assert ReplaceChar(text, '\'', '"') == text;
    CloseOpenClosed(text);
    InsertCommasUnglued(text);
  }

  // ================================================================ sanitize_filename

  /** `re.sub(r'[^\w\s]', '', s)`: keep word characters and whitespace. */
  function KeepWordAndSpace(s: string): (r: string)
    ensures |r| <= |s|
    ensures forall c :: c in r ==> c in s && (IsWordChar(c) || IsSpace(c))
  {
    if |s| == 0 then []
    else if IsWordChar(s[0]) || IsSpace(s[0]) then [s[0]] + KeepWordAndSpace(s[1..])
    else KeepWordAndSpace(s[1..])
  }

  /** `sanitize_filename(dir)` of the utilities: drop everything but word
      characters and whitespace, then turn each space into an underscore. */
  function SanitizeFilename(dir: string): (r: string)
    ensures |r| <= |dir|
    ensures ' ' !in r
    ensures forall c :: c in r ==> IsWordChar(c) || (IsSpace(c) && c != ' ')
  {
    ReplaceChar(KeepWordAndSpace(dir), ' ', '_')
  }

  lemma {:induction false} KeepWordAndSpaceConcat(a: string, b: string)
    ensures KeepWordAndSpace(a + b) == KeepWordAndSpace(a) + KeepWordAndSpace(b)
    decreases |a|
  {
    if |a| == 0 {
      assert a + b == b;
    } else {
      assert (a + b)[1..] == a[1..] + b;
      KeepWordAndSpaceConcat(a[1..], b);
    }
  }

  lemma {:induction false} KeepWordAndSpaceKept(s: string)
    requires forall c :: c in s ==> IsWordChar(c) || IsSpace(c)
    ensures KeepWordAndSpace(s) == s
    decreases |s|
  {
    if |s| > 0 {
      assert s[0] in s;
      assert forall c :: c in s[1..] ==> c in s;
      KeepWordAndSpaceKept(s[1..]);
      assert s == [s[0]] + s[1..];
    }
  }

  /** Parts of a name separated by a space are sanitised separately and
      joined with an underscore. */
  lemma SanitizeFilenameSpace(a: string, b: string)
    ensures SanitizeFilename(a + " " + b) == SanitizeFilename(a) + "_" + SanitizeFilename(b)
  {
    KeepWordAndSpaceConcat(a + " ", b);
    KeepWordAndSpaceConcat(a, " ");
    assert KeepWordAndSpace(" ") == " " by {
      assert " "[1..] == [];
    }
    var ka, kb := KeepWordAndSpace(a), KeepWordAndSpace(b);
    ReplaceCharConcat(ka + " ", kb, ' ', '_');
    ReplaceCharConcat(ka, " ", ' ', '_');
    assert ReplaceChar(" ", ' ', '_') == "_";
  }

  /** Every word character and whitespace character of the name is kept
      as often as it occurs, each space turning into `_`; every other
      character is dropped. */
  lemma SanitizeFilenameCounts(dir: string, c: char)
    ensures Count(SanitizeFilename(dir), c) ==
      if c == '_' then Count(dir, '_') + Count(dir, ' ')
      else if c == ' ' then 0
      else if IsWordChar(c) || IsSpace(c) then Count(dir, c)
      else 0
  {
    var kept := KeepWordAndSpace(dir);
    ReplaceSpaceCounts(kept, c);
    if c == '_' {
      KeepWordAndSpaceCounts(dir, '_');
      KeepWordAndSpaceCounts(dir, ' ');
    } else if c != ' ' {
      KeepWordAndSpaceCounts(dir, c);
    }
  }

  lemma {:induction false} KeepWordAndSpaceCounts(s: string, c: char)
    ensures Count(KeepWordAndSpace(s), c) == if IsWordChar(c) || IsSpace(c) then Count(s, c) else 0
    decreases |s|
  {
    if |s| > 0 {
      KeepWordAndSpaceCounts(s[1..], c);
      if IsWordChar(s[0]) || IsSpace(s[0]) {
        CountConcat([s[0]], KeepWordAndSpace(s[1..]), c);
        assert [s[0]][1..] == [];
      }
    }
  }

  lemma {:induction false} ReplaceSpaceCounts(s: string, c: char)
    ensures Count(ReplaceChar(s, ' ', '_'), c) ==
      if c == '_' then Count(s, '_') + Count(s, ' ') else if c == ' ' then 0 else Count(s, c)
    decreases |s|
  {
    if |s| > 0 {
      ReplaceSpaceCounts(s[1..], c);
      ReplaceSpaceCounts(s[1..], ' ');
      ReplaceSpaceCounts(s[1..], '_');
    }
  }

  /** Sanitising a sanitised name changes nothing. */
  lemma SanitizeFilenameIdempotent(dir: string)
    ensures SanitizeFilename(SanitizeFilename(dir)) == SanitizeFilename(dir)
  {
    var r := SanitizeFilename(dir);
    KeepWordAndSpaceKept(r);
    assert ReplaceChar(r, ' ', '_') == r;
  }
}
