/**
 * The reference numbering store: every distinct reference text gets the
 * next free number, references are exported in number order, and the
 * bracket markers of an article are rewritten to those numbers.
 */
module References {
  import opened Wrappers
  import opened PyStr
  import opened Markers
  import opened Fields
  import opened Models

  // ================================================================ _strip_numbering

  /** `re.sub(r'^\[\d+\]\s*', '', reference)`: drop one leading `[n]` and
      the whitespace after it; anything else is returned as it is. */
  function StripNumbering(reference: string): (r: string)
    ensures |r| <= |reference| && r == reference[|reference| - |r|..]
    ensures NumberedPrefix(reference).None? ==> r == reference
  {
    match NumberedPrefix(reference)
    case None => reference
    case Some(p) =>
      var k := SpaceRun(p.rest);
      assert reference == "[" + p.digits + "]" + p.rest;
      assert p.rest[k..] == reference[|reference| - |p.rest[k..]|..];
      p.rest[k..]
  }

  /** A leading `[n]` and the whitespace after it are removed, and nothing
      more: a second marker right after the first stays. */
  lemma StripNumberingOf(digits: string, ws: string, rest: string)
    requires |digits| > 0 && AllDigits(digits) && AllSpace(ws)
    requires rest == [] || !IsSpace(rest[0])
    ensures StripNumbering("[" + digits + "]" + ws + rest) == rest
  {
    var s := "[" + digits + "]" + ws + rest;
    assert s == "[" + digits + "]" + (ws + rest);
    NumberedPrefixOf(digits, ws + rest);
    SpaceRunConcat(ws, rest);
    assert (ws + rest)[|ws|..] == rest;
  }

  // ================================================================ registry

  /** The three fields of the store, as a value. */
  datatype Registry = Registry(numberToRef: map<nat, string>, refToNumber: map<string, nat>, nextNumber: nat)

  /** Numbers are exactly `1 .. nextNumber - 1`. */
  ghost predicate Dense(g: Registry) {
    && g.nextNumber >= 1
    && forall n :: n in g.numberToRef <==> 1 <= n < g.nextNumber
  }

  /** The two maps are inverse to each other. */
  ghost predicate Inverse(g: Registry) {
    && (forall r :: r in g.refToNumber ==>
          g.refToNumber[r] in g.numberToRef && g.numberToRef[g.refToNumber[r]] == r)
    && (forall n :: n in g.numberToRef ==>
          g.numberToRef[n] in g.refToNumber && g.refToNumber[g.numberToRef[n]] == n)
  }

  ghost predicate ValidRegistry(g: Registry) {
    Dense(g) && Inverse(g)
  }

  /** The state of a new store. */
  const EmptyRegistry := Registry(map[], map[], 1)

  lemma EmptyRegistryValid()
    ensures ValidRegistry(EmptyRegistry)
  {
  }

  /** One step of the adding loops: a new text gets the next number, a
      known text changes nothing. */
  function Register(g: Registry, cleaned: string): Registry
  {
    if cleaned in g.refToNumber then g
    else Registry(g.numberToRef[g.nextNumber := cleaned], g.refToNumber[cleaned := g.nextNumber], g.nextNumber + 1)
  }

  /** Registering keeps the store valid; a new text is numbered with the
      old next number, which moves on by one; a known text keeps its
      number and the store is unchanged. */
  lemma RegisterValid(g: Registry, cleaned: string)
    requires ValidRegistry(g)
    ensures ValidRegistry(Register(g, cleaned))
    ensures cleaned in Register(g, cleaned).refToNumber
    ensures cleaned !in g.refToNumber ==>
      && Register(g, cleaned).refToNumber[cleaned] == g.nextNumber
      && Register(g, cleaned).nextNumber == g.nextNumber + 1
      && Register(g, cleaned).numberToRef == g.numberToRef[g.nextNumber := cleaned]
    ensures cleaned in g.refToNumber ==> Register(g, cleaned) == g
  {
    if cleaned !in g.refToNumber {
      var h := Register(g, cleaned);
      assert g.nextNumber !in g.numberToRef;
      forall r | r in h.refToNumber
        ensures h.refToNumber[r] in h.numberToRef && h.numberToRef[h.refToNumber[r]] == r
      {
        if r != cleaned {
          assert g.refToNumber[r] < g.nextNumber;
        }
      }
      forall n | n in h.numberToRef
        ensures h.numberToRef[n] in h.refToNumber && h.refToNumber[h.numberToRef[n]] == n
      {
        if n != g.nextNumber {
          assert g.numberToRef[n] != cleaned;
        }
      }
    }
  }

  /** What the adding loop does to the store for a list of texts: each is
      stripped of its numbering and registered, in order. */
  function RegisterAll(g: Registry, refs: seq<string>): Registry
  {
    if |refs| == 0 then g
    else Register(RegisterAll(g, refs[..|refs| - 1]), StripNumbering(refs[|refs| - 1]))
  }

  /** One turn of the adding loop. */
  lemma RegisterAllStep(g: Registry, refs: seq<string>, i: nat)
    requires i < |refs|
    ensures RegisterAll(g, refs[..i + 1]) == Register(RegisterAll(g, refs[..i]), StripNumbering(refs[i]))
  {
    assert refs[..i + 1][..i] == refs[..i];
  }

  /** Adding a list keeps the store valid and registers every text of it;
      numbers already given are never changed. */
  lemma {:induction false} RegisterAllValid(g: Registry, refs: seq<string>)
    requires ValidRegistry(g)
    ensures ValidRegistry(RegisterAll(g, refs))
    ensures forall i :: 0 <= i < |refs| ==> StripNumbering(refs[i]) in RegisterAll(g, refs).refToNumber
    ensures forall r :: r in g.refToNumber ==>
              r in RegisterAll(g, refs).refToNumber && RegisterAll(g, refs).refToNumber[r] == g.refToNumber[r]
    ensures RegisterAll(g, refs).nextNumber >= g.nextNumber
    decreases |refs|
  {
    if |refs| > 0 {
      var init := refs[..|refs| - 1];
      RegisterAllValid(g, init);
      RegisterValid(RegisterAll(g, init), StripNumbering(refs[|refs| - 1]));
      forall i | 0 <= i < |refs| - 1
        ensures StripNumbering(refs[i]) in RegisterAll(g, refs).refToNumber
      {
        assert refs[i] == init[i];
      }
    }
  }

  /** Adding a list twice is the same as adding it once. */
  lemma {:induction false} RegisterAllAgain(g: Registry, refs: seq<string>)
    requires ValidRegistry(g)
    requires forall i :: 0 <= i < |refs| ==> StripNumbering(refs[i]) in g.refToNumber
    ensures RegisterAll(g, refs) == g
    decreases |refs|
  {
    if |refs| > 0 {
      RegisterAllAgain(g, refs[..|refs| - 1]);
    }
  }

  /** The number of references added is the number of distinct new texts:
      the store gains one number per new text. */
  lemma {:induction false} RegisterAllCount(g: Registry, refs: seq<string>)
    requires ValidRegistry(g)
    ensures RegisterAll(g, refs).nextNumber - g.nextNumber
         == |NewTexts(g, refs)|
    decreases |refs|
  {
    if |refs| > 0 {
      var init := refs[..|refs| - 1];
      RegisterAllCount(g, init);
      RegisterCountStep(g, init, StripNumbering(refs[|refs| - 1]));
    }
  }

  /** Registering one more text moves the next number on exactly when the
      text is new. */
  lemma RegisterCountStep(g: Registry, init: seq<string>, c: string)
    requires ValidRegistry(g)
    ensures Register(RegisterAll(g, init), c).nextNumber - RegisterAll(g, init).nextNumber
         == |NewTexts(g, init) + (if c in g.refToNumber then {} else {c})| - |NewTexts(g, init)|
  {
    var h := RegisterAll(g, init);
    var before := NewTexts(g, init);
    NewTextsKnown(g, init);
    if c in g.refToNumber {
      assert c in h.refToNumber;
      assert before + {} == before;
    } else if c in before {
      assert c in h.refToNumber;
      assert before + {c} == before;
    } else {
      assert c !in h.refToNumber;
      assert |before + {c}| == |before| + 1;
    }
  }

  /** The texts of `refs`, stripped, that the store did not know, as a set. */
  function NewTexts(g: Registry, refs: seq<string>): set<string>
  {
    if |refs| == 0 then {}
    else
      var c := StripNumbering(refs[|refs| - 1]);
      NewTexts(g, refs[..|refs| - 1]) + (if c in g.refToNumber then {} else {c})
  }

  /** After adding, a text is known exactly when it was known before or is
      one of the new texts. */
  lemma {:induction false} NewTextsKnown(g: Registry, refs: seq<string>)
    requires ValidRegistry(g)
    ensures forall r :: r in RegisterAll(g, refs).refToNumber <==> r in g.refToNumber || r in NewTexts(g, refs)
    ensures forall r :: r in NewTexts(g, refs) ==> r !in g.refToNumber
    decreases |refs|
  {
    if |refs| > 0 {
      var init := refs[..|refs| - 1];
      NewTextsKnown(g, init);
      RegisterAllValid(g, init);
      RegisterValid(RegisterAll(g, init), StripNumbering(refs[|refs| - 1]));
    }
  }

  // ================================================================ _format_paper_reference

  /** The fields of a paper dictionary that the reference format reads. */
  datatype PaperDict = PaperDict(authors: AuthorsField, title: Field, venue: Field, year: Field, doi: Field)

  /** The reference text of a paper: `authors (year). title. journal. url`. */
  function FormattedRef(authors: string, year: string, title: string, journal: string, url: string): string
  {
    authors + " (" + year + "). " + title + ". " + journal + ". " + url
  }

  /** The author text of a paper reference: the names of `authors`
      (an empty list when the key is missing) joined by `, `, in order.
      `None` stands for the exception the source raises when the author
      list is `None`, an author has no `name`, or a name is not a string. */
  function PaperAuthors(a: AuthorsField): (r: Option<string>)
    ensures r.Some? <==> !a.AuthorsNull? && (a.AuthorList? ==> AllStrings(a.names))
    ensures a.AuthorsAbsent? ==> r == Some("")
    ensures a.AuthorList? && AllStrings(a.names) ==> r == Some(Join(Strings(a.names), ", "))
  {
    match a
    case AuthorsAbsent => Some("")
    case AuthorsNull => None
    case AuthorList(names) => if AllStrings(names) then Some(Join(Strings(names), ", ")) else None
  }

  /** `_format_paper_reference`: `authors (year). title. journal. url`
      with the joined author names and the defaults of the missing keys. */
  function FormatPaperReference(paper: PaperDict): (r: Option<string>)
    ensures r.Some? <==> !paper.authors.AuthorsNull? && (paper.authors.AuthorList? ==> AllStrings(paper.authors.names))
    ensures r.Some? ==> r.value == FormattedRef(PaperAuthors(paper.authors).value, Show(paper.year, "No Year"),
              Show(paper.title, "No Title"), Show(paper.venue, "No Journal"), DoiUrl(paper.doi))
  {
    match PaperAuthors(paper.authors)
    case None => None
    case Some(a) =>
      Some(FormattedRef(a, Show(paper.year, "No Year"), Show(paper.title, "No Title"),
                        Show(paper.venue, "No Journal"), DoiUrl(paper.doi)))
  }

  /** Reading the authors back from a formatted paper reference gives the
      joined names, stripped, when they hold no `(`. */
  lemma PaperAuthorsReadBack(paper: PaperDict)
    requires FormatPaperReference(paper).Some?
    requires '(' !in PaperAuthors(paper.authors).value
    ensures ExtractAuthors(FormatPaperReference(paper).value) == Strip(PaperAuthors(paper.authors).value)
  {
    ExtractAuthorsOfFormatted(PaperAuthors(paper.authors).value, Show(paper.year, "No Year"),
      Show(paper.title, "No Title"), Show(paper.venue, "No Journal"), DoiUrl(paper.doi));
  }

  /** `https://doi.org/<doi>` for a truthy DOI, `No DOI` otherwise. */
  function DoiUrl(doi: Field): (r: string)
    ensures Truthy(doi) <==> r != "No DOI"
  {
    if Truthy(doi) then "https://doi.org/" + Show(doi, "") else "No DOI"
  }

  /** The formatted reference of each paper, in order. */
  function FormattedRefs(papers: seq<PaperDict>): (r: seq<Option<string>>)
    ensures |r| == |papers| && forall i :: 0 <= i < |papers| ==> r[i] == FormatPaperReference(papers[i])
  {
    if |papers| == 0 then [] else FormattedRefs(papers[..|papers| - 1]) + [FormatPaperReference(papers[|papers| - 1])]
  }

  /** The adding loop of `add_papers` over already formatted references:
      each is stripped and registered, in order; the first `None` (an
      exception while formatting) stops the loop (`false`). */
  function RegisterFormatted(g: Registry, refs: seq<Option<string>>): (Registry, bool)
    decreases |refs|
  {
    if |refs| == 0 then (g, true)
    else if refs[0].None? then (g, false)
    else RegisterFormatted(Register(g, StripNumbering(refs[0].value)), refs[1..])
  }

  /** What `add_papers` does to the store. */
  function RegisterPapers(g: Registry, papers: seq<PaperDict>): (Registry, bool)
  {
    RegisterFormatted(g, FormattedRefs(papers))
  }

  /** The loop succeeds exactly when no reference is missing. */
  lemma {:induction false} RegisterFormattedOk(g: Registry, refs: seq<Option<string>>)
    ensures RegisterFormatted(g, refs).1 <==> forall i :: 0 <= i < |refs| ==> refs[i].Some?
    decreases |refs|
  {
    if |refs| > 0 && refs[0].Some? {
      var h := Register(g, StripNumbering(refs[0].value));
      var tail := refs[1..];
      assert RegisterFormatted(g, refs) == RegisterFormatted(h, tail);
      RegisterFormattedOk(h, tail);
      AllSomeTail(refs);
    }
  }

  lemma AllSomeTail<T>(s: seq<Option<T>>)
    requires |s| > 0
    ensures (forall i :: 0 <= i < |s| ==> s[i].Some?) <==> s[0].Some? && forall i :: 0 <= i < |s[1..]| ==> s[1..][i].Some?
  {
    assert forall i :: 1 <= i < |s| ==> s[i] == s[1..][i - 1];
  }

  /** The loop keeps the store valid and, when it succeeds, every
      reference is registered. */
  lemma {:induction false} RegisterFormattedValid(g: Registry, refs: seq<Option<string>>)
    requires ValidRegistry(g)
    ensures ValidRegistry(RegisterFormatted(g, refs).0)
    ensures RegisterFormatted(g, refs).1 ==>
      forall i :: 0 <= i < |refs| ==> refs[i].Some? && StripNumbering(refs[i].value) in RegisterFormatted(g, refs).0.refToNumber
    decreases |refs|
  {
    if |refs| > 0 && refs[0].Some? {
      var c := StripNumbering(refs[0].value);
      var h := Register(g, c);
      var tail := refs[1..];
      RegisterValid(g, c);
      var r := RegisterFormatted(h, tail);
      assert RegisterFormatted(g, refs) == r;
      RegisterFormattedValid(h, tail);
      RegisterFormattedKeeps(h, tail, c);
      if r.1 {
        forall i | 0 <= i < |refs|
          ensures refs[i].Some? && StripNumbering(refs[i].value) in r.0.refToNumber
        {
          if i > 0 {
            assert refs[i] == tail[i - 1];
          }
        }
      }
    }
  }

  /** The loop never forgets a text. */
  lemma {:induction false} RegisterFormattedKeeps(g: Registry, refs: seq<Option<string>>, c: string)
    requires c in g.refToNumber
    ensures c in RegisterFormatted(g, refs).0.refToNumber
    decreases |refs|
  {
    if |refs| > 0 && refs[0].Some? {
      RegisterFormattedKeeps(Register(g, StripNumbering(refs[0].value)), refs[1..], c);
    }
  }

  /** Adding papers keeps the store valid, succeeds exactly when every
      paper can be formatted, and then registers every paper's reference. */
  lemma RegisterPapersValid(g: Registry, papers: seq<PaperDict>)
    requires ValidRegistry(g)
    ensures ValidRegistry(RegisterPapers(g, papers).0)
    ensures RegisterPapers(g, papers).1 <==> forall i :: 0 <= i < |papers| ==> FormatPaperReference(papers[i]).Some?
    ensures RegisterPapers(g, papers).1 ==>
      forall i :: 0 <= i < |papers| ==>
        StripNumbering(FormatPaperReference(papers[i]).value) in RegisterPapers(g, papers).0.refToNumber
  {
    var refs := FormattedRefs(papers);
    RegisterFormattedOk(g, refs);
    RegisterFormattedValid(g, refs);
  }

  // ================================================================ _extract_*

  /** `reference.split('(')[0].strip()` */
  function ExtractAuthors(reference: string): string
  {
    Strip(Split(reference, "(")[0])
  }

  /** The authors are stripped and hold no `(`. */
  lemma ExtractAuthorsShape(reference: string)
    ensures var r := ExtractAuthors(reference);
      NoEdgeSpace(r) && '(' !in r
  {
    var head := Split(reference, "(")[0];
    SplitOnCharParts(reference, '(');
    assert '(' !in head;
  }

  /** `(` followed by four digits and `)` at position `i`. */
  predicate YearAt(s: string, i: nat) {
    i + 6 <= |s| && s[i] == '(' && AllDigits(s[i + 1..i + 5]) && s[i + 5] == ')'
  }

  /** `re.search(r'\((\d{4})\)', s)` from position `k`: the first place a
      parenthesised four-digit group starts. */
  function FirstYearFrom(s: string, k: nat): Option<nat>
    requires k <= |s|
    decreases |s| - k
  {
    if k == |s| then None
    else if YearAt(s, k) then Some(k)
    else FirstYearFrom(s, k + 1)
  }

  /** The search finds the first `(dddd)` at or after `k`, and finds
      nothing only when there is none. */
  lemma {:induction false} FirstYearFromSpec(s: string, k: nat)
    requires k <= |s|
    ensures var r := FirstYearFrom(s, k);
      && (r.Some? ==> k <= r.value && YearAt(s, r.value))
      && (r.Some? ==> forall j :: k <= j < r.value ==> !YearAt(s, j))
      && (r.None? ==> forall j :: k <= j < |s| ==> !YearAt(s, j))
    decreases |s| - k
  {
    if k < |s| && !YearAt(s, k) {
      FirstYearFromSpec(s, k + 1);
    }
  }

  /** `_extract_year`: the first parenthesised four-digit group, or
      `No Year`. */
  function ExtractYear(reference: string): string
  {
    match FirstYearFrom(reference, 0)
    case Some(i) =>
      FirstYearFromSpec(reference, 0);
      reference[i + 1..i + 5]
    case None => "No Year"
  }

  /** The year is four digits or `No Year`. */
  lemma ExtractYearShape(reference: string)
    ensures var r := ExtractYear(reference);
      r == "No Year" || (|r| == 4 && AllDigits(r))
  {
    FirstYearFromSpec(reference, 0);
  }

  /** `_extract_title`: the first `. `-segment of what follows the first
      `). `, or `No Title` when there is no `). `. */
  function ExtractTitle(reference: string): string
  {
    var parts := Split(reference, "). ");
    if |parts| < 2 then "No Title" else Split(parts[1], ". ")[0]
  }

  /** `_extract_journal`: the second `. `-segment (cut once more at `. `,
      which changes nothing), or `No Journal` when there is only one. */
  function ExtractJournal(reference: string): string
  {
    var parts := Split(reference, ". ");
    if |parts| < 2 then "No Journal" else Split(parts[1], ". ")[0]
  }

  /** `_extract_url`: the last `. `-segment. Splitting always gives at
      least one segment, so the source's `No DOI` fallback cannot occur. */
  function ExtractUrl(reference: string): string
  {
    var parts := Split(reference, ". ");
    parts[|parts| - 1]
  }

  /** The URL is a suffix of the reference. */
  lemma ExtractUrlSuffix(reference: string)
    ensures var r := ExtractUrl(reference);
      |r| <= |reference| && r == reference[|reference| - |r|..]
  {
    SplitLastSuffix(reference, ". ");
  }

  /** The item `get_all_references` builds for number `n` and stored text
      `raw`. */
  function ItemOf(n: nat, raw: string): ReferenceItem
  {
    ReferenceItem(n, ExtractAuthors(raw), ExtractYear(raw), ExtractTitle(raw), ExtractJournal(raw), ExtractUrl(raw))
  }

  // ---------------------------------------------------------------- the extractors on formatted references

  /** `sep` does not occur inside `x`. */
  predicate Free(x: string, sep: string) {
    forall i :: 0 <= i < |x| ==> !OccursAt(x, sep, i)
  }

  /** A two-character separator with different characters cannot start in
      `x` and end in what follows it, so it occurs in `x + sep + y` first
      right after `x` when it does not occur inside `x`. */
  lemma FreeBefore(x: string, sep: string, y: string)
    requires |sep| == 2 && sep[0] != sep[1] && Free(x, sep)
    ensures forall i :: 0 <= i < |x| ==> !OccursAt(x + sep + y, sep, i)
  {
    var s := x + sep + y;
    forall i | 0 <= i < |x| ensures !OccursAt(s, sep, i) {
      if i + 1 < |x| {
        assert s[i..i + 2] == x[i..i + 2];
        assert !OccursAt(x, sep, i);
      } else {
        assert s[i + 1] == sep[0];
        assert s[i..i + 2][1] == s[i + 1];
      }
    }
  }

  lemma FreeSplit(x: string, sep: string)
    requires sep != [] && Free(x, sep)
    ensures Split(x, sep) == [x]
  {
    SplitNoOccurrence(x, sep);
  }

  /** With no `. ` inside its fields, a formatted reference splits at `. `
      into the head `authors (year)`, the title, the journal and the url. */
  lemma SplitFormatted(authors: string, year: string, title: string, journal: string, url: string)
    requires Free(authors + " (" + year + ")", ". ") && Free(title, ". ")
    requires Free(journal, ". ") && Free(url, ". ")
    ensures Split(FormattedRef(authors, year, title, journal, url), ". ")
         == [authors + " (" + year + ")", title, journal, url]
  {
    var head := authors + " (" + year + ")";
    var tail3 := journal + ". " + url;
    var tail2 := title + ". " + tail3;
    assert FormattedRef(authors, year, title, journal, url) == head + ". " + tail2;
    FreeBefore(head, ". ", tail2);
    SplitAfterPrefix(head, ". ", tail2);
    FreeBefore(title, ". ", tail3);
    SplitAfterPrefix(title, ". ", tail3);
    FreeBefore(journal, ". ", url);
    SplitAfterPrefix(journal, ". ", url);
    FreeSplit(url, ". ");
  }

  /** The journal extracted from a formatted reference is its title: the
      second `. `-segment of `authors (year). title. journal. url` is the
      title, and the journal is never shown. */
  lemma ExtractJournalIsTitle(authors: string, year: string, title: string, journal: string, url: string)
    requires Free(authors + " (" + year + ")", ". ") && Free(title, ". ")
    requires Free(journal, ". ") && Free(url, ". ")
    ensures ExtractJournal(FormattedRef(authors, year, title, journal, url)) == title
  {
    SplitFormatted(authors, year, title, journal, url);
    FreeSplit(title, ". ");
  }

  /** The url extracted from a formatted reference is its url. */
  lemma ExtractUrlOfFormatted(authors: string, year: string, title: string, journal: string, url: string)
    requires Free(authors + " (" + year + ")", ". ") && Free(title, ". ")
    requires Free(journal, ". ") && Free(url, ". ")
    ensures ExtractUrl(FormattedRef(authors, year, title, journal, url)) == url
  {
    SplitFormatted(authors, year, title, journal, url);
  }

  /** The authors extracted from a formatted reference are its authors,
      stripped, when they hold no `(`. */
  lemma ExtractAuthorsOfFormatted(authors: string, year: string, title: string, journal: string, url: string)
    requires '(' !in authors
    ensures ExtractAuthors(FormattedRef(authors, year, title, journal, url)) == Strip(authors)
  {
    var s := FormattedRef(authors, year, title, journal, url);
    var head := Split(s, "(")[0];
    FormattedAuthorsPart(authors, year, title, journal, url);
    StripSpaceAfter(authors);
    assert ExtractAuthors(s) == Strip(head);
  }

  /** A trailing space does not survive stripping. */
  lemma StripSpaceAfter(x: string)
    ensures Strip(x + " ") == Strip(x)
  {
    var w := " ";
    assert IsSpace(w[0]);
    StripTrailing(x, w);
  }

  /** Cutting a formatted reference at its first `(` leaves the authors and
      a space, when the authors hold no `(`. */
  lemma FormattedAuthorsPart(authors: string, year: string, title: string, journal: string, url: string)
    requires '(' !in authors
    ensures Split(FormattedRef(authors, year, title, journal, url), "(")[0] == authors + " "
  {
    var head := authors + " ";
    var rest := year + "). " + title + ". " + journal + ". " + url;
    var s := FormattedRef(authors, year, title, journal, url);
    assert s == head + "(" + rest;
    assert '(' !in head;
    NoneBefore(head, "(" + rest, "(");
    assert head + "(" + rest == head + ("(" + rest);
    SplitAfterPrefix(head, "(", rest);
  }

  /** A pattern starts nowhere in a text that lacks the pattern's first
      character. */
  lemma NoneBefore(x: string, y: string, pat: string)
    requires |pat| > 0 && pat[0] !in x
    ensures forall i :: 0 <= i < |x| ==> !OccursAt(x + y, pat, i)
  {
    forall i | 0 <= i < |x| ensures !OccursAt(x + y, pat, i) {
      assert (x + y)[i] == x[i];
    }
  }

  /** The year extracted from a formatted reference is its year when that
      is four digits and the authors hold no `(`. */
  lemma ExtractYearOfFormatted(authors: string, year: string, title: string, journal: string, url: string)
    requires '(' !in authors && |year| == 4 && AllDigits(year)
    ensures ExtractYear(FormattedRef(authors, year, title, journal, url)) == year
  {
    var s := FormattedRef(authors, year, title, journal, url);
    var k := |authors| + 1;
    FormattedYearFirst(authors, year, title, journal, url);
    FirstYearFromIs(s, k);
  }

  /** In a formatted reference whose authors hold no `(`, the first
      `(dddd)` is the year's, right after the authors and a space. */
  lemma FormattedYearFirst(authors: string, year: string, title: string, journal: string, url: string)
    requires '(' !in authors && |year| == 4 && AllDigits(year)
    ensures var s := FormattedRef(authors, year, title, journal, url);
      var k := |authors| + 1;
      && YearAt(s, k) && s[k + 1..k + 5] == year
      && forall j :: 0 <= j < k ==> !YearAt(s, j)
  {
    var s := FormattedRef(authors, year, title, journal, url);
    var k := |authors| + 1;
    assert s[k] == '(' && s[k + 1..k + 5] == year && s[k + 5] == ')';
    assert YearAt(s, k);
    forall j | 0 <= j < k ensures !YearAt(s, j) {
      if j < |authors| {
        assert s[j] == authors[j];
      }
    }
  }

  /** The search from the start finds `k` when `(dddd)` starts at `k` and
      nowhere before it. */
  lemma FirstYearFromIs(s: string, k: nat)
    requires k < |s| && YearAt(s, k)
    requires forall j :: 0 <= j < k ==> !YearAt(s, j)
    ensures FirstYearFrom(s, 0) == Some(k)
  {
    FirstYearFromSpec(s, 0);
  }

  /** The title extracted from a formatted reference is its title when
      neither the authors, the year nor the title hold a `)` and the title
      holds no `. `; the journal and url may hold anything. */
  lemma ExtractTitleOfFormatted(authors: string, year: string, title: string, journal: string, url: string)
    requires ')' !in authors && ')' !in year && ')' !in title
    requires Free(title, ". ")
    ensures ExtractTitle(FormattedRef(authors, year, title, journal, url)) == title
  {
    var head := authors + " (" + year;
    var tail3 := journal + ". " + url;
    var rest := title + ". " + tail3;
    var s := FormattedRef(authors, year, title, journal, url);
    assert s == head + "). " + rest;
    assert ')' !in head;
    NoneBefore(head, "). " + rest, "). ");
    assert head + "). " + rest == head + ("). " + rest);
    SplitAfterPrefix(head, "). ", rest);
    var w := Split(tail3, "). ")[0];
    TitleFirstPart(title, tail3);
    FreeBefore(title, ". ", w);
    SplitAfterPrefix(title, ". ", w);
  }

  /** Cutting `title. tail` at `). ` leaves the title, its `. ` and the
      part of the tail before its first `). `, when the title holds no `)`. */
  lemma TitleFirstPart(title: string, tail: string)
    requires ')' !in title
    ensures Split(title + ". " + tail, "). ")[0] == title + ". " + Split(tail, "). ")[0]
  {
    var p := title + ". ";
    assert title + ". " + tail == p + tail;
    forall i | 0 <= i < |p|
      ensures !OccursAt(p + tail, "). ", i)
    {
      assert (p + tail)[i] == p[i];
      if i < |title| {
        assert p[i] == title[i];
      }
    }
    SplitFirstPrefix(p, tail, "). ");
  }

  /** The item listed for a stored paper reference: authors stripped, the
      year, the title, the title again in place of the journal, and the
      url. */
  lemma ItemOfFormatted(n: nat, authors: string, year: string, title: string, journal: string, url: string)
    requires '(' !in authors && ')' !in authors && |year| == 4 && AllDigits(year)
    requires ')' !in title
    requires Free(authors + " (" + year + ")", ". ") && Free(title, ". ")
    requires Free(journal, ". ") && Free(url, ". ")
    ensures ItemOf(n, FormattedRef(authors, year, title, journal, url))
         == ReferenceItem(n, Strip(authors), year, title, title, url)
  {
    assert ')' !in year by {
      forall i | 0 <= i < |year| ensures year[i] != ')' {
        assert IsDigit(year[i]);
      }
    }
    ExtractAuthorsOfFormatted(authors, year, title, journal, url);
    ExtractYearOfFormatted(authors, year, title, journal, url);
    ExtractTitleOfFormatted(authors, year, title, journal, url);
    ExtractJournalIsTitle(authors, year, title, journal, url);
    ExtractUrlOfFormatted(authors, year, title, journal, url);
  }

  // ================================================================ the store

  /** The text of one line of the References section. */
  function ReferenceLine(item: ReferenceItem): string
  {
    "[" + IntToString(item.referenceNumber) + "] " + item.authors + ". " + item.year + ". "
      + item.title + ". " + item.journalSource + ". " + item.urlDoi
  }

  /** The lines for a list of items, in order. */
  function ReferenceLines(items: seq<ReferenceItem>): (r: seq<string>)
    ensures |r| == |items| && forall i :: 0 <= i < |items| ==> r[i] == ReferenceLine(items[i])
  {
    if |items| == 0 then [] else [ReferenceLine(items[0])] + ReferenceLines(items[1..])
  }

  /** `f` of each number `1 .. n` and its stored text, ascending. */
  function NumberedUpTo<T>(f: (nat, string) -> T, g: Registry, n: nat): (r: seq<T>)
    requires Dense(g) && n < g.nextNumber
    ensures |r| == n
  {
    if n == 0 then [] else NumberedUpTo(f, g, n - 1) + [f(n, g.numberToRef[n])]
  }

  lemma {:induction false} NumberedShape<T>(f: (nat, string) -> T, g: Registry, n: nat)
    requires Dense(g) && n < g.nextNumber
    ensures forall i :: 0 <= i < n ==> NumberedUpTo(f, g, n)[i] == f(i + 1, g.numberToRef[i + 1])
  {
    if n > 0 {
      NumberedShape(f, g, n - 1);
    }
  }

  lemma NumberedStep<T>(f: (nat, string) -> T, g: Registry, n: nat)
    requires Dense(g) && 1 <= n < g.nextNumber
    ensures NumberedUpTo(f, g, n) == NumberedUpTo(f, g, n - 1) + [f(n, g.numberToRef[n])]
  {
  }

  /** The items for numbers `1 .. n`, ascending. */
  function ItemsUpTo(g: Registry, n: nat): seq<ReferenceItem>
    requires Dense(g) && n < g.nextNumber
  {
    NumberedUpTo(ItemOf, g, n)
  }

  /** Every stored item, by number. */
  function AllItems(g: Registry): seq<ReferenceItem>
    requires Dense(g)
  {
    ItemsUpTo(g, g.nextNumber - 1)
  }

  /** The `References` section: the lines of all stored items, joined by
      newlines. */
  function ReferencesText(g: Registry): string
    requires Dense(g)
  {
    Join(ReferenceLines(AllItems(g)), "\n")
  }

  /** `get_all_references` in terms of the store: one item per stored
      reference, at position `n - 1` for number `n`, built from the stored
      text. */
  lemma ItemsUpToShape(g: Registry, n: nat)
    requires Dense(g) && n < g.nextNumber
    ensures |ItemsUpTo(g, n)| == n
    ensures forall i :: 0 <= i < n ==>
              ItemsUpTo(g, n)[i].referenceNumber == i + 1
              && ItemsUpTo(g, n)[i] == ItemOf(i + 1, g.numberToRef[i + 1])
  {
    NumberedShape(ItemOf, g, n);
  }

  /** The bracket marker `[X]` rewritten: `[n]` when `X` stripped is known
      with number `n`, unchanged otherwise. */
  function RenumberPiece(g: Registry, p: Piece): string
  {
    match p
    case Plain(c) => [c]
    case Bracket(inner) =>
      var c := StripNumbering(inner);
      if c in g.refToNumber then "[" + IntToString(g.refToNumber[c]) + "]" else "[" + inner + "]"
  }

  function RenumberPieces(g: Registry, ps: seq<Piece>): string
  {
    if |ps| == 0 then [] else RenumberPiece(g, ps[0]) + RenumberPieces(g, ps[1..])
  }

  /** `assign_ids(text)`: every `[X]` marker rewritten. */
  function AssignIds(g: Registry, text: string): string
  {
    RenumberPieces(g, Scan(text))
  }

  lemma {:induction false} RenumberPiecesUnknown(g: Registry, ps: seq<Piece>)
    requires forall t :: t in Interiors(ps) ==> StripNumbering(t) !in g.refToNumber
    ensures RenumberPieces(g, ps) == RenderAll(ps)
    decreases |ps|
  {
    if |ps| > 0 {
      InteriorsCons(ps);
      RenumberPiecesUnknown(g, ps[1..]);
      if ps[0].Bracket? {
        assert ps[0].inner in Interiors(ps);
      }
    }
  }

  /** The interiors of a non-empty list: the first piece's, then the rest's. */
  lemma InteriorsCons(ps: seq<Piece>)
    requires |ps| > 0
    ensures forall t :: t in Interiors(ps[1..]) ==> t in Interiors(ps)
    ensures ps[0].Bracket? ==> ps[0].inner in Interiors(ps)
  {
  }

  /** A text none of whose markers names a known reference is unchanged. */
  lemma AssignIdsUnknown(g: Registry, text: string)
    requires forall t :: t in FindAll(text) ==> StripNumbering(t) !in g.refToNumber
    ensures AssignIds(g, text) == text
  {
    RenumberPiecesUnknown(g, Scan(text));
    ScanLossless(text);
  }

  /** A marker at the front naming a known reference becomes its number,
      and the rest of the text is rewritten on its own. */
  lemma AssignIdsKnownMarker(g: Registry, inner: string, rest: string)
    requires NoCloseOrNewline(inner) && StripNumbering(inner) in g.refToNumber
    ensures AssignIds(g, "[" + inner + "]" + rest)
         == "[" + IntToString(g.refToNumber[StripNumbering(inner)]) + "]" + AssignIds(g, rest)
  {
    ScanMarkerFirst(inner, rest);
    assert ([Bracket(inner)] + Scan(rest))[1..] == Scan(rest);
  }

  /** A marker at the front naming no known reference stays as it is. */
  lemma AssignIdsUnknownMarker(g: Registry, inner: string, rest: string)
    requires NoCloseOrNewline(inner) && StripNumbering(inner) !in g.refToNumber
    ensures AssignIds(g, "[" + inner + "]" + rest) == "[" + inner + "]" + AssignIds(g, rest)
  {
    ScanMarkerFirst(inner, rest);
    assert ([Bracket(inner)] + Scan(rest))[1..] == Scan(rest);
  }

  /** An article dictionary with string values. */
  class Article {
    var fields: map<string, string>

    constructor (fields: map<string, string>)
      ensures this.fields == fields
    {
      this.fields := fields;
    }
  }

  /** The numbering store. */
  class ReferenceManager {
    var numberToRef: map<nat, string>
    var refToNumber: map<string, nat>
    var nextNumber: nat

    function State(): Registry
      reads this
    {
      Registry(numberToRef, refToNumber, nextNumber)
    }

    ghost predicate Valid()
      reads this
    {
      ValidRegistry(State())
    }

    /** A new store: no references, next number 1. */
    constructor ()
      ensures Valid() && State() == EmptyRegistry
    {
      numberToRef := map[];
      refToNumber := map[];
      nextNumber := 1;
    }

    /** The step shared by both adding loops: a text not yet known gets
        the next number. */
    method Insert(cleanedRef: string)
      requires Valid()
      modifies this
      ensures Valid()
      ensures State() == Register(old(State()), cleanedRef)
    {
      RegisterValid(State(), cleanedRef);
      if cleanedRef !in refToNumber {
        var uniqueNumber := nextNumber;
        numberToRef := numberToRef[uniqueNumber := cleanedRef];
        refToNumber := refToNumber[cleanedRef := uniqueNumber];
        nextNumber := nextNumber + 1;
      }
    }

    /** `add_references`: register each reference text, stripped of its
        numbering, in order. */
    method AddReferences(references: seq<string>)
      requires Valid()
      modifies this
      ensures Valid()
      ensures State() == RegisterAll(old(State()), references)
    {
      ghost var start := State();
      for i := 0 to |references|
        invariant State() == RegisterAll(start, references[..i])
        invariant Valid()
      {
        var cleanedRef := StripNumbering(references[i]);
        RegisterAllStep(start, references, i);
        Insert(cleanedRef);
      }
      assert references[..|references|] == references;
    }

    /** `add_papers`: format each paper's reference and register it; the
        first paper that cannot be formatted ends the call with an
        exception (`ok` is false) and the papers before it stay added. */
    method AddPapers(papers: seq<PaperDict>) returns (ok: bool)
      requires Valid()
      modifies this
      ensures Valid()
      ensures (State(), ok) == RegisterPapers(old(State()), papers)
    {
      ghost var start := State();
      ghost var refs := FormattedRefs(papers);
      ok := true;
      var i := 0;
      while i < |papers|
        invariant 0 <= i <= |papers|
        invariant RegisterFormatted(start, refs) == RegisterFormatted(State(), refs[i..])
        invariant Valid()
      {
        ghost var before := State();
        var ref := FormatPaperReference(papers[i]);
        assert refs[i..][0] == ref;
        if ref.None? {
          ok := false;
          return;
        }
        var cleanedRef := StripNumbering(ref.value);
        assert refs[i..][1..] == refs[i + 1..];
        Insert(cleanedRef);
        i := i + 1;
      }
    }

    /** `get_reference_number`: the number of the stripped text, or -1 when
        it is not known. */
    function GetReferenceNumber(reference: string): (n: int)
      reads this
      ensures n == -1 <==> StripNumbering(reference) !in refToNumber
      ensures Valid() && n != -1 ==> 1 <= n < nextNumber && numberToRef[n] == StripNumbering(reference)
    {
      var cleanedRef := StripNumbering(reference);
      if cleanedRef in refToNumber then refToNumber[cleanedRef] else -1
    }

    /** `get_all_references`: the stored references as items, in ascending
        number order. */
    method GetAllReferences() returns (items: seq<ReferenceItem>)
      requires Valid()
      ensures items == AllItems(State())
    {
      items := [];
      for n := 1 to nextNumber
        invariant items == ItemsUpTo(State(), n - 1)
      {
        NumberedStep(ItemOf, State(), n);
        items := items + [ItemOf(n, numberToRef[n])];
      }
    }

    /** The `References` text that `renumber_references` builds from
        `get_all_references`. */
    method ReferencesSection() returns (text: string)
      requires Valid()
      ensures text == ReferencesText(State())
    {
      var referencesList := GetAllReferences();
      text := Join(ReferenceLines(referencesList), "\n");
    }

    /** `renumber_references`: rewrite the markers of the article's
        `content` (empty when missing) and set its `References` to one
        line per stored reference; no other key changes. */
    method RenumberReferences(article: Article)
      requires Valid()
      modifies article
      ensures article.fields == old(article.fields)
        ["content" := AssignIds(State(), if "content" in old(article.fields) then old(article.fields)["content"] else "")]
        ["References" := ReferencesText(State())]
    {
      var content := if "content" in article.fields then article.fields["content"] else "";
      var renumbered := AssignIds(State(), content);
      var referencesText := ReferencesSection();
      article.fields := article.fields["content" := renumbered]["References" := referencesText];
    }
  }
}
