/**
 * The record building and selection rules of the Semantic Scholar client
 * (src/semanticscholar.py): the citation text of a paper, the formatting
 * pass over the results of all sections, the choice of the most cited
 * papers per query, and the keep-loop that filters a batch response by
 * journal SJR score and citation count.
 */
module SemanticScholar {
  import opened Wrappers
  import opened PyStr
  import opened Fields
  import opened Sections

  // ================================================================ format_citation

  /** `publicationVenue`: missing or `None`, or a dictionary with its
      `name`, `url`, `issn` and `SJR` entries (an empty dictionary has every
      entry absent, and reads like a missing venue). */
  datatype VenueField = NoVenue | Venue(name: Field, url: Field, issn: Field, sjr: Option<real>)

  /** `externalIds`: missing, `None`, or a dictionary with a `DOI` entry. */
  datatype IdsField = IdsAbsent | IdsNull | Ids(doi: Field)

  /** The keys of a paper dictionary that the citation reads. */
  datatype PaperDict = PaperDict(
    authors: AuthorsField, title: Field, year: Field, venue: Field,
    publicationVenue: VenueField, externalIds: IdsField, openAccessPdf: Field, url: Field)

  /** `author.get("name", "Unknown")` as joined by `", ".join`: a missing
      name is `Unknown`; a name that is not a string makes the join fail. */
  function AuthorName(name: Field): (r: Option<string>)
    ensures r.Some? <==> name.Absent? || name.Str?
    ensures name.Absent? ==> r == Some("Unknown")
    ensures name.Str? ==> r == Some(name.s)
  {
    match name
    case Absent => Some("Unknown")
    case Str(s) => Some(s)
    case _ => None
  }

  /** The names of a list of authors, or `None` when one cannot be joined. */
  function AuthorNames(names: seq<Field>): (r: Option<seq<string>>)
    ensures r.Some? <==> forall i :: 0 <= i < |names| ==> AuthorName(names[i]).Some?
    ensures r.Some? ==> |r.value| == |names| && forall i :: 0 <= i < |names| ==> r.value[i] == AuthorName(names[i]).value
  {
    if |names| == 0 then Some([])
    else match (AuthorName(names[0]), AuthorNames(names[1..]))
      case (Some(n), Some(ns)) =>
        assert forall i :: 1 <= i < |names| ==> names[i] == names[1..][i - 1];
        Some([n] + ns)
      case _ =>
        assert forall i :: 1 <= i < |names| ==> names[i] == names[1..][i - 1];
        None
  }

  /** The author text of a citation: the first three names joined by `, `,
      then ` et al.` when there are more than three authors. `None` when
      `authors` is `None` (it cannot be sliced) or a name is not a string. */
  function AuthorsText(authors: AuthorsField): Option<string>
  {
    match authors
    case AuthorsAbsent => Some("")
    case AuthorsNull => None
    case AuthorList(ns) =>
      match AuthorNames(Take(ns, 3))
      case None => None
      case Some(first) => Some(Join(first, ", ") + (if |ns| > 3 then " et al." else ""))
  }

  /** `publicationVenue.get("name", venue)`: the venue's own name when it
      has one, the paper's `venue` otherwise. */
  function PublicationName(p: PaperDict): string
  {
    var venue := Show(p.venue, "Unknown Venue");
    match p.publicationVenue
    case NoVenue => venue
    case Venue(name, _, _, _) => if name.Absent? then venue else Show(name, "")
  }

  /** `publicationVenue.get("url", "")` */
  function PublicationUrl(p: PaperDict): Field
  {
    match p.publicationVenue
    case NoVenue => Str("")
    case Venue(_, url, _, _) => if url.Absent? then Str("") else url
  }

  /** `externalIds.get("DOI", None)`, for a paper whose `externalIds` is
      not `None`. */
  function Doi(p: PaperDict): Field
  {
    match p.externalIds
    case Ids(d) => d
    case _ => Null
  }

  /** An optional part: `lead`, the value and `tail` when the value is
      truthy, nothing otherwise. */
  function Part(value: Field, lead: string, tail: string): (r: string)
    ensures Truthy(value) ==> r == lead + Show(value, "") + tail
    ensures !Truthy(value) ==> r == ""
  {
    if Truthy(value) then lead + Show(value, "") + tail else ""
  }

  /** `authors. "title" (year). Published in name.` */
  function CitationBase(authors: string, p: PaperDict): string
  {
    authors + ". \"" + Show(p.title, "Unknown Title") + "\" (" + Show(p.year, "Unknown Year")
      + "). Published in " + PublicationName(p) + "."
  }

  function DoiPart(p: PaperDict): string { Part(Doi(p), " DOI: ", "") }
  function UrlPart(p: PaperDict): string { Part(p.url, " Available at: ", ".") }
  function PdfPart(p: PaperDict): string { Part(p.openAccessPdf, " Open Access PDF: ", ".") }
  function VenueUrlPart(p: PaperDict): string { Part(PublicationUrl(p), " Publication Info: ", ".") }

  /** `format_citation`. `None` stands for the exception raised when the
      authors cannot be joined or `externalIds` is `None`. */
  function FormatCitation(p: PaperDict): (r: Option<string>)
    ensures r.Some? <==> AuthorsText(p.authors).Some? && !p.externalIds.IdsNull?
  {
    match AuthorsText(p.authors)
    case None => None
    case Some(authors) =>
      if p.externalIds.IdsNull? then None
      else
        var base := CitationBase(authors, p);
        Some(base + DoiPart(p) + UrlPart(p) + PdfPart(p) + VenueUrlPart(p))
  }

  /** Only the first three authors are named: lists that agree on their
      first three entries and both have more than three authors give the
      same text. */
  lemma AuthorsTextFirstThree(ns: seq<Field>, ms: seq<Field>)
    requires |ns| > 3 && |ms| > 3 && ns[..3] == ms[..3]
    ensures AuthorsText(AuthorList(ns)) == AuthorsText(AuthorList(ms))
  {
    assert Take(ns, 3) == ns[..3] && Take(ms, 3) == ms[..3];
  }

  /** More than three authors: the first three names and ` et al.`. */
  lemma {:induction false} AuthorsTextEtAl(ns: seq<Field>)
    requires |ns| > 3
    requires AuthorName(ns[0]).Some? && AuthorName(ns[1]).Some? && AuthorName(ns[2]).Some?
    ensures AuthorsText(AuthorList(ns))
         == Some(AuthorName(ns[0]).value + ", " + AuthorName(ns[1]).value + ", " + AuthorName(ns[2]).value + " et al.")
  {
    var a, b, c := AuthorName(ns[0]).value, AuthorName(ns[1]).value, AuthorName(ns[2]).value;
    var first := AuthorNames(Take(ns, 3));
    assert first.Some? && first.value == [a, b, c] by {
      assert Take(ns, 3) == ns[..3];
      assert |first.value| == 3;
    }
    JoinThree(a, b, c, ", ");
  }

  lemma JoinThree(a: string, b: string, c: string, sep: string)
    ensures Join([a, b, c], sep) + " et al." == a + sep + b + sep + c + " et al."
  {
    assert [a, b, c][1..] == [b, c] && [b, c][1..] == [c];
    assert Join([b, c], sep) == b + sep + c;
    assert Join([a, b, c], sep) == a + sep + (b + sep + c);
  }

  /** Three authors or fewer: all names, joined, and no ` et al.`. */
  lemma AuthorsTextFew(ns: seq<Field>)
    requires |ns| <= 3
    requires forall i :: 0 <= i < |ns| ==> AuthorName(ns[i]).Some?
    ensures AuthorsText(AuthorList(ns)) == Some(Join(AuthorNames(ns).value, ", "))
  {
    assert Take(ns, 3) == ns;
    var t := Join(AuthorNames(ns).value, ", ");
    assert AuthorsText(AuthorList(ns)) == Some(t + "");
    assert t + "" == t;
  }

  /** The author text fails exactly when one of the first three names is
      not a string; later names are never read. */
  lemma AuthorsTextFails(ns: seq<Field>)
    ensures AuthorsText(AuthorList(ns)).None? <==>
      exists i :: 0 <= i < |ns| && i < 3 && (ns[i].Null? || ns[i].Int?)
  {
    var t := Take(ns, 3);
    assert forall i :: 0 <= i < |t| ==> t[i] == ns[i];
  }

  /** Without DOI, urls and PDF the citation is its base text. */
  lemma CitationPlain(p: PaperDict)
    requires AuthorsText(p.authors).Some? && !p.externalIds.IdsNull?
    requires !Truthy(Doi(p)) && !Truthy(p.url) && !Truthy(p.openAccessPdf) && !Truthy(PublicationUrl(p))
    ensures FormatCitation(p) == Some(CitationBase(AuthorsText(p.authors).value, p))
  {
    var base := CitationBase(AuthorsText(p.authors).value, p);
    assert DoiPart(p) == UrlPart(p) == PdfPart(p) == VenueUrlPart(p) == "";
    assert base + "" + "" + "" + "" == base;
  }

  /** The base text and the parts after the DOI do not read `externalIds`. */
  lemma SameBase(p: PaperDict, q: PaperDict, authors: string)
    requires q == p.(externalIds := q.externalIds)
    ensures AuthorsText(q.authors) == AuthorsText(p.authors)
    ensures CitationBase(authors, q) == CitationBase(authors, p)
    ensures UrlPart(q) + PdfPart(q) + VenueUrlPart(q) == UrlPart(p) + PdfPart(p) + VenueUrlPart(p)
  {
  }

  /** The citation of a paper that can be cited: the base text, then the
      four optional parts. */
  lemma CitationShape(p: PaperDict)
    requires AuthorsText(p.authors).Some? && !p.externalIds.IdsNull?
    ensures FormatCitation(p).value
         == CitationBase(AuthorsText(p.authors).value, p) + DoiPart(p) + (UrlPart(p) + PdfPart(p) + VenueUrlPart(p))
  {
  }

  /** A DOI comes first: it is inserted right after the base text and the
      rest of the citation is what it would be without it. */
  lemma CitationDoiFirst(p: PaperDict, d: Field)
    requires AuthorsText(p.authors).Some? && Truthy(d)
    ensures var base := CitationBase(AuthorsText(p.authors).value, p);
      FormatCitation(p.(externalIds := Ids(d))).value
        == base + " DOI: " + Show(d, "") + FormatCitation(p.(externalIds := IdsAbsent)).value[|base|..]
  {
    var base := CitationBase(AuthorsText(p.authors).value, p);
    CitationWithDoi(p, d);
    CitationWithoutDoi(p);
    InsertAfter(FormatCitation(p.(externalIds := Ids(d))).value, FormatCitation(p.(externalIds := IdsAbsent)).value,
      base, " DOI: ", Show(d, ""), AfterDoi(p));
  }

  /** The parts after the DOI. */
  function AfterDoi(p: PaperDict): string { UrlPart(p) + PdfPart(p) + VenueUrlPart(p) }

  lemma CitationWithDoi(p: PaperDict, d: Field)
    requires AuthorsText(p.authors).Some? && Truthy(d)
    ensures FormatCitation(p.(externalIds := Ids(d))).value
         == CitationBase(AuthorsText(p.authors).value, p) + " DOI: " + Show(d, "") + AfterDoi(p)
  {
    var q := p.(externalIds := Ids(d));
    SameBase(p, q, AuthorsText(p.authors).value);
    CitationShape(q);
  }

  lemma CitationWithoutDoi(p: PaperDict)
    requires AuthorsText(p.authors).Some?
    ensures FormatCitation(p.(externalIds := IdsAbsent)).value
         == CitationBase(AuthorsText(p.authors).value, p) + "" + AfterDoi(p)
  {
    var q := p.(externalIds := IdsAbsent);
    SameBase(p, q, AuthorsText(p.authors).value);
    CitationShape(q);
  }

  lemma InsertAfter(x: string, y: string, base: string, lead: string, value: string, rest: string)
    requires x == base + lead + value + rest && y == base + "" + rest
    ensures x == base + lead + value + y[|base|..]
  {
    assert y[|base|..] == rest;
  }

  /** The venue's url comes last: it is appended to the citation the
      paper would have without it. */
  lemma CitationVenueUrlLast(p: PaperDict, name: Field, url: Field, issn: Field, sjr: Option<real>)
    requires AuthorsText(p.authors).Some? && !p.externalIds.IdsNull? && Truthy(url)
    ensures FormatCitation(p.(publicationVenue := Venue(name, url, issn, sjr))).value
         == FormatCitation(p.(publicationVenue := Venue(name, Absent, issn, sjr))).value
              + " Publication Info: " + Show(url, "") + "."
  {
    var q := p.(publicationVenue := Venue(name, url, issn, sjr));
    var q' := p.(publicationVenue := Venue(name, Absent, issn, sjr));
    assert BeforeVenue(q) == BeforeVenue(q') by {
      assert PublicationName(q) == PublicationName(q');
    }
    CitationLast(q);
    CitationLast(q');
    AppendLast(FormatCitation(q).value, FormatCitation(q').value, BeforeVenue(q),
      " Publication Info: ", Show(url, ""), ".");
  }

  /** The citation up to the venue's url. */
  function BeforeVenue(p: PaperDict): string
    requires AuthorsText(p.authors).Some?
  {
    CitationBase(AuthorsText(p.authors).value, p) + DoiPart(p) + UrlPart(p) + PdfPart(p)
  }

  lemma CitationLast(p: PaperDict)
    requires AuthorsText(p.authors).Some? && !p.externalIds.IdsNull?
    ensures FormatCitation(p).value == BeforeVenue(p) + VenueUrlPart(p)
  {
  }

  lemma AppendLast(x: string, y: string, head: string, lead: string, value: string, tail: string)
    requires x == head + (lead + value + tail) && y == head + ""
    ensures x == y + lead + value + tail
  {
    assert y == head;
  }

  // ================================================================ format_results

  /** A validated paper: the dictionary its citation is built from
      (`model_dump()`), its abstract, citation count and search query, and
      the `section` and `citation` that `format_results` fills in. */
  datatype Paper = Paper(data: PaperDict, abstractText: Field, citationCount: int, query: string,
                         section: string, citation: string)

  /** What the formatting loop yields for a run of (section, paper) pairs:
      a paper without a truthy abstract is skipped, the others get their
      section and citation; a citation that cannot be built raises. */
  function FormatPairs(ps: seq<(string, Paper)>): (r: Option<seq<Paper>>)
  {
    if |ps| == 0 then Some([])
    else
      match FormatPairs(ps[..|ps| - 1])
      case None => None
      case Some(out) =>
        var (section, p) := ps[|ps| - 1];
        if !Truthy(p.abstractText) then Some(out)
        else match FormatCitation(p.data)
          case None => None
          case Some(c) => Some(out + [p.(section := section, citation := c)])
  }

  /** `format_results` on the sections in their dictionary order. */
  function FormattedResults(results: seq<(string, seq<Paper>)>): Option<seq<Paper>>
  {
    FormatPairs(Flatten(results))
  }

  /** A pair is kept when its paper has a truthy abstract. */
  function KeptPairs(ps: seq<(string, Paper)>): (r: seq<(string, Paper)>)
    ensures |r| <= |ps|
  {
    if |ps| == 0 then []
    else KeptPairs(ps[..|ps| - 1]) + (if Truthy(ps[|ps| - 1].1.abstractText) then [ps[|ps| - 1]] else [])
  }

  /** Once the loop has raised, later pairs change nothing. */
  lemma {:induction false} FormatPairsStops(ps: seq<(string, Paper)>, rest: seq<(string, Paper)>)
    requires FormatPairs(ps).None?
    ensures FormatPairs(ps + rest).None?
    decreases |rest|
  {
    if |rest| > 0 {
      FormatPairsStops(ps, rest[..|rest| - 1]);
      assert (ps + rest)[..|ps + rest| - 1] == ps + rest[..|rest| - 1];
    } else {
      assert ps + rest == ps;
    }
  }

  /** `format_results` succeeds exactly when every paper with an abstract
      can be cited, and then yields the papers with an abstract, in order,
      each stamped with its section and citation. */
  lemma {:induction false} FormatPairsKept(ps: seq<(string, Paper)>)
    ensures FormatPairs(ps).Some? <==>
      forall k :: 0 <= k < |ps| && Truthy(ps[k].1.abstractText) ==> FormatCitation(ps[k].1.data).Some?
    ensures FormatPairs(ps).Some? ==>
      var kept := KeptPairs(ps);
      && |FormatPairs(ps).value| == |kept|
      && forall k :: 0 <= k < |kept| ==>
           FormatCitation(kept[k].1.data).Some? &&
           FormatPairs(ps).value[k] == kept[k].1.(section := kept[k].0, citation := FormatCitation(kept[k].1.data).value)
    decreases |ps|
  {
    if |ps| > 0 {
      var init := ps[..|ps| - 1];
      FormatPairsKept(init);
      assert forall k :: 0 <= k < |init| ==> init[k] == ps[k];
    }
  }

  /** One step of the formatting loop. */
  lemma FormatPairsStep(ps: seq<(string, Paper)>, section: string, p: Paper)
    ensures FormatPairs(ps + [(section, p)])
         == match FormatPairs(ps)
            case None => None
            case Some(out) =>
              if !Truthy(p.abstractText) then Some(out)
              else match FormatCitation(p.data)
                case None => None
                case Some(c) => Some(out + [p.(section := section, citation := c)])
  {
    assert (ps + [(section, p)])[..|ps|] == ps;
  }

  /** A citation that cannot be built makes the whole call raise. */
  lemma FormatResultsAbort(results: seq<(string, seq<Paper>)>, i: nat, j: nat)
    requires i < |results| && j <= |results[i].1|
    requires FormatPairs(Flatten(results[..i]) + Tagged(results[i].0, results[i].1[..j])).None?
    ensures FormattedResults(results).None?
  {
    var ps := Flatten(results[..i]) + Tagged(results[i].0, results[i].1[..j]);
    FlattenPrefix(results, i, j);
    var all := Flatten(results);
    FormatPairsStops(ps, all[|ps|..]);
    assert ps + all[|ps|..] == all;
  }

  /** `format_results`: for each section in order, for each of its papers
      in order, skip a paper without a truthy abstract and append the
      others with their section and citation set. `None` stands for the
      exception a citation that cannot be built raises. */
  method FormatResults(results: seq<(string, seq<Paper>)>) returns (r: Option<seq<Paper>>)
    ensures r == FormattedResults(results)
  {
    var formatted: seq<Paper> := [];
    for i := 0 to |results|
      invariant FormatPairs(Flatten(results[..i])) == Some(formatted)
    {
      var (section, papers) := results[i];
      assert results[..i + 1][..i] == results[..i];
      assert Flatten(results[..i]) + Tagged(section, papers[..0]) == Flatten(results[..i]);
      for j := 0 to |papers|
        invariant FormatPairs(Flatten(results[..i]) + Tagged(section, papers[..j])) == Some(formatted)
      {
        var paper := papers[j];
        FlattenLast(results, i, j);
        FormatPairsStep(Flatten(results[..i]) + Tagged(section, papers[..j]), section, paper);
        if !Truthy(paper.abstractText) {
          continue;
        }
        var citation := FormatCitation(paper.data);
        if citation.None? {
          FormatResultsAbort(results, i, j + 1);
          return None;
        }
        formatted := formatted + [paper.(section := section, citation := citation.value)];
      }
      assert papers[..|papers|] == papers;
    }
    assert results[..|results|] == results;
    return Some(formatted);
  }

  // ================================================================ select_top_papers

  /** The papers of `ps` whose query is `q`, in order. */
  function OfQuery(ps: seq<Paper>, q: string): (r: seq<Paper>)
    ensures |r| <= |ps|
    ensures forall k :: 0 <= k < |r| ==> r[k].query == q
  {
    if |ps| == 0 then []
    else
      OfQuery(ps[..|ps| - 1], q) + (if ps[|ps| - 1].query == q then [ps[|ps| - 1]] else [])
  }

  /** The distinct queries of `ps`, in order of first occurrence: the keys
      of the grouping dictionary. */
  function QueriesOf(ps: seq<Paper>): seq<string>
  {
    if |ps| == 0 then []
    else
      var init := QueriesOf(ps[..|ps| - 1]);
      var q := ps[|ps| - 1].query;
      if q in init then init else init + [q]
  }

  /** The grouping keys are exactly the queries of the papers. */
  lemma {:induction false} QueriesOfMembers(ps: seq<Paper>)
    ensures forall k :: 0 <= k < |ps| ==> ps[k].query in QueriesOf(ps)
    ensures forall q :: q in QueriesOf(ps) ==> exists k :: 0 <= k < |ps| && ps[k].query == q
  {
    if |ps| > 0 {
      var init := ps[..|ps| - 1];
      QueriesOfMembers(init);
      assert forall k :: 0 <= k < |init| ==> init[k] == ps[k];
    }
  }

  /** No query is listed twice. */
  predicate Distinct(qs: seq<string>) {
    forall i, j :: 0 <= i < j < |qs| ==> qs[i] != qs[j]
  }

  lemma {:induction false} QueriesDistinct(ps: seq<Paper>)
    ensures Distinct(QueriesOf(ps))
    decreases |ps|
  {
    if |ps| > 0 {
      QueriesDistinct(ps[..|ps| - 1]);
    }
  }

  /** The index of the first paper of `ps` with query `q`, or `|ps|` when
      there is none. */
  function FirstOcc(ps: seq<Paper>, q: string): (r: nat)
    ensures r <= |ps|
  {
    if |ps| == 0 then 0
    else if ps[0].query == q then 0
    else 1 + FirstOcc(ps[1..], q)
  }

  /** `FirstOcc` is the least index holding query `q`. */
  lemma {:induction false} FirstOccLeast(ps: seq<Paper>, q: string)
    ensures FirstOcc(ps, q) < |ps| ==> ps[FirstOcc(ps, q)].query == q
    ensures forall k :: 0 <= k < FirstOcc(ps, q) ==> ps[k].query != q
    decreases |ps|
  {
    if |ps| > 0 && ps[0].query != q {
      FirstOccLeast(ps[1..], q);
      assert forall k :: 1 <= k <= FirstOcc(ps[1..], q) ==> ps[k] == ps[1..][k - 1];
    }
  }

  /** A first occurrence within the first `n` papers is the first
      occurrence in all of them. */
  lemma FirstOccPrefix(ps: seq<Paper>, n: nat, q: string)
    requires n <= |ps| && FirstOcc(ps[..n], q) < n
    ensures FirstOcc(ps, q) == FirstOcc(ps[..n], q)
  {
    var f := FirstOcc(ps[..n], q);
    FirstOccLeast(ps[..n], q);
    FirstOccLeast(ps, q);
    assert ps[..n][f] == ps[f];
    assert forall k :: 0 <= k < f ==> ps[..n][k] == ps[k];
  }

  /** The grouping keys come in the order in which their queries first
      occur among the papers. */
  lemma {:induction false} QueriesOfOrder(ps: seq<Paper>)
    ensures forall i :: 0 <= i < |QueriesOf(ps)| ==> FirstOcc(ps, QueriesOf(ps)[i]) < |ps|
    ensures forall i, j :: 0 <= i < j < |QueriesOf(ps)| ==> FirstOcc(ps, QueriesOf(ps)[i]) < FirstOcc(ps, QueriesOf(ps)[j])
    decreases |ps|
  {
    if |ps| > 0 {
      var n := |ps| - 1;
      var init := ps[..n];
      var qs0 := QueriesOf(init);
      var q := ps[n].query;
      QueriesOfOrder(init);
      forall i | 0 <= i < |qs0|
        ensures FirstOcc(ps, qs0[i]) == FirstOcc(init, qs0[i])
      {
        FirstOccPrefix(ps, n, qs0[i]);
      }
      if q in qs0 {
        assert QueriesOf(ps) == qs0;
      } else {
        QueriesOfMembers(init);
        forall k | 0 <= k < n
          ensures ps[k].query != q
        {
          assert init[k] == ps[k];
        }
        FirstOccLeast(ps, q);
        assert FirstOcc(ps, q) == n;
        var qs := qs0 + [q];
        assert QueriesOf(ps) == qs;
        forall i, j | 0 <= i < j < |qs|
          ensures FirstOcc(ps, qs[i]) < FirstOcc(ps, qs[j])
        {
          assert qs[i] == qs0[i];
          if j < |qs0| {
            assert qs[j] == qs0[j];
          }
        }
      }
    }
  }

  /** `sorted(papers, key=citationCount, reverse=True)` is a stable sort:
      each paper goes after every earlier paper with at least its count. */
  function InsertByCitations(x: Paper, t: seq<Paper>): (r: seq<Paper>)
    ensures |r| == |t| + 1
  {
    if |t| == 0 then [x]
    else if t[0].citationCount >= x.citationCount then [t[0]] + InsertByCitations(x, t[1..])
    else [x] + t
  }

  function SortByCitations(ps: seq<Paper>): (r: seq<Paper>)
    ensures |r| == |ps|
  {
    if |ps| == 0 then []
    else InsertByCitations(ps[|ps| - 1], SortByCitations(ps[..|ps| - 1]))
  }

  /** Inserting adds the paper and nothing else. */
  lemma {:induction false} InsertPermutes(x: Paper, t: seq<Paper>)
    ensures multiset(InsertByCitations(x, t)) == multiset(t) + multiset{x}
    decreases |t|
  {
    if |t| > 0 && t[0].citationCount >= x.citationCount {
      InsertPermutes(x, t[1..]);
      assert t == [t[0]] + t[1..];
    }
  }

  /** The sort is a permutation. */
  lemma {:induction false} SortPermutes(ps: seq<Paper>)
    ensures multiset(SortByCitations(ps)) == multiset(ps)
    decreases |ps|
  {
    if |ps| > 0 {
      var init, x := ps[..|ps| - 1], ps[|ps| - 1];
      var sorted := SortByCitations(init);
      assert SortByCitations(ps) == InsertByCitations(x, sorted);
      SortPermutes(init);
      InsertPermutes(x, sorted);
      MultisetSnoc(ps);
    }
  }

  lemma MultisetSnoc<T>(s: seq<T>)
    requires |s| > 0
    ensures multiset(s) == multiset(s[..|s| - 1]) + multiset{s[|s| - 1]}
  {
    assert s == s[..|s| - 1] + [s[|s| - 1]];
  }

  /** Highest citation count first. */
  predicate Descending(ps: seq<Paper>) {
    forall i, j :: 0 <= i < j < |ps| ==> ps[i].citationCount >= ps[j].citationCount
  }

  lemma {:induction false} InsertDescending(x: Paper, t: seq<Paper>)
    requires Descending(t)
    ensures Descending(InsertByCitations(x, t))
    ensures InsertByCitations(x, t)[0] == x || (|t| > 0 && InsertByCitations(x, t)[0] == t[0])
    decreases |t|
  {
    if |t| > 0 && t[0].citationCount >= x.citationCount {
      DescendingTail(t);
      InsertDescending(x, t[1..]);
      var r' := InsertByCitations(x, t[1..]);
      assert r'[0].citationCount <= t[0].citationCount by {
        if r'[0] != x {
          assert r'[0] == t[1];
        }
      }
      DescendingCons(t[0], r');
    } else if |t| > 0 {
      DescendingCons(x, t);
    }
  }

  lemma DescendingTail(t: seq<Paper>)
    requires Descending(t) && |t| > 0
    ensures Descending(t[1..])
  {
    var tail := t[1..];
    forall i, j | 0 <= i < j < |tail| ensures tail[i].citationCount >= tail[j].citationCount {
      assert tail[i] == t[i + 1] && tail[j] == t[j + 1];
    }
  }

  /** A head with at least the count of a descending list's head keeps it
      descending. */
  lemma DescendingCons(h: Paper, r: seq<Paper>)
    requires Descending(r) && (|r| > 0 ==> h.citationCount >= r[0].citationCount)
    ensures Descending([h] + r)
  {
    var s := [h] + r;
    forall i, j | 0 <= i < j < |s| ensures s[i].citationCount >= s[j].citationCount {
      assert s[j] == r[j - 1];
      if i > 0 {
        assert s[i] == r[i - 1];
      } else if j > 1 {
        assert r[0].citationCount >= r[j - 1].citationCount;
      }
    }
  }

  /** The sort orders by descending citation count. */
  lemma {:induction false} SortDescending(ps: seq<Paper>)
    ensures Descending(SortByCitations(ps))
    decreases |ps|
  {
    if |ps| > 0 {
      SortDescending(ps[..|ps| - 1]);
      InsertDescending(ps[|ps| - 1], SortByCitations(ps[..|ps| - 1]));
    }
  }

  /** The papers of `ps` with citation count `c`, in order. */
  function WithCount(ps: seq<Paper>, c: int): seq<Paper>
  {
    if |ps| == 0 then []
    else (if ps[0].citationCount == c then [ps[0]] else []) + WithCount(ps[1..], c)
  }

  lemma {:induction false} WithCountConcat(a: seq<Paper>, b: seq<Paper>, c: int)
    ensures WithCount(a + b, c) == WithCount(a, c) + WithCount(b, c)
    decreases |a|
  {
    if |a| > 0 {
      assert (a + b)[1..] == a[1..] + b;
      WithCountConcat(a[1..], b, c);
    } else {
      assert a + b == b;
    }
  }

  /** In a descending list, nothing has a count above that of its head. */
  lemma {:induction false} WithCountBelow(t: seq<Paper>, c: int)
    requires Descending(t) && (|t| > 0 ==> t[0].citationCount < c)
    ensures WithCount(t, c) == []
    decreases |t|
  {
    if |t| > 0 {
      WithCountBelow(t[1..], c);
    }
  }

  /** Inserting keeps, for each count, the earlier papers with that count
      before the new one. */
  lemma {:induction false} InsertStable(x: Paper, t: seq<Paper>, c: int)
    requires Descending(t)
    ensures WithCount(InsertByCitations(x, t), c)
         == WithCount(t, c) + (if x.citationCount == c then [x] else [])
    decreases |t|
  {
    if |t| == 0 {
      WithCountCons(x, [], c);
    } else if t[0].citationCount >= x.citationCount {
      DescendingTail(t);
      InsertStable(x, t[1..], c);
      InsertStableAfterHead(x, t, c);
    } else {
      WithCountCons(x, t, c);
      if x.citationCount == c {
        WithCountBelow(t, c);
      }
    }
  }

  /** When the head stays first, what holds for the tail holds for the
      whole list. */
  lemma InsertStableAfterHead(x: Paper, t: seq<Paper>, c: int)
    requires |t| > 0 && t[0].citationCount >= x.citationCount
    requires WithCount(InsertByCitations(x, t[1..]), c)
          == WithCount(t[1..], c) + (if x.citationCount == c then [x] else [])
    ensures WithCount(InsertByCitations(x, t), c)
         == WithCount(t, c) + (if x.citationCount == c then [x] else [])
  {
    var h, r := t[0], t[1..];
    var e := if x.citationCount == c then [x] else [];
    var hc := if h.citationCount == c then [h] else [];
    var ir := InsertByCitations(x, r);
    assert InsertByCitations(x, t) == [h] + ir;
    WithCountCons(h, ir, c);
    assert WithCount(t, c) == hc + WithCount(r, c);
    assert hc + (WithCount(r, c) + e) == (hc + WithCount(r, c)) + e;
  }

  lemma WithCountCons(h: Paper, t: seq<Paper>, c: int)
    ensures WithCount([h] + t, c) == (if h.citationCount == c then [h] else []) + WithCount(t, c)
  {
    assert ([h] + t)[1..] == t;
  }

  /** The sort is stable: the papers with equal citation counts keep
      their input order. */
  lemma {:induction false} SortStable(ps: seq<Paper>, c: int)
    ensures WithCount(SortByCitations(ps), c) == WithCount(ps, c)
    decreases |ps|
  {
    if |ps| > 0 {
      var init := ps[..|ps| - 1];
      var x := ps[|ps| - 1];
      assert ps == init + [x];
      var sorted := SortByCitations(init);
      assert SortByCitations(ps) == InsertByCitations(x, sorted);
      SortStable(init, c);
      SortDescending(init);
      InsertStable(x, sorted, c);
      WithCountConcat(init, [x], c);
      assert [x][1..] == [];
      assert WithCount([x], c) == (if x.citationCount == c then [x] else []) + [];
    }
  }

  /** What `select_top_papers` returns for the groups `qs`: each group
      sorted and cut to `max` papers, the groups one after the other. */
  function TopOf(results: seq<Paper>, qs: seq<string>, max: int): seq<Paper>
  {
    if |qs| == 0 then []
    else TopOf(results, qs[..|qs| - 1], max) + Block(results, qs[|qs| - 1], max)
  }

  /** The papers kept for query `q`: its group, sorted, cut to `max`. */
  function Block(results: seq<Paper>, q: string, max: int): seq<Paper>
  {
    Take(SortByCitations(OfQuery(results, q)), max)
  }

  lemma TopOfStep(results: seq<Paper>, qs: seq<string>, j: nat, max: int)
    requires j < |qs|
    ensures TopOf(results, qs[..j + 1], max) == TopOf(results, qs[..j], max) + Block(results, qs[j], max)
  {
    assert qs[..j + 1][..j] == qs[..j];
  }

  /** `select_top_papers` */
  function SelectTop(results: seq<Paper>, max: int): seq<Paper>
  {
    TopOf(results, QueriesOf(results), max)
  }

  lemma {:induction false} OfQueryConcat(a: seq<Paper>, b: seq<Paper>, q: string)
    ensures OfQuery(a + b, q) == OfQuery(a, q) + OfQuery(b, q)
    decreases |b|
  {
    if |b| == 0 {
      assert a + b == a;
    } else {
      var init := b[..|b| - 1];
      var x := if b[|b| - 1].query == q then [b[|b| - 1]] else [];
      OfQueryConcat(a, init, q);
      assert (a + b)[..|a + b| - 1] == a + init;
      assert (a + b)[|a + b| - 1] == b[|b| - 1];
      assert OfQuery(a + b, q) == OfQuery(a + init, q) + x;
      assert OfQuery(b, q) == OfQuery(init, q) + x;
      AppendAssoc(OfQuery(a, q), OfQuery(init, q), x);
    }
  }

  /** A list whose papers all have query `q` is its own group. */
  lemma {:induction false} OfQueryAll(s: seq<Paper>, q: string)
    requires forall k :: 0 <= k < |s| ==> s[k].query == q
    ensures OfQuery(s, q) == s
    decreases |s|
  {
    if |s| > 0 {
      OfQueryAll(s[..|s| - 1], q);
    }
  }

  /** A list with no paper of query `q` has an empty group for it. */
  lemma {:induction false} OfQueryNone(s: seq<Paper>, q: string)
    requires forall k :: 0 <= k < |s| ==> s[k].query != q
    ensures OfQuery(s, q) == []
    decreases |s|
  {
    if |s| > 0 {
      OfQueryNone(s[..|s| - 1], q);
    }
  }

  /** Every paper kept for group `k` has query `k`. */
  lemma TopBlockQuery(results: seq<Paper>, k: string, max: int)
    ensures forall m :: 0 <= m < |Block(results, k, max)| ==> Block(results, k, max)[m].query == k
  {
    var group := OfQuery(results, k);
    var sorted := SortByCitations(group);
    var block := Block(results, k, max);
    SortPermutes(group);
    forall m | 0 <= m < |block| ensures block[m].query == k {
      assert block[m] == sorted[m];
      assert sorted[m] in multiset(sorted);
      assert block[m] in multiset(group);
      var n :| 0 <= n < |group| && group[n] == block[m];
    }
  }

  /** The papers of query `q` among the groups `qs`: the sorted, cut group
      of `q` when `q` is one of them, nothing otherwise. */
  lemma {:induction false} TopOfQuery(results: seq<Paper>, qs: seq<string>, max: int, q: string)
    requires Distinct(qs)
    ensures OfQuery(TopOf(results, qs, max), q) == if q in qs then Block(results, q, max) else []
    decreases |qs|
  {
    if |qs| > 0 {
      var init := qs[..|qs| - 1];
      var k := qs[|qs| - 1];
      var block := Block(results, k, max);
      assert Distinct(init);
      TopOfQuery(results, init, max, q);
      OfQueryConcat(TopOf(results, init, max), block, q);
      TopBlockQuery(results, k, max);
      if q == k {
        OfQueryAll(block, q);
        assert q !in init;
      } else {
        OfQueryNone(block, q);
        assert q in qs <==> q in init;
      }
    }
  }

  /** Every paper of the blocks for the groups `qs` has one of their queries. */
  lemma {:induction false} TopOfQueries(results: seq<Paper>, qs: seq<string>, max: int)
    ensures forall i :: 0 <= i < |TopOf(results, qs, max)| ==> TopOf(results, qs, max)[i].query in qs
    decreases |qs|
  {
    if |qs| > 0 {
      var n := |qs| - 1;
      var pre := TopOf(results, qs[..n], max);
      var block := Block(results, qs[n], max);
      TopOfQueries(results, qs[..n], max);
      TopBlockQuery(results, qs[n], max);
      var top: seq<Paper> := pre + block;
      forall i | 0 <= i < |top|
        ensures top[i].query in qs
      {
        if i < |pre| {
          assert top[i] == pre[i];
          assert pre[i].query in qs[..n];
        } else {
          assert top[i] == block[i - |pre|];
        }
      }
    }
  }

  /** The queries of `s` never decrease in `rank`. */
  predicate RankedBy(s: seq<Paper>, rank: string -> int) {
    forall i, j :: 0 <= i < j < |s| ==> rank(s[i].query) <= rank(s[j].query)
  }

  /** Blocks laid out for groups in increasing `rank` keep that order:
      each paper's group ranks no later than the group of any paper after
      it. */
  lemma {:induction false} TopOfOrder(results: seq<Paper>, qs: seq<string>, max: int, rank: string -> int)
    requires forall a, b :: 0 <= a < b < |qs| ==> rank(qs[a]) < rank(qs[b])
    ensures RankedBy(TopOf(results, qs, max), rank)
    decreases |qs|
  {
    if |qs| > 0 {
      var n := |qs| - 1;
      var init := qs[..n];
      var k := qs[n];
      var pre := TopOf(results, init, max);
      var block := Block(results, k, max);
      assert forall a :: 0 <= a < n ==> init[a] == qs[a];
      TopOfOrder(results, init, max, rank);
      TopOfQueries(results, init, max);
      TopBlockQuery(results, k, max);
      var top: seq<Paper> := pre + block;
      forall i, j | 0 <= i < j < |top|
        ensures rank(top[i].query) <= rank(top[j].query)
      {
        if j < |pre| {
          assert top[i] == pre[i] && top[j] == pre[j];
        } else if i < |pre| {
          assert top[i] == pre[i] && top[j] == block[j - |pre|];
          assert pre[i].query in init;
          var a :| 0 <= a < n && init[a] == pre[i].query;
        } else {
          assert top[i] == block[i - |pre|] && top[j] == block[j - |pre|];
        }
      }
      assert TopOf(results, qs, max) == top;
    }
  }

  /** `select_top_papers` lists the papers group by group, the groups in
      the order in which their queries first occur among the results. */
  lemma SelectTopOrder(results: seq<Paper>, max: int)
    ensures forall i, j :: 0 <= i < j < |SelectTop(results, max)| ==>
      FirstOcc(results, SelectTop(results, max)[i].query) <= FirstOcc(results, SelectTop(results, max)[j].query)
  {
    var rank := (q: string) => FirstOcc(results, q) as int;
    QueriesOfOrder(results);
    TopOfOrder(results, QueriesOf(results), max, rank);
    assert RankedBy(SelectTop(results, max), rank);
  }

  /** Per query, `select_top_papers` keeps the group of that query sorted
      by descending citation count (ties in input order) and cut to `max`
      papers, the same as sorting and cutting the group on its own. */
  lemma SelectTopPerQuery(results: seq<Paper>, max: int, q: string)
    ensures OfQuery(SelectTop(results, max), q) == Block(results, q, max)
  {
    QueriesDistinct(results);
    TopOfQuery(results, QueriesOf(results), max, q);
    if q !in QueriesOf(results) {
      QueriesOfMembers(results);
      OfQueryNone(results, q);
    }
  }

  /** The papers kept for a query: at most `max` (for `max >= 0`), the
      first ones of the sorted group, so the most cited, in descending
      order of citation count. */
  lemma BlockBest(results: seq<Paper>, q: string, max: int)
    ensures max >= 0 ==> |Block(results, q, max)| <= max
    ensures |Block(results, q, max)| <= |OfQuery(results, q)|
    ensures Block(results, q, max) == SortByCitations(OfQuery(results, q))[..|Block(results, q, max)|]
    ensures Descending(Block(results, q, max))
  {
    var sorted := SortByCitations(OfQuery(results, q));
    SortDescending(OfQuery(results, q));
    var chosen := Block(results, q, max);
    assert chosen == sorted[..|chosen|];
    forall i, j | 0 <= i < j < |chosen| ensures chosen[i].citationCount >= chosen[j].citationCount {
      assert chosen[i] == sorted[i] && chosen[j] == sorted[j];
    }
  }

  /** A paper occurs in the group of its query as often as in the list. */
  lemma {:induction false} OfQueryCount(s: seq<Paper>, x: Paper)
    ensures multiset(OfQuery(s, x.query))[x] == multiset(s)[x]
    decreases |s|
  {
    if |s| > 0 {
      var init := s[..|s| - 1];
      OfQueryCount(init, x);
      assert s == init + [s[|s| - 1]];
    }
  }

  /** `select_top_papers` only picks papers of its input, each at most as
      often as it occurs there. */
  lemma SelectTopSubset(results: seq<Paper>, max: int)
    ensures multiset(SelectTop(results, max)) <= multiset(results)
  {
    var out := SelectTop(results, max);
    forall x ensures multiset(out)[x] <= multiset(results)[x] {
      SelectTopPerQuery(results, max, x.query);
      OfQueryCount(out, x);
      OfQueryCount(results, x);
      TakeCount(SortByCitations(OfQuery(results, x.query)), max, x);
      SortPermutes(OfQuery(results, x.query));
    }
  }

  /** A prefix holds each paper at most as often as the whole list. */
  lemma TakeCount(s: seq<Paper>, max: int, x: Paper)
    ensures multiset(Take(s, max))[x] <= multiset(s)[x]
  {
    var t := Take(s, max);
    assert s == t + s[|t|..];
  }

  /** Growing the prefix by one paper extends its group and no other. */
  lemma OfQueryStep(ps: seq<Paper>, i: nat, q: string)
    requires i < |ps|
    ensures OfQuery(ps[..i + 1], q) == OfQuery(ps[..i], q) + (if ps[i].query == q then [ps[i]] else [])
  {
    assert ps[..i + 1][..i] == ps[..i];
  }

  /** Growing the prefix by one paper adds its query when it is new. */
  lemma QueriesOfStep(ps: seq<Paper>, i: nat)
    requires i < |ps|
    ensures QueriesOf(ps[..i + 1]) == if ps[i].query in QueriesOf(ps[..i]) then QueriesOf(ps[..i]) else QueriesOf(ps[..i]) + [ps[i].query]
  {
    assert ps[..i + 1][..i] == ps[..i];
  }

  /** Step 1 of `select_top_papers`: the grouping dictionary, as its keys
      in first-insertion order and the key-to-group map. */
  method GroupByQuery(results: seq<Paper>) returns (queries: seq<string>, papersByQuery: map<string, seq<Paper>>)
    ensures queries == QueriesOf(results)
    ensures forall q :: q in papersByQuery <==> q in queries
    ensures forall q :: q in papersByQuery ==> papersByQuery[q] == OfQuery(results, q)
  {
    queries := [];
    papersByQuery := map[];
    for i := 0 to |results|
      invariant Grouped(results[..i], queries, papersByQuery)
    {
      var paper := results[i];
      ghost var before, queriesBefore := papersByQuery, queries;
      if paper.query !in papersByQuery {
        queries := queries + [paper.query];
        papersByQuery := papersByQuery[paper.query := []];
      }
      papersByQuery := papersByQuery[paper.query := papersByQuery[paper.query] + [paper]];
      GroupStep(results, i, queriesBefore, before, queries, papersByQuery);
    }
    assert results[..|results|] == results;
  }

  /** The grouping dictionary after `ps`: its keys are the queries of `ps`
      in first-insertion order, each holding the papers of its query. */
  ghost predicate Grouped(ps: seq<Paper>, queries: seq<string>, m: map<string, seq<Paper>>) {
    && queries == QueriesOf(ps)
    && (forall q :: q in m <==> q in queries)
    && (forall q :: q in m ==> m[q] == OfQuery(ps, q))
  }

  /** Appending paper `i` to its group, created empty when its query is
      new, keeps the dictionary grouped. */
  lemma GroupStep(results: seq<Paper>, i: nat, queries: seq<string>, m: map<string, seq<Paper>>,
                  queries': seq<string>, m': map<string, seq<Paper>>)
    requires i < |results| && Grouped(results[..i], queries, m)
    requires var q := results[i].query;
      && queries' == (if q in m then queries else queries + [q])
      && m' == m[q := (if q in m then m[q] else []) + [results[i]]]
    ensures Grouped(results[..i + 1], queries', m')
  {
    var ps := results[..i + 1];
    assert queries' == QueriesOf(ps) && forall k :: k in m' <==> k in queries' by {
      GroupKeysStep(results, i, queries, m, queries', m');
    }
    assert forall k :: k in m' ==> m'[k] == OfQuery(ps, k) by {
      GroupValuesStep(results, i, m, m');
    }
  }

  lemma GroupKeysStep(results: seq<Paper>, i: nat, queries: seq<string>, m: map<string, seq<Paper>>,
                      queries': seq<string>, m': map<string, seq<Paper>>)
    requires i < |results| && queries == QueriesOf(results[..i])
    requires forall q :: q in m <==> q in queries
    requires var q := results[i].query;
      && queries' == (if q in m then queries else queries + [q])
      && m'.Keys == m.Keys + {q}
    ensures queries' == QueriesOf(results[..i + 1])
    ensures forall k :: k in m' <==> k in queries'
  {
    QueriesOfStep(results, i);
  }

  lemma GroupValuesStep(results: seq<Paper>, i: nat, m: map<string, seq<Paper>>, m': map<string, seq<Paper>>)
    requires i < |results|
    requires forall q :: q in m <==> q in QueriesOf(results[..i])
    requires forall q :: q in m ==> m[q] == OfQuery(results[..i], q)
    requires var q := results[i].query;
      m' == m[q := (if q in m then m[q] else []) + [results[i]]]
    ensures forall k :: k in m' ==> m'[k] == OfQuery(results[..i + 1], k)
  {
    var q := results[i].query;
    if q !in m {
      QueriesOfMembers(results[..i]);
      OfQueryNone(results[..i], q);
    }
    forall k | k in m'
      ensures m'[k] == OfQuery(results[..i + 1], k)
    {
      OfQueryStep(results, i, k);
    }
  }




  /** `select_top_papers`: group the papers by query, then append each
      group sorted by descending citation count and cut to
      `maxPapersPerQuery`, the groups in order of first occurrence. */
  method SelectTopPapers(results: seq<Paper>, maxPapersPerQuery: int) returns (selected: seq<Paper>)
    ensures selected == SelectTop(results, maxPapersPerQuery)
  {
    var queries, papersByQuery := GroupByQuery(results);
    selected := [];
    for j := 0 to |queries|
      invariant selected == TopOf(results, queries[..j], maxPapersPerQuery)
    {
      var sortedPapers := SortByCitations(papersByQuery[queries[j]]);
      selected := selected + Take(sortedPapers, maxPapersPerQuery);
      TopOfStep(results, queries, j, maxPapersPerQuery);
    }
    assert queries[..|queries|] == queries;
  }

  // ================================================================ _query_batch

  /** `openAccessPdf` in a batch response entry: anything that is not a
      dictionary (missing, `None`, ...), or a dictionary with its `url`. */
  datatype PdfField = PdfNone | PdfDict(url: Field)

  /** One non-null entry of the batch response: the keys the keep-loop
      reads or rewrites, and the remaining keys passed on to validation. */
  datatype RawPaper = RawPaper(authors: AuthorsField, publicationVenue: VenueField, openAccessPdf: PdfField,
                               others: map<string, Field>)

  /** The dictionary handed to `Paper(...)` after the loop's rewrites. */
  datatype Prepared = Prepared(others: map<string, Field>, query: string, rationale: string, excerpt: string,
                               authors: AuthorsField, publicationVenue: VenueField, openAccessPdf: Field)

  /** The arguments of one batch call and the client state it reads: the
      SJR score per cleaned ISSN and the two thresholds. */
  datatype BatchContext = BatchContext(query: string, rationale: string, excerpt: string,
                                       sjrMap: map<string, real>, sjrThreshold: real, minCitationCount: int)

  /** What the loop does with one entry: raise, skip it, or keep a paper. */
  datatype Outcome = Crash | Skip | Keep(paper: Paper)

  /** `paper_data.get("authors", [])[:3]`: at most the first three authors;
      `None` cannot be sliced. */
  function TrimAuthors(a: AuthorsField): (r: Option<AuthorsField>)
    ensures r.None? <==> a.AuthorsNull?
    ensures r.Some? ==> r.value.AuthorList? && |r.value.names| <= 3
    ensures a.AuthorList? ==> r.Some? && |r.value.names| <= |a.names| && r.value.names == a.names[..|r.value.names|]
    ensures a.AuthorList? && |a.names| >= 3 ==> r.Some? && |r.value.names| == 3
    ensures a.AuthorList? && |a.names| < 3 ==> r.Some? && r.value.names == a.names
    ensures a.AuthorsAbsent? ==> r == Some(AuthorList([]))
  {
    match a
    case AuthorsAbsent => Some(AuthorList([]))
    case AuthorsNull => None
    case AuthorList(ns) => Some(AuthorList(Take(ns, 3)))
  }

  /** The venue's ISSN: `""` without a venue or without an `issn` key;
      `None` when the value has no string `replace`. */
  function Issn(v: VenueField): (r: Option<string>)
    ensures r.Some? <==> v.NoVenue? || v.issn.Absent? || v.issn.Str?
    ensures v.NoVenue? || v.issn.Absent? ==> r == Some("")
    ensures v.Venue? && v.issn.Str? ==> r == Some(v.issn.s)
  {
    match v
    case NoVenue => Some("")
    case Venue(_, _, issn, _) =>
      match issn
      case Absent => Some("")
      case Str(s) => Some(s)
      case _ => None
  }

  /** `issn.replace("-", "").strip()` */
  function CleanIssn(issn: string): (r: string)
    ensures '-' !in r && NoEdgeSpace(r)
    ensures |r| <= |issn|
  {
    Strip(RemoveChar(issn, '-'))
  }

  /** The venue with its `SJR` entry set. */
  function WithSjr(v: VenueField, sjr: real): (r: VenueField)
    requires v.Venue?
    ensures r.Venue? && r.sjr == Some(sjr)
    ensures r.name == v.name && r.url == v.url && r.issn == v.issn
  {
    v.(sjr := Some(sjr))
  }

  /** The rewritten `openAccessPdf`: the dictionary's `url`, else `None`. */
  function PdfUrl(f: PdfField): (r: Field)
    ensures !r.Absent?
    ensures f.PdfDict? && !f.url.Absent? ==> r == f.url
    ensures f.PdfNone? || f.url.Absent? ==> r == Null
  {
    match f
    case PdfNone => Null
    case PdfDict(url) => if url.Absent? then Null else url
  }

  /** The entry with the call's query, rationale and excerpt, its trimmed
      authors, its venue's SJR and its PDF url. */
  function PreparedOf(raw: RawPaper, authors: AuthorsField, sjr: real, ctx: BatchContext): Prepared
    requires raw.publicationVenue.Venue?
  {
    Prepared(raw.others, ctx.query, ctx.rationale, ctx.excerpt, authors,
             WithSjr(raw.publicationVenue, sjr), PdfUrl(raw.openAccessPdf))
  }

  /** The entry raises: its authors are `None`, its ISSN is not a string,
      or its venue is missing or `None` while the empty ISSN has an SJR
      score above the threshold. */
  predicate Raises(raw: RawPaper, ctx: BatchContext) {
    || raw.authors.AuthorsNull?
    || Issn(raw.publicationVenue).None?
    || (raw.publicationVenue.NoVenue? && "" in ctx.sjrMap && ctx.sjrMap[""] > ctx.sjrThreshold)
  }

  /** The rest of an iteration once the cleaned ISSN `key` is known. A
      paper is kept only when `key` has an SJR score above the threshold,
      it validates, and its citation count is above the minimum. Writing
      the score into a venue that is missing or `None` raises. */
  function Admit(raw: RawPaper, authors: AuthorsField, key: string, ctx: BatchContext,
                 validate: Prepared -> Option<Paper>): (r: Outcome)
    ensures r.Keep? ==> r.paper.citationCount > ctx.minCitationCount
    ensures r.Crash? <==> raw.publicationVenue.NoVenue? && key in ctx.sjrMap && ctx.sjrMap[key] > ctx.sjrThreshold
    ensures r.Keep? <==>
      && key in ctx.sjrMap && ctx.sjrMap[key] > ctx.sjrThreshold && raw.publicationVenue.Venue?
      && var v := validate(PreparedOf(raw, authors, ctx.sjrMap[key], ctx));
         v.Some? && v.value.citationCount > ctx.minCitationCount
    ensures r.Keep? ==>
      && key in ctx.sjrMap && raw.publicationVenue.Venue?
      && validate(PreparedOf(raw, authors, ctx.sjrMap[key], ctx)) == Some(r.paper)
  {
    if key !in ctx.sjrMap || !(ctx.sjrMap[key] > ctx.sjrThreshold) then Skip
    else if raw.publicationVenue.NoVenue? then Crash
    else
      match validate(PreparedOf(raw, authors, ctx.sjrMap[key], ctx))
      case None => Skip
      case Some(p) => if p.citationCount > ctx.minCitationCount then Keep(p) else Skip
  }

  /** One iteration of the keep-loop. */
  function Screen(entry: Option<RawPaper>, ctx: BatchContext, validate: Prepared -> Option<Paper>): (r: Outcome)
    ensures r.Keep? ==> r.paper.citationCount > ctx.minCitationCount
    ensures r.Crash? <==> entry.Some? && Raises(entry.value, ctx)
  {
    match entry
    case None => Skip
    case Some(raw) =>
      match TrimAuthors(raw.authors)
      case None => Crash
      case Some(authors) =>
        match Issn(raw.publicationVenue)
        case None => Crash
        case Some(issn) => Admit(raw, authors, CleanIssn(issn), ctx, validate)
  }

  /** The papers the loop collects from `entries`, or `None` once an entry
      raises. */
  function KeepAll(entries: seq<Option<RawPaper>>, ctx: BatchContext, validate: Prepared -> Option<Paper>): (r: Option<seq<Paper>>)
    ensures r.Some? ==> |r.value| <= |entries|
    ensures r.Some? ==> forall k :: 0 <= k < |r.value| ==> r.value[k].citationCount > ctx.minCitationCount
  {
    if |entries| == 0 then Some([])
    else
      match KeepAll(entries[..|entries| - 1], ctx, validate)
      case None => None
      case Some(out) =>
        match Screen(entries[|entries| - 1], ctx, validate)
        case Crash => None
        case Skip => Some(out)
        case Keep(p) => AboveSnoc(out, p, ctx.minCitationCount); Some(out + [p])
  }

  /** Appending a paper above the citation minimum keeps every paper above it. */
  lemma AboveSnoc(out: seq<Paper>, p: Paper, min: int)
    requires forall k :: 0 <= k < |out| ==> out[k].citationCount > min
    requires p.citationCount > min
    ensures forall k :: 0 <= k < |out + [p]| ==> (out + [p])[k].citationCount > min
  {
  }

  /** `_query_batch` on the response of the batch endpoint (`None` when the
      request failed); `None` when the loop raises. */
  function BatchResult(response: Option<seq<Option<RawPaper>>>, ctx: BatchContext, validate: Prepared -> Option<Paper>): Option<seq<Paper>>
  {
    match response
    case None => Some([])
    case Some(entries) => KeepAll(entries, ctx, validate)
  }

  /** The loop over two runs of entries is the loop over the first,
      continued over the second. */
  lemma {:induction false} KeepAllConcat(a: seq<Option<RawPaper>>, b: seq<Option<RawPaper>>, ctx: BatchContext, validate: Prepared -> Option<Paper>)
    ensures KeepAll(a + b, ctx, validate) ==
      match (KeepAll(a, ctx, validate), KeepAll(b, ctx, validate))
      case (Some(x), Some(y)) => Some(x + y)
      case _ => None
    decreases |b|
  {
    if |b| == 0 {
      assert a + b == a;
      if KeepAll(a, ctx, validate).Some? {
        assert KeepAll(a, ctx, validate).value + [] == KeepAll(a, ctx, validate).value;
      }
    } else {
      var b' := b[..|b| - 1];
      assert (a + b)[..|a + b| - 1] == a + b';
      assert (a + b)[|a + b| - 1] == b[|b| - 1];
      KeepAllConcat(a, b', ctx, validate);
      var o := Screen(b[|b| - 1], ctx, validate);
      if KeepAll(a, ctx, validate).Some? && KeepAll(b', ctx, validate).Some? && o.Keep? {
        var x, y := KeepAll(a, ctx, validate).value, KeepAll(b', ctx, validate).value;
        assert x + (y + [o.paper]) == (x + y) + [o.paper];
      }
    }
  }

  /** The loop raises exactly when one of the entries raises. */
  lemma {:induction false} KeepAllCrash(entries: seq<Option<RawPaper>>, ctx: BatchContext, validate: Prepared -> Option<Paper>)
    ensures KeepAll(entries, ctx, validate).None? <==> exists i :: 0 <= i < |entries| && Screen(entries[i], ctx, validate).Crash?
  {
    if |entries| > 0 {
      var init := entries[..|entries| - 1];
      KeepAllCrash(init, ctx, validate);
      KeepAllNoneStep(entries, ctx, validate);
      assert entries == init + [entries[|entries| - 1]];
      ExistsSnoc((e: Option<RawPaper>) => Screen(e, ctx, validate).Crash?, entries, init, entries[|entries| - 1], true);
    }
  }

  /** One more entry fails the loop exactly when the loop already failed
      or that entry raises. */
  lemma KeepAllNoneStep(entries: seq<Option<RawPaper>>, ctx: BatchContext, validate: Prepared -> Option<Paper>)
    requires |entries| > 0
    ensures KeepAll(entries, ctx, validate).None? <==>
      KeepAll(entries[..|entries| - 1], ctx, validate).None? || Screen(entries[|entries| - 1], ctx, validate).Crash?
  {
  }

  /** A kept paper is the result of validating one of the entries, and
      every paper some entry keeps is in the result (when nothing raises). */
  lemma {:induction false} KeepAllKept(entries: seq<Option<RawPaper>>, ctx: BatchContext, validate: Prepared -> Option<Paper>, p: Paper)
    requires KeepAll(entries, ctx, validate).Some?
    ensures p in KeepAll(entries, ctx, validate).value <==> exists i :: 0 <= i < |entries| && Screen(entries[i], ctx, validate) == Keep(p)
  {
    if |entries| > 0 {
      var n := |entries| - 1;
      KeepAllKept(entries[..n], ctx, validate, p);
      KeepAllLast(entries, ctx, validate);
      assert entries == entries[..n] + [entries[n]];
      KeptByLast(entries, entries[..n], entries[n], ctx, validate, p);
    }
  }

  /** One more entry appends what it keeps. */
  lemma KeepAllLast(entries: seq<Option<RawPaper>>, ctx: BatchContext, validate: Prepared -> Option<Paper>)
    requires |entries| > 0 && KeepAll(entries, ctx, validate).Some?
    ensures KeepAll(entries[..|entries| - 1], ctx, validate).Some?
    ensures var o := Screen(entries[|entries| - 1], ctx, validate);
      KeepAll(entries, ctx, validate).value == KeepAll(entries[..|entries| - 1], ctx, validate).value + (if o.Keep? then [o.paper] else [])
  {
  }

  /** Some entry keeps `p` exactly when an earlier entry or the last one does. */
  lemma KeptByLast(entries: seq<Option<RawPaper>>, init: seq<Option<RawPaper>>, last: Option<RawPaper>,
                   ctx: BatchContext, validate: Prepared -> Option<Paper>, p: Paper)
    requires entries == init + [last]
    ensures (exists i :: 0 <= i < |entries| && Screen(entries[i], ctx, validate) == Keep(p)) <==>
      (exists i :: 0 <= i < |init| && Screen(init[i], ctx, validate) == Keep(p)) || Screen(last, ctx, validate) == Keep(p)
  {
    ExistsSnoc(e => Screen(e, ctx, validate), entries, init, last, Keep(p));
  }

  /** Some element of `init + [last]` maps to `v` exactly when some element
      of `init` does or `last` does. */
  lemma ExistsSnoc<T, U>(f: T -> U, entries: seq<T>, init: seq<T>, last: T, v: U)
    requires entries == init + [last]
    ensures (exists i :: 0 <= i < |entries| && f(entries[i]) == v) <==>
      (exists i :: 0 <= i < |init| && f(init[i]) == v) || f(last) == v
  {
    if exists i :: 0 <= i < |entries| && f(entries[i]) == v {
      var i :| 0 <= i < |entries| && f(entries[i]) == v;
      if i < |init| {
        assert init[i] == entries[i];
      }
    }
    if exists i :: 0 <= i < |init| && f(init[i]) == v {
      var i :| 0 <= i < |init| && f(init[i]) == v;
      assert entries[i] == init[i];
    }
    assert entries[|init|] == last;
  }

  /** An entry the loop skips can be dropped from the response. */
  lemma SkipRemovable(a: seq<Option<RawPaper>>, e: Option<RawPaper>, b: seq<Option<RawPaper>>, ctx: BatchContext, validate: Prepared -> Option<Paper>)
    requires Screen(e, ctx, validate).Skip?
    ensures KeepAll(a + [e] + b, ctx, validate) == KeepAll(a + b, ctx, validate)
  {
    KeepAllConcat(a + [e], b, ctx, validate);
    KeepAllConcat(a, [e], ctx, validate);
    KeepAllConcat(a, b, ctx, validate);
    assert [e][..0] == [];
    assert KeepAll([e], ctx, validate) == Some([]);
    match KeepAll(a, ctx, validate)
    case Some(x) => assert x + [] == x;
    case None =>
  }

  /** The entry keeps `p`: it does not raise, its cleaned ISSN has an SJR
      score above the threshold, the record prepared from it with that
      score validates to `p`, and `p` has more citations than the minimum. */
  predicate AdmittedAs(raw: RawPaper, ctx: BatchContext, validate: Prepared -> Option<Paper>, p: Paper) {
    && TrimAuthors(raw.authors).Some? && Issn(raw.publicationVenue).Some? && raw.publicationVenue.Venue?
    && var key := CleanIssn(Issn(raw.publicationVenue).value);
       && key in ctx.sjrMap && ctx.sjrMap[key] > ctx.sjrThreshold
       && validate(PreparedOf(raw, TrimAuthors(raw.authors).value, ctx.sjrMap[key], ctx)) == Some(p)
       && p.citationCount > ctx.minCitationCount
  }

  /** An entry screens to `Keep(p)` exactly when it is admitted as `p`. */
  lemma ScreenKeepIff(raw: RawPaper, ctx: BatchContext, validate: Prepared -> Option<Paper>, p: Paper)
    ensures Screen(Some(raw), ctx, validate) == Keep(p) <==> AdmittedAs(raw, ctx, validate, p)
  {
    if TrimAuthors(raw.authors).Some? && Issn(raw.publicationVenue).Some? {
      var authors := TrimAuthors(raw.authors).value;
      var key := CleanIssn(Issn(raw.publicationVenue).value);
      ScreenIsAdmit(raw, ctx, validate);
      AdmitKeepIff(raw, authors, key, ctx, validate, p);
    } else {
      ScreenRaisesEarly(raw, ctx, validate);
    }
  }

  /** An entry whose authors or ISSN cannot be read raises. */
  lemma ScreenRaisesEarly(raw: RawPaper, ctx: BatchContext, validate: Prepared -> Option<Paper>)
    requires TrimAuthors(raw.authors).None? || Issn(raw.publicationVenue).None?
    ensures Screen(Some(raw), ctx, validate) == Crash
  {
  }

  /** Past the two steps that may raise, screening is `Admit`. */
  lemma ScreenIsAdmit(raw: RawPaper, ctx: BatchContext, validate: Prepared -> Option<Paper>)
    requires TrimAuthors(raw.authors).Some? && Issn(raw.publicationVenue).Some?
    ensures Screen(Some(raw), ctx, validate)
         == Admit(raw, TrimAuthors(raw.authors).value, CleanIssn(Issn(raw.publicationVenue).value), ctx, validate)
  {
  }

  lemma AdmitKeepIff(raw: RawPaper, authors: AuthorsField, key: string, ctx: BatchContext,
                     validate: Prepared -> Option<Paper>, p: Paper)
    ensures Admit(raw, authors, key, ctx, validate) == Keep(p) <==>
      && key in ctx.sjrMap && ctx.sjrMap[key] > ctx.sjrThreshold && raw.publicationVenue.Venue?
      && validate(PreparedOf(raw, authors, ctx.sjrMap[key], ctx)) == Some(p)
      && p.citationCount > ctx.minCitationCount
  {
  }

  /** Every kept paper validated from the record prepared from its own
      entry: the call's query, rationale and excerpt, at most the first
      three authors, and the venue carrying the SJR score of its cleaned
      ISSN, which is above the threshold. */
  lemma KeptPrepared(raw: RawPaper, ctx: BatchContext, validate: Prepared -> Option<Paper>, p: Paper)
    requires Screen(Some(raw), ctx, validate) == Keep(p)
    ensures AdmittedAs(raw, ctx, validate, p)
    ensures var d := PreparedOf(raw, TrimAuthors(raw.authors).value,
                                ctx.sjrMap[CleanIssn(Issn(raw.publicationVenue).value)], ctx);
      && validate(d) == Some(p) && d.query == ctx.query && d.rationale == ctx.rationale
      && d.excerpt == ctx.excerpt && d.authors.AuthorList? && |d.authors.names| <= 3
      && (raw.authors.AuthorList? ==>
            |d.authors.names| <= |raw.authors.names| && d.authors.names == raw.authors.names[..|d.authors.names|])
      && d.publicationVenue.Venue?
      && d.publicationVenue.sjr == Some(ctx.sjrMap[CleanIssn(Issn(raw.publicationVenue).value)])
      && d.publicationVenue.sjr.value > ctx.sjrThreshold
  {
    ScreenKeepIff(raw, ctx, validate, p);
  }

  /** When the SJR table has no entry for the empty ISSN (the loader never
      stores one), a kept paper had a venue with a string ISSN. */
  lemma KeptHasIssn(raw: RawPaper, ctx: BatchContext, validate: Prepared -> Option<Paper>, p: Paper)
    requires "" !in ctx.sjrMap
    requires Screen(Some(raw), ctx, validate) == Keep(p)
    ensures raw.publicationVenue.Venue? && raw.publicationVenue.issn.Str?
  {
    if !(raw.publicationVenue.Venue? && raw.publicationVenue.issn.Str?) {
      NoIssnSkipped(raw, ctx, validate);
    }
  }

  /** An entry without an ISSN is looked up under the empty key. */
  lemma NoIssnSkipped(raw: RawPaper, ctx: BatchContext, validate: Prepared -> Option<Paper>)
    requires "" !in ctx.sjrMap
    requires Issn(raw.publicationVenue) == Some("")
    ensures Screen(Some(raw), ctx, validate) == Skip || Screen(Some(raw), ctx, validate) == Crash
  {
    assert CleanIssn("") == "";
  }

  /** `_query_batch` after the request: the keep-loop over the response. */
  method QueryBatch(response: Option<seq<Option<RawPaper>>>, ctx: BatchContext, validate: Prepared -> Option<Paper>)
    returns (validated: Option<seq<Paper>>)
    ensures validated == BatchResult(response, ctx, validate)
  {
    if response.None? || |response.value| == 0 {
      return Some([]);
    }
    var entries := response.value;
    var kept: seq<Paper> := [];
    for i := 0 to |entries|
      invariant KeepAll(entries[..i], ctx, validate) == Some(kept)
    {
      KeepAllStep(entries, i, kept, ctx, validate);
      var outcome := ScreenEntry(entries[i], ctx, validate);
      match outcome
      case Crash =>
        KeepAllAborts(entries, i, ctx, validate);
        return None;
      case Skip =>
      case Keep(paper) =>
        kept := kept + [paper];
    }
    assert entries[..|entries|] == entries;
    validated := Some(kept);
  }

  /** The body of the keep-loop for one entry. */
  method ScreenEntry(entry: Option<RawPaper>, ctx: BatchContext, validate: Prepared -> Option<Paper>) returns (outcome: Outcome)
    ensures outcome == Screen(entry, ctx, validate)
  {
    if entry.None? {
      return Skip;
    }
    var raw := entry.value;
    if raw.authors.AuthorsNull? {
      return Crash;
    }
    var authors := TrimAuthors(raw.authors).value;
    var issn := Issn(raw.publicationVenue);
    if issn.None? {
      return Crash;
    }
    outcome := AdmitEntry(raw, authors, CleanIssn(issn.value), ctx, validate);
  }

  /** The rest of the loop body once the cleaned ISSN is known. */
  method AdmitEntry(raw: RawPaper, authors: AuthorsField, key: string, ctx: BatchContext,
                    validate: Prepared -> Option<Paper>) returns (outcome: Outcome)
    ensures outcome == Admit(raw, authors, key, ctx, validate)
  {
    outcome := Skip;
    if key in ctx.sjrMap {
      var sjr := ctx.sjrMap[key];
      if sjr > ctx.sjrThreshold {
        if raw.publicationVenue.NoVenue? {
          return Crash;
        }
        var paper := validate(PreparedOf(raw, authors, sjr, ctx));
        if paper.Some? && paper.value.citationCount > ctx.minCitationCount {
          outcome := Keep(paper.value);
        }
      }
    }
  }

  /** One more entry: raise, skip it, or append its paper. */
  lemma KeepAllStep(entries: seq<Option<RawPaper>>, i: nat, kept: seq<Paper>, ctx: BatchContext, validate: Prepared -> Option<Paper>)
    requires i < |entries| && KeepAll(entries[..i], ctx, validate) == Some(kept)
    ensures KeepAll(entries[..i + 1], ctx, validate)
         == match Screen(entries[i], ctx, validate)
            case Crash => None
            case Skip => Some(kept)
            case Keep(p) => Some(kept + [p])
  {
    assert entries[..i + 1][..i] == entries[..i];
  }

  lemma KeepAllAborts(entries: seq<Option<RawPaper>>, i: nat, ctx: BatchContext, validate: Prepared -> Option<Paper>)
    requires i < |entries| && Screen(entries[i], ctx, validate).Crash?
    ensures KeepAll(entries, ctx, validate).None?
  {
    KeepAllCrash(entries, ctx, validate);
  }
}
