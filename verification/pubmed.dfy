/**
 * The citation text and the formatting pass of the PubMed client
 * (src/pubmed.py). A PubMed paper dictionary holds its title, abstract,
 * author names ("LastName ForeName"), journal, publication date, DOI and
 * PubMed url; the parser stores `None` for a value the XML lacks.
 */
module PubMed {
  import opened Wrappers
  import opened PyStr
  import opened Fields
  import opened Sections

  /** The keys of a PubMed paper dictionary that formatting reads. */
  datatype PubMedPaper = PubMedPaper(
    authors: AuthorsField, title: Field, publicationDate: Field, journal: Field,
    doi: Field, pubmedUrl: Field, abstractText: Field, query: Field)

  // ================================================================ format_citation

  /** `", ".join(paper.get("authors", [])[:3])`, then ` et al.` when there
      are more than three authors. `None` when `authors` is `None` (it
      cannot be sliced) or one of the first three names is not a string. */
  function AuthorsText(authors: AuthorsField): (r: Option<string>)
    ensures r.None? <==> authors.AuthorsNull? || (authors.AuthorList? && !AllStrings(Take(authors.names, 3)))
  {
    match authors
    case AuthorsAbsent => Some("")
    case AuthorsNull => None
    case AuthorList(ns) =>
      var first := Take(ns, 3);
      if AllStrings(first) then Some(Join(Strings(first), ", ") + (if |ns| > 3 then " et al." else ""))
      else None
  }

  /** `authors. "title" (year). Published in journal.`, each missing key
      replaced by its `Unknown ...` default. */
  function BaseCitation(authors: string, p: PubMedPaper): string
  {
    authors + ". \"" + Show(p.title, "Unknown Title") + "\" (" + Show(p.publicationDate, "Unknown Year")
      + "). Published in " + Show(p.journal, "Unknown Journal") + "."
  }

  /** ` DOI: d.` when the DOI is truthy. */
  function DoiPart(p: PubMedPaper): string
  {
    if Truthy(p.doi) then " DOI: " + Show(p.doi, "") + "." else ""
  }

  /** ` Available at: url.` when the PubMed url is truthy. */
  function UrlPart(p: PubMedPaper): string
  {
    if Truthy(p.pubmedUrl) then " Available at: " + Show(p.pubmedUrl, "") + "." else ""
  }

  /** `format_citation`: `None` stands for the exception the join raises. */
  function FormatCitation(p: PubMedPaper): (r: Option<string>)
    ensures r.Some? <==> AuthorsText(p.authors).Some?
    ensures r.Some? ==> StartsWith(r.value, BaseCitation(AuthorsText(p.authors).value, p))
  {
    match AuthorsText(p.authors)
    case None => None
    case Some(authors) =>
      var base := BaseCitation(authors, p);
      var r := base + DoiPart(p) + UrlPart(p);
      assert r[..|base|] == base;
      Some(r)
  }

  /** The first three names joined, then ` et al.`, when there are more
      than three authors. */
  lemma AuthorsTextEtAl(ns: seq<Field>)
    requires |ns| > 3 && ns[0].Str? && ns[1].Str? && ns[2].Str?
    ensures AuthorsText(AuthorList(ns)) == Some(ns[0].s + ", " + ns[1].s + ", " + ns[2].s + " et al.")
  {
    var first := Take(ns, 3);
    assert first == ns[..3];
    assert AllStrings(first);
    var a, b, c := ns[0].s, ns[1].s, ns[2].s;
    assert Strings(first) == [a, b, c];
    assert [a, b, c][1..] == [b, c] && [b, c][1..] == [c];
    assert Join([b, c], ", ") == b + ", " + c;
    assert Join([a, b, c], ", ") == a + ", " + (b + ", " + c);
    assert a + ", " + (b + ", " + c) + " et al." == a + ", " + b + ", " + c + " et al.";
  }

  /** With at most three string names, all of them are joined and no
      ` et al.` follows. */
  lemma AuthorsTextFew(ns: seq<Field>)
    requires |ns| <= 3 && AllStrings(ns)
    ensures AuthorsText(AuthorList(ns)) == Some(Join(Strings(ns), ", "))
  {
    assert Take(ns, 3) == ns;
    assert Join(Strings(ns), ", ") + "" == Join(Strings(ns), ", ");
  }

  /** Without a truthy DOI or url the citation is the base text alone. */
  lemma CitationPlain(p: PubMedPaper)
    requires AuthorsText(p.authors).Some? && !Truthy(p.doi) && !Truthy(p.pubmedUrl)
    ensures FormatCitation(p) == Some(BaseCitation(AuthorsText(p.authors).value, p))
  {
    var base := BaseCitation(AuthorsText(p.authors).value, p);
    assert base + "" + "" == base;
  }

  /** The citation is the base text, the DOI part, then the url part. */
  lemma CitationShape(p: PubMedPaper)
    requires AuthorsText(p.authors).Some?
    ensures FormatCitation(p) == Some(BaseCitation(AuthorsText(p.authors).value, p) + DoiPart(p) + UrlPart(p))
  {
  }

  /** A truthy DOI is inserted right after the base text, before the url. */
  lemma CitationDoiFirst(p: PubMedPaper, d: Field)
    requires AuthorsText(p.authors).Some? && Truthy(d)
    ensures var base := BaseCitation(AuthorsText(p.authors).value, p);
      FormatCitation(p.(doi := d)) == Some(base + " DOI: " + Show(d, "") + "." + UrlPart(p))
      && FormatCitation(p.(doi := Null)) == Some(base + UrlPart(p))
  {
    var base := BaseCitation(AuthorsText(p.authors).value, p);
    var q, q' := p.(doi := d), p.(doi := Null);
    CitationShape(q);
    CitationShape(q');
    assert BaseCitation(AuthorsText(q.authors).value, q) == base;
    assert BaseCitation(AuthorsText(q'.authors).value, q') == base;
    assert DoiPart(q) == " DOI: " + Show(d, "") + "." && DoiPart(q') == "";
    assert UrlPart(q) == UrlPart(p) && UrlPart(q') == UrlPart(p);
    assert base + "" + UrlPart(p) == base + UrlPart(p);
    assert base + (" DOI: " + Show(d, "") + ".") + UrlPart(p) == base + " DOI: " + Show(d, "") + "." + UrlPart(p);
  }

  /** A truthy url is appended last, after everything else. */
  lemma CitationUrlLast(p: PubMedPaper, u: Field)
    requires AuthorsText(p.authors).Some? && Truthy(u)
    ensures FormatCitation(p.(pubmedUrl := u)) == Some(FormatCitation(p.(pubmedUrl := Null)).value + " Available at: " + Show(u, "") + ".")
  {
    var base := BaseCitation(AuthorsText(p.authors).value, p);
    var q, q' := p.(pubmedUrl := u), p.(pubmedUrl := Null);
    CitationShape(q);
    CitationShape(q');
    assert BaseCitation(AuthorsText(q.authors).value, q) == base;
    assert BaseCitation(AuthorsText(q'.authors).value, q') == base;
    assert UrlPart(q) == " Available at: " + Show(u, "") + "." && UrlPart(q') == "";
    assert DoiPart(q) == DoiPart(p) && DoiPart(q') == DoiPart(p);
    var tail := " Available at: " + Show(u, "") + ".";
    assert base + DoiPart(p) + "" == base + DoiPart(p);
    assert base + DoiPart(p) + tail == base + DoiPart(p) + " Available at: " + Show(u, "") + ".";
  }

  // ================================================================ format_results

  /** One record of `format_results`: the keys `section`, `query`,
      `title`, `abstract` and `citation`. */
  datatype Record = Record(section: string, query: Field, title: Field, abstractText: Field, citation: string)

  /** `d.get(key, default)`: the stored value, or the default string. */
  function Get(f: Field, default: string): (r: Field)
    ensures !r.Absent?
    ensures f.Absent? ==> r == Str(default)
    ensures !f.Absent? ==> r == f
  {
    if f.Absent? then Str(default) else f
  }

  /** The record of a paper with a truthy abstract. */
  function RecordOf(section: string, p: PubMedPaper, citation: string): Record
  {
    Record(section, Get(p.query, "Missing Query"), Get(p.title, "Missing Title"), p.abstractText, citation)
  }

  /** What the formatting loop yields for a run of (section, paper) pairs:
      a paper without a truthy abstract is skipped, the others become
      records; a citation that cannot be built raises. */
  function FormatPairs(ps: seq<(string, PubMedPaper)>): (r: Option<seq<Record>>)
    ensures r.Some? ==> |r.value| <= |ps|
  {
    if |ps| == 0 then Some([])
    else
      match FormatPairs(ps[..|ps| - 1])
      case None => None
      case Some(out) =>
        var (section, p) := ps[|ps| - 1];
        if !Truthy(p.abstractText) then Some(out)
        else match FormatCitation(p)
          case None => None
          case Some(c) => Some(out + [RecordOf(section, p, c)])
  }

  /** `format_results` on the sections in their dictionary order. */
  function FormattedResults(results: seq<(string, seq<PubMedPaper>)>): Option<seq<Record>>
  {
    FormatPairs(Flatten(results))
  }

  /** The pairs whose paper has a truthy abstract. */
  function KeptPairs(ps: seq<(string, PubMedPaper)>): (r: seq<(string, PubMedPaper)>)
    ensures |r| <= |ps|
    ensures forall k :: 0 <= k < |r| ==> Truthy(r[k].1.abstractText)
  {
    if |ps| == 0 then []
    else KeptPairs(ps[..|ps| - 1]) + (if Truthy(ps[|ps| - 1].1.abstractText) then [ps[|ps| - 1]] else [])
  }

  /** Once the loop has raised, later pairs change nothing. */
  lemma {:induction false} FormatPairsStops(ps: seq<(string, PubMedPaper)>, rest: seq<(string, PubMedPaper)>)
    requires FormatPairs(ps).None?
    ensures FormatPairs(ps + rest).None?
    decreases |rest|
  {
    if |rest| > 0 {
      FormatPairsStops(ps, rest[..|rest| - 1]);
      assert (ps + rest)[..|ps + rest| - 1] == ps + rest[..|rest| - 1];
    } else {
      assert ps + rest == ps;
    }
  }

  /** `format_results` succeeds exactly when every paper with an abstract
      can be cited; it then yields one record per such paper, in order,
      with its section, query, title, abstract and citation. */
  lemma {:induction false} FormatPairsKept(ps: seq<(string, PubMedPaper)>)
    ensures FormatPairs(ps).Some? <==>
      forall k :: 0 <= k < |ps| && Truthy(ps[k].1.abstractText) ==> FormatCitation(ps[k].1).Some?
    ensures FormatPairs(ps).Some? ==>
      var kept := KeptPairs(ps);
      && |FormatPairs(ps).value| == |kept|
      && forall k :: 0 <= k < |kept| ==>
           FormatCitation(kept[k].1).Some? &&
           FormatPairs(ps).value[k] == RecordOf(kept[k].0, kept[k].1, FormatCitation(kept[k].1).value)
    decreases |ps|
  {
    if |ps| > 0 {
      var init := ps[..|ps| - 1];
      FormatPairsKept(init);
      assert forall k :: 0 <= k < |init| ==> init[k] == ps[k];
    }
  }

  /** One step of the formatting loop. */
  lemma FormatPairsStep(ps: seq<(string, PubMedPaper)>, section: string, p: PubMedPaper)
    ensures FormatPairs(ps + [(section, p)])
         == match FormatPairs(ps)
            case None => None
            case Some(out) =>
              if !Truthy(p.abstractText) then Some(out)
              else match FormatCitation(p)
                case None => None
                case Some(c) => Some(out + [RecordOf(section, p, c)])
  {
    assert (ps + [(section, p)])[..|ps|] == ps;
  }

  /** A citation that cannot be built makes the whole call raise. */
  lemma FormatResultsAbort(results: seq<(string, seq<PubMedPaper>)>, i: nat, j: nat)
    requires i < |results| && j <= |results[i].1|
    requires FormatPairs(Flatten(results[..i]) + Tagged(results[i].0, results[i].1[..j])).None?
    ensures FormattedResults(results).None?
  {
    var ps := Flatten(results[..i]) + Tagged(results[i].0, results[i].1[..j]);
    FlattenPrefix(results, i, j);
    var all := Flatten(results);
    FormatPairsStops(ps, all[|ps|..]);
    assert ps + all[|ps|..] == all;
  }

  /** `format_results`: for each section in order, for each of its papers
      in order, skip a paper without a truthy abstract and append the
      record of the others. `None` stands for the exception a citation
      that cannot be built raises. */
  method FormatResults(results: seq<(string, seq<PubMedPaper>)>) returns (r: Option<seq<Record>>)
    ensures r == FormattedResults(results)
  {
    var formatted: seq<Record> := [];
    for i := 0 to |results|
      invariant FormatPairs(Flatten(results[..i])) == Some(formatted)
    {
      var (section, papers) := results[i];
      assert results[..i + 1][..i] == results[..i];
      assert Flatten(results[..i]) + Tagged(section, papers[..0]) == Flatten(results[..i]);
      for j := 0 to |papers|
        invariant FormatPairs(Flatten(results[..i]) + Tagged(section, papers[..j])) == Some(formatted)
      {
        var paper := papers[j];
        FlattenLast(results, i, j);
        FormatPairsStep(Flatten(results[..i]) + Tagged(section, papers[..j]), section, paper);
        if !Truthy(paper.abstractText) {
          continue;
        }
        var citation := FormatCitation(paper);
        if citation.None? {
          FormatResultsAbort(results, i, j + 1);
          return None;
        }
        formatted := formatted + [RecordOf(section, paper, citation.value)];
      }
      assert papers[..|papers|] == papers;
    }
    assert results[..|results|] == results;
    return Some(formatted);
  }
}
