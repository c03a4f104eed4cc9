/**
 * The article document: records, the closed set of section kinds with the
 * shape of content each holds, and the outline that lists the sections.
 */
module Models {
  import opened Wrappers

  /** A search query and the outline section it serves. */
  datatype SearchQuery = SearchQuery(section: string, query: string)

  /** One entry of the References section; all six fields are required. */
  datatype ReferenceItem = ReferenceItem(
    referenceNumber: int,
    authors: string,
    year: string,
    title: string,
    journalSource: string,
    urlDoi: string)

  /** A question and its answer; both are required. */
  datatype FAQItem = FAQItem(question: string, answer: string)

  /** The sixteen section kinds an outline may hold. */
  datatype SectionKind =
    | Overview | KeyFacts | Symptoms | Types | Causes | RiskFactors
    | Diagnosis | Prevention | SpecialistToVisit | Treatment | HomeCare
    | LivingWith | Complications | AlternativeTherapies | FAQs | References

  /** What a section's `content` holds. */
  datatype Content =
    | Text(text: string)
    | Items(items: seq<string>)
    | Faqs(faqs: seq<FAQItem>)
    | Refs(refs: seq<ReferenceItem>)

  datatype Shape = TextShape | ItemsShape | FaqShape | RefShape

  function ShapeOf(c: Content): Shape {
    match c
    case Text(_) => TextShape
    case Items(_) => ItemsShape
    case Faqs(_) => FaqShape
    case Refs(_) => RefShape
  }

  /** The content type each section class declares. */
  function ContentShape(k: SectionKind): Shape {
    match k
    case KeyFacts | Symptoms | RiskFactors | Prevention | HomeCare => ItemsShape
    case FAQs => FaqShape
    case References => RefShape
    case _ => TextShape
  }

  /** The default `heading` of each section class. */
  function DefaultHeading(k: SectionKind): string {
    match k
    case Overview => "Overview"
    case KeyFacts => "Key Facts"
    case Symptoms => "Symptoms"
    case Types => "Types"
    case Causes => "Causes"
    case RiskFactors => "Risk Factors"
    case Diagnosis => "Diagnosis"
    case Prevention => "Prevention"
    case SpecialistToVisit => "Specialist to Visit"
    case Treatment => "Treatment"
    case HomeCare => "Home-Care"
    case LivingWith => "Living With"
    case Complications => "Complications"
    case AlternativeTherapies => "Alternative Therapies"
    case FAQs => "FAQs"
    case References => "References"
  }

  /** The section kind whose default heading is `h`, if any. */
  function KindOfHeading(h: string): Option<SectionKind> {
    if h == "Overview" then Some(Overview)
    else if h == "Key Facts" then Some(KeyFacts)
    else if h == "Symptoms" then Some(Symptoms)
    else if h == "Types" then Some(Types)
    else if h == "Causes" then Some(Causes)
    else if h == "Risk Factors" then Some(RiskFactors)
    else if h == "Diagnosis" then Some(Diagnosis)
    else if h == "Prevention" then Some(Prevention)
    else if h == "Specialist to Visit" then Some(SpecialistToVisit)
    else if h == "Treatment" then Some(Treatment)
    else if h == "Home-Care" then Some(HomeCare)
    else if h == "Living With" then Some(LivingWith)
    else if h == "Complications" then Some(Complications)
    else if h == "Alternative Therapies" then Some(AlternativeTherapies)
    else if h == "FAQs" then Some(FAQs)
    else if h == "References" then Some(References)
    else None
  }

  /** Every default heading names its own kind, so no two kinds share one. */
  lemma DefaultHeadingsDistinct(k1: SectionKind, k2: SectionKind)
    ensures KindOfHeading(DefaultHeading(k1)) == Some(k1)
    ensures DefaultHeading(k1) == DefaultHeading(k2) ==> k1 == k2
  {
    KindOfDefaultHeading(k1);
    KindOfDefaultHeading(k2);
  }

  lemma KindOfDefaultHeading(k: SectionKind)
    ensures KindOfHeading(DefaultHeading(k)) == Some(k)
  {
    match k
    case Overview | KeyFacts | Symptoms | Types => KindOfHeadingFirst(k);
    case Causes | RiskFactors | Diagnosis | Prevention => KindOfHeadingSecond(k);
    case SpecialistToVisit | Treatment | HomeCare | LivingWith => KindOfHeadingThird(k);
    case Complications | AlternativeTherapies | FAQs | References => KindOfHeadingFourth(k);
  }

  /** The same, four kinds at a time. */
  lemma KindOfHeadingFirst(k: SectionKind)
    requires k.Overview? || k.KeyFacts? || k.Symptoms? || k.Types?
    ensures KindOfHeading(DefaultHeading(k)) == Some(k)
  {
    match k
    case Overview =>
    case KeyFacts =>
    case Symptoms =>
    case Types =>
  }

  lemma KindOfHeadingSecond(k: SectionKind)
    requires k.Causes? || k.RiskFactors? || k.Diagnosis? || k.Prevention?
    ensures KindOfHeading(DefaultHeading(k)) == Some(k)
  {
    match k
    case Causes =>
    case RiskFactors =>
    case Diagnosis =>
    case Prevention =>
  }

  lemma KindOfHeadingThird(k: SectionKind)
    requires k.SpecialistToVisit? || k.Treatment? || k.HomeCare? || k.LivingWith?
    ensures KindOfHeading(DefaultHeading(k)) == Some(k)
  {
    match k
    case SpecialistToVisit =>
    case Treatment =>
    case HomeCare =>
    case LivingWith =>
  }

  lemma KindOfHeadingFourth(k: SectionKind)
    requires k.Complications? || k.AlternativeTherapies? || k.FAQs? || k.References?
    ensures KindOfHeading(DefaultHeading(k)) == Some(k)
  {
    match k
    case Complications =>
    case AlternativeTherapies =>
    case FAQs =>
    case References =>
  }

  datatype Section = Section(kind: SectionKind, heading: string, content: Content)

  predicate WellFormedSection(s: Section) {
    ShapeOf(s.content) == ContentShape(s.kind)
  }

  /** Building a section of kind `k`: `heading` falls back to the class
      default, and content of the wrong shape is a validation error (None). */
  function NewSection(k: SectionKind, heading: Option<string>, content: Content): (r: Option<Section>)
    ensures r.Some? <==> ShapeOf(content) == ContentShape(k)
    ensures r.Some? ==> WellFormedSection(r.value) && r.value.kind == k && r.value.content == content
    ensures r.Some? && heading.None? ==> r.value.heading == DefaultHeading(k)
    ensures r.Some? && heading.Some? ==> r.value.heading == heading.value
  {
    if ShapeOf(content) == ContentShape(k) then
      Some(Section(k, if heading.Some? then heading.value else DefaultHeading(k), content))
    else None
  }

  /** An outline: a title, a subtitle and sections of the sixteen kinds. */
  datatype Outline = Outline(title: string, subtitle: string, sections: seq<Section>)

  predicate WellFormedOutline(o: Outline) {
    forall i :: 0 <= i < |o.sections| ==> WellFormedSection(o.sections[i])
  }

  /** The References sections of an outline hold only reference items. */
  lemma ReferencesHoldItems(o: Outline, i: nat)
    requires WellFormedOutline(o) && i < |o.sections|
    requires o.sections[i].kind == References
    ensures o.sections[i].content.Refs?
  {
    assert WellFormedSection(o.sections[i]);
  }
}
