/** Normalisation of the two search sources' results into one paper record:
    the JSON entries of the Semantic Scholar search API and the Atom
    `<entry>` elements of the arXiv query API, both already parsed. */
module Papers {
  import opened JsStrings

  /** A property of a parsed JSON object: missing (`undefined`), `null`, or
      a value. */
  datatype Field<T> = Absent | Null | Present(value: T)

  /** `citations`: a number from Semantic Scholar, the string "N/A" for arXiv. */
  datatype Citations = Cited(n: int) | NotAvailable

  /** The record both mappers build. The title is kept as the JavaScript
      value it was read from, so a missing Semantic Scholar title stays
      missing. */
  datatype Paper = Paper(title: Field<string>, abstractText: string, citations: Citations, pdfURL: string)

  // ---------------------------------------------------------------------------
  // Semantic Scholar

  datatype OpenAccessPdf = OpenAccessPdf(url: Field<string>)

  /** One element of the response's `data` array. */
  datatype S2Entry = S2Entry(
    title: Field<string>,
    abstractText: Field<string>,
    citationCount: Field<int>,
    url: Field<string>,
    openAccessPdf: Field<OpenAccessPdf>)

  /** The parsed response body `{ data: [...] }`. */
  datatype S2Response = S2Response(data: Field<seq<S2Entry>>)

  /** JavaScript truthiness of a string-valued property. */
  predicate Truthy(f: Field<string>) {
    f.Present? && f.value != []
  }

  /** `f || ""` */
  function OrEmpty(f: Field<string>): (r: string)
    ensures r == (if f.Present? then f.value else "")
  {
    if Truthy(f) then f.value else ""
  }

  /** `p.openAccessPdf?.url`: `undefined` when `openAccessPdf` is missing or null. */
  function OpenAccessUrl(e: S2Entry): (r: Field<string>)
    ensures e.openAccessPdf.Present? ==> r == e.openAccessPdf.value.url
    ensures !e.openAccessPdf.Present? ==> r == Absent
  {
    match e.openAccessPdf
    case Present(o) => o.url
    case _ => Absent
  }

  /** `p.openAccessPdf?.url || p.url || ""` */
  function S2PdfUrl(e: S2Entry): (r: string)
    ensures r == [] <==> !Truthy(OpenAccessUrl(e)) && !Truthy(e.url)
    ensures r != [] ==> (Truthy(OpenAccessUrl(e)) && r == OpenAccessUrl(e).value)
                        || (!Truthy(OpenAccessUrl(e)) && r == e.url.value)
  {
    if Truthy(OpenAccessUrl(e)) then OpenAccessUrl(e).value
    else if Truthy(e.url) then e.url.value
    else ""
  }

  /** The callback of `data.map` in `fetchSemanticScholar`. */
  function NormalizeS2Entry(e: S2Entry): (p: Paper)
    ensures p.title == e.title
    ensures p.abstractText == (if e.abstractText.Present? then e.abstractText.value else "")
    ensures e.citationCount.Present? ==> p.citations == Cited(e.citationCount.value)
    ensures !e.citationCount.Present? ==> p.citations == Cited(0)
    ensures p.pdfURL == S2PdfUrl(e)
  {
    Paper(
      e.title,
      OrEmpty(e.abstractText),
      match e.citationCount { case Present(n) => Cited(n) case _ => Cited(0) },
      S2PdfUrl(e))
  }

  /** `data.map(...)`: one paper per entry, in order. */
  function NormalizeS2List(data: seq<S2Entry>): (r: seq<Paper>)
    ensures |r| == |data|
    ensures forall i :: 0 <= i < |data| ==> r[i] == NormalizeS2Entry(data[i])
  {
    if data == [] then [] else [NormalizeS2Entry(data[0])] + NormalizeS2List(data[1..])
  }

  /** `fetchSemanticScholar` after the response is parsed: `{ data = [] }`
      defaults only a missing `data`; a `null` one is a TypeError at `.map`,
      which rejects the call (`None`). */
  function NormalizeS2(resp: S2Response): (r: Option<seq<Paper>>)
    ensures r.None? <==> resp.data.Null?
    ensures resp.data.Absent? ==> r == Some([])
    ensures resp.data.Present? ==> r == Some(NormalizeS2List(resp.data.value))
  {
    match resp.data
    case Absent => Some([])
    case Null => None
    case Present(data) => Some(NormalizeS2List(data))
  }

  // ---------------------------------------------------------------------------
  // arXiv

  /** The text content of an entry's first `<id>`, `<title>` and `<summary>`
      elements; `None` when the entry has no such element. */
  datatype ArxivEntry = ArxivEntry(id: Option<string>, title: Option<string>, summary: Option<string>)

  const AbsMarker: string := "/abs/"
  const ArxivPdfPrefix: string := "https://arxiv.org/pdf/"
  const PdfSuffix: string := ".pdf"

  /** `idAbs.split("/abs/")[1]`; `None` is JavaScript's `undefined`. */
  function ArxivId(idAbs: string): Option<string> {
    var parts := Split(idAbs, AbsMarker);
    if |parts| > 1 then Some(parts[1]) else None
  }

  /** A value interpolated into a template literal. */
  function Render(id: Option<string>): (r: string)
    ensures id.Some? ==> r == id.value
    ensures id.None? ==> r == "undefined"
  {
    match id
    case Some(s) => s
    case None => "undefined"
  }

  /** `https://arxiv.org/pdf/${id}.pdf` */
  function ArxivPdfUrl(idAbs: string): string {
    ArxivPdfPrefix + Render(ArxivId(idAbs)) + PdfSuffix
  }

  /** The link is the PDF prefix, the rendered id, and ".pdf", so the id
      can be read back from between the two. */
  lemma ArxivPdfUrlParts(idAbs: string)
    ensures var r := ArxivPdfUrl(idAbs); var id := Render(ArxivId(idAbs));
      && |r| == |ArxivPdfPrefix| + |id| + |PdfSuffix|
      && r[..|ArxivPdfPrefix|] == ArxivPdfPrefix
      && r[|ArxivPdfPrefix|..|r| - |PdfSuffix|] == id
      && r[|r| - |PdfSuffix|..] == PdfSuffix
  {
  }

  predicate WellFormed(e: ArxivEntry) {
    e.id.Some? && e.title.Some? && e.summary.Some?
  }

  /** The callback of the `map` in `fetchArxiv`; reading the text of a
      missing element is a TypeError (`None`). */
  function NormalizeArxivEntry(e: ArxivEntry): (r: Option<Paper>)
    ensures r.Some? <==> WellFormed(e)
    ensures r.Some? ==> r.value.title == Present(Trim(e.title.value))
    ensures r.Some? ==> r.value.abstractText == Trim(e.summary.value)
    ensures r.Some? ==> r.value.citations == NotAvailable
    ensures r.Some? ==> r.value.pdfURL == ArxivPdfPrefix + Render(ArxivId(e.id.value)) + PdfSuffix
  {
    match e
    case ArxivEntry(Some(idAbs), Some(title), Some(summary)) =>
      Some(Paper(Present(Trim(title)), Trim(summary), NotAvailable, ArxivPdfUrl(idAbs)))
    case _ => None
  }

  /** `fetchArxiv` after the feed is parsed: one paper per entry, in order,
      or a rejection if any entry lacks one of the three elements. */
  function NormalizeArxiv(entries: seq<ArxivEntry>): (r: Option<seq<Paper>>)
    ensures r.Some? <==> forall i :: 0 <= i < |entries| ==> WellFormed(entries[i])
    ensures r.Some? ==> |r.value| == |entries|
    ensures r.Some? ==> forall i :: 0 <= i < |entries| ==> NormalizeArxivEntry(entries[i]) == Some(r.value[i])
  {
    if entries == [] then Some([])
    else
      match NormalizeArxivEntry(entries[0])
      case None => None
      case Some(p) =>
        match NormalizeArxiv(entries[1..])
        case None => None
        case Some(ps) => Some([p] + ps)
  }

  lemma OccursShift(s: string, pat: string, a: nat, j: int)
    requires a <= |s|
    ensures OccursAt(s[a..], pat, j) <==> (0 <= j && OccursAt(s, pat, a + j))
  {
    if 0 <= j && a + j + |pat| <= |s| {
      assert s[a..][j..j + |pat|] == s[a + j..a + j + |pat|];
    }
  }

  /** `id` is the text of `s` that starts at `a` and runs up to the next
      "/abs/" or to the end, with no "/abs/" starting inside it. */
  ghost predicate IdBetween(s: string, a: nat, id: string) {
    && a + |id| <= |s| && s[a..a + |id|] == id
    && (a + |id| == |s| || OccursAt(s, AbsMarker, a + |id|))
    && (forall j :: a <= j < a + |id| ==> !OccursAt(s, AbsMarker, j))
  }

  /** The arXiv id is the text between the first "/abs/" and the next one
      (or the end); it is `undefined` exactly when there is no "/abs/". */
  lemma ArxivIdBetweenMarkers(s: string)
    ensures ArxivId(s).None? <==> !Occurs(s, AbsMarker)
    ensures ArxivId(s).Some? ==>
      FirstIndex(s, AbsMarker).Some? &&
      IdBetween(s, FirstIndex(s, AbsMarker).value + |AbsMarker|, ArxivId(s).value)
  {
    SplitMoreThanOne(s, AbsMarker);
    match FirstIndex(s, AbsMarker)
    case None =>
    case Some(i) => ArxivIdAfter(s, i);
  }

  lemma ArxivIdAfter(s: string, i: nat)
    requires FirstIndex(s, AbsMarker) == Some(i)
    ensures ArxivId(s).Some? && IdBetween(s, i + |AbsMarker|, ArxivId(s).value)
  {
    var a := i + |AbsMarker|;
    var rest := s[a..];
    ArxivIdRest(s, i);
    var id := Split(rest, AbsMarker)[0];
    match FirstIndex(rest, AbsMarker)
    case None =>
      assert id == rest;
      NoMarkerBetween(s, a, |id|);
    case Some(k) =>
      assert id == rest[..k];
      OccursShift(s, AbsMarker, a, k);
      NoMarkerBetween(s, a, k);
  }

  lemma ArxivIdRest(s: string, i: nat)
    requires FirstIndex(s, AbsMarker) == Some(i)
    ensures ArxivId(s) == Some(Split(s[i + |AbsMarker|..], AbsMarker)[0])
  {
    assert Split(s, AbsMarker) == [s[..i]] + Split(s[i + |AbsMarker|..], AbsMarker);
  }

  lemma NoMarkerBetween(s: string, a: nat, n: nat)
    requires a + n <= |s|
    requires forall j :: 0 <= j < n ==> !OccursAt(s[a..], AbsMarker, j)
    ensures forall j :: a <= j < a + n ==> !OccursAt(s, AbsMarker, j)
  {
    forall j | a <= j < a + n ensures !OccursAt(s, AbsMarker, j) {
      OccursShift(s, AbsMarker, a, j - a);
    }
  }
}
