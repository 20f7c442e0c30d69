/** The search button's click handler in popup.js, without its DOM and
    alert side effects: it trims the query, ranks the papers, and derives
    the PDF list sent to the summarise request and whether the summarise
    button is shown. */
module Popup {
  import opened JsStrings
  import opened Papers
  import opened Ranking

  /** What one click on the search button leaves behind. */
  datatype SearchOutcome =
    | MissingTopic
    | Shown(papers: seq<ScoredPaper>, pdfs: seq<string>, summarizeVisible: bool)

  /** `papers.map(p => p.pdfURL).filter(Boolean)` */
  function PdfUrls(papers: seq<ScoredPaper>): (r: seq<string>)
    ensures |r| <= |papers|
    ensures forall k :: 0 <= k < |r| ==> r[k] != []
  {
    if papers == [] then []
    else
      var u := papers[0].paper.pdfURL;
      (if u == [] then [] else [u]) + PdfUrls(papers[1..])
  }

  /** The list of a concatenation is the concatenation of the lists, so the
      ranked order is kept; with `PdfUrlsOne` this determines `PdfUrls`. */
  lemma {:induction false} PdfUrlsAppend(a: seq<ScoredPaper>, b: seq<ScoredPaper>)
    ensures PdfUrls(a + b) == PdfUrls(a) + PdfUrls(b)
    decreases |a|
  {
    if a == [] {
      assert a + b == b;
    } else {
      PdfUrlsAppend(a[1..], b);
      assert (a + b)[0] == a[0];
      assert (a + b)[1..] == a[1..] + b;
    }
  }

  /** A single paper contributes its URL exactly when the URL is non-empty. */
  lemma PdfUrlsOne(p: ScoredPaper)
    ensures PdfUrls([p]) == if p.paper.pdfURL == [] then [] else [p.paper.pdfURL]
  {
    assert [p][1..] == [];
  }

  /** Every URL in the list is the URL of one of the papers. */
  lemma {:induction false} PdfUrlsFromPapers(papers: seq<ScoredPaper>)
    ensures forall k :: 0 <= k < |PdfUrls(papers)| ==>
      exists i :: 0 <= i < |papers| && papers[i].paper.pdfURL == PdfUrls(papers)[k]
    decreases |papers|
  {
    if papers != [] {
      PdfUrlsFromPapers(papers[1..]);
      var r := PdfUrls(papers);
      var rest := PdfUrls(papers[1..]);
      var u := papers[0].paper.pdfURL;
      assert r == (if u == [] then [] else [u]) + rest;
      forall k | 0 <= k < |r|
        ensures exists i :: 0 <= i < |papers| && papers[i].paper.pdfURL == r[k]
      {
        if papers[0].paper.pdfURL != [] && k == 0 {
          assert papers[0].paper.pdfURL == r[0];
        } else {
          var k' := if papers[0].paper.pdfURL == [] then k else k - 1;
          assert r[k] == rest[k'];
          var i :| 0 <= i < |papers[1..]| && papers[1..][i].paper.pdfURL == rest[k'];
          assert papers[i + 1].paper.pdfURL == r[k];
        }
      }
    } else {
      assert PdfUrls(papers) == [];
    }
  }

  /** The list is empty exactly when no paper has a non-empty URL. */
  lemma {:induction false} PdfUrlsEmpty(papers: seq<ScoredPaper>)
    ensures PdfUrls(papers) == [] <==> forall i :: 0 <= i < |papers| ==> papers[i].paper.pdfURL == []
    decreases |papers|
  {
    if papers != [] {
      PdfUrlsEmpty(papers[1..]);
      if forall i :: 0 <= i < |papers| ==> papers[i].paper.pdfURL == [] {
        assert forall i :: 0 <= i < |papers[1..]| ==> papers[1..][i] == papers[i + 1];
      } else if papers[0].paper.pdfURL == [] {
        var i :| 0 <= i < |papers| && papers[i].paper.pdfURL != [];
        assert papers[1..][i - 1] == papers[i];
      }
    }
  }

  /** `searchBtn.onclick`, given the text of the query box, how the two
      search requests for the trimmed query ended, and the similarity
      measure. An empty trimmed query stops with an alert. */
  method OnSearch(input: string, s2: Fetch<S2Response>, ax: Fetch<seq<ArxivEntry>>, sim: Similarity)
    returns (out: SearchOutcome)
    ensures out.MissingTopic? <==> forall k :: 0 <= k < |input| ==> IsJsWhitespace(input[k])
    ensures out.Shown? ==> out.papers == Rank(ScoreAll(sim, Trim(input), Candidates(s2, ax)))
    ensures out.Shown? ==> out.pdfs == PdfUrls(out.papers)
    ensures out.Shown? ==> (out.summarizeVisible <==>
      exists i :: 0 <= i < |out.papers| && out.papers[i].paper.pdfURL != [])
  {
    var q := Trim(input);
    TrimEmpty(input);
    if q == [] {
      return MissingTopic;
    }
    var papers := GetPapers(s2, ax, q, sim);
    var pdfs := PdfUrls(papers);
    PdfUrlsEmpty(papers);
    out := Shown(papers, pdfs, |pdfs| > 0);
  }
}
