/** `getPapers` of popup.js: the Semantic Scholar papers followed by the
    arXiv papers are scored against the query, sorted by descending score
    (a stable sort, as `Array.prototype.sort` is) and cut to the first ten. */
module Ranking {
  import opened JsStrings
  import opened TextEmbedding
  import opened Papers

  /** How one source's request ended: the parsed response, or a rejected
      promise (network failure, a body that does not parse). */
  datatype Fetch<T> = Fetched(response: T) | Failed

  /** A candidate after `p.score = ...` has been assigned to it. */
  datatype ScoredPaper = ScoredPaper(paper: Paper, score: int)

  /** The similarity of a query vector and a paper vector (`cosine` in the
      source), taken as a parameter of the ranking. */
  type Similarity = (seq<int>, seq<int>) -> int

  const MaxResults: nat := 10

  function Min(a: int, b: int): int {
    if a <= b then a else b
  }

  /** `fetchSemanticScholar(query).catch(_ => [])` */
  function S2Papers(s2: Fetch<S2Response>): (r: seq<Paper>)
    ensures |r| == S2Count(s2)
  {
    match s2
    case Failed => []
    case Fetched(resp) =>
      match NormalizeS2(resp)
      case None => []
      case Some(ps) => ps
  }

  /** `fetchArxiv(query).catch(_ => [])` */
  function ArxivPapers(ax: Fetch<seq<ArxivEntry>>): (r: seq<Paper>)
    ensures |r| == ArxivCount(ax)
  {
    match ax
    case Failed => []
    case Fetched(entries) =>
      match NormalizeArxiv(entries)
      case None => []
      case Some(ps) => ps
  }

  /** `[...s2, ...ax]` */
  function Candidates(s2: Fetch<S2Response>, ax: Fetch<seq<ArxivEntry>>): (r: seq<Paper>)
    ensures |r| == S2Count(s2) + ArxivCount(ax)
  {
    S2Papers(s2) + ArxivPapers(ax)
  }

  /** The number of papers a source contributes: one per entry of a
      successful response, none from a failed or rejected one. */
  function S2Count(s2: Fetch<S2Response>): nat {
    match s2
    case Fetched(S2Response(Present(data))) => |data|
    case _ => 0
  }

  function ArxivCount(ax: Fetch<seq<ArxivEntry>>): nat {
    match ax
    case Fetched(entries) =>
      if forall i :: 0 <= i < |entries| ==> WellFormed(entries[i]) then |entries| else 0
    case Failed => 0
  }

  /** The candidates are the Semantic Scholar papers in entry order followed
      by the arXiv papers in entry order. */
  lemma CandidatesFromSources(s2: Fetch<S2Response>, ax: Fetch<seq<ArxivEntry>>)
    ensures |Candidates(s2, ax)| == S2Count(s2) + ArxivCount(ax)
    ensures s2.Fetched? && s2.response.data.Present? ==>
      forall i :: 0 <= i < |s2.response.data.value| ==>
        Candidates(s2, ax)[i] == NormalizeS2Entry(s2.response.data.value[i])
    ensures ax.Fetched? && ArxivCount(ax) > 0 ==>
      forall i :: 0 <= i < |ax.response| ==>
        NormalizeArxivEntry(ax.response[i]) == Some(Candidates(s2, ax)[S2Count(s2) + i])
  {
    S2PapersFromEntries(s2);
    ArxivPapersFromEntries(ax);
    var a, b := S2Papers(s2), ArxivPapers(ax);
    var c := Candidates(s2, ax);
    assert c == a + b;
    if ax.Fetched? && ArxivCount(ax) > 0 {
      forall i | 0 <= i < |ax.response|
        ensures NormalizeArxivEntry(ax.response[i]) == Some(c[S2Count(s2) + i])
      {
        assert c[|a| + i] == b[i];
      }
    }
  }

  lemma S2PapersFromEntries(s2: Fetch<S2Response>)
    ensures |S2Papers(s2)| == S2Count(s2)
    ensures s2.Fetched? && s2.response.data.Present? ==>
      S2Papers(s2) == NormalizeS2List(s2.response.data.value)
  {
    match s2
    case Failed =>
    case Fetched(resp) =>
      match resp.data
      case Present(data) => assert NormalizeS2(resp) == Some(NormalizeS2List(data));
      case _ =>
  }

  lemma ArxivPapersFromEntries(ax: Fetch<seq<ArxivEntry>>)
    ensures |ArxivPapers(ax)| == ArxivCount(ax)
    ensures ax.Fetched? && ArxivCount(ax) > 0 ==>
      NormalizeArxiv(ax.response) == Some(ArxivPapers(ax))
  {
    match ax
    case Failed =>
    case Fetched(entries) =>
      if forall i :: 0 <= i < |entries| ==> WellFormed(entries[i]) {
        assert NormalizeArxiv(entries).Some?;
      } else {
        assert NormalizeArxiv(entries).None?;
      }
  }

  /** A JavaScript value converted by string concatenation. */
  function TitleText(t: Field<string>): (r: string)
    ensures t.Present? ==> r == t.value
    ensures t.Absent? ==> r == "undefined"
    ensures t.Null? ==> r == "null"
  {
    match t
    case Absent => "undefined"
    case Null => "null"
    case Present(s) => s
  }

  /** The text a paper is embedded from: `p.title + " " + p.abstract`. */
  function ScoreText(p: Paper): string {
    TitleText(p.title) + " " + p.abstractText
  }

  /** The embedded text is the title's text, one space, and the abstract. */
  lemma ScoreTextParts(p: Paper)
    ensures var t := TitleText(p.title); var r := ScoreText(p);
      && |r| == |t| + 1 + |p.abstractText|
      && r[..|t|] == t && r[|t|] == ' ' && r[|t| + 1..] == p.abstractText
  {
  }

  function Score(sim: Similarity, query: string, p: Paper): int {
    sim(Embedding(query), Embedding(ScoreText(p)))
  }

  /** A query scores every paper as its lower-cased form does, since
      `embed` lower-cases first. */
  lemma ScoreCaseInsensitive(sim: Similarity, query: string, p: Paper)
    ensures Score(sim, ToLower(query), p) == Score(sim, query, p)
  {
    EmbeddingCaseInsensitive(query);
  }

  /** Every candidate with its score, in candidate order. */
  function ScoreAll(sim: Similarity, query: string, ps: seq<Paper>): (r: seq<ScoredPaper>)
    ensures |r| == |ps|
  {
    seq(|ps|, i requires 0 <= i < |ps| => ScoredPaper(ps[i], Score(sim, query, ps[i])))
  }

  /** Scoring keeps each candidate in its place and attaches its score. */
  lemma ScoreAllPapers(sim: Similarity, query: string, ps: seq<Paper>)
    ensures forall i :: 0 <= i < |ps| ==>
      ScoreAll(sim, query, ps)[i].paper == ps[i] && ScoreAll(sim, query, ps)[i].score == Score(sim, query, ps[i])
  {
  }

  // ---------------------------------------------------------------------------
  // The order `sort((a, b) => b.score - a.score)` produces

  predicate NonIncreasing(s: seq<ScoredPaper>) {
    forall i, j :: 0 <= i < j < |s| ==> s[i].score >= s[j].score
  }

  /** Puts `x` before the first element that scores strictly less, so that
      it stays after every element it ties with. */
  function Insert(s: seq<ScoredPaper>, x: ScoredPaper): (r: seq<ScoredPaper>)
    ensures |r| == |s| + 1
  {
    if s == [] then [x]
    else if s[0].score < x.score then [x] + s
    else [s[0]] + Insert(s[1..], x)
  }

  /** Stable sort by descending score: insertion of each element in turn. */
  function SortByScore(s: seq<ScoredPaper>): (r: seq<ScoredPaper>)
    ensures |r| == |s|
  {
    if s == [] then [] else Insert(SortByScore(s[..|s| - 1]), s[|s| - 1])
  }

  /** `candidates.sort(...).slice(0, 10)` */
  function Rank(scored: seq<ScoredPaper>): (r: seq<ScoredPaper>)
    ensures |r| == Min(MaxResults, |scored|)
    ensures r + Dropped(scored) == SortByScore(scored)
  {
    var sorted := SortByScore(scored);
    sorted[..Min(MaxResults, |sorted|)]
  }

  /** What `slice(0, 10)` leaves out. */
  function Dropped(scored: seq<ScoredPaper>): (r: seq<ScoredPaper>)
    ensures |r| == |scored| - Min(MaxResults, |scored|)
  {
    var sorted := SortByScore(scored);
    sorted[Min(MaxResults, |sorted|)..]
  }

  lemma {:induction false} InsertPermutes(s: seq<ScoredPaper>, x: ScoredPaper)
    ensures multiset(Insert(s, x)) == multiset(s) + multiset{x}
    ensures |Insert(s, x)| == |s| + 1
    decreases |s|
  {
    if s != [] && s[0].score >= x.score {
      InsertPermutes(s[1..], x);
      assert s == [s[0]] + s[1..];
    }
  }

  lemma {:induction false} InsertKeepsOrder(s: seq<ScoredPaper>, x: ScoredPaper)
    requires NonIncreasing(s)
    ensures NonIncreasing(Insert(s, x))
    decreases |s|
  {
    if s != [] && s[0].score >= x.score {
      InsertKeepsOrder(s[1..], x);
      InsertPermutes(s[1..], x);
      var t := Insert(s[1..], x);
      forall k | 0 <= k < |t| ensures s[0].score >= t[k].score {
        assert t[k] in multiset(s[1..]) + multiset{x};
      }
    }
  }

  lemma {:induction false} SortPermutes(s: seq<ScoredPaper>)
    ensures multiset(SortByScore(s)) == multiset(s)
    ensures |SortByScore(s)| == |s|
    decreases |s|
  {
    if s != [] {
      var init := s[..|s| - 1];
      SortPermutes(init);
      InsertPermutes(SortByScore(init), s[|s| - 1]);
      assert s == init + [s[|s| - 1]];
    }
  }

  lemma {:induction false} SortOrders(s: seq<ScoredPaper>)
    ensures NonIncreasing(SortByScore(s))
    decreases |s|
  {
    if s != [] {
      SortOrders(s[..|s| - 1]);
      InsertKeepsOrder(SortByScore(s[..|s| - 1]), s[|s| - 1]);
    }
  }

  /** In a sorted sequence, `Insert` places `x` at the first position whose
      element scores strictly less than `x`. */
  lemma {:induction false} InsertAt(s: seq<ScoredPaper>, x: ScoredPaper, j: nat)
    requires NonIncreasing(s) && j <= |s|
    requires j == 0 || s[j - 1].score >= x.score
    requires forall k :: j <= k < |s| ==> s[k].score < x.score
    ensures Insert(s, x) == s[..j] + [x] + s[j..]
    decreases j
  {
    if j > 0 {
      assert s[0].score >= x.score;
      InsertAt(s[1..], x, j - 1);
      assert s[1..][..j - 1] == s[1..j];
      assert s[1..][j - 1..] == s[j..];
      assert [s[0]] + s[1..j] == s[..j];
    }
  }

  // ---------------------------------------------------------------------------
  // Stability

  /** The elements that score exactly `v`, in order. */
  function WithScore(s: seq<ScoredPaper>, v: int): seq<ScoredPaper> {
    if s == [] then []
    else (if s[0].score == v then [s[0]] else []) + WithScore(s[1..], v)
  }

  lemma {:induction false} WithScoreAppend(a: seq<ScoredPaper>, b: seq<ScoredPaper>, v: int)
    ensures WithScore(a + b, v) == WithScore(a, v) + WithScore(b, v)
    decreases |a|
  {
    if a != [] {
      WithScoreAppend(a[1..], b, v);
      assert (a + b)[0] == a[0];
      assert (a + b)[1..] == a[1..] + b;
      assert WithScore(a + b, v) == (if a[0].score == v then [a[0]] else []) + WithScore(a[1..] + b, v);
    } else {
      assert a + b == b;
    }
  }

  lemma {:induction false} WithScoreNone(s: seq<ScoredPaper>, v: int)
    requires forall k :: 0 <= k < |s| ==> s[k].score < v
    ensures WithScore(s, v) == []
    decreases |s|
  {
    if s != [] {
      WithScoreNone(s[1..], v);
    }
  }

  lemma {:induction false} WithScoreInsert(s: seq<ScoredPaper>, x: ScoredPaper, v: int)
    requires NonIncreasing(s)
    ensures WithScore(Insert(s, x), v) == WithScore(s, v) + (if x.score == v then [x] else [])
    decreases |s|
  {
    if s == [] {
    } else if s[0].score < x.score {
      if x.score == v {
        WithScoreNone(s, v);
      }
    } else {
      WithScoreInsert(s[1..], x, v);
    }
  }

  /** Papers that tie keep their candidate order: for every score, the
      sorted list and the candidate list list its papers in the same order. */
  lemma {:induction false} SortIsStable(s: seq<ScoredPaper>, v: int)
    ensures WithScore(SortByScore(s), v) == WithScore(s, v)
    decreases |s|
  {
    if s != [] {
      var init := s[..|s| - 1];
      var x := s[|s| - 1];
      SortIsStable(init, v);
      SortOrders(init);
      WithScoreInsert(SortByScore(init), x, v);
      assert s == init + [x];
      WithScoreAppend(init, [x], v);
    }
  }

  /** The selection `getPapers` promises: at most ten papers, in
      non-increasing score order, taken from the candidates, and none of the
      dropped candidates scores higher than any kept one. */
  lemma RankSelects(scored: seq<ScoredPaper>)
    ensures |Rank(scored)| == Min(MaxResults, |scored|)
    ensures NonIncreasing(Rank(scored))
    ensures multiset(Rank(scored)) + multiset(Dropped(scored)) == multiset(scored)
    ensures forall i, j :: 0 <= i < |Rank(scored)| && 0 <= j < |Dropped(scored)| ==>
      Rank(scored)[i].score >= Dropped(scored)[j].score
  {
    var sorted := SortByScore(scored);
    SortPermutes(scored);
    SortOrders(scored);
    SliceSelects(sorted, Min(MaxResults, |sorted|));
  }

  /** Cutting a non-increasing sequence at `n` keeps a non-increasing
      prefix that, with the rest, makes up the whole, and that scores at
      least as high as every element of the rest. */
  lemma SliceSelects(sorted: seq<ScoredPaper>, n: nat)
    requires NonIncreasing(sorted) && n <= |sorted|
    ensures NonIncreasing(sorted[..n])
    ensures multiset(sorted[..n]) + multiset(sorted[n..]) == multiset(sorted)
    ensures forall i, j :: 0 <= i < n && 0 <= j < |sorted| - n ==>
      sorted[..n][i].score >= sorted[n..][j].score
  {
    assert sorted == sorted[..n] + sorted[n..];
    forall i, j | 0 <= i < n && 0 <= j < |sorted| - n
      ensures sorted[..n][i].score >= sorted[n..][j].score
    {
      assert sorted[..n][i] == sorted[i];
      assert sorted[n..][j] == sorted[n + j];
    }
  }


  // ---------------------------------------------------------------------------
  // The in-place computation

  /** The in-place `sort` of `getPapers`: insertion sort by descending
      score. */
  method SortInPlace(a: array<ScoredPaper>)
    modifies a
    ensures a[..] == SortByScore(old(a[..]))
  {
    ghost var orig := a[..];
    var i := 0;
    while i < a.Length
      invariant 0 <= i <= a.Length
      invariant a[..i] == SortByScore(orig[..i])
      invariant a[i..] == orig[i..]
    {
      SortOrders(orig[..i]);
      InsertInPlace(a, i);
      assert orig[..i + 1][..i] == orig[..i];
      assert orig[..i + 1] == orig[..i] + [orig[i]];
      i := i + 1;
    }
    assert a[..] == a[..i] && orig == orig[..i];
  }

  /** One pass of the insertion sort: moves `a[i]` left past the elements
      that score strictly less than it. */
  method InsertInPlace(a: array<ScoredPaper>, i: nat)
    requires i < a.Length
    requires NonIncreasing(a[..i])
    modifies a
    ensures a[..i + 1] == Insert(old(a[..i]), old(a[i]))
    ensures a[i + 1..] == old(a[i + 1..])
  {
    var key := a[i];
    ghost var sorted := a[..i];
    ghost var rest := a[i + 1..];
    var j := i;
    while j > 0 && a[j - 1].score < key.score
      invariant 0 <= j <= i
      invariant Shifted(a[..], sorted, rest, j)
      invariant forall k :: j <= k < i ==> sorted[k].score < key.score
    {
      ShiftStep(a[..], sorted, rest, j);
      a[j] := a[j - 1];
      j := j - 1;
    }
    assert j > 0 ==> a[..j][j - 1] == sorted[j - 1];
    InsertAt(sorted, key, j);
    ShiftDone(a[..], sorted, rest, key, j);
    a[j] := key;
  }

  /** The array during the insertion pass: the elements before the gap at
      `j` are in place, those after it have moved one step right, and the
      tail beyond the pass is untouched. */
  ghost predicate Shifted(b: seq<ScoredPaper>, sorted: seq<ScoredPaper>, rest: seq<ScoredPaper>, j: nat) {
    && j <= |sorted|
    && |b| == |sorted| + 1 + |rest|
    && b[..j] == sorted[..j]
    && b[j + 1..|sorted| + 1] == sorted[j..]
    && b[|sorted| + 1..] == rest
  }

  lemma ShiftStep(b: seq<ScoredPaper>, sorted: seq<ScoredPaper>, rest: seq<ScoredPaper>, j: nat)
    requires 0 < j && Shifted(b, sorted, rest, j)
    ensures Shifted(b[j := b[j - 1]], sorted, rest, j - 1)
  {
    var c := b[j := b[j - 1]];
    var n := |sorted|;
    assert c[..j - 1] == b[..j - 1];
    assert b[j - 1] == sorted[j - 1];
    assert c[j..n + 1] == [sorted[j - 1]] + b[j + 1..n + 1];
    assert sorted[j - 1..] == [sorted[j - 1]] + sorted[j..];
    assert c[n + 1..] == b[n + 1..];
  }

  lemma ShiftDone(b: seq<ScoredPaper>, sorted: seq<ScoredPaper>, rest: seq<ScoredPaper>, key: ScoredPaper, j: nat)
    requires Shifted(b, sorted, rest, j)
    ensures b[j := key][..|sorted| + 1] == sorted[..j] + [key] + sorted[j..]
    ensures b[j := key][|sorted| + 1..] == rest
  {
    var c := b[j := key];
    var n := |sorted|;
    assert c[..n + 1] == c[..j] + [c[j]] + c[j + 1..n + 1];
    assert c[..j] == b[..j];
    assert c[j + 1..n + 1] == b[j + 1..n + 1];
    assert c[n + 1..] == b[n + 1..];
  }

  /** `candidates.forEach(p => p.score = ...)`: embeds the query once and
      every candidate's text, and records each candidate's score. */
  method ScoreCandidates(candidates: seq<Paper>, query: string, sim: Similarity)
    returns (a: array<ScoredPaper>)
    ensures fresh(a)
    ensures a[..] == ScoreAll(sim, query, candidates)
  {
    var qVec := Embed(query);
    var qv := qVec[..];
    a := new ScoredPaper[|candidates|];
    ghost var spec := ScoreAll(sim, query, candidates);
    for i := 0 to |candidates|
      invariant forall k :: 0 <= k < i ==> a[k] == spec[k]
    {
      var score := ScoreOne(qv, candidates[i], query, sim);
      assert ScoredPaper(candidates[i], score) == spec[i];
      a[i] := ScoredPaper(candidates[i], score);
    }
    assert a[..] == spec;
  }

  /** `cosine(qVec, embed(p.title + " " + p.abstract))` */
  method ScoreOne(qv: seq<int>, p: Paper, ghost query: string, sim: Similarity) returns (score: int)
    requires qv == Embedding(query)
    ensures score == Score(sim, query, p)
  {
    var pVec := Embed(ScoreText(p));
    score := sim(qv, pVec[..]);
  }

  /** `getPapers(query)`, given how its two requests ended and the similarity
      measure: scores the candidates, sorts them in place and keeps the
      first ten. */
  method GetPapers(s2: Fetch<S2Response>, ax: Fetch<seq<ArxivEntry>>, query: string, sim: Similarity)
    returns (ranked: seq<ScoredPaper>)
    ensures ranked == Rank(ScoreAll(sim, query, Candidates(s2, ax)))
    ensures |ranked| == Min(MaxResults, |Candidates(s2, ax)|)
    ensures NonIncreasing(ranked)
    ensures multiset(ranked) <= multiset(ScoreAll(sim, query, Candidates(s2, ax)))
    ensures forall i, j :: 0 <= i < |ranked| && 0 <= j < |Dropped(ScoreAll(sim, query, Candidates(s2, ax)))| ==>
      ranked[i].score >= Dropped(ScoreAll(sim, query, Candidates(s2, ax)))[j].score
  {
    var candidates := S2Papers(s2) + ArxivPapers(ax);
    var a := ScoreCandidates(candidates, query, sim);
    ghost var scored := a[..];
    SortInPlace(a);
    ranked := a[..Min(MaxResults, a.Length)];
    RankSelects(scored);
  }
}
