/** The hashed bag-of-words embedding of popup.js: a text is lower-cased,
    split into word tokens, and each token adds one to the bucket its rolling
    hash selects in a vector of 300 counts. */
module TextEmbedding {
  import opened JsStrings

  /** Length of the embedding vector (`new Float32Array(300)`). */
  const Dim: nat := 300
  /** Initial accumulator of the token hash. */
  const HashSeed: nat := 7
  const HashMultiplier: nat := 31

  /** `c.charCodeAt(0)` for the one-code-point string `c`: the code point
      itself inside the Basic Multilingual Plane, its high surrogate beyond it. */
  function CodeUnit(c: char): (r: nat)
    ensures r < 0x10000
  {
    if c as int < 0x10000 then c as int else 0xD800 + (c as int - 0x10000) / 0x400
  }

  /** The bucket of a token: the left fold `a -> (a * 31 + code) % 300` from
      seed 7. Both operands of `%` are non-negative, so JavaScript's
      truncating remainder and Dafny's agree. */
  function Hash(w: string): (h: nat)
    ensures h < Dim
  {
    if w == [] then HashSeed
    else (Hash(w[..|w| - 1]) * HashMultiplier + CodeUnit(w[|w| - 1])) % Dim
  }

  /** The pieces kept by `if (!w) return;`. */
  function NonEmpty(pieces: seq<string>): (r: seq<string>)
    ensures |r| <= |pieces|
  {
    if pieces == [] then []
    else
      var w := pieces[|pieces| - 1];
      NonEmpty(pieces[..|pieces| - 1]) + (if w == [] then [] else [w])
  }

  /** The tokens `embed` counts, in text order. */
  function Tokens(text: string): seq<string> {
    NonEmpty(SplitNonWord(ToLower(text)))
  }

  function Zeros(): (z: seq<int>)
    ensures |z| == Dim && forall b :: 0 <= b < Dim ==> z[b] == 0
  {
    seq(Dim, _ => 0)
  }

  /** The vector after counting `tokens` one by one into the zero vector. */
  function Bag(tokens: seq<string>): (v: seq<int>)
    ensures |v| == Dim
  {
    if tokens == [] then Zeros()
    else
      var v := Bag(tokens[..|tokens| - 1]);
      var h := Hash(tokens[|tokens| - 1]);
      v[h := v[h] + 1]
  }

  /** The value `embed(text)` returns. */
  function Embedding(text: string): (v: seq<int>)
    ensures |v| == Dim
  {
    Bag(Tokens(text))
  }

  /** The number of tokens that hash to bucket `b`. */
  function Count(tokens: seq<string>, b: int): nat {
    if tokens == [] then 0
    else Count(tokens[..|tokens| - 1], b) + (if Hash(tokens[|tokens| - 1]) == b then 1 else 0)
  }

  function Sum(v: seq<int>): int {
    if v == [] then 0 else Sum(v[..|v| - 1]) + v[|v| - 1]
  }

  /** `embed`: fills a fresh 300-slot array by incrementing, for every
      non-empty piece of the lower-cased text, the bucket of its hash. */
  method Embed(text: string) returns (vec: array<int>)
    ensures fresh(vec)
    ensures vec.Length == Dim
    ensures vec[..] == Embedding(text)
  {
    vec := new int[Dim](_ => 0);
    assert vec[..] == Bag([]);
    CountPieces(vec, SplitNonWord(ToLower(text)));
  }

  /** The `forEach` of `embed`: counts the non-empty pieces into `vec`,
      which holds the zero vector on entry. */
  method CountPieces(vec: array<int>, pieces: seq<string>)
    requires vec.Length == Dim
    requires vec[..] == Bag([])
    modifies vec
    ensures vec[..] == Bag(NonEmpty(pieces))
  {
    var i := 0;
    assert pieces[..0] == [];
    while i < |pieces|
      invariant 0 <= i <= |pieces|
      invariant vec[..] == Bag(NonEmpty(pieces[..i]))
    {
      EmbedStep(pieces, i);
      if pieces[i] != [] {
        Increment(vec, Hash(pieces[i]));
      }
      i := i + 1;
    }
    assert pieces[..i] == pieces;
  }

  /** `vec[h] += 1` */
  method Increment(vec: array<int>, h: nat)
    requires h < vec.Length
    modifies vec
    ensures vec[..] == old(vec[..])[h := old(vec[h]) + 1]
  {
    vec[h] := vec[h] + 1;
  }

  /** One iteration of the counting loop of `embed`. */
  lemma EmbedStep(pieces: seq<string>, i: nat)
    requires i < |pieces|
    ensures var v := Bag(NonEmpty(pieces[..i]));
      Bag(NonEmpty(pieces[..i + 1])) ==
        if pieces[i] == [] then v else v[Hash(pieces[i]) := v[Hash(pieces[i])] + 1]
  {
    NonEmptySnoc(pieces, i);
    if pieces[i] != [] {
      BagSnoc(NonEmpty(pieces[..i]), pieces[i]);
    } else {
      assert NonEmpty(pieces[..i]) + [] == NonEmpty(pieces[..i]);
    }
  }

  lemma NonEmptySnoc(pieces: seq<string>, i: nat)
    requires i < |pieces|
    ensures NonEmpty(pieces[..i + 1]) == NonEmpty(pieces[..i]) + (if pieces[i] == [] then [] else [pieces[i]])
  {
    assert pieces[..i + 1][..i] == pieces[..i];
  }

  lemma BagSnoc(tokens: seq<string>, w: string)
    ensures Bag(tokens + [w]) == Bag(tokens)[Hash(w) := Bag(tokens)[Hash(w)] + 1]
  {
    var t := tokens + [w];
    assert t[..|t| - 1] == tokens && t[|t| - 1] == w;
  }

  // ---------------------------------------------------------------------------
  // Properties of the embedding

  /** Bucket `b` holds the number of tokens whose hash is `b`. */
  lemma {:induction false} BagCounts(tokens: seq<string>, b: nat)
    requires b < Dim
    ensures Bag(tokens)[b] == Count(tokens, b)
    decreases |tokens|
  {
    if tokens != [] {
      BagCounts(tokens[..|tokens| - 1], b);
    }
  }

  lemma {:induction false} SumZeros(n: nat)
    ensures Sum(seq(n, _ => 0)) == 0
  {
    if n > 0 {
      assert seq(n, _ => 0)[..n - 1] == seq(n - 1, _ => 0);
      SumZeros(n - 1);
    }
  }

  /** Adding one to one slot adds one to the sum. */
  lemma {:induction false} SumIncrement(v: seq<int>, h: nat)
    requires h < |v|
    ensures Sum(v[h := v[h] + 1]) == Sum(v) + 1
    decreases |v|
  {
    var w := v[h := v[h] + 1];
    assert w[..|w| - 1] == if h < |v| - 1 then v[..|v| - 1][h := v[h] + 1] else v[..|v| - 1];
    if h < |v| - 1 {
      SumIncrement(v[..|v| - 1], h);
    }
  }

  /** The counts add up to the number of tokens. */
  lemma {:induction false} SumBag(tokens: seq<string>)
    ensures Sum(Bag(tokens)) == |tokens|
    decreases |tokens|
  {
    if tokens == [] {
      SumZeros(Dim);
    } else {
      SumBag(tokens[..|tokens| - 1]);
      SumIncrement(Bag(tokens[..|tokens| - 1]), Hash(tokens[|tokens| - 1]));
    }
  }

  lemma {:induction false} NonEmptyNil(pieces: seq<string>)
    ensures NonEmpty(pieces) == [] <==> forall i :: 0 <= i < |pieces| ==> pieces[i] == []
    decreases |pieces|
  {
    if pieces != [] {
      var init := pieces[..|pieces| - 1];
      NonEmptyNil(init);
      if forall i :: 0 <= i < |pieces| ==> pieces[i] == [] {
        assert forall i :: 0 <= i < |init| ==> init[i] == pieces[i];
      } else if pieces[|pieces| - 1] == [] {
        var i :| 0 <= i < |pieces| && pieces[i] != [];
        assert init[i] == pieces[i];
      }
    }
  }

  /** A text has tokens exactly when it contains a word character. */
  lemma TokensNil(text: string)
    ensures Tokens(text) == [] <==> !HasWordChar(text)
  {
    var pieces := SplitNonWord(ToLower(text));
    NonEmptyNil(pieces);
    SplitNonWordNonEmptyPiece(ToLower(text));
    ToLowerHasWordChar(text);
    if Tokens(text) != [] {
      var i :| 0 <= i < |pieces| && pieces[i] != [];
      assert exists j :: 0 <= j < |SplitNonWord(ToLower(text))| && SplitNonWord(ToLower(text))[j] != [];
      assert HasWordChar(ToLower(text));
    }
  }

  lemma {:induction false} NonEmptyElements(pieces: seq<string>)
    ensures forall i :: 0 <= i < |NonEmpty(pieces)| ==>
      NonEmpty(pieces)[i] != [] && NonEmpty(pieces)[i] in pieces
    decreases |pieces|
  {
    if pieces != [] {
      var init := pieces[..|pieces| - 1];
      NonEmptyElements(init);
      forall i | 0 <= i < |NonEmpty(pieces)|
        ensures NonEmpty(pieces)[i] != [] && NonEmpty(pieces)[i] in pieces
      {
        if i < |NonEmpty(init)| {
          assert NonEmpty(pieces)[i] == NonEmpty(init)[i];
          var j :| 0 <= j < |init| && init[j] == NonEmpty(init)[i];
          assert pieces[j] == init[j];
        }
      }
    }
  }

  /** Every token is non-empty and made of lower-case word characters
      (`[a-z0-9_]`), so its code units are ASCII. */
  lemma TokensAreLowerWords(text: string)
    ensures forall i :: 0 <= i < |Tokens(text)| ==> Tokens(text)[i] != []
    ensures forall i, k :: 0 <= i < |Tokens(text)| && 0 <= k < |Tokens(text)[i]| ==>
      var c := Tokens(text)[i][k]; IsWordChar(c) && !IsUpper(c) && c as int < 128
  {
    var lower := ToLower(text);
    var pieces := SplitNonWord(lower);
    SplitNonWordChars(lower);
    var t := Tokens(text);
    NonEmptyElements(pieces);
    forall i, k | 0 <= i < |t| && 0 <= k < |t[i]|
      ensures IsWordChar(t[i][k]) && !IsUpper(t[i][k]) && t[i][k] as int < 128
    {
      var j :| 0 <= j < |pieces| && pieces[j] == t[i];
      assert IsWordChar(pieces[j][k]) && pieces[j][k] in lower;
      var m :| 0 <= m < |lower| && lower[m] == pieces[j][k];
      assert lower[m] == LowerChar(text[m]);
    }
  }

  /** The embedding has 300 entries and they sum to the token count. */
  lemma EmbeddingSum(text: string)
    ensures |Embedding(text)| == Dim
    ensures Sum(Embedding(text)) == |Tokens(text)|
  {
    SumBag(Tokens(text));
  }

  /** Bucket `b` of the embedding counts the tokens hashing to `b`. */
  lemma EmbeddingCounts(text: string, b: nat)
    requires b < Dim
    ensures Embedding(text)[b] == Count(Tokens(text), b)
  {
    BagCounts(Tokens(text), b);
  }

  /** The embedding is the zero vector exactly when the text has no word
      character (in particular for empty or separator-only text). */
  lemma EmbeddingZero(text: string)
    ensures Embedding(text) == Zeros() <==> !HasWordChar(text)
  {
    TokensNil(text);
    var v := Embedding(text);
    if v == Zeros() {
      SumBag(Tokens(text));
      SumZeros(Dim);
    }
  }

  /** Lower-casing the text first changes nothing. */
  lemma EmbeddingCaseInsensitive(text: string)
    ensures Embedding(ToLower(text)) == Embedding(text)
  {
    ToLowerIdempotent(text);
  }
}
