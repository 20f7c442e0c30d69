/** The JavaScript string built-ins the ranking pipeline relies on:
    `toLowerCase` (on the ASCII range), `split(/\W+/)`, `split(sep)` with a
    literal separator, and `trim`. Strings are sequences of Unicode scalar
    values. */
module JsStrings {

  datatype Option<T> = None | Some(value: T)

  // ---------------------------------------------------------------------------
  // Character classes

  /** `\w` in a JavaScript regular expression without the `u`/`i` flags. */
  predicate IsWordChar(c: char) {
    ('a' <= c <= 'z') || ('A' <= c <= 'Z') || ('0' <= c <= '9') || c == '_'
  }

  predicate IsUpper(c: char) {
    'A' <= c <= 'Z'
  }

  /** ECMAScript WhiteSpace and LineTerminator code points: what `trim` removes. */
  predicate IsJsWhitespace(c: char) {
    c == '\t' || c == '\n' || c == '\U{000B}' || c == '\U{000C}' || c == '\r' || c == ' '
    || c == '\U{00A0}' || c == '\U{1680}' || ('\U{2000}' <= c <= '\U{200A}')
    || c == '\U{2028}' || c == '\U{2029}' || c == '\U{202F}' || c == '\U{205F}'
    || c == '\U{3000}' || c == '\U{FEFF}'
  }

  // ---------------------------------------------------------------------------
  // toLowerCase

  /** Lower-casing of one character, on the ASCII letters. */
  function LowerChar(c: char): (r: char)
    ensures !IsUpper(r)
    ensures IsUpper(c) ==> r as int == c as int + 32
    ensures IsWordChar(r) == IsWordChar(c)
    ensures !IsUpper(c) ==> r == c
  {
    if IsUpper(c) then (c as int + 32) as char else c
  }

  /** `s.toLowerCase()`, restricted to the ASCII letters. */
  function ToLower(s: string): (r: string)
    ensures |r| == |s|
    ensures forall i :: 0 <= i < |s| ==> r[i] == LowerChar(s[i])
  {
    if s == [] then [] else [LowerChar(s[0])] + ToLower(s[1..])
  }

  lemma ToLowerIdempotent(s: string)
    ensures ToLower(ToLower(s)) == ToLower(s)
  {
    var t := ToLower(s);
    assert forall i :: 0 <= i < |t| ==> ToLower(t)[i] == t[i];
  }

  // ---------------------------------------------------------------------------
  // split(/\W+/)

  /** The pieces of `s` between its non-word characters, splitting at every
      single non-word character. `s.split(/\W+/)` splits at maximal runs
      instead; the two agree on the non-empty pieces and differ only in how
      many empty pieces they produce. */
  function SplitNonWord(s: string): (r: seq<string>)
    ensures |r| >= 1
    decreases |s|
  {
    if s == [] then [[]]
    else
      var rest := SplitNonWord(s[1..]);
      if IsWordChar(s[0]) then [[s[0]] + rest[0]] + rest[1..] else [[]] + rest
  }

  /** The non-word characters of `s`, in order: the separators
      `SplitNonWord` cuts at. */
  function NonWordChars(s: string): seq<char> {
    if s == [] then [] else (if IsWordChar(s[0]) then [] else [s[0]]) + NonWordChars(s[1..])
  }

  /** The pieces with one separator between each neighbouring pair. */
  function Weave(pieces: seq<string>, seps: seq<char>): string
    requires |pieces| == |seps| + 1
  {
    if seps == [] then pieces[0] else pieces[0] + [seps[0]] + Weave(pieces[1..], seps[1..])
  }

  /** The split loses nothing: putting each non-word character back between
      neighbouring pieces gives back `s`. With `SplitNonWordChars` this makes
      the pieces exactly the maximal runs of word characters. */
  lemma {:induction false} SplitNonWordWeave(s: string)
    ensures |SplitNonWord(s)| == |NonWordChars(s)| + 1
    ensures Weave(SplitNonWord(s), NonWordChars(s)) == s
    decreases |s|
  {
    if s != [] {
      SplitNonWordWeave(s[1..]);
      var rest := SplitNonWord(s[1..]);
      var seps := NonWordChars(s[1..]);
      if IsWordChar(s[0]) {
        assert NonWordChars(s) == seps;
        WeaveCons(s[0], rest, seps);
      } else {
        assert NonWordChars(s) == [s[0]] + seps;
        WeaveHead([], rest, [s[0]] + seps);
        assert ([s[0]] + seps)[1..] == seps;
      }
      assert [s[0]] + s[1..] == s;
    }
  }

  lemma WeaveCons(c: char, p: seq<string>, seps: seq<char>)
    requires |p| == |seps| + 1
    ensures Weave([[c] + p[0]] + p[1..], seps) == [c] + Weave(p, seps)
  {
    WeaveHead([c] + p[0], p[1..], seps);
    if seps != [] {
      var tail := Weave(p[1..], seps[1..]);
      assert ([c] + p[0]) + [seps[0]] + tail == [c] + (p[0] + [seps[0]] + tail);
    }
  }

  lemma WeaveHead(x: string, tail: seq<string>, seps: seq<char>)
    requires |tail| == |seps|
    ensures Weave([x] + tail, seps) == if seps == [] then x else x + [seps[0]] + Weave(tail, seps[1..])
  {
    assert ([x] + tail)[0] == x;
    assert ([x] + tail)[1..] == tail;
  }

  predicate HasWordChar(s: string) {
    exists i :: 0 <= i < |s| && IsWordChar(s[i])
  }

  /** Every character of every piece is a word character taken from `s`. */
  lemma {:induction false} SplitNonWordChars(s: string)
    ensures forall i, k :: 0 <= i < |SplitNonWord(s)| && 0 <= k < |SplitNonWord(s)[i]| ==>
      IsWordChar(SplitNonWord(s)[i][k]) && SplitNonWord(s)[i][k] in s
    decreases |s|
  {
    if s != [] {
      SplitNonWordChars(s[1..]);
      var rest := SplitNonWord(s[1..]);
      var r := SplitNonWord(s);
      forall i, k | 0 <= i < |r| && 0 <= k < |r[i]|
        ensures IsWordChar(r[i][k]) && r[i][k] in s
      {
        if IsWordChar(s[0]) {
          if i == 0 {
            if k > 0 {
              assert r[0][k] == rest[0][k - 1];
            }
          } else {
            assert r[i] == rest[i];
          }
        } else {
          assert i > 0 && r[i] == rest[i - 1];
        }
      }
    }
  }

  /** Some piece is non-empty exactly when `s` contains a word character. */
  lemma {:induction false} SplitNonWordNonEmptyPiece(s: string)
    ensures (exists i :: 0 <= i < |SplitNonWord(s)| && SplitNonWord(s)[i] != []) <==> HasWordChar(s)
    decreases |s|
  {
    var r := SplitNonWord(s);
    if s != [] {
      SplitNonWordNonEmptyPiece(s[1..]);
      var rest := SplitNonWord(s[1..]);
      if IsWordChar(s[0]) {
        assert r[0] != [];
      } else {
        assert r == [[]] + rest;
        if HasWordChar(s) {
          var k :| 0 <= k < |s| && IsWordChar(s[k]);
          assert k > 0 && s[1..][k - 1] == s[k];
          assert HasWordChar(s[1..]);
          var i :| 0 <= i < |rest| && rest[i] != [];
          assert r[i + 1] != [];
        }
        if exists i :: 0 <= i < |r| && r[i] != [] {
          var i :| 0 <= i < |r| && r[i] != [];
          assert i > 0 && 0 <= i - 1 < |rest| && rest[i - 1] != [];
          assert exists j :: 0 <= j < |SplitNonWord(s[1..])| && SplitNonWord(s[1..])[j] != [];
          assert HasWordChar(s[1..]);
          var k :| 0 <= k < |s[1..]| && IsWordChar(s[1..][k]);
          assert s[k + 1] == s[1..][k];
          assert HasWordChar(s);
        }
      }
    }
  }

  lemma ToLowerHasWordChar(s: string)
    ensures HasWordChar(ToLower(s)) == HasWordChar(s)
  {
    if HasWordChar(s) {
      var i :| 0 <= i < |s| && IsWordChar(s[i]);
      assert IsWordChar(ToLower(s)[i]);
    }
  }

  // ---------------------------------------------------------------------------
  // split(sep) with a literal, non-empty separator

  predicate OccursAt(s: string, pat: string, i: int) {
    0 <= i && i + |pat| <= |s| && s[i..i + |pat|] == pat
  }

  predicate Occurs(s: string, pat: string) {
    exists i :: 0 <= i <= |s| && OccursAt(s, pat, i)
  }

  /** The first position at or after `k` where `pat` occurs in `s`. */
  function FirstIndexFrom(s: string, pat: string, k: nat): (r: Option<nat>)
    requires k <= |s|
    ensures r.Some? ==> k <= r.value && OccursAt(s, pat, r.value)
    ensures r.Some? ==> forall j :: k <= j < r.value ==> !OccursAt(s, pat, j)
    ensures r.None? ==> forall j :: k <= j ==> !OccursAt(s, pat, j)
    decreases |s| - k
  {
    if k + |pat| > |s| then None
    else if s[k..k + |pat|] == pat then Some(k)
    else FirstIndexFrom(s, pat, k + 1)
  }

  /** `s.indexOf(pat)`, with `None` for -1. */
  function FirstIndex(s: string, pat: string): (r: Option<nat>)
    ensures r.Some? ==> OccursAt(s, pat, r.value) && forall j :: 0 <= j < r.value ==> !OccursAt(s, pat, j)
    ensures r.None? <==> !Occurs(s, pat)
  {
    FirstIndexFrom(s, pat, 0)
  }

  /** `s.split(sep)`: the pieces between the successive leftmost
      non-overlapping occurrences of `sep`, each searched for from the end
      of the previous one. */
  function Split(s: string, sep: string): (r: seq<string>)
    requires |sep| > 0
    ensures |r| >= 1
    decreases |s|
  {
    match FirstIndex(s, sep)
    case None => [s]
    case Some(i) => [s[..i]] + Split(s[i + |sep|..], sep)
  }

  /** The first piece ends at the leftmost occurrence of `sep`, and without
      an occurrence the string is its only piece. */
  lemma SplitFirstPiece(s: string, sep: string)
    requires |sep| > 0
    ensures FirstIndex(s, sep).None? ==> Split(s, sep) == [s]
    ensures FirstIndex(s, sep).Some? ==> Split(s, sep)[0] == s[..FirstIndex(s, sep).value]
  {
  }

  /** `pieces.join(sep)`. */
  function Join(pieces: seq<string>, sep: string): string
    requires |pieces| >= 1
  {
    if |pieces| == 1 then pieces[0] else pieces[0] + sep + Join(pieces[1..], sep)
  }

  /** Splitting and joining again gives back the original string. */
  lemma {:induction false} SplitJoin(s: string, sep: string)
    requires |sep| > 0
    ensures Join(Split(s, sep), sep) == s
    decreases |s|
  {
    match FirstIndex(s, sep)
    case None =>
    case Some(i) =>
      var rest := s[i + |sep|..];
      var tail := Split(rest, sep);
      SplitJoin(rest, sep);
      var r := Split(s, sep);
      assert r == [s[..i]] + tail;
      assert |r| > 1 && r[0] == s[..i] && r[1..] == tail;
      assert Join(r, sep) == s[..i] + sep + Join(tail, sep);
      assert s[i..i + |sep|] == sep;
      assert s == s[..i] + s[i..i + |sep|] + rest;
  }

  lemma OccursInPrefix(s: string, pat: string, n: nat, j: int)
    requires n <= |s| && OccursAt(s[..n], pat, j)
    ensures OccursAt(s, pat, j)
  {
    assert s[..n][j..j + |pat|] == s[j..j + |pat|];
  }

  /** No piece of a split contains the separator. */
  lemma {:induction false} SplitPiecesFree(s: string, sep: string)
    requires |sep| > 0
    ensures forall k :: 0 <= k < |Split(s, sep)| ==> !Occurs(Split(s, sep)[k], sep)
    decreases |s|
  {
    match FirstIndex(s, sep)
    case None =>
    case Some(i) =>
      var rest := s[i + |sep|..];
      SplitPiecesFree(rest, sep);
      var r := Split(s, sep);
      assert r == [s[..i]] + Split(rest, sep);
      if Occurs(s[..i], sep) {
        var j :| OccursAt(s[..i], sep, j);
        OccursInPrefix(s, sep, i, j);
        assert false;
      }
      assert forall k :: 1 <= k < |r| ==> r[k] == Split(rest, sep)[k - 1];
  }

  /** A split has more than one piece exactly when the separator occurs. */
  lemma SplitMoreThanOne(s: string, sep: string)
    requires |sep| > 0
    ensures |Split(s, sep)| > 1 <==> Occurs(s, sep)
  {
    match FirstIndex(s, sep)
    case None =>
    case Some(i) =>
      var r := Split(s, sep);
      assert r == [s[..i]] + Split(s[i + |sep|..], sep);
  }

  // ---------------------------------------------------------------------------
  // trim

  /** The number of whitespace characters `s` starts with. */
  function LeadingWs(s: string): (r: nat)
    ensures r <= |s|
    ensures forall i :: 0 <= i < r ==> IsJsWhitespace(s[i])
    ensures r < |s| ==> !IsJsWhitespace(s[r])
  {
    if s == [] || !IsJsWhitespace(s[0]) then 0 else 1 + LeadingWs(s[1..])
  }

  /** The number of whitespace characters `s` ends with. */
  function TrailingWs(s: string): (r: nat)
    ensures r <= |s|
    ensures forall i :: |s| - r <= i < |s| ==> IsJsWhitespace(s[i])
    ensures r < |s| ==> !IsJsWhitespace(s[|s| - 1 - r])
  {
    if s == [] || !IsJsWhitespace(s[|s| - 1]) then 0 else 1 + TrailingWs(s[..|s| - 1])
  }

  /** `s.trim()`. */
  function Trim(s: string): (r: string)
    ensures r == [] || (!IsJsWhitespace(r[0]) && !IsJsWhitespace(r[|r| - 1]))
  {
    var t := s[LeadingWs(s)..];
    t[..|t| - TrailingWs(t)]
  }

  /** `r` is `s` with `i` whitespace characters cut from the front and some
      number of whitespace characters cut from the back. */
  predicate CutAt(s: string, i: int, r: string) {
    && 0 <= i <= |s| - |r| && s[i..i + |r|] == r
    && (forall k :: 0 <= k < i ==> IsJsWhitespace(s[k]))
    && (forall k :: i + |r| <= k < |s| ==> IsJsWhitespace(s[k]))
  }

  /** `trim` removes exactly a whitespace prefix and a whitespace suffix. */
  lemma TrimIsInfix(s: string)
    ensures exists i :: CutAt(s, i, Trim(s))
  {
    var a := LeadingWs(s);
    var t := s[a..];
    var b := TrailingWs(t);
    var r := Trim(s);
    assert r == s[a..a + |t| - b];
    forall k | a + |r| <= k < |s| ensures IsJsWhitespace(s[k]) {
      assert s[k] == t[k - a];
    }
    assert CutAt(s, a, r);
  }

  /** A string is trimmed to nothing exactly when it is all whitespace. */
  lemma TrimEmpty(s: string)
    ensures Trim(s) == [] <==> forall k :: 0 <= k < |s| ==> IsJsWhitespace(s[k])
  {
    var a := LeadingWs(s);
    var t := s[a..];
    if a < |s| {
      assert t[0] == s[a];
      assert TrailingWs(t) < |t|;
    }
  }

  lemma TrimIdempotent(s: string)
    ensures Trim(Trim(s)) == Trim(s)
  {
    var r := Trim(s);
    assert LeadingWs(r) == 0;
    assert TrailingWs(r) == 0;
  }
}
