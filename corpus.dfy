/** The passage store: splitting the corpus into passages (ALICIA/ALICIA.py line 53) and
    mapping the indices a similarity search returns back to passages (line 83). */
module Corpus {
  import opened Text

  /** The separator the corpus is split on: one blank line. */
  const Blank: string := "\n\n"

  /** What every passage is: non-empty, no surrounding whitespace, no blank line inside. */
  predicate IsPassage(p: string) {
    && p != []
    && !IsSpace(p[0]) && !IsSpace(p[|p| - 1])
    && !Contains(p, Blank)
  }

  /** `[p.strip() for p in pieces]`. */
  function StripAll(pieces: seq<string>): (r: seq<string>)
    ensures |r| == |pieces| && forall i :: 0 <= i < |pieces| ==> r[i] == Strip(pieces[i])
  {
    seq(|pieces|, i requires 0 <= i < |pieces| => Strip(pieces[i]))
  }

  /** `[p for p in ps if p]`: the non-empty strings, in order. */
  function NonEmpty(ps: seq<string>): (r: seq<string>)
    ensures |r| <= |ps|
    ensures forall j :: 0 <= j < |r| ==> r[j] != []
  {
    if ps == [] then []
    else NonEmpty(ps[..|ps| - 1]) + (if ps[|ps| - 1] == [] then [] else [ps[|ps| - 1]])
  }

  /** The positions of the non-empty strings, in increasing order. */
  function NonEmptyPositions(ps: seq<string>): seq<nat> {
    if ps == [] then []
    else NonEmptyPositions(ps[..|ps| - 1]) + (if ps[|ps| - 1] == [] then [] else [|ps| - 1])
  }

  /** Element j of the filtered sequence is the one at the j-th kept position, and the kept
      positions increase. */
  lemma {:induction false} NonEmptyByPositions(ps: seq<string>)
    ensures |NonEmpty(ps)| == |NonEmptyPositions(ps)|
    ensures forall j :: 0 <= j < |NonEmptyPositions(ps)| ==>
      NonEmptyPositions(ps)[j] < |ps| && NonEmpty(ps)[j] == ps[NonEmptyPositions(ps)[j]]
    ensures forall j, j' :: 0 <= j < j' < |NonEmptyPositions(ps)| ==>
      NonEmptyPositions(ps)[j] < NonEmptyPositions(ps)[j']
  {
    if ps != [] {
      var n := |ps|;
      var front := ps[..n - 1];
      NonEmptyByPositions(front);
      var ki, kf := NonEmptyPositions(front), NonEmpty(front);
      var last := ps[n - 1];
      var ti: seq<nat>, tk: seq<string> := if last == [] then [] else [n - 1], if last == [] then [] else [last];
      assert NonEmptyPositions(ps) == ki + ti;
      assert NonEmpty(ps) == kf + tk;
      var KI, K := ki + ti, kf + tk;
      forall j | 0 <= j < |KI| ensures KI[j] < n && K[j] == ps[KI[j]] {
        if j < |ki| {
          assert KI[j] == ki[j] && K[j] == kf[j];
          assert ps[ki[j]] == front[ki[j]];
        }
      }
      forall j, j' | 0 <= j < j' < |KI| ensures KI[j] < KI[j'] {
        if j' < |ki| {
          assert KI[j] == ki[j] && KI[j'] == ki[j'];
        } else {
          assert KI[j] == ki[j];
        }
      }
    }
  }

  /** A position is kept exactly when its string is non-empty. */
  lemma {:induction false} NonEmptyPositionsExactly(ps: seq<string>)
    ensures forall i :: 0 <= i < |ps| ==> (i in NonEmptyPositions(ps) <==> ps[i] != [])
  {
    if ps != [] {
      var n := |ps|;
      var front := ps[..n - 1];
      NonEmptyPositionsExactly(front);
      NonEmptyByPositions(front);
      var ki := NonEmptyPositions(front);
      assert n - 1 !in ki by {
        forall j | 0 <= j < |ki| ensures ki[j] != n - 1 { }
      }
      var tail: seq<nat> := if ps[n - 1] == [] then [] else [n - 1];
      assert NonEmptyPositions(ps) == ki + tail;
      forall i | 0 <= i < n ensures i in NonEmptyPositions(ps) <==> ps[i] != [] {
        if i < n - 1 {
          assert ps[i] == front[i];
          assert i !in tail;
          assert (i in ki + tail) == (i in ki);
        } else {
          assert (i in ki + tail) == (i in tail);
        }
      }
    }
  }

  /** Line 53: `[p.strip() for p in raw_text.split("\n\n") if p.strip()]`. */
  function Passages(raw: string): (ps: seq<string>) {
    NonEmpty(StripAll(SplitOn(raw, Blank)))
  }

  /** The blocks of a corpus, and the positions of those that are not all whitespace. */
  function Blocks(raw: string): seq<string> {
    SplitOn(raw, Blank)
  }

  function KeptBlocks(raw: string): seq<nat> {
    NonEmptyPositions(StripAll(Blocks(raw)))
  }

  /** The passages of a corpus are exactly its non-blank blank-line-separated blocks, stripped,
      in their original order: joining the blocks gives back the corpus, passage j is the
      stripped block at the j-th kept position, those positions increase, and a block is kept
      exactly when it is not all whitespace. */
  lemma PassagesInOrder(raw: string)
    ensures Join(Blocks(raw), Blank) == raw
    ensures |Passages(raw)| == |KeptBlocks(raw)|
    ensures forall j :: 0 <= j < |Passages(raw)| ==>
      KeptBlocks(raw)[j] < |Blocks(raw)| && Passages(raw)[j] == Strip(Blocks(raw)[KeptBlocks(raw)[j]])
    ensures forall j, j' :: 0 <= j < j' < |Passages(raw)| ==> KeptBlocks(raw)[j] < KeptBlocks(raw)[j']
    ensures forall i :: 0 <= i < |Blocks(raw)| ==> (i in KeptBlocks(raw) <==> !AllSpace(Blocks(raw)[i]))
  {
    SplitOnSpec(raw, Blank);
    NonEmptyByPositions(StripAll(Blocks(raw)));
    NonEmptyPositionsExactly(StripAll(Blocks(raw)));
  }

  /** A block without a blank line that is not all whitespace strips to a passage. */
  lemma StrippedBlockIsPassage(block: string)
    requires !Contains(block, Blank) && Strip(block) != []
    ensures IsPassage(Strip(block))
  {
    StripKeepsAbsence(block, Blank);
  }

  /** Every passage is non-empty, has no surrounding whitespace and holds no blank line. */
  lemma PassagesWellFormed(raw: string)
    ensures forall j :: 0 <= j < |Passages(raw)| ==> IsPassage(Passages(raw)[j])
  {
    var blocks := Blocks(raw);
    var stripped := StripAll(blocks);
    var ps := Passages(raw);
    SplitOnSpec(raw, Blank);
    LeftmostPiecesFree(blocks, Blank);
    NonEmptyByPositions(stripped);
    forall j | 0 <= j < |ps| ensures IsPassage(ps[j]) {
      var i := NonEmptyPositions(stripped)[j];
      assert ps[j] == stripped[i] == Strip(blocks[i]);
      StrippedBlockIsPassage(blocks[i]);
    }
  }

  // ---------------------------------------------------------------------------
  // Retrieval result mapping

  /** Every index names a passage under Python's list indexing, where -1 is the last one.
      The vector search pads with -1 when it has fewer vectors than hits requested. */
  predicate IndicesIn(indices: seq<int>, passageCount: int) {
    forall j :: 0 <= j < |indices| ==> -passageCount <= indices[j] < passageCount
  }

  /** Python's `xs[i]` position for an index in -n..n-1. */
  function PyIndex(i: int, n: nat): (k: nat)
    requires -(n as int) <= i < n
    ensures k < n
    ensures i >= 0 ==> k == i
    ensures i < 0 ==> k + (-i) == n
  {
    if i >= 0 then i else n + i
  }

  /** Line 83 can be evaluated: every hit's index names a passage under Python indexing, and
      every hit has a score at the same position. */
  predicate ValidHits(passageCount: nat, indices: seq<int>, scores: seq<real>) {
    |scores| >= |indices| && IndicesIn(indices, passageCount)
  }

  /** The passages at `indices`, in that order. */
  function Pick(passages: seq<string>, indices: seq<int>): (texts: seq<string>)
    requires IndicesIn(indices, |passages|)
    ensures |texts| == |indices|
    ensures forall j :: 0 <= j < |indices| ==> texts[j] == passages[PyIndex(indices[j], |passages|)]
  {
    seq(|indices|, j requires 0 <= j < |indices| => passages[PyIndex(indices[j], |passages|)])
  }

  /** Line 83: for each hit in order, the passage its index names and the hit's score. */
  function Retrieve(passages: seq<string>, indices: seq<int>, scores: seq<real>): (docs: seq<(string, real)>)
    requires ValidHits(|passages|, indices, scores)
    ensures |docs| == |indices|
    ensures forall j :: 0 <= j < |docs| ==> docs[j].0 == passages[PyIndex(indices[j], |passages|)] && docs[j].1 == scores[j]
  {
    seq(|indices|, j requires 0 <= j < |indices| => (passages[PyIndex(indices[j], |passages|)], scores[j]))
  }

  function Texts(docs: seq<(string, real)>): (texts: seq<string>)
    ensures |texts| == |docs|
    ensures forall j :: 0 <= j < |docs| ==> texts[j] == docs[j].0
  {
    seq(|docs|, j requires 0 <= j < |docs| => docs[j].0)
  }

  /** 0, 1, ..., n - 1. */
  function Positions(n: nat): (r: seq<int>)
    ensures |r| == n && forall i :: 0 <= i < n ==> r[i] == i
  {
    seq(n, i requires 0 <= i < n => i)
  }

  lemma PickConcat(passages: seq<string>, xs: seq<int>, ys: seq<int>)
    requires IndicesIn(xs, |passages|)
    requires IndicesIn(ys, |passages|)
    ensures Pick(passages, xs + ys) == Pick(passages, xs) + Pick(passages, ys)
  {
  }

  /** Taking out the element at position m. */
  lemma RemoveAt(ys: seq<int>, m: nat)
    requires m < |ys|
    ensures multiset(ys[..m] + ys[m + 1..]) == multiset(ys) - multiset{ys[m]}
  {
    assert ys == ys[..m] + [ys[m]] + ys[m + 1..];
  }

  lemma PickRemoveAt(passages: seq<string>, ys: seq<int>, m: nat)
    requires IndicesIn(ys, |passages|)
    requires m < |ys|
    ensures IndicesIn(ys[..m] + ys[m + 1..], |passages|)
    ensures multiset(Pick(passages, ys)) ==
      multiset(Pick(passages, ys[..m] + ys[m + 1..])) + multiset{passages[PyIndex(ys[m], |passages|)]}
  {
    var ys' := ys[..m] + ys[m + 1..];
    forall j | 0 <= j < |ys'| ensures -|passages| <= ys'[j] < |passages| {
      if j < m { assert ys'[j] == ys[j]; } else { assert ys'[j] == ys[j + 1]; }
    }
    assert ys == ys[..m] + [ys[m]] + ys[m + 1..];
    PickConcat(passages, ys[..m], [ys[m]]);
    PickConcat(passages, ys[..m] + [ys[m]], ys[m + 1..]);
    PickConcat(passages, ys[..m], ys[m + 1..]);
  }

  /** Which passages are picked depends only on the multiset of indices. */
  lemma {:induction false} PickPermutation(passages: seq<string>, xs: seq<int>, ys: seq<int>)
    requires IndicesIn(xs, |passages|)
    requires IndicesIn(ys, |passages|)
    requires multiset(xs) == multiset(ys)
    ensures multiset(Pick(passages, xs)) == multiset(Pick(passages, ys))
    decreases |xs|
  {
    if xs == [] {
      assert |ys| == |multiset(ys)| == 0;
    } else {
      var x := xs[0];
      assert x in multiset(ys);
      var m :| 0 <= m < |ys| && ys[m] == x;
      var xs', ys' := xs[..0] + xs[1..], ys[..m] + ys[m + 1..];
      assert multiset(xs') == multiset(ys') by {
        RemoveAt(ys, m);
        RemoveAt(xs, 0);
      }
      PickRemoveAt(passages, ys, m);
      PickRemoveAt(passages, xs, 0);
      PickPermutation(passages, xs', ys');
    }
  }

  /** When the search returns every passage position once (k at least the corpus size), the
      retrieval result holds every passage exactly once. */
  lemma RetrieveAll(passages: seq<string>, indices: seq<int>, scores: seq<real>)
    requires ValidHits(|passages|, indices, scores)
    requires multiset(indices) == multiset(Positions(|passages|))
    ensures multiset(Texts(Retrieve(passages, indices, scores))) == multiset(passages)
  {
    PickPermutation(passages, indices, Positions(|passages|));
    assert Texts(Retrieve(passages, indices, scores)) == Pick(passages, indices);
    assert Pick(passages, Positions(|passages|)) == passages;
  }
}
