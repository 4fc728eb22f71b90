/**
 * `retrieve_top_k`, with the query's similarity scores given as input: the
 * corpus is zipped with its identifiers and scores, ranked by Ranking.TopK,
 * and truncated to k. The lemmas restate the ranking's guarantees in terms
 * of corpus indices, which the `doc_<i>` identifiers carry.
 */
module Retriever {
  import opened Wrappers
  import opened Identifiers
  import opened Ranking

  /** Python's `zip(ids, texts, scores)`: stops at the shortest input. */
  function Zip(ids: seq<string>, texts: seq<string>, scores: seq<real>): (z: seq<Scored>)
    ensures |z| == Min(|ids|, Min(|texts|, |scores|))
    ensures forall i :: 0 <= i < |z| ==> z[i] == Scored(ids[i], texts[i], scores[i])
  {
    if ids == [] || texts == [] || scores == [] then []
    else [Scored(ids[0], texts[0], scores[0])] + Zip(ids[1..], texts[1..], scores[1..])
  }

  /** `zip(doc_ids, documents, scores)`, with `doc_ids` built from the documents. */
  function Corpus(documents: seq<string>, scores: seq<real>): (z: seq<Scored>)
    ensures |z| == Min(|documents|, |scores|)
    ensures forall i :: 0 <= i < |z| ==> z[i] == Scored(DocId(i), documents[i], scores[i])
  {
    Zip(DocIds(|documents|), documents, scores)
  }

  /**
   * `retrieve_top_k(query, k)` once the query's score against each document
   * is known: scores[i] is the similarity of the query to documents[i].
   */
  function RetrieveTopK(documents: seq<string>, scores: seq<real>, k: int): (r: seq<Scored>)
    ensures var n := Min(|documents|, |scores|);
            |r| == if k >= 0 then Min(k, n) else Max(0, n + k)
    ensures SortedDesc(r)
  {
    TopK(Corpus(documents, scores), k)
  }

  /** The corpus index an entry's identifier names, or -1. */
  function SourceIndex(e: Scored): int {
    match IndexOf(e.id)
    case Some(i) => i
    case None => -1
  }

  /** Is the document with corpus index i among the returned entries? */
  predicate Returned(r: seq<Scored>, i: int) {
    exists j :: 0 <= j < |r| && SourceIndex(r[j]) == i
  }

  predicate IncreasingSource(s: seq<Scored>) {
    forall i, j :: 0 <= i < j < |s| ==> SourceIndex(s[i]) < SourceIndex(s[j])
  }

  lemma CorpusSource(documents: seq<string>, scores: seq<real>)
    ensures forall i :: 0 <= i < |Corpus(documents, scores)| ==> SourceIndex(Corpus(documents, scores)[i]) == i
  {
  }

  lemma {:induction false} WithScoreIncreasing(s: seq<Scored>, v: real)
    requires IncreasingSource(s)
    ensures IncreasingSource(WithScore(s, v))
  {
    if s != [] {
      WithScoreIncreasing(s[1..], v);
      var t := WithScore(s[1..], v);
      forall j | 0 <= j < |t| ensures SourceIndex(s[0]) < SourceIndex(t[j]) {
        assert t[j] in s[1..];
        var m :| 0 <= m < |s[1..]| && s[1..][m] == t[j];
        assert s[m + 1] == t[j];
      }
    }
  }

  /** Every returned entry is the corpus entry its identifier names. */
  lemma RetrieveFromCorpus(documents: seq<string>, scores: seq<real>, k: int)
    ensures var z, r := Corpus(documents, scores), RetrieveTopK(documents, scores, k);
            forall j :: 0 <= j < |r| ==> 0 <= SourceIndex(r[j]) < |z| && r[j] == z[SourceIndex(r[j])]
  {
    var z, r := Corpus(documents, scores), RetrieveTopK(documents, scores, k);
    CorpusSource(documents, scores);
    forall j | 0 <= j < |r| ensures 0 <= SourceIndex(r[j]) < |z| && r[j] == z[SourceIndex(r[j])] {
      assert r[j] in multiset(r);
      assert r[j] in multiset(z);
      var i :| 0 <= i < |z| && z[i] == r[j];
    }
  }

  /**
   * Stability: among returned entries of equal score, the one returned
   * first comes first in the corpus.
   */
  lemma RetrieveStable(documents: seq<string>, scores: seq<real>, k: int)
    ensures var r := RetrieveTopK(documents, scores, k);
            forall j1, j2 :: 0 <= j1 < j2 < |r| && r[j1].score == r[j2].score ==> SourceIndex(r[j1]) < SourceIndex(r[j2])
  {
    var z, r := Corpus(documents, scores), RetrieveTopK(documents, scores, k);
    CorpusSource(documents, scores);
    assert IncreasingSource(z);
    forall j1, j2 | 0 <= j1 < j2 < |r| && r[j1].score == r[j2].score
      ensures SourceIndex(r[j1]) < SourceIndex(r[j2])
    {
      var v := r[j1].score;
      TopKStable(z, k, v);
      WithScoreIncreasing(z, v);
      WithScorePosition(r, v, j1);
      WithScorePosition(r, v, j2);
      WithScorePositionMono(r, v, j1, j2);
      var fz := WithScore(z, v);
      var p1, p2 := |WithScore(r[..j1], v)|, |WithScore(r[..j2], v)|;
      assert fz[p1] == r[j1] && fz[p2] == r[j2];
    }
  }

  /** No corpus index is returned twice. */
  lemma RetrieveDistinct(documents: seq<string>, scores: seq<real>, k: int)
    ensures var r := RetrieveTopK(documents, scores, k);
            forall j1, j2 :: 0 <= j1 < j2 < |r| ==> SourceIndex(r[j1]) != SourceIndex(r[j2])
  {
    var z, r := Corpus(documents, scores), RetrieveTopK(documents, scores, k);
    RetrieveFromCorpus(documents, scores, k);
    RetrieveStable(documents, scores, k);
  }

  /**
   * Top-k dominance: a document left out scores below every returned one,
   * or ties with it and comes later in the corpus.
   */
  lemma RetrieveDominance(documents: seq<string>, scores: seq<real>, k: int)
    ensures var z, r := Corpus(documents, scores), RetrieveTopK(documents, scores, k);
            forall i, j :: 0 <= i < |z| && !Returned(r, i) && 0 <= j < |r| ==>
              scores[i] < r[j].score || (scores[i] == r[j].score && SourceIndex(r[j]) < i)
  {
    var z, r := Corpus(documents, scores), RetrieveTopK(documents, scores, k);
    forall i, j | 0 <= i < |z| && !Returned(r, i) && 0 <= j < |r|
      ensures scores[i] < r[j].score || (scores[i] == r[j].score && SourceIndex(r[j]) < i)
    {
      LeftOutDominated(documents, scores, k, i, j);
    }
  }

  lemma LeftOutDominated(documents: seq<string>, scores: seq<real>, k: int, i: int, j: int)
    requires 0 <= i < |Corpus(documents, scores)| && 0 <= j < |RetrieveTopK(documents, scores, k)|
    requires !Returned(RetrieveTopK(documents, scores, k), i)
    ensures var r := RetrieveTopK(documents, scores, k);
            scores[i] < r[j].score || (scores[i] == r[j].score && SourceIndex(r[j]) < i)
  {
    var z, r := Corpus(documents, scores), RetrieveTopK(documents, scores, k);
    CorpusSource(documents, scores);
    var x := z[i];
    assert x !in r;
    assert multiset(r)[x] == 0;
    assert x in multiset(z) - multiset(r);
    TopKDominance(z, k);
    if x.score == r[j].score {
      TiedLeftOutComesLater(z, k, i, j);
    }
  }

  /** A left-out entry tied with a returned one comes later in the input. */
  lemma TiedLeftOutComesLater(z: seq<Scored>, k: int, i: int, j: int)
    requires IncreasingSource(z)
    requires 0 <= i < |z| && 0 <= j < |TopK(z, k)|
    requires z[i] !in TopK(z, k) && z[i].score == TopK(z, k)[j].score
    ensures SourceIndex(TopK(z, k)[j]) < SourceIndex(z[i])
  {
    var r := TopK(z, k);
    var v := z[i].score;
    TopKStable(z, k, v);
    WithScoreIncreasing(z, v);
    var fz, fr := WithScore(z, v), WithScore(r, v);
    WithScorePosition(z, v, i);
    WithScorePosition(r, v, j);
    var q, p := |WithScore(z[..i], v)|, |WithScore(r[..j], v)|;
    assert q >= |fr|;
    assert fz[p] == r[j] && fz[q] == z[i];
  }
}
