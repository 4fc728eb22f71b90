/**
 * Ranking of scored documents: `sorted(triples, key=score, reverse=True)`
 * followed by the slice `[:k]`.
 *
 * Python's `sorted` is stable, and with `reverse=True` equal keys keep their
 * original order. Here the sort is a functional insertion sort; its contract
 * says the result is a permutation, in non-increasing order of score, whose
 * subsequence of each score is the input's (stability). SortDescUnique shows
 * that these three facts determine the result, so any stable descending
 * sort, Python's included, returns the same sequence.
 */
module Ranking {

  /** One `(doc_id, text, score)` triple. */
  datatype Scored = Scored(id: string, text: string, score: real)

  function Min(a: int, b: int): int { if a <= b then a else b }

  function Max(a: int, b: int): int { if a <= b then b else a }

  predicate SortedDesc(r: seq<Scored>) {
    forall i, j :: 0 <= i < j < |r| ==> r[i].score >= r[j].score
  }

  /** The entries of s whose score is v, in their order in s. */
  function WithScore(s: seq<Scored>, v: real): (t: seq<Scored>)
    ensures forall y :: y in t ==> y in s && y.score == v
  {
    if s == [] then [] else (if s[0].score == v then [s[0]] else []) + WithScore(s[1..], v)
  }

  lemma {:induction false} WithScoreAppend(a: seq<Scored>, b: seq<Scored>, v: real)
    ensures WithScore(a + b, v) == WithScore(a, v) + WithScore(b, v)
  {
    if a == [] {
      assert a + b == b;
    } else {
      var head := if a[0].score == v then [a[0]] else [];
      assert (a + b)[0] == a[0] && (a + b)[1..] == a[1..] + b;
      WithScoreAppend(a[1..], b, v);
      calc {
        WithScore(a + b, v);
        head + WithScore(a[1..] + b, v);
        head + (WithScore(a[1..], v) + WithScore(b, v));
        (head + WithScore(a[1..], v)) + WithScore(b, v);
      }
    }
  }

  /**
   * Inserts x, which came before every entry of t in the input, in front of
   * the first entry of t whose score is not greater than x's.
   */
  function Insert(x: Scored, t: seq<Scored>): (r: seq<Scored>)
    ensures multiset(r) == multiset(t) + multiset{x}
  {
    if t != [] && t[0].score > x.score then
      assert t == [t[0]] + t[1..];
      [t[0]] + Insert(x, t[1..])
    else
      [x] + t
  }

  /** Inserting x keeps the order by score. */
  lemma {:induction false} InsertSorted(x: Scored, t: seq<Scored>)
    requires SortedDesc(t)
    ensures SortedDesc(Insert(x, t))
  {
    if t != [] && t[0].score > x.score {
      var tail := Insert(x, t[1..]);
      InsertSorted(x, t[1..]);
      forall i | 0 <= i < |tail| ensures t[0].score >= tail[i].score {
        assert tail[i] in multiset(tail);
        if tail[i] != x {
          assert tail[i] in multiset(t[1..]);
        }
      }
    }
  }

  /** x goes in front of every entry of t with its own score. */
  lemma {:induction false} InsertWithScore(x: Scored, t: seq<Scored>, v: real)
    ensures WithScore(Insert(x, t), v) == (if x.score == v then [x] else []) + WithScore(t, v)
  {
    if t != [] && t[0].score > x.score {
      InsertWithScore(x, t[1..], v);
      var r := Insert(x, t);
      assert r[0] == t[0] && r[1..] == Insert(x, t[1..]);
    } else {
      var r := Insert(x, t);
      assert r[0] == x && r[1..] == t;
    }
  }

  /** `sorted(s, key=lambda e: e.score, reverse=True)` */
  function SortDesc(s: seq<Scored>): (r: seq<Scored>)
    ensures multiset(r) == multiset(s)
  {
    if s == [] then []
    else
      assert s == [s[0]] + s[1..];
      Insert(s[0], SortDesc(s[1..]))
  }

  /** SortDesc orders by descending score and is stable. */
  lemma {:induction false} SortDescSpec(s: seq<Scored>)
    ensures |SortDesc(s)| == |s|
    ensures SortedDesc(SortDesc(s))
    ensures forall v :: WithScore(SortDesc(s), v) == WithScore(s, v)
  {
    assert |multiset(SortDesc(s))| == |multiset(s)|;
    if s != [] {
      SortDescSpec(s[1..]);
      InsertSorted(s[0], SortDesc(s[1..]));
      forall v ensures WithScore(SortDesc(s), v) == WithScore(s, v) {
        InsertWithScore(s[0], SortDesc(s[1..]), v);
      }
    }
  }

  /** The first entry of a nonempty sequence is the first of its own score. */
  lemma WithScoreHead(a: seq<Scored>)
    requires a != []
    ensures WithScore(a, a[0].score) == [a[0]] + WithScore(a[1..], a[0].score)
  {
  }

  /** Two sequences sorted by score with the same entries per score start alike. */
  lemma SortedHeads(a: seq<Scored>, b: seq<Scored>)
    requires a != [] && SortedDesc(a) && SortedDesc(b)
    requires forall v :: WithScore(a, v) == WithScore(b, v)
    ensures b != [] && a[0] == b[0]
  {
    var va := a[0].score;
    WithScoreHead(a);
    var w := WithScore(b, va);
    assert w[0] == a[0];
    assert w[0] in b;
    WithScoreHead(b);
    var vb := b[0].score;
    assert WithScore(a, vb)[0] in a;
    var i :| 0 <= i < |a| && a[i] == WithScore(a, vb)[0];
    var j :| 0 <= j < |b| && b[j] == w[0];
    assert va >= vb && vb >= va;
  }

  /** Two sequences sorted by score with the same entries per score are equal. */
  lemma {:induction false} SortedEqual(a: seq<Scored>, b: seq<Scored>)
    requires SortedDesc(a) && SortedDesc(b)
    requires forall v :: WithScore(a, v) == WithScore(b, v)
    ensures a == b
  {
    if a != [] {
      SortedHeads(a, b);
    } else if b != [] {
      SortedHeads(b, a);
    }
    if a != [] {
      forall v ensures WithScore(a[1..], v) == WithScore(b[1..], v) {
        var head := if a[0].score == v then [a[0]] else [];
        assert WithScore(a, v) == head + WithScore(a[1..], v);
        assert WithScore(b, v) == head + WithScore(b[1..], v);
        assert WithScore(a[1..], v) == WithScore(a, v)[|head|..];
        assert WithScore(b[1..], v) == WithScore(b, v)[|head|..];
      }
      SortedEqual(a[1..], b[1..]);
      assert a == [a[0]] + a[1..];
      assert b == [b[0]] + b[1..];
    }
  }

  /**
   * Any arrangement of s that is sorted by descending score and keeps the
   * input order among equal scores is SortDesc(s).
   */
  lemma SortDescUnique(s: seq<Scored>, r: seq<Scored>)
    requires SortedDesc(r)
    requires forall v :: WithScore(r, v) == WithScore(s, v)
    ensures r == SortDesc(s)
  {
    SortDescSpec(s);
    SortedEqual(r, SortDesc(s));
  }

  /**
   * The entry s[j] sits in WithScore(s, v) at the position given by the
   * number of entries of score v before it.
   */
  lemma WithScorePosition(s: seq<Scored>, v: real, j: int)
    requires 0 <= j < |s| && s[j].score == v
    ensures |WithScore(s[..j], v)| < |WithScore(s, v)|
    ensures WithScore(s, v)[|WithScore(s[..j], v)|] == s[j]
  {
    assert s == s[..j] + s[j..];
    WithScoreAppend(s[..j], s[j..], v);
    assert s[j..][0] == s[j];
  }

  /** Entries of one score keep their relative order in WithScore. */
  lemma WithScorePositionMono(s: seq<Scored>, v: real, j1: int, j2: int)
    requires 0 <= j1 < j2 <= |s| && s[j1].score == v
    ensures |WithScore(s[..j1], v)| < |WithScore(s[..j2], v)|
  {
    var p := s[..j2];
    assert p[..j1] == s[..j1];
    WithScorePosition(p, v, j1);
  }

  /** Python's `xs[:k]`; a negative k drops the last -k entries. */
  function SliceTo<T>(xs: seq<T>, k: int): (p: seq<T>)
    ensures |p| == if k >= 0 then Min(k, |xs|) else Max(0, |xs| + k)
    ensures p == xs[..|p|]
  {
    if k >= 0 then xs[..Min(k, |xs|)] else xs[..Max(0, |xs| + k)]
  }

  /** `sorted(s, key=score, reverse=True)[:k]` */
  function TopK(s: seq<Scored>, k: int): (r: seq<Scored>)
    ensures |r| == if k >= 0 then Min(k, |s|) else Max(0, |s| + k)
    ensures SortedDesc(r)
    ensures multiset(r) <= multiset(s)
    ensures k >= |s| ==> multiset(r) == multiset(s)
  {
    SortDescSpec(s);
    var sorted := SortDesc(s);
    var r := SliceTo(sorted, k);
    assert sorted == r + sorted[|r|..];
    r
  }

  /**
   * Stability of the truncated ranking: the returned entries of each score
   * are the first ones of that score in the input, in input order.
   */
  lemma TopKStable(s: seq<Scored>, k: int, v: real)
    ensures WithScore(TopK(s, k), v) <= WithScore(s, v)
  {
    SortDescSpec(s);
    var sorted := SortDesc(s);
    var r := TopK(s, k);
    assert sorted == r + sorted[|r|..];
    WithScoreAppend(r, sorted[|r|..], v);
  }

  /** Every entry left out of the top k scores no higher than any returned entry. */
  lemma TopKDominance(s: seq<Scored>, k: int)
    ensures forall x, y :: x in multiset(s) - multiset(TopK(s, k)) && y in TopK(s, k) ==> x.score <= y.score
  {
    forall x, y | x in multiset(s) - multiset(TopK(s, k)) && y in TopK(s, k) ensures x.score <= y.score {
      LeftOutScoresNoHigher(s, k, x, y);
    }
  }

  lemma LeftOutScoresNoHigher(s: seq<Scored>, k: int, x: Scored, y: Scored)
    requires x in multiset(s) - multiset(TopK(s, k)) && y in TopK(s, k)
    ensures x.score <= y.score
  {
    SortDescSpec(s);
    var sorted := SortDesc(s);
    var r := TopK(s, k);
    var rest := sorted[|r|..];
    assert r == sorted[..|r|];
    assert sorted == r + rest;
    assert multiset(sorted) == multiset(r) + multiset(rest);
    SplitSorted(r, rest, x, y);
  }

  /** In a sorted sequence, entries of the tail score no higher than those of the head. */
  lemma SplitSorted(r: seq<Scored>, rest: seq<Scored>, x: Scored, y: Scored)
    requires SortedDesc(r + rest) && x in multiset(rest) && y in r
    ensures x.score <= y.score
  {
    var i :| 0 <= i < |rest| && rest[i] == x;
    var j :| 0 <= j < |r| && r[j] == y;
    assert (r + rest)[|r| + i] == x && (r + rest)[j] == y;
  }
}
