/**
 * `simple_generate_answer`: the texts of the retrieved entries, joined with
 * single spaces, placed in a fixed template after the question. Identifiers
 * and scores play no part.
 */
module Answer {
  import opened Wrappers
  import opened Ranking

  const QuestionLabel: string := "Question: "
  const Header: string := "\n\nBased on the company documents, here is the answer:\n"

  /** `[doc for _, doc, _ in retrieved_docs]` */
  function Texts(retrieved: seq<Scored>): (texts: seq<string>)
    ensures |texts| == |retrieved|
    ensures forall i :: 0 <= i < |retrieved| ==> texts[i] == retrieved[i].text
  {
    seq(|retrieved|, i requires 0 <= i < |retrieved| => retrieved[i].text)
  }

  /** Python's `sep.join(xs)`. */
  function Join(sep: string, xs: seq<string>): string {
    if xs == [] then "" else if |xs| == 1 then xs[0] else xs[0] + sep + Join(sep, xs[1..])
  }

  /** Where xs[i] starts in Join(sep, xs): each earlier piece and one separator. */
  function Offset(sep: string, xs: seq<string>, i: nat): nat
    requires i <= |xs|
  {
    if i == 0 then 0 else |xs[0]| + |sep| + Offset(sep, xs[1..], i - 1)
  }

  /** A slice past the first part of a concatenation is a slice of the second part. */
  lemma SliceAfter(a: string, b: string, x: nat, y: nat)
    requires x <= y <= |b|
    ensures (a + b)[|a| + x..|a| + y] == b[x..y]
  {
  }

  /**
   * Join(sep, xs) is exactly the pieces of xs in order with one separator
   * between neighbours: xs[i] sits at Offset(sep, xs, i), a separator follows
   * it unless it is the last, and the last piece ends the string.
   */
  lemma {:induction false} JoinPieces(sep: string, xs: seq<string>, i: nat)
    requires i < |xs|
    ensures var j, e := Join(sep, xs), Offset(sep, xs, i) + |xs[i]|;
            && e <= |j|
            && j[Offset(sep, xs, i)..e] == xs[i]
            && (i + 1 < |xs| ==> e + |sep| <= |j| && j[e..e + |sep|] == sep)
            && (i + 1 == |xs| ==> e == |j|)
  {
    if |xs| > 1 {
      var rest := Join(sep, xs[1..]);
      var head := xs[0] + sep;
      assert Join(sep, xs) == head + rest;
      if i == 0 {
        assert Join(sep, xs)[..|xs[0]|] == xs[0];
      } else {
        JoinPieces(sep, xs[1..], i - 1);
        var o' := Offset(sep, xs[1..], i - 1);
        var e' := o' + |xs[i]|;
        assert xs[1..][i - 1] == xs[i];
        SliceAfter(head, rest, o', e');
        if i + 1 < |xs| {
          SliceAfter(head, rest, e', e' + |sep|);
        }
      }
    }
  }

  /** `simple_generate_answer(query, retrieved_docs)` */
  function GenerateAnswer(query: string, retrieved: seq<Scored>): (answer: string)
    ensures var start := |QuestionLabel| + |query| + |Header|;
            && |answer| == start + |Join(" ", Texts(retrieved))| + 1
            && answer[..|QuestionLabel| + |query|] == QuestionLabel + query
            && answer[|QuestionLabel| + |query|..start] == Header
            && answer[start..|answer| - 1] == Join(" ", Texts(retrieved))
            && answer[|answer| - 1] == '\n'
    ensures retrieved == [] ==> answer == QuestionLabel + query + Header + "\n"
  {
    QuestionLabel + query + Header + Join(" ", Texts(retrieved)) + "\n"
  }

  /** The joined context of an answer given its question, if it fits the template. */
  function ContextOf(query: string, answer: string): Option<string> {
    var prefix := QuestionLabel + query + Header;
    if |prefix| < |answer| && answer[..|prefix|] == prefix && answer[|answer| - 1] == '\n'
    then Some(answer[|prefix|..|answer| - 1])
    else None
  }

  /** The context is recovered from the answer: nothing is lost or added. */
  lemma ContextOfAnswer(query: string, retrieved: seq<Scored>)
    ensures ContextOf(query, GenerateAnswer(query, retrieved)) == Some(Join(" ", Texts(retrieved)))
  {
  }

  /** The i-th retrieved text appears in the answer where the template and the join put it. */
  lemma AnswerContainsText(query: string, retrieved: seq<Scored>, i: nat)
    requires i < |retrieved|
    ensures var answer, o := GenerateAnswer(query, retrieved),
                             |QuestionLabel| + |query| + |Header| + Offset(" ", Texts(retrieved), i);
            o + |retrieved[i].text| < |answer| && answer[o..o + |retrieved[i].text|] == retrieved[i].text
  {
    var texts := Texts(retrieved);
    var answer := GenerateAnswer(query, retrieved);
    var start := |QuestionLabel| + |query| + |Header|;
    var j := Join(" ", texts);
    JoinPieces(" ", texts, i);
    var o := Offset(" ", texts, i);
    assert answer[start..|answer| - 1] == j;
    assert answer[start + o..start + o + |texts[i]|] == j[o..o + |texts[i]|];
  }

  /** The answer depends on the retrieved entries only through their texts. */
  lemma AnswerIgnoresIdsAndScores(query: string, a: seq<Scored>, b: seq<Scored>)
    requires |a| == |b| && forall i :: 0 <= i < |a| ==> a[i].text == b[i].text
    ensures GenerateAnswer(query, a) == GenerateAnswer(query, b)
  {
    assert Texts(a) == Texts(b);
  }
}
