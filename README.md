# TinyRAG retrieval and answer composition, modelled in Dafny

TinyRAG is a minimal retrieval-augmented answering demo. It scores a small
corpus of documents against a question, keeps the k best-scoring documents,
and pastes their texts into a fixed answer template. This project models the
deterministic part of that pipeline and proves its properties:

- `doc_ids`: every document gets the identifier `doc_<i>`, its corpus index
  in decimal (module `Identifiers`, file `doc_ids.dfy`).
- The ranking inside `retrieve_top_k`: the `(id, text, score)` triples are
  sorted by score, descending, with Python's stable `sorted`, and cut with
  the slice `[:k]` (module `Ranking`, file `ranking.dfy`).
- `retrieve_top_k` itself, once the query's score against each document is
  known: the corpus is zipped with its identifiers and scores and then ranked
  (module `Retriever`, file `retriever.dfy`). The scores are an input
  sequence of reals aligned with the documents.
- `simple_generate_answer`: the texts of the retrieved triples are joined
  with single spaces and placed in the template
  `"Question: " + query + "\n\n" + "Based on the company documents, here is the answer:\n" + joined + "\n"`
  (module `Answer`, file `answer.dfy`).

Everything is a pure function, as in the source: `sorted` returns a new
list, the slice and the comprehensions build new lists, and the answer is an
f-string. Being functions, all of them are deterministic, so calling
`retrieve_top_k` twice with the same scores and k gives the same result.

The stable descending sort is modelled by a functional insertion sort
(`Ranking.SortDesc`). Stability is stated as: for each score value v, the
subsequence of entries with score v is unchanged (`Ranking.WithScore`).
`Ranking.SortDescUnique` proves that being sorted by descending score and
stable in this sense determines the output. So the model returns exactly
what Python's `sorted(..., key=score, reverse=True)` returns, whatever sorting
algorithm is used. Equal keys keep their input order under `reverse=True`.

`k` is an `int`, and `[:k]` follows Python's slice rules. A negative k
drops the last `-k` entries (`Ranking.SliceTo`), so it does not give an
empty result.

`zip` stops at its shortest input (`Retriever.Zip`). In the source the three
lists always have the same length. The model allows any lengths and counts
the corpus as `min(|documents|, |scores|)` entries.

## Model

| member | source | states |
|---|---|---|
| Identifiers.NatToString | mini_rag.py:13 | `str(i)` for `i >= 0` is a canonical decimal numeral: nonempty, digits only, no leading zero, and it starts with '0' exactly when i is 0 |
| Identifiers.StringToNatOfNatToString | mini_rag.py:13 | reading back the decimal spelling of i gives i |
| Identifiers.NatToStringOfStringToNat | mini_rag.py:13 | every canonical numeral is the spelling of its own value, so the spelling is onto the canonical numerals |
| Identifiers.IndexOfDocId | mini_rag.py:13 | parsing an identifier gives i exactly when the identifier is `DocId(i)`, the model of `f"doc_{i}"` (both directions) |
| Identifiers.DocIds | mini_rag.py:13 | `doc_ids` has one entry per document, entry i is `doc_<i>` and parses back to i, and no two entries are equal |
| Ranking.Insert | mini_rag.py:39-43 | one insertion step of the sort adds exactly the inserted triple (multiset) |
| Ranking.InsertSorted | mini_rag.py:39-43 | inserting into a list sorted by descending score keeps it sorted |
| Ranking.InsertWithScore | mini_rag.py:39-43 | the inserted triple, which is earlier in the input, goes in front of every entry with its own score |
| Ranking.SortDesc | mini_rag.py:39-43 | the sort returns a permutation of its input |
| Ranking.SortDescSpec | mini_rag.py:39-43 | the sort keeps the length, orders by non-increasing score, and is stable: each score's entries keep their input order |
| Ranking.SortedEqual | mini_rag.py:39-43 | two lists sorted by descending score with the same entries per score, in the same order, are equal |
| Ranking.SortDescUnique | mini_rag.py:39-43 | any arrangement that is sorted by descending score and stable equals the model's sort, so the model is Python's stable `sorted(..., reverse=True)` |
| Ranking.SliceTo | mini_rag.py:44 | `xs[:k]` is the prefix of length `min(k, len)` for `k >= 0`, and `max(0, len + k)` for `k < 0` |
| Ranking.TopK | mini_rag.py:39-44 | the ranked slice has `min(k, n)` entries for `k >= 0` (none for k = 0) and `max(0, n + k)` for `k < 0`, is in non-increasing score order, uses input triples only (sub-multiset), and is a permutation of the input when `k >= n` |
| Ranking.TopKStable | mini_rag.py:39-44 | for each score, the returned entries with that score are the first ones of that score in the input, in input order |
| Ranking.TopKDominance | mini_rag.py:39-44 | every triple left out scores no higher than any returned triple |
| Retriever.Zip | mini_rag.py:40 | `zip` has the length of its shortest input and its i-th triple is made of the i-th elements |
| Retriever.Corpus | mini_rag.py:40 | the zipped corpus has `min(|documents|, |scores|)` entries, and entry i is `(doc_<i>, documents[i], scores[i])` |
| Retriever.RetrieveTopK | mini_rag.py:29-44 | `retrieve_top_k` returns `min(k, n)` entries for `k >= 0` and `max(0, n + k)` for negative k, in non-increasing score order |
| Retriever.RetrieveFromCorpus | mini_rag.py:39-44 | every returned triple is the corpus triple `(doc_ids[i], documents[i], scores[i])` for the index i its identifier names |
| Retriever.RetrieveDistinct | mini_rag.py:39-44 | no corpus index is returned twice |
| Retriever.RetrieveStable | mini_rag.py:39-44 | returned triples with equal scores appear in corpus order |
| Retriever.RetrieveDominance | mini_rag.py:39-44 | a document that is not returned scores below every returned one, or ties with it and comes later in the corpus |
| Answer.Texts | mini_rag.py:51 | the projection keeps one text per retrieved triple, in order, and drops ids and scores |
| Answer.JoinPieces | mini_rag.py:52 | `Join(sep, xs)`, the model of `sep.join(xs)`, is the pieces in order: piece i starts at its offset, one separator follows every piece but the last, and the last piece ends the string |
| Answer.GenerateAnswer | mini_rag.py:46-59 | the answer starts with `"Question: " + query`, then the fixed header, then the space-joined texts, and ends with a newline; for no retrieved documents the joined part is empty |
| Answer.ContextOfAnswer | mini_rag.py:51-58 | given the question, the joined context can be read back from the answer unchanged |
| Answer.AnswerContainsText | mini_rag.py:51-58 | the text of the i-th retrieved document appears in the answer at the offset fixed by the template and the join |
| Answer.AnswerIgnoresIdsAndScores | mini_rag.py:51 | two retrieved lists with the same texts give the same answer, whatever their ids and scores |

## Left out

- Loading the embedding model and `model.encode` (mini_rag.py:1, 17, 21, 36): a foreign pretrained model. The query's scores are an input sequence instead.
- `cosine_similarity` (mini_rag.py:24-27): floating-point vector arithmetic with a `1e-10` correction on the norms. Scores are treated as exact, totally ordered reals.
- NaN scores: with NaN keys Python's sort has no total order. Real numbers have no NaN, so this case is not modelled.
- The hard-coded corpus (mini_rag.py:5-10) and the default `k=2` (mini_rag.py:29, 69): the corpus and k are parameters.
- The interactive loop (mini_rag.py:61-77): console input and output, `score:.3f` formatting, and the exit test `query.lower().strip() in ["exit", "quit"]`, which depends on Unicode case folding and whitespace.
