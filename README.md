# GNN parliament recommender: the similarity query

This project models the query step of the parliament recommender's query screen (`handleQuery`
in `GNNQueryInterface.tsx`). The dataset holds parliamentarians (`nodos`), agreement edges
between them (`aristas`), an object from each name to a row of the embedding matrix
(`parliamentarian_to_index`) and the matrix itself (`embeddings`). Given a selected name, the
query does four things:

1. It scores every row of the matrix against the subject's row.
2. It pairs each score with its row and sorts the pairs by descending score.
3. It keeps positions 1 to 5 of the sorted list.
4. It annotates each kept row:
   - its name is the first key stored with that row;
   - its sector is that of the first node with that name;
   - its agreement proportion comes from the first edge joining it to the subject in either
     orientation, and is absent when no edge does.

The query also returns the subject's own sector.

The model is pure. Apart from the similarity metric (its `reduce` arithmetic is left out, see
below), the code builds its result only from `map`, `sort`, `slice`, `Object.keys` and `find`,
so the model consists of functions over sequences and lemmas about them:

- `dataset.dfy` (module `Dataset`): the data types and the lookups. All the lookups are built on
  one find-first function.
- `ranking.dfy` (module `Ranking`): the pairing of scores with rows, the sort and the slice.
  The sort is written as a stable insertion sort. Stability is what section 22.1.3.27 of
  ECMA-262 (10th edition) requires of `Array.prototype.sort`. The lemmas show that any
  permutation of the pairs ordered by (descending score, ascending row) is exactly this list,
  so every conforming stable sort gives the same ranking.
- `query.dfy` (module `Query`): the query itself, its failure case and the Query button's
  state change. It also holds the corrected query described under "Findings".

`Query.Query` models the code as written. The comment beside the slice at
GNNQueryInterface.tsx:53 says it is meant to exclude the parliamentarian itself and keep the top
five. The code does not do that: it drops sorted position 0, whichever row holds it. The model
follows the code, and `Query.CorrectedQuery` is kept beside it as the corrected form.

The similarity metric is a parameter `metric(row, subject)` of the query. In the source it is
cosine similarity computed in floating point. The scores are reals, and the sort compares them
as the comparator `b.similarity - a.similarity` orders them.

The source throws a TypeError when the selected name has no row of a non-empty matrix. The
model returns `Err(SubjectNotIndexed)` in that case. With an empty matrix the source never
reads the subject's embedding, so it returns an empty neighbour list and no error; the model
does the same.

## Model

| member | source | states |
|---|---|---|
| `Dataset.FindFirst` | GNNQueryInterface.tsx:56-58 | `find` stops at the first element that satisfies the predicate: the returned position satisfies it and no earlier one does; None means no element satisfies it |
| `Dataset.RowOf` | GNNQueryInterface.tsx:40 | reading `index[name]`: absent exactly when no key equals the name, otherwise the row stored under the first such key |
| `Dataset.NameOf` | GNNQueryInterface.tsx:56 | a neighbour's name is the first key in key order whose row equals the neighbour's row, or "" when no key has that row |
| `Dataset.SectorOf` | GNNQueryInterface.tsx:57 | the sector is that of the first node with the given name, or "" when there is no such node (also used for the subject's sector, line 70) |
| `Dataset.AgreementBetween` | GNNQueryInterface.tsx:58-61 | the agreement proportion is present exactly when some edge joins the two names in either orientation; when present it is the value of the first such edge |
| `Dataset.AgreementIsSymmetric` | GNNQueryInterface.tsx:58-61 | the edge lookup gives the same answer with the subject and the neighbour swapped |
| `Dataset.NameOfRowOf` | GNNQueryInterface.tsx:56 | looking a name up and reversing the lookup on its row gives the name back, when no two keys share a row |
| `Dataset.RowOfNameOf` | GNNQueryInterface.tsx:40 | reversing a row to its name and looking the name up gives the row back, when keys are distinct |
| `Ranking.Indexed` | GNNQueryInterface.tsx:51 | pairing each score with its position gives one pair per row, rows in ascending order, each pair holding its own row's score |
| `Ranking.InsertPermutes` | GNNQueryInterface.tsx:52 | one step of the sort (`Insert`) adds exactly the inserted pair to the list |
| `Ranking.InsertKeepsOrder` | GNNQueryInterface.tsx:52 | `Insert` of a pair whose row precedes every row present keeps (descending score, ascending row) order: it goes ahead of equal scores, as stability demands |
| `Ranking.SortPermutes` | GNNQueryInterface.tsx:52 | the sort (`SortDescending`) only rearranges its input: same multiset, same length |
| `Ranking.SortOrders` | GNNQueryInterface.tsx:52 | `SortDescending` of pairs whose rows ascend yields (descending score, ascending row) order, which is what stability keeps for equal scores |
| `Ranking.RankedIsPermutation` | GNNQueryInterface.tsx:50-52 | the sorted list (`Ranked`) is a permutation of the pairs (row, score of row): every row appears exactly once, each with its own score |
| `Ranking.RankedIsOrdered` | GNNQueryInterface.tsx:51-52 | along `Ranked`, scores never increase, and equal scores appear in ascending row order |
| `Ranking.RankOrderIsUnique` | GNNQueryInterface.tsx:52 | two lists with the same elements, both in (descending score, ascending row) order, are equal |
| `Ranking.RankedIsDetermined` | GNNQueryInterface.tsx:50-52 | any permutation of the pairs in that order is `Ranked`, so every stable sort with this comparator produces the same ranking |
| `Ranking.Slice` | GNNQueryInterface.tsx:53 | `slice(start, end)` clamps both ends to the length; the result has the clamped length and element k is `s[start + k]` |
| `Ranking.TopSimilarShape` | GNNQueryInterface.tsx:50-53 | the kept list (`TopSimilar`) has `min(5, N - 1)` entries for N rows (none for no rows); entry k is sorted position k + 1, whatever row position 0 holds; its scores never increase |
| `Ranking.WithoutRow` | GNNQueryInterface.tsx:53 | the corrected exclusion removes exactly the entries of the given row and keeps every other entry |
| `Ranking.PrefixIsBest` | GNNQueryInterface.tsx:53 | in a list in ranking order, every entry kept by taking a prefix ranks ahead of every entry left out |
| `Ranking.TopSimilarExcludingIsCorrect` | GNNQueryInterface.tsx:53 | the corrected selection (`TopSimilarExcluding`) never holds the subject's row, holds each kept row with its own score, has `min(5, N - 1)` entries, keeps the ranking order, and ranks every kept entry ahead of every other row that was left out: it is the best five rows other than the subject's |
| `Ranking.TopSimilarExcludingAgrees` | GNNQueryInterface.tsx:53 | the corrected selection equals the source's whenever the subject's row is first in the sorted list |
| `Ranking.SubjectCanBeItsOwnNeighbour` | GNNQueryInterface.tsx:50-53 | when rows 0 and 1 share the top score and row 1 is the subject, the source keeps row 1 as the first neighbour and never keeps row 0; the corrected selection puts row 0 first |
| `Query.SubjectRow` | GNNQueryInterface.tsx:40-41 | the subject's row exists exactly when the selected name is a key and its stored value is a row of the matrix, and then it is that value |
| `Query.Scores` | GNNQueryInterface.tsx:40-48 | the scores are missing (the source throws) exactly when the matrix has rows and the subject has none; otherwise there is one per row, score i being the metric of row i against the subject's row |
| `Query.Enrich` | GNNQueryInterface.tsx:55-67 | a neighbour keeps its score; its name is the first key in key order stored with its row, or "" when no key is; its sector is that of the first node with its name, or "" when there is none; its agreement proportion is present exactly when an edge joins it to the subject in either orientation, and is then the value of the first such edge |
| `Query.EnrichAll` | GNNQueryInterface.tsx:55-68 | the neighbour list has one entry per kept row, entry k annotating row k, and scores that never increase stay that way |
| `Query.Query` | GNNQueryInterface.tsx:40-72 | the query fails exactly when the matrix has rows and the selected name is not a key or its stored value is not a row of the matrix; otherwise it lists `min(5, N - 1)` neighbours (none for no rows) with scores that never increase |
| `Query.QueryResultShape` | GNNQueryInterface.tsx:40-70 | a successful query scores row i as the metric of row i against the subject's row, and returns the subject's sector and `min(5, N - 1)` neighbours (none for no rows) with non-increasing scores. Neighbour k is built from sorted position k + 1. Its name is that of its row and its sector that of its name. Its agreement proportion is that of the first edge joining it to the subject, present exactly when such an edge exists |
| `Query.HandleQuery` | GNNQueryInterface.tsx:38-72 | with no data loaded, no name selected, or a failing query, the displayed result stays unchanged; otherwise it becomes the query's result |
| `Query.CorrectedQueryExcludesSubject` | GNNQueryInterface.tsx:53-68 | with distinct keys, a non-empty selection and a subject row present (or no rows at all), the corrected query (`CorrectedQuery`) succeeds and lists `min(5, N - 1)` neighbours, neighbour k built from entry k of the best rows other than the subject's, with scores that never increase, and never lists the subject by name |
| `Query.NameIsNotSubject` | GNNQueryInterface.tsx:56 | with distinct keys, a row other than the subject's never resolves to the subject's name |
| `Query.QueryListsSubjectFirst` | GNNQueryInterface.tsx:50-56 | with two equal embeddings in rows 0 and 1 and the subject on row 1, the source's first neighbour is the subject itself, while the corrected query's first neighbour is the name of row 0 |

## Findings

| source | as written | input that shows it | evidently intended | confidence | as-written member | corrected member |
|---|---|---|---|---|---|---|
| GNNQueryInterface.tsx:53 | `slice(1, 6)` drops sorted position 0, whichever row holds it, to exclude the subject | two equal embeddings, A on row 0 and B on row 1, querying B: both score the top similarity, the stable sort puts row 0 first, so B is listed as its own nearest neighbour and A is never listed | remove the subject's own row from the ranking, then take five | high; not executed | `Query.QueryListsSubjectFirst` | `Query.CorrectedQueryExcludesSubject` |

## Left out

- The cosine similarity arithmetic (GNNQueryInterface.tsx:44-48) is left out. It is floating point with `Math.sqrt` and division. A zero norm or a shorter subject vector yields NaN, and NaN breaks the comparator. The metric is a parameter returning reals, and the sort treats scores as totally ordered.
- Values of the name-to-row object are integers. A non-integer number stored there (which would also make the source throw) is not modelled.
- The name-to-row object is a sequence of (key, row) pairs in `Object.keys` order. JavaScript enumerates integer-like keys first, in numeric order; the model takes the sequence as already in enumeration order. Keys of a JavaScript object are distinct; the model does not require this and reads the first pair with the key.
- Query.Query: the TypeError is a returned error value, not an exception.
- Query.HandleQuery: when the query throws, the model keeps the displayed result unchanged but does not model the exception escaping the click handler.
- Loading the dataset with `fetch` and `response.json()` (GNNQueryInterface.tsx:31-35) is network I/O and is left out; the dataset is an input.
- React state and rendering (GNNQueryInterface.tsx:27-29, 75-127) are left out. The `setQueryResult` call at line 72 is modelled as the value `HandleQuery` returns.
- Number formatting with `toFixed(4)` and the `'N/A'` fallback (GNNQueryInterface.tsx:115, 117) is presentation and is left out.
- The image URL of a node is carried in the data type but not used by the query.
