# LeanSearch retriever: read-path model

A Dafny model of the read path of `Retriever` in LeanSearch (`retrieve/retrieve.py`). That path answers two
kinds of request against a knowledge base of Lean declarations:

- **`batch_fetch`** looks each structured Lean name up in the metadata store. It returns one slot per name, in
  order, and a slot is empty when no record has that name.
- **`batch_search`** embeds natural-language queries and asks the vector index for the nearest documents.
  The index answers with per-query lists of ids `"<module>:<index>"` and distances. Each id is split at its
  first colon, with Python's `str.partition`. The module text is parsed into a Lean name, and the record at
  that (module, index) position is fetched from the store. The record is then paired with its distance as a
  `QueryResult`. Query order and rank order are both kept.

The collaborators are abstract:

- The metadata store is two finite maps: name → record and (module name, index text) → record.
- The Lean name parser is a parameter `string -> Option<LeanName>`. `None` stands for a raised parse error.
- The embedding model and the vector index are function parameters of `BatchSearch`.
- Distances have an abstract type `D`. Ordering is a relation `le` supplied by the caller, and no arithmetic
  is done on distances.
- `LeanName` and `DeclarationKind` are abstract types with equality.

A raised exception is modelled as `Err`. As in the source, the first failing hit ends the whole call, where
"first" means query order and then rank order. The model's contracts name that hit exactly.

Modules:

- `Wrappers` holds `Option` and `Result`, plus `Collect`, the "stop at the first exception" loop.
- `Zip` holds Python's `zip`.
- `Records` holds `Record`, `QueryResult`, `Distances` and `Ascending`.
- `Store` holds the two keyed lookups.
- `DocId` holds the id partition and its inverse.
- `Retriever` holds the operations.
- `RetrieverLaws` holds the lemmas about the whole batch.

### Behaviour worth knowing

- **Ids without a colon.** Such an id is not rejected at the split. `partition` yields the whole id as module
  text and `""` as index text. The call then fails only if the parser rejects that text or the store has no
  row at index `""` (`DecodeWithoutColon`, `IdWithoutColonAborts`, `MalformedHitSearch`).
- **Hydration misses.** A hydration miss has no dedicated error. `fetchone()` returns `None`, and building
  `QueryResult(result=None, ...)` is rejected by the record validation. So the whole call fails and no partial
  list is returned. The model has one error, `MissingRecord`, for this case.
- **Return type of `batch_fetch`.** It is annotated `list[Record]` but holds `None` on a miss. The model returns
  `seq<Option<Record>>`.
- **Outer length of `batch_search`.** This length is `zip`'s truncation of the index's two row lists, not
  `len(query)` by construction. It equals the number of queries whenever the index returns one ids row and one
  distances row per query, whatever those rows hold (`BatchSearch`).

## Model

| member | source | states |
|---|---|---|
| Wrappers.Collect | retrieve/retrieve.py:60-71 | This is the append loop that stops at its first exception. It succeeds exactly when every entry succeeds, and then it holds all their values in order. Otherwise it fails with the error of the first failing entry, and every entry before that one succeeded. |
| Wrappers.CollectAppend | retrieve/retrieve.py:60-71 | Running the loop over a concatenation is running it over each part and appending the results, and the first error wins. |
| Zip.ZipWith | retrieve/retrieve.py:62 | Walking both inputs as `zip` does, the result stops at the shorter input, so its length is the `min` of the two lengths. Entry `i` is built from the two `i`-th elements. |
| Zip.ZipWithAppend | retrieve/retrieve.py:60 | Zipping two concatenations whose first parts have equal length gives the two zips appended. |
| DocId.Partition | retrieve/retrieve.py:63 | `partition` with one separator. The separator part is empty exactly when the separator does not occur. If it is empty, the head is the whole string and the tail is empty. Otherwise the string is head + separator + tail, and the head has no separator. |
| DocId.Split | retrieve/retrieve.py:63 | The module text never holds a colon. An id with a colon is module text + `:` + index text. An id without one becomes (whole id, `""`). |
| DocId.PartitionAtFirst | retrieve/retrieve.py:63 | Every split `a + c + b` with no `c` in `a` is exactly the partition found. So the split is at the first separator, and later separators stay in the tail. |
| DocId.SplitCompose | retrieve/retrieve.py:63 | Round trip: when the module text has no colon, splitting `m + ":" + i` gives `(m, i)`, whatever colons `i` holds. |
| DocId.ComposeSplit | retrieve/retrieve.py:63 | Reverse round trip: an id that holds a colon is rebuilt exactly from its two parts. |
| DocId.ComposeInjective | retrieve/retrieve.py:63 | Ids built from colon-free module texts are equal only if both their parts are equal, so decoding never confuses two positions. |
| Store.FetchByName | retrieve/retrieve.py:44-48 | This is the point query by name. In a store whose rows sit under their own `name`, a row found for `n` is the record named `n`. No row is found exactly when no record has that name. |
| Store.FetchByPosition | retrieve/retrieve.py:65-69 | This is the point query by module name and index text. In a store whose rows sit under their own module, a row found for a position lies in that position's module. No row is found exactly when that position is not stored. |
| Retriever.BatchFetch | retrieve/retrieve.py:40-49 | There is one slot per name, in input order, and the list is never shortened. Slot `j` is filled exactly when the store has `names[j]`, and then it holds that row. |
| Retriever.Decode | retrieve/retrieve.py:63-64 | Decoding fails exactly when the parser rejects the text before the first colon, and then the error names that text. On success the module is the parsed name. The index is the text after the first colon, or `""` when there is no colon. |
| Retriever.Hydrate | retrieve/retrieve.py:63-70 | A hit hydrates exactly when its id decodes and the store holds the decoded position, and then the hit keeps its own distance. In a consistent store the hydrated record lies in the module parsed from the text before the id's first colon. A parse failure passes through unchanged. Otherwise the error is `MissingRecord` at the decoded position. |
| RetrieverLaws.HydrateCompose | retrieve/retrieve.py:63-70 | For an id `m + ":" + i` with colon-free `m` that parses to `n`, hydration gives the row stored at `(n, i)` with the hit's distance, or `MissingRecord(n, i)` when that position is not stored. |
| Retriever.FuseRow | retrieve/retrieve.py:61-71 | Succeeds exactly when every zipped hit hydrates. The row then has `min(|ids|, |distances|)` hits, and hit `j` is the hydration of pair `j`. On failure the error is the one from the first hit that fails, and every earlier hit hydrated. |
| Retriever.Fuse | retrieve/retrieve.py:58-72 | Succeeds exactly when every zipped row fuses. It then has `min` rows, and row `q` is the fusion of index row `q` alone. On failure the error is the one from the first failing row. |
| Retriever.BatchSearch | retrieve/retrieve.py:51-72 | A successful search has one list per zipped index row, and each list has one hit per zipped pair of that row. When the index returns one ids row and one distances row per query, there is one list per query. When each row also holds at most `numResults` hits, no list is longer than `numResults`. |
| RetrieverLaws.BatchFetchFindsByName | retrieve/retrieve.py:40-49 | In a consistent store, a filled slot holds a record whose name is the name asked for. An empty slot means no record has that name. |
| RetrieverLaws.BatchFetchAppend | retrieve/retrieve.py:43-48 | Lookups are independent: fetching a concatenation gives the concatenation of the two fetches. |
| RetrieverLaws.DecodeCompose | retrieve/retrieve.py:63-64 | An id `m + ":" + i` with colon-free `m` decodes to (parsed `m`, `i`). If the parser rejects `m`, the error names `m`. |
| RetrieverLaws.DecodeWithoutColon | retrieve/retrieve.py:63-64 | An id with no colon is not an error at the split. It decodes to (parsed id, `""`), so only the parser can fail. |
| RetrieverLaws.FuseContents | retrieve/retrieve.py:60-71 | In a successful fusion, outer length = `min` of the two row counts. Each inner length = `min` of that row's two lengths. Hit `(q, j)` carries exactly `distances[q][j]` and the stored record at the decoded position of `ids[q][j]`. |
| RetrieverLaws.FuseSucceedsIff | retrieve/retrieve.py:60-70 | The call succeeds if and only if every zipped hit of every zipped row decodes to a position the store holds. |
| RetrieverLaws.HydrationMissAborts | retrieve/retrieve.py:65-70 | One decoded hit missing from the store makes the whole call fail, and that hit's error names its position. The hit is not skipped, and no partial list is returned. |
| RetrieverLaws.IdWithoutColonAborts | retrieve/retrieve.py:63-70 | If the store holds no row at index `""`, a zipped hit without a colon makes the call fail. |
| RetrieverLaws.FuseHitsLieInTheirModule | retrieve/retrieve.py:63-69 | In a consistent store, every hit's record lies in the module parsed from its id. |
| RetrieverLaws.FuseKeepsDistances | retrieve/retrieve.py:62-70 | Each fused row's distances are the leading entries of the index's distance row, in the same order. |
| RetrieverLaws.FuseKeepsRankOrder | retrieve/retrieve.py:62-71 | If every index distance row is non-decreasing under `le`, so is every fused row. |
| RetrieverLaws.FuseSingleHit | retrieve/retrieve.py:60-71 | A one-row, one-hit answer fuses to `[[QueryResult(record, d)]]`, or fails with that hit's error. |
| RetrieverLaws.FuseAppend | retrieve/retrieve.py:58-72 | Fusing two answers together gives the two fusions appended, first error first. So each query's list sits at its own position whatever the other queries return. |
| RetrieverLaws.BatchSearchShape | retrieve/retrieve.py:51-72 | Suppose the index returns one row per query, with ids and distances of equal length, at most `numResults` per row, ranked. Then a successful search returns one list per query, each holding at most `numResults` hits, ranked. |
| RetrieverLaws.SingleHitSearch | retrieve/retrieve.py:51-72 | When the index answers `[["Nat:3"]]` with `[[0.12]]` and the store has record `r` at (`Nat`, `"3"`), the search returns exactly `[[QueryResult(r, 0.12)]]`. |
| RetrieverLaws.MalformedHitSearch | retrieve/retrieve.py:51-72 | When the index answers `"BadFormat"` and the store has no row at index `""`, the search fails and returns no list. |

## Left out

- Client setup is not modelled: the chromadb persistent client and the collection lookup (`retrieve/retrieve.py:34-35`). The nearest-neighbour search itself is a function parameter, and its answer is given input.
- Reading the instruction file and the `EMBEDDING_DEVICE` environment variable is not modelled, because it is file and process I/O.
- The `MistralEmbedding` model is an opaque function parameter `embed`. Its instruction preamble and its float vectors are not modelled.
- Failures raised by the embedding model, the vector index or the database connection are not modelled: `embed` and `query` are total. Such failures propagate unchanged in the source.
- SQL text, cursors and `Jsonb` encoding are replaced by map lookups. The index text is compared as a string, verbatim, so the SQL type coercion of the `index` column (for example, `"03"` against `3`) is not modelled.
- Duplicate rows are not modelled. A map holds at most one row per key, and `fetchone()` on a table with duplicates would return one arbitrary row.
- Mapping table columns onto `Record` fields (`class_row`) is not modelled. A found row is taken to be a valid `Record`.
- The internals of `parse_name`, `LeanName` and `DeclarationKind` are not visible, so they stay abstract.
- Float distances are not modelled. Distances have an abstract type, ordered only by the caller's `le`.
- Nothing forces `num_results` to be positive. It is passed through to the index unchanged, as in the source.
- The k-bound and the ascending order of index rows are promises of the index, not of this code. They appear as hypotheses: the `IndexPromise` of `BatchSearchShape`, the `IndexShape` of the third ensures of `BatchSearch` (k-bound), and the ascending-rows requires of `FuseKeepsRankOrder`.
