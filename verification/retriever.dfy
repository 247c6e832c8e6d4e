/** The read path of `Retriever`: batch lookup by name, and batch semantic
    search, which decodes each document id the vector index returns, hydrates
    it from the metadata store and pairs it with its distance.

    The collaborators are parameters: `parseName` is the Lean name parser
    (`None` where it raises), `embed` the embedding model and `query` the
    vector index. A raised exception is an `Err`; as in the source, the first
    failing item, in query order and then rank order, ends the whole call. */
module Retriever {
  import opened Wrappers
  import opened Zip
  import opened Records
  import opened Store
  import DocId

  /** What can end a search call. */
  datatype SearchError =
    /** the module text of a document id is not a Lean name */
    | UnparsableModule(moduleText: string)
    /** the store has no row at the decoded position, so no `QueryResult` can be built */
    | MissingRecord(moduleName: LeanName, index: string)

  /** What the vector index answers: per query, the ids and distances of its hits. */
  datatype IndexResult<D> = IndexResult(ids: seq<seq<string>>, distances: seq<seq<D>>)

  // ---------------------------------------------------------------------
  // Batch lookup by name
  // ---------------------------------------------------------------------

  /** One slot per name, in order: the row with that name, or `None` on a miss.
      A miss neither shortens the list nor ends the call. */
  function BatchFetch(store: MetadataStore, names: seq<LeanName>): (slots: seq<Option<Record>>)
    ensures |slots| == |names|
    ensures forall j :: 0 <= j < |names| ==> (slots[j].Some? <==> names[j] in store.byName)
    ensures forall j :: 0 <= j < |names| && slots[j].Some? ==> slots[j].value == store.byName[names[j]]
  {
    if names == [] then []
    else [FetchByName(store, names[0])] + BatchFetch(store, names[1..])
  }

  // ---------------------------------------------------------------------
  // Decoding and hydrating one hit
  // ---------------------------------------------------------------------

  /** The store position a document id names: the parsed text before the first
      colon and the verbatim text after it. Splitting never fails; only the
      parser can. */
  function Decode(parseName: string -> Option<LeanName>, docId: string): (r: Result<Position, SearchError>)
    ensures r.Err? <==> parseName(DocId.Split(docId).0).None?
    ensures r.Err? ==> r.error == UnparsableModule(DocId.Split(docId).0)
    ensures r.Ok? ==> Some(r.value.0) == parseName(DocId.Split(docId).0)
    ensures r.Ok? && DocId.Colon in docId ==> docId == DocId.Split(docId).0 + [DocId.Colon] + r.value.1
    ensures r.Ok? && DocId.Colon !in docId ==> r.value.1 == ""
  {
    var (moduleText, index) := DocId.Split(docId);
    match parseName(moduleText)
    case None => Err(UnparsableModule(moduleText))
    case Some(moduleName) => Ok((moduleName, index))
  }

  /** One index hit made into a `QueryResult`: the record at the position its
      id decodes to, with the hit's own distance. A position the store does
      not hold gives no record, and a result without one is refused. */
  function Hydrate<D>(store: MetadataStore, parseName: string -> Option<LeanName>,
                      docId: string, distance: D): (r: Result<QueryResult<D>, SearchError>)
    ensures r.Ok? <==> Decode(parseName, docId).Ok? && Decode(parseName, docId).value in store.byPosition
    ensures r.Ok? ==> r.value.result == store.byPosition[Decode(parseName, docId).value]
    ensures r.Ok? ==> r.value.distance == distance
    ensures Decode(parseName, docId).Err? ==> r == Err(Decode(parseName, docId).error)
    ensures Decode(parseName, docId).Ok? && r.Err? ==>
              r.error == MissingRecord(Decode(parseName, docId).value.0, Decode(parseName, docId).value.1)
    ensures Consistent(store) && r.Ok? ==> Some(r.value.result.moduleName) == parseName(DocId.Split(docId).0)
  {
    match Decode(parseName, docId)
    case Err(e) => Err(e)
    case Ok(pos) =>
      match FetchByPosition(store, pos.0, pos.1)
      case None => Err(MissingRecord(pos.0, pos.1))
      case Some(rec) => Ok(QueryResult(rec, distance))
  }

  // ---------------------------------------------------------------------
  // Fusion of the index answer with the store
  // ---------------------------------------------------------------------

  /** One query's hits: `ids` and `distances` zipped (so cut to the shorter),
      each pair hydrated, in rank order; the first failing hit ends the call. */
  function FuseRow<D>(store: MetadataStore, parseName: string -> Option<LeanName>,
                      ids: seq<string>, distances: seq<D>): (r: Result<seq<QueryResult<D>>, SearchError>)
    ensures r.Ok? <==> forall j :: 0 <= j < Min(|ids|, |distances|) ==> Hydrate(store, parseName, ids[j], distances[j]).Ok?
    ensures r.Ok? ==> |r.value| == Min(|ids|, |distances|)
    ensures r.Ok? ==> forall j :: 0 <= j < |r.value| ==> Hydrate(store, parseName, ids[j], distances[j]) == Ok(r.value[j])
    ensures r.Err? ==> (exists j :: 0 <= j < Min(|ids|, |distances|)
                          && Hydrate(store, parseName, ids[j], distances[j]) == Err(r.error)
                          && forall i :: 0 <= i < j ==> Hydrate(store, parseName, ids[i], distances[i]).Ok?)
  {
    Collect(ZipWith((docId, distance) => Hydrate(store, parseName, docId, distance), ids, distances))
  }

  /** All queries' hits: the rows of the index answer zipped, each fused by
      `FuseRow`, in query order; the first failing row ends the call. */
  function Fuse<D>(store: MetadataStore, parseName: string -> Option<LeanName>,
                   ids: seq<seq<string>>, distances: seq<seq<D>>): (r: Result<seq<seq<QueryResult<D>>>, SearchError>)
    ensures r.Ok? <==> forall q :: 0 <= q < Min(|ids|, |distances|) ==> FuseRow(store, parseName, ids[q], distances[q]).Ok?
    ensures r.Ok? ==> |r.value| == Min(|ids|, |distances|)
    ensures r.Ok? ==> forall q :: 0 <= q < |r.value| ==> FuseRow(store, parseName, ids[q], distances[q]) == Ok(r.value[q])
    ensures r.Err? ==> (exists q :: 0 <= q < Min(|ids|, |distances|)
                          && FuseRow(store, parseName, ids[q], distances[q]) == Err(r.error)
                          && forall p :: 0 <= p < q ==> FuseRow(store, parseName, ids[p], distances[p]).Ok?)
  {
    Collect(ZipWith((rowIds, rowDistances) => FuseRow(store, parseName, rowIds, rowDistances), ids, distances))
  }

  /** The shape the vector index promises: one row per query, ids and
      distances of equal length, at most `k` hits per row. */
  ghost predicate IndexShape<D>(answer: IndexResult<D>, queryCount: nat, k: int)
  {
    && |answer.ids| == queryCount
    && |answer.distances| == queryCount
    && (forall q :: 0 <= q < queryCount ==> |answer.ids[q]| == |answer.distances[q]| <= k)
  }

  /** All the vector index promises: its shape, and each row ranked by `le`. */
  ghost predicate IndexPromise<D>(le: (D, D) -> bool, answer: IndexResult<D>, queryCount: nat, k: int)
  {
    && IndexShape(answer, queryCount, k)
    && (forall q :: 0 <= q < queryCount ==> Ascending(le, answer.distances[q]))
  }

  /** `batch_search`: embed the queries, ask the index for `numResults`
      neighbours of each, and fuse its answer with the store. */
  function BatchSearch<V, D>(embed: seq<string> -> seq<V>, query: (seq<V>, int) -> IndexResult<D>,
                             store: MetadataStore, parseName: string -> Option<LeanName>,
                             queries: seq<string>, numResults: int): (r: Result<seq<seq<QueryResult<D>>>, SearchError>)
    ensures var answer := query(embed(queries), numResults);
            r.Ok? ==> && |r.value| == Min(|answer.ids|, |answer.distances|)
                      && forall q :: 0 <= q < |r.value| ==> |r.value[q]| == Min(|answer.ids[q]|, |answer.distances[q]|)
    ensures var answer := query(embed(queries), numResults);
            |answer.ids| == |queries| == |answer.distances| && r.Ok? ==> |r.value| == |queries|
    ensures IndexShape(query(embed(queries), numResults), |queries|, numResults) && r.Ok? ==>
              forall q :: 0 <= q < |r.value| ==> |r.value[q]| <= numResults
  {
    var answer := query(embed(queries), numResults);
    var r := Fuse(store, parseName, answer.ids, answer.distances);
    assert r.Ok? ==> forall q :: 0 <= q < |r.value| ==>
             FuseRow(store, parseName, answer.ids[q], answer.distances[q]) == Ok(r.value[q]);
    r
  }
}
