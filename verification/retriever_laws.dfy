/** Laws of the read path: what a caller of `batch_fetch` and `batch_search`
    can rely on, stated over the whole batch. */
module RetrieverLaws {
  import opened Wrappers
  import opened Zip
  import opened Records
  import opened Store
  import DocId
  import opened Retriever

  // ---------------------------------------------------------------------
  // Batch lookup by name
  // ---------------------------------------------------------------------

  /** In a consistent store every filled slot holds the record of exactly
      the name asked for, and a slot is empty only when no row has that name. */
  lemma BatchFetchFindsByName(store: MetadataStore, names: seq<LeanName>)
    requires Consistent(store)
    ensures forall j :: 0 <= j < |names| ==>
              match BatchFetch(store, names)[j]
              case Some(rec) => rec.name == names[j]
              case None => names[j] !in store.byName
  {
    var slots := BatchFetch(store, names);
    forall j | 0 <= j < |names|
      ensures match slots[j]
              case Some(rec) => rec.name == names[j]
              case None => names[j] !in store.byName
    {
      if slots[j].Some? {
        assert slots[j].value == store.byName[names[j]];
      }
    }
  }

  /** Looking names up in two batches is looking them up in one. */
  lemma {:induction false} BatchFetchAppend(store: MetadataStore, names1: seq<LeanName>, names2: seq<LeanName>)
    ensures BatchFetch(store, names1 + names2) == BatchFetch(store, names1) + BatchFetch(store, names2)
  {
    if names1 == [] {
      assert names1 + names2 == names2;
    } else {
      assert (names1 + names2)[1..] == names1[1..] + names2;
      BatchFetchAppend(store, names1[1..], names2);
    }
  }

  // ---------------------------------------------------------------------
  // Decoding
  // ---------------------------------------------------------------------

  /** An id composed from a colon-free module text decodes to that module's
      parsed name and the index text unchanged. */
  lemma DecodeCompose(parseName: string -> Option<LeanName>, moduleText: string, index: string)
    requires DocId.Colon !in moduleText
    ensures Decode(parseName, DocId.Compose(moduleText, index)) ==
              match parseName(moduleText)
              case Some(n) => Ok((n, index))
              case None => Err(UnparsableModule(moduleText))
  {
    DocId.SplitCompose(moduleText, index);
  }

  /** Hydrating an id composed from a colon-free module text that parses to
      `n` gives the row stored at `(n, index)` with the hit's distance, or a
      `MissingRecord` naming exactly that position. */
  lemma HydrateCompose<D>(store: MetadataStore, parseName: string -> Option<LeanName>,
                          moduleText: string, index: string, n: LeanName, d: D)
    requires DocId.Colon !in moduleText
    requires parseName(moduleText) == Some(n)
    ensures Hydrate(store, parseName, DocId.Compose(moduleText, index), d) ==
              if (n, index) in store.byPosition then Ok(QueryResult(store.byPosition[(n, index)], d))
              else Err(MissingRecord(n, index))
  {
    DocId.SplitCompose(moduleText, index);
  }

  /** An id with no colon is not rejected by the split: the whole id is the
      module text and the index text is empty, so only the parser can fail. */
  lemma DecodeWithoutColon(parseName: string -> Option<LeanName>, docId: string)
    requires DocId.Colon !in docId
    ensures Decode(parseName, docId) ==
              match parseName(docId)
              case Some(n) => Ok((n, ""))
              case None => Err(UnparsableModule(docId))
  {
  }

  // ---------------------------------------------------------------------
  // Shape and content of a fused answer
  // ---------------------------------------------------------------------

  /** A successful fusion has one list per zipped row and, in row `q`, one hit
      per zipped pair: hit `j` is the stored record at the position `ids[q][j]`
      decodes to, with exactly the distance `distances[q][j]`. */
  lemma FuseContents<D>(store: MetadataStore, parseName: string -> Option<LeanName>,
                        ids: seq<seq<string>>, distances: seq<seq<D>>)
    requires Fuse(store, parseName, ids, distances).Ok?
    ensures var rows := Fuse(store, parseName, ids, distances).value;
            && |rows| == Min(|ids|, |distances|)
            && (forall q :: 0 <= q < |rows| ==> |rows[q]| == Min(|ids[q]|, |distances[q]|))
            && (forall q, j :: 0 <= q < |rows| && 0 <= j < |rows[q]| ==>
                  && rows[q][j].distance == distances[q][j]
                  && Decode(parseName, ids[q][j]).Ok?
                  && Decode(parseName, ids[q][j]).value in store.byPosition
                  && rows[q][j].result == store.byPosition[Decode(parseName, ids[q][j]).value])
  {
    var rows: seq<seq<QueryResult<D>>> := Fuse(store, parseName, ids, distances).value;
    forall q | 0 <= q < |rows|
      ensures |rows[q]| == Min(|ids[q]|, |distances[q]|)
      ensures forall j :: 0 <= j < |rows[q]| ==>
                && rows[q][j].distance == distances[q][j]
                && Decode(parseName, ids[q][j]).Ok?
                && Decode(parseName, ids[q][j]).value in store.byPosition
                && rows[q][j].result == store.byPosition[Decode(parseName, ids[q][j]).value]
    {
      assert FuseRow(store, parseName, ids[q], distances[q]) == Ok(rows[q]);
      forall j | 0 <= j < |rows[q]|
        ensures rows[q][j].distance == distances[q][j]
      {
        assert Hydrate(store, parseName, ids[q][j], distances[q][j]) == Ok(rows[q][j]);
      }
    }
  }

  /** The call succeeds exactly when every zipped hit of every zipped row
      decodes to a position the store holds. */
  lemma FuseSucceedsIff<D>(store: MetadataStore, parseName: string -> Option<LeanName>,
                           ids: seq<seq<string>>, distances: seq<seq<D>>)
    ensures Fuse(store, parseName, ids, distances).Ok? <==>
              forall q, j :: 0 <= q < Min(|ids|, |distances|) && 0 <= j < Min(|ids[q]|, |distances[q]|) ==>
                Decode(parseName, ids[q][j]).Ok? && Decode(parseName, ids[q][j]).value in store.byPosition
  {
    if Fuse(store, parseName, ids, distances).Ok? {
      forall q, j | 0 <= q < Min(|ids|, |distances|) && 0 <= j < Min(|ids[q]|, |distances[q]|)
        ensures Decode(parseName, ids[q][j]).Ok? && Decode(parseName, ids[q][j]).value in store.byPosition
      {
        assert FuseRow(store, parseName, ids[q], distances[q]).Ok?;
        assert Hydrate(store, parseName, ids[q][j], distances[q][j]).Ok?;
      }
    } else {
      var q :| 0 <= q < Min(|ids|, |distances|) && FuseRow(store, parseName, ids[q], distances[q]).Err?;
      var j :| 0 <= j < Min(|ids[q]|, |distances[q]|) && Hydrate(store, parseName, ids[q][j], distances[q][j]).Err?;
    }
  }

  /** A hit whose position the store does not hold ends the whole call with
      an error naming that position; no partial list is returned, and nothing
      is skipped. */
  lemma HydrationMissAborts<D>(store: MetadataStore, parseName: string -> Option<LeanName>,
                               ids: seq<seq<string>>, distances: seq<seq<D>>, q: nat, j: nat)
    requires q < Min(|ids|, |distances|) && j < Min(|ids[q]|, |distances[q]|)
    requires Decode(parseName, ids[q][j]).Ok?
    requires Decode(parseName, ids[q][j]).value !in store.byPosition
    ensures Fuse(store, parseName, ids, distances).Err?
    ensures Hydrate(store, parseName, ids[q][j], distances[q][j]) ==
              Err(MissingRecord(Decode(parseName, ids[q][j]).value.0, Decode(parseName, ids[q][j]).value.1))
  {
    FuseSucceedsIff(store, parseName, ids, distances);
  }

  /** An id without a colon asks for the empty index text; if the store holds
      no row there, the call fails, either in the parser or at hydration. */
  lemma IdWithoutColonAborts<D>(store: MetadataStore, parseName: string -> Option<LeanName>,
                                ids: seq<seq<string>>, distances: seq<seq<D>>, q: nat, j: nat)
    requires q < Min(|ids|, |distances|) && j < Min(|ids[q]|, |distances[q]|)
    requires DocId.Colon !in ids[q][j]
    requires forall pos :: pos in store.byPosition ==> pos.1 != ""
    ensures Fuse(store, parseName, ids, distances).Err?
  {
    FuseSucceedsIff(store, parseName, ids, distances);
    DecodeWithoutColon(parseName, ids[q][j]);
  }

  /** In a consistent store every hit lies in the module its id names. */
  lemma FuseHitsLieInTheirModule<D>(store: MetadataStore, parseName: string -> Option<LeanName>,
                                    ids: seq<seq<string>>, distances: seq<seq<D>>)
    requires Consistent(store)
    requires Fuse(store, parseName, ids, distances).Ok?
    ensures var rows := Fuse(store, parseName, ids, distances).value;
            forall q, j :: 0 <= q < |rows| && 0 <= j < |rows[q]| ==>
              Some(rows[q][j].result.moduleName) == parseName(DocId.Split(ids[q][j]).0)
  {
    FuseContents(store, parseName, ids, distances);
  }

  // ---------------------------------------------------------------------
  // Order
  // ---------------------------------------------------------------------

  /** Each fused row's distances are the first entries of the index's distance
      row, in the same order. */
  lemma FuseKeepsDistances<D>(store: MetadataStore, parseName: string -> Option<LeanName>,
                              ids: seq<seq<string>>, distances: seq<seq<D>>)
    requires Fuse(store, parseName, ids, distances).Ok?
    ensures var rows := Fuse(store, parseName, ids, distances).value;
            forall q :: 0 <= q < |rows| ==> Distances(rows[q]) == distances[q][..|rows[q]|]
  {
    FuseContents(store, parseName, ids, distances);
  }

  /** If the index ranks every row by non-decreasing distance, so is every
      fused row: fusion neither reorders nor drops hits inside a row. */
  lemma FuseKeepsRankOrder<D>(le: (D, D) -> bool, store: MetadataStore, parseName: string -> Option<LeanName>,
                              ids: seq<seq<string>>, distances: seq<seq<D>>)
    requires forall q :: 0 <= q < |distances| ==> Ascending(le, distances[q])
    requires Fuse(store, parseName, ids, distances).Ok?
    ensures var rows := Fuse(store, parseName, ids, distances).value;
            forall q :: 0 <= q < |rows| ==> Ascending(le, Distances(rows[q]))
  {
    var rows := Fuse(store, parseName, ids, distances).value;
    FuseKeepsDistances(store, parseName, ids, distances);
    forall q | 0 <= q < |rows|
      ensures Ascending(le, Distances(rows[q]))
    {
      assert Ascending(le, distances[q]);
      assert Distances(rows[q]) == distances[q][..|rows[q]|];
    }
  }

  /** Fusing two index answers in one call is fusing them apart and appending:
      a query's hits land at its own position whatever the other queries hold. */
  lemma FuseAppend<D>(store: MetadataStore, parseName: string -> Option<LeanName>,
                      ids1: seq<seq<string>>, distances1: seq<seq<D>>,
                      ids2: seq<seq<string>>, distances2: seq<seq<D>>)
    requires |ids1| == |distances1|
    ensures Fuse(store, parseName, ids1 + ids2, distances1 + distances2) ==
              Concat(Fuse(store, parseName, ids1, distances1), Fuse(store, parseName, ids2, distances2))
  {
    var fuseRow := (rowIds, rowDistances) => FuseRow(store, parseName, rowIds, rowDistances);
    ZipWithAppend(fuseRow, ids1, distances1, ids2, distances2);
    CollectAppend(ZipWith(fuseRow, ids1, distances1), ZipWith(fuseRow, ids2, distances2));
  }

  /** An answer of one row with one hit fuses to that hit's `QueryResult`, or
      fails as hydrating that hit fails. */
  lemma FuseSingleHit<D>(store: MetadataStore, parseName: string -> Option<LeanName>, docId: string, d: D)
    ensures Fuse(store, parseName, [[docId]], [[d]]) ==
              match Hydrate(store, parseName, docId, d)
              case Ok(hit) => Ok([[hit]])
              case Err(e) => Err(e)
  {
    var row := FuseRow(store, parseName, [docId], [d]);
    assert [docId][0] == docId && [d][0] == d;
    match Hydrate(store, parseName, docId, d) {
      case Ok(hit) =>
        assert row.Ok? && |row.value| == 1 && row.value[0] == hit;
        assert row.value == [hit];
        var rows := Fuse(store, parseName, [[docId]], [[d]]);
        assert [[docId]][0] == [docId] && [[d]][0] == [d];
        assert rows.Ok? && |rows.value| == 1 && rows.value[0] == [hit];
        assert rows.value == [[hit]];
      case Err(e) =>
        assert row == Err(e);
        assert [[docId]][0] == [docId] && [[d]][0] == [d];
    }
  }

  // ---------------------------------------------------------------------
  // Whole search call
  // ---------------------------------------------------------------------

  /** When the index keeps its promise, a successful search has one result list
      per query, in query order, each of at most `numResults` hits, ranked. */
  lemma BatchSearchShape<V, D>(le: (D, D) -> bool,
                               embed: seq<string> -> seq<V>, query: (seq<V>, int) -> IndexResult<D>,
                               store: MetadataStore, parseName: string -> Option<LeanName>,
                               queries: seq<string>, numResults: int)
    requires IndexPromise(le, query(embed(queries), numResults), |queries|, numResults)
    requires BatchSearch(embed, query, store, parseName, queries, numResults).Ok?
    ensures var rows := BatchSearch(embed, query, store, parseName, queries, numResults).value;
            && |rows| == |queries|
            && (forall q :: 0 <= q < |rows| ==> |rows[q]| <= numResults)
            && (forall q :: 0 <= q < |rows| ==> Ascending(le, Distances(rows[q])))
  {
    var answer := query(embed(queries), numResults);
    FuseContents(store, parseName, answer.ids, answer.distances);
    FuseKeepsRankOrder(le, store, parseName, answer.ids, answer.distances);
  }

  /** One query whose single hit is `"Nat:3"` at distance 0.12 comes back as
      that one record with that distance. */
  lemma SingleHitSearch<V>(embed: seq<string> -> seq<V>, query: (seq<V>, int) -> IndexResult<real>,
                           store: MetadataStore, parseName: string -> Option<LeanName>,
                           natModule: LeanName, rec: Record)
    requires parseName("Nat") == Some(natModule)
    requires (natModule, "3") in store.byPosition && store.byPosition[(natModule, "3")] == rec
    requires query(embed(["addition of naturals"]), 1) == IndexResult([["Nat:3"]], [[0.12]])
    ensures BatchSearch(embed, query, store, parseName, ["addition of naturals"], 1) == Ok([[QueryResult(rec, 0.12)]])
  {
    assert "Nat:3" == DocId.Compose("Nat", "3");
    DecodeCompose(parseName, "Nat", "3");
    FuseSingleHit(store, parseName, "Nat:3", 0.12);
  }

  /** An index answer `"BadFormat"` fails the call when no stored row has an
      empty index text: no partial list comes back for that query. */
  lemma MalformedHitSearch<V, D>(embed: seq<string> -> seq<V>, query: (seq<V>, int) -> IndexResult<D>,
                                 store: MetadataStore, parseName: string -> Option<LeanName>,
                                 queries: seq<string>, numResults: int, d: D)
    requires query(embed(queries), numResults) == IndexResult([["BadFormat"]], [[d]])
    requires forall pos :: pos in store.byPosition ==> pos.1 != ""
    ensures BatchSearch(embed, query, store, parseName, queries, numResults).Err?
  {
    IdWithoutColonAborts(store, parseName, [["BadFormat"]], [[d]], 0, 0);
  }
}
