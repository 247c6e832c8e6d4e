/** The entities of the knowledge base, as the `Record` and `QueryResult`
    models declare them. */
module Records {
  import opened Wrappers

  /** A structured Lean name (module or declaration). Its representation
      belongs to the Lean front end and is left abstract; only equality is used. */
  type LeanName(==)

  /** The closed set of declaration kinds, also left abstract. */
  type DeclarationKind(==)

  /** One declaration of the knowledge base. `value` is absent for
      declarations without a body and `docstring` when there is no comment. */
  datatype Record = Record(
    moduleName: LeanName,
    kind: DeclarationKind,
    name: LeanName,
    signature: string,
    declType: string,
    value: Option<string>,
    docstring: Option<string>,
    informalName: string,
    informalDescription: string
  )

  /** A hydrated search hit: the record is never absent, and the distance is
      whatever the vector index reported, of an abstract type `D`. */
  datatype QueryResult<D> = QueryResult(result: Record, distance: D)

  /** The distances of a list of hits, in list order. */
  function Distances<D>(hits: seq<QueryResult<D>>): (ds: seq<D>)
    ensures |ds| == |hits|
    ensures forall j :: 0 <= j < |hits| ==> ds[j] == hits[j].distance
  {
    if hits == [] then [] else [hits[0].distance] + Distances(hits[1..])
  }

  /** `s` is non-decreasing under `le`: the rank order of a search result. */
  ghost predicate Ascending<D>(le: (D, D) -> bool, s: seq<D>)
  {
    forall i, j :: 0 <= i < j < |s| ==> le(s[i], s[j])
  }
}
