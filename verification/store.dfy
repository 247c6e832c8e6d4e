/** The relational metadata store, seen as two read-only keyed lookups.
    A table with at most one row per key is a finite map; `fetchone()`
    returning no row is `None`. */
module Store {
  import opened Wrappers
  import opened Records

  /** A position key: a module name and the ordinal text of a declaration in it. */
  type Position = (LeanName, string)

  datatype MetadataStore = MetadataStore(
    byName: map<LeanName, Record>,
    byPosition: map<Position, Record>
  )

  /** The row whose `name` equals `n`, if any. */
  function FetchByName(store: MetadataStore, n: LeanName): (r: Option<Record>)
    ensures r.Some? <==> n in store.byName
    ensures r.Some? ==> r.value == store.byName[n]
    ensures Consistent(store) && r.Some? ==> r.value.name == n
  {
    if n in store.byName then Some(store.byName[n]) else None
  }

  /** The row whose `module_name` and `index` equal the given pair, if any. */
  function FetchByPosition(store: MetadataStore, moduleName: LeanName, index: string): (r: Option<Record>)
    ensures r.Some? <==> (moduleName, index) in store.byPosition
    ensures r.Some? ==> r.value == store.byPosition[(moduleName, index)]
    ensures Consistent(store) && r.Some? ==> r.value.moduleName == moduleName
  {
    if (moduleName, index) in store.byPosition then Some(store.byPosition[(moduleName, index)]) else None
  }

  /** Both keys are the record's own columns: a row found by name carries
      that name, and a row found by position lives in that module. */
  ghost predicate Consistent(store: MetadataStore)
  {
    && (forall n :: n in store.byName ==> store.byName[n].name == n)
    && (forall p :: p in store.byPosition ==> store.byPosition[p].moduleName == p.0)
  }
}
