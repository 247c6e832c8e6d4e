/** The vector-index document id `"<module>:<index>"` and how the read path
    takes it apart: Python's `str.partition(":")`, which splits at the first
    separator and never fails. */
module DocId {

  const Colon: char := ':'

  /** The three parts `str.partition` returns: the text before the first
      separator, the separator itself (empty when it does not occur), and
      the text after it. */
  datatype Parts = Parts(head: string, sep: string, tail: string)

  /** `s.partition(c)` for a one-character separator `c`. */
  function Partition(s: string, c: char): (p: Parts)
    ensures p.sep == [] <==> c !in s
    ensures p.sep == [] ==> p.head == s && p.tail == []
    ensures p.sep != [] ==> p.sep == [c] && c !in p.head && s == p.head + [c] + p.tail
    decreases |s|
  {
    if s == [] then Parts([], [], [])
    else if s[0] == c then Parts([], [c], s[1..])
    else
      var p := Partition(s[1..], c);
      Parts([s[0]] + p.head, p.sep, p.tail)
  }

  /** A document id split into its module text and its index text; the
      separator is dropped, as the read path discards it. */
  function Split(docId: string): (parts: (string, string))
    ensures Colon !in parts.0
    ensures Colon in docId ==> docId == parts.0 + [Colon] + parts.1
    ensures Colon !in docId ==> parts == (docId, "")
  {
    var p := Partition(docId, Colon);
    (p.head, p.tail)
  }

  /** The id the index stores for the declaration at `index` in module `moduleText`. */
  function Compose(moduleText: string, index: string): (docId: string)
    ensures Colon in docId
    ensures |docId| == |moduleText| + 1 + |index|
  {
    moduleText + [Colon] + index
  }

  /** A split `a + [c] + b` with no `c` in `a` is the one `Partition` finds:
      the separator is the first one, and later ones stay in the tail. */
  lemma PartitionAtFirst(a: string, c: char, b: string)
    requires c !in a
    ensures Partition(a + [c] + b, c) == Parts(a, [c], b)
  {
    var s := a + [c] + b;
    var p := Partition(s, c);
    assert s[|a|] == c;
    assert s == p.head + [c] + p.tail;
    assert s[|p.head|] == c;
    assert forall k :: 0 <= k < |a| ==> s[k] == a[k];
    assert forall k :: 0 <= k < |p.head| ==> s[k] == p.head[k];
    assert |p.head| == |a|;
    assert p.head == s[..|a|] == a;
    assert p.tail == s[|a| + 1..] == b;
  }

  /** Round trip: splitting a composed id gives back its two parts whenever
      the module text has no colon; the index text may hold any colons. */
  lemma SplitCompose(moduleText: string, index: string)
    requires Colon !in moduleText
    ensures Split(Compose(moduleText, index)) == (moduleText, index)
  {
    PartitionAtFirst(moduleText, Colon, index);
  }

  /** The other round trip: an id with a colon is recomposed from its parts.
      It follows directly from the contract of `Split`, restated with `Compose`. */
  lemma ComposeSplit(docId: string)
    requires Colon in docId
    ensures Compose(Split(docId).0, Split(docId).1) == docId
  {
  }

  /** Two ids with colon-free module texts are equal only when both parts are. */
  lemma ComposeInjective(m1: string, i1: string, m2: string, i2: string)
    requires Colon !in m1 && Colon !in m2
    requires Compose(m1, i1) == Compose(m2, i2)
    ensures m1 == m2 && i1 == i2
  {
    SplitCompose(m1, i1);
    SplitCompose(m2, i2);
  }
}
