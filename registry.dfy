/** The node registry: the participating nodes of the live graph, in graph order. */
module Registry {
  import opened Graph

  /** The live nodes whose kind takes part in document input/output, in the
      order the graph lists them. */
  function FilterKrita(nodes: seq<Node>): (r: seq<Node>)
    ensures |r| <= |nodes|
    ensures forall n :: n in r ==> n in nodes && IsKritaType(n.nodeType)
    ensures forall n :: n in nodes && IsKritaType(n.nodeType) ==> n in r
  {
    if nodes == [] then []
    else
      var last := nodes[|nodes| - 1];
      FilterKrita(nodes[..|nodes| - 1]) + (if IsKritaType(last.nodeType) then [last] else [])
  }

  /** Filtering respects graph order: the filter of a concatenation is the
      concatenation of the filters. */
  lemma {:induction false} FilterKritaAppend(a: seq<Node>, b: seq<Node>)
    ensures FilterKrita(a + b) == FilterKrita(a) + FilterKrita(b)
    decreases |b|
  {
    if b == [] {
      assert a + b == a;
    } else {
      var b' := b[..|b| - 1];
      assert (a + b)[..|a + b| - 1] == a + b';
      FilterKritaAppend(a, b');
    }
  }

  /** Rebuilding the registry from the registry itself changes nothing. */
  lemma {:induction false} FilterKritaIdempotent(nodes: seq<Node>)
    ensures FilterKrita(FilterKrita(nodes)) == FilterKrita(nodes)
    decreases |nodes|
  {
    if nodes != [] {
      var init := nodes[..|nodes| - 1];
      var last := nodes[|nodes| - 1];
      var tail := if IsKritaType(last.nodeType) then [last] else [];
      FilterKritaIdempotent(init);
      FilterKritaAppend(FilterKrita(init), tail);
      if IsKritaType(last.nodeType) {
        assert FilterKrita(tail) == FilterKrita([]) + [last] by {
          assert tail[..|tail| - 1] == [];
        }
      }
    }
  }
}
