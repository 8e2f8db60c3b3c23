/** The document usage map: registry nodes grouped by the document their
    "document" widget selects, keyed by that value as an object key. */
module Usage {
  import opened JsValues
  import opened Graph

  /** The key a node is grouped under: the serialised value at the position of
      its first "document" widget (undefined past the end of the values), or
      no key at all when the node has no such widget. */
  function DocumentKey(n: Node): (r: Option<string>)
    reads n
    ensures r.None? <==> forall j :: 0 <= j < |n.widgets| ==> !IsDocumentWidget(n.widgets[j])
    ensures forall i ::
      (0 <= i < |n.widgets| && IsDocumentWidget(n.widgets[i]) &&
       (forall j :: 0 <= j < i ==> !IsDocumentWidget(n.widgets[j]))) ==>
        r == Some(if i < |n.widgetsValues| then KeyString(n.widgetsValues[i]) else "undefined")
  {
    match FindIndex(n.widgets, IsDocumentWidget)
    case None => None
    case Some(i) => Some(KeyString(if i < |n.widgetsValues| then n.widgetsValues[i] else Undefined))
  }

  /** What grouping reads of one registry node: its `{id, type}` and the key
      it is grouped under. */
  datatype Entry = Entry(ref: NodeRef, key: Option<string>)

  /** The registry as grouping sees it, node by node. */
  function Entries(nodes: seq<Node>): (r: seq<Entry>)
    reads nodes
    ensures |r| == |nodes|
  {
    if nodes == [] then []
    else Entries(nodes[..|nodes| - 1]) + [Entry(RefOf(nodes[|nodes| - 1]), DocumentKey(nodes[|nodes| - 1]))]
  }

  /** Entry `i` describes node `i`. */
  lemma {:induction false} EntriesAt(nodes: seq<Node>, i: int)
    requires 0 <= i < |nodes|
    ensures Entries(nodes)[i] == Entry(RefOf(nodes[i]), DocumentKey(nodes[i]))
    decreases |nodes|
  {
    if i < |nodes| - 1 {
      var init := nodes[..|nodes| - 1];
      EntriesAt(init, i);
      assert init[i] == nodes[i];
    }
  }

  /** The references of the entries grouped under `k`, in registry order. */
  function Bucket(entries: seq<Entry>, k: string): seq<NodeRef>
  {
    if entries == [] then []
    else
      var last := entries[|entries| - 1];
      Bucket(entries[..|entries| - 1], k) + (if last.key == Some(k) then [last.ref] else [])
  }

  /** The keys some node of `entries` is grouped under. */
  function UsedKeys(entries: seq<Entry>): (r: set<string>)
  {
    if entries == [] then {}
    else
      var last := entries[|entries| - 1];
      UsedKeys(entries[..|entries| - 1]) + (if last.key.Some? then {last.key.value} else {})
  }

  /** A key is used exactly when some registry node is grouped under it. */
  lemma {:induction false} UsedKeysMembers(entries: seq<Entry>, k: string)
    ensures k in UsedKeys(entries) <==> exists i :: 0 <= i < |entries| && entries[i].key == Some(k)
    decreases |entries|
  {
    if entries != [] {
      var init := entries[..|entries| - 1];
      UsedKeysMembers(init, k);
      if k in UsedKeys(init) {
        var i :| 0 <= i < |init| && init[i].key == Some(k);
        assert entries[i] == init[i];
      }
      if exists i :: 0 <= i < |entries| && entries[i].key == Some(k) {
        var i :| 0 <= i < |entries| && entries[i].key == Some(k);
        if i < |init| {
          assert init[i] == entries[i];
        }
      }
    }
  }

  /** The usage map, one grouping step per registry node: a node with a
      "document" widget appends its reference to the bucket of its key,
      creating the bucket on first use. */
  function UsageMap(entries: seq<Entry>): (r: map<string, seq<NodeRef>>)
    ensures r.Keys == UsedKeys(entries)
  {
    if entries == [] then map[]
    else
      var init := entries[..|entries| - 1];
      var m := UsageMap(init);
      var last := entries[|entries| - 1];
      match last.key
      case None => m
      case Some(k) => m[k := (if k in m then m[k] else []) + [last.ref]]
  }

  predicate Distinct<T(==)>(s: seq<T>) {
    forall i, j :: 0 <= i < j < |s| ==> s[i] != s[j]
  }

  /** The keys in the order they were first inserted into the object. */
  function KeyOrder(entries: seq<Entry>): (r: seq<string>)
    ensures Distinct(r)
    ensures forall k :: k in r <==> k in UsedKeys(entries)
  {
    if entries == [] then []
    else
      var init := entries[..|entries| - 1];
      var last := entries[|entries| - 1];
      var order := KeyOrder(init);
      match last.key
      case None => order
      case Some(k) => if k in order then order else order + [k]
  }

  lemma BucketOfUnusedKey(entries: seq<Entry>, k: string)
    requires k !in UsedKeys(entries)
    ensures Bucket(entries, k) == []
    decreases |entries|
  {
    if entries != [] {
      var init := entries[..|entries| - 1];
      assert UsedKeys(init) <= UsedKeys(entries);
      BucketOfUnusedKey(init, k);
    }
  }

  lemma BucketSnoc(entries: seq<Entry>, n: Entry, k: string)
    ensures Bucket(entries + [n], k) == Bucket(entries, k) + (if n.key == Some(k) then [n.ref] else [])
  {
    var s := entries + [n];
    assert s[..|s| - 1] == entries;
  }

  lemma UsedKeysSnoc(entries: seq<Entry>, n: Entry)
    ensures UsedKeys(entries + [n]) == UsedKeys(entries) + (if n.key.Some? then {n.key.value} else {})
  {
    var s := entries + [n];
    assert s[..|s| - 1] == entries;
  }

  /** The usage map has one bucket per key some node is grouped under, and
      that bucket lists exactly the entries grouped under it, in registry order. */
  lemma {:induction false} UsageMapIsBuckets(entries: seq<Entry>)
    ensures forall k :: k in UsageMap(entries) ==> UsageMap(entries)[k] == Bucket(entries, k)
    decreases |entries|
  {
    if entries != [] {
      var init := entries[..|entries| - 1];
      var last := entries[|entries| - 1];
      assert entries == init + [last];
      UsageMapIsBuckets(init);
      UsedKeysSnoc(init, last);
      forall k | k in UsageMap(entries)
        ensures UsageMap(entries)[k] == Bucket(entries, k)
      {
        BucketSnoc(init, last, k);
        if k !in UsedKeys(init) {
          BucketOfUnusedKey(init, k);
        }
      }
    }
  }

  /** One step of the grouping loop, on the map and on the key order. */
  lemma GroupingStep(entries: seq<Entry>, e: Entry)
    ensures e.key.None? ==> UsageMap(entries + [e]) == UsageMap(entries) && KeyOrder(entries + [e]) == KeyOrder(entries)
    ensures e.key.Some? ==>
      var k := e.key.value;
      var m := UsageMap(entries);
      var order := KeyOrder(entries);
      UsageMap(entries + [e]) == m[k := (if k in m then m[k] else []) + [e.ref]] &&
      KeyOrder(entries + [e]) == if k in order then order else order + [k]
  {
    var s := entries + [e];
    assert s[..|s| - 1] == entries && s[|s| - 1] == e;
  }

  /** Creating a bucket and then replacing it is one update. */
  lemma OverwriteBucket(m: map<string, seq<NodeRef>>, k: string, a: seq<NodeRef>, b: seq<NodeRef>)
    ensures m[k := a][k := a + b] == m[k := a + b]
  {
  }

  /** The grouping loop of `sendWorkflow`: builds the key order and the map. */
  method CollectUsage(nodes: seq<Node>) returns (order: seq<string>, lists: map<string, seq<NodeRef>>)
    ensures lists == UsageMap(Entries(nodes))
    ensures order == KeyOrder(Entries(nodes))
  {
    ghost var entries := Entries(nodes);
    order, lists := [], map[];
    for i := 0 to |nodes|
      invariant lists == UsageMap(entries[..i])
      invariant order == KeyOrder(entries[..i])
    {
      var node := nodes[i];
      EntriesAt(nodes, i);
      assert entries[..i + 1] == entries[..i] + [entries[i]];
      GroupingStep(entries[..i], entries[i]);
      var documentWidget := FindIndex(node.widgets, IsDocumentWidget);
      if documentWidget.None? {
        continue;
      }
      var widgetIndex := documentWidget.value;
      var value := if widgetIndex < |node.widgetsValues| then node.widgetsValues[widgetIndex] else Undefined;
      var key := KeyString(value);
      assert DocumentKey(node) == Some(key);
      if key !in lists {
        OverwriteBucket(lists, key, [], [RefOf(node)]);
        lists := lists[key := []];
        order := order + [key];
      }
      lists := lists[key := lists[key] + [RefOf(node)]];
    }
    assert entries[..|nodes|] == entries;
  }

  lemma {:induction false} BucketContains(entries: seq<Entry>, n: Entry, k: string)
    requires n in entries && n.key == Some(k)
    ensures n.ref in Bucket(entries, k)
    decreases |entries|
  {
    var init := entries[..|entries| - 1];
    if n != entries[|entries| - 1] {
      assert entries == init + [entries[|entries| - 1]];
      BucketContains(init, n, k);
    }
  }

  lemma {:induction false} BucketMember(entries: seq<Entry>, k: string, r: NodeRef)
    requires r in Bucket(entries, k)
    ensures exists i :: 0 <= i < |entries| && entries[i].ref == r && entries[i].key == Some(k)
    decreases |entries|
  {
    var init := entries[..|entries| - 1];
    if r in Bucket(init, k) {
      BucketMember(init, k, r);
      var i :| 0 <= i < |init| && init[i].ref == r && init[i].key == Some(k);
      assert entries[i] == init[i];
    }
  }

  /** Every node with a "document" widget is in the bucket of its own key,
      and every bucket is non-empty. */
  lemma NodeInItsBucket(entries: seq<Entry>, n: Entry)
    requires n in entries && n.key.Some?
    ensures n.key.value in UsageMap(entries)
    ensures n.ref in UsageMap(entries)[n.key.value]
  {
    UsageMapIsBuckets(entries);
    BucketContains(entries, n, n.key.value);
  }

  lemma BucketsNonEmpty(entries: seq<Entry>)
    ensures forall k :: k in UsageMap(entries) ==> |UsageMap(entries)[k]| > 0
  {
    UsageMapIsBuckets(entries);
    forall k | k in UsageMap(entries)
      ensures |UsageMap(entries)[k]| > 0
    {
      UsedKeysMembers(entries, k);
      var i :| 0 <= i < |entries| && entries[i].key == Some(k);
      BucketContains(entries, entries[i], k);
    }
  }

  /** When no other registry node reports the same `{id, type}`, a node is in
      exactly one bucket, the one of its own key, and a node without a
      "document" widget is in none. */
  lemma NodeInExactlyOneBucket(entries: seq<Entry>, n: Entry)
    requires n in entries
    requires forall m :: m in entries && m.ref == n.ref ==> m == n
    ensures forall k :: k in UsageMap(entries) ==> (n.ref in UsageMap(entries)[k] <==> n.key == Some(k))
  {
    UsageMapIsBuckets(entries);
    forall k | k in UsageMap(entries)
      ensures n.ref in UsageMap(entries)[k] <==> n.key == Some(k)
    {
      if n.ref in Bucket(entries, k) {
        BucketMember(entries, k, n.ref);
      }
      if n.key == Some(k) {
        BucketContains(entries, n, k);
      }
    }
  }

  /** With pairwise different references, no bucket holds a duplicate. */
  lemma {:induction false} BucketDistinct(entries: seq<Entry>, k: string)
    requires forall i, j :: 0 <= i < j < |entries| ==> entries[i].ref != entries[j].ref
    ensures Distinct(Bucket(entries, k))
    decreases |entries|
  {
    if entries != [] {
      var init := entries[..|entries| - 1];
      var last := entries[|entries| - 1];
      BucketDistinct(init, k);
      forall r | r in Bucket(init, k)
        ensures r != last.ref
      {
        BucketMember(init, k, r);
        var i :| 0 <= i < |init| && init[i].ref == r && init[i].key == Some(k);
        assert init[i] == entries[i];
      }
      var b := Bucket(init, k);
      if last.key == Some(k) {
        var c := b + [last.ref];
        assert Bucket(entries, k) == c;
        forall i, j | 0 <= i < j < |c|
          ensures c[i] != c[j]
        {
          assert c[i] == b[i] && b[i] in b;
          if j < |b| {
            assert c[j] == b[j];
          }
        }
      }
    }
  }

  /** On the registry itself: when no two nodes report the same `{id, type}`,
      node `i` is in the bucket of the key its "document" widget selects and
      in no other, and a node without such a widget is in none. */
  lemma RegistryNodeGrouping(nodes: seq<Node>, i: int)
    requires 0 <= i < |nodes|
    requires forall a, b :: 0 <= a < b < |nodes| ==> RefOf(nodes[a]) != RefOf(nodes[b])
    ensures DocumentKey(nodes[i]).Some? ==> DocumentKey(nodes[i]).value in UsageMap(Entries(nodes))
    ensures forall k :: k in UsageMap(Entries(nodes)) ==>
      (RefOf(nodes[i]) in UsageMap(Entries(nodes))[k] <==> DocumentKey(nodes[i]) == Some(k))
  {
    var entries := Entries(nodes);
    EntriesAt(nodes, i);
    var n := entries[i];
    forall m | m in entries && m.ref == n.ref
      ensures m == n
    {
      var j :| 0 <= j < |entries| && entries[j] == m;
      EntriesAt(nodes, j);
      assert RefOf(nodes[j]) == RefOf(nodes[i]);
      assert j == i;
    }
    NodeInExactlyOneBucket(entries, n);
    if n.key.Some? {
      NodeInItsBucket(entries, n);
    }
  }
}
