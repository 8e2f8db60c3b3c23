/** The synchronisation engine: the process-wide registry and sync state and
    the operations of the extension that update them. */
module Sync {
  import opened JsValues
  import opened Graph
  import opened Registry
  import opened Catalog
  import opened Usage
  import opened Gate

  const DOCUMENTS_UPDATE_MESSAGE: string := "krita::documents::update"

  /** The body of a workflow push: `{name, workflow: {nodes}}`. */
  datatype WorkflowBody = WorkflowBody(name: string, nodes: seq<NodeRef>)

  /** One outbound PUT request. */
  datatype Put = Put(route: string, body: WorkflowBody)

  /** A message from the remote side's WebSocket, already parsed. */
  datatype SocketMessage = SocketMessage(messageType: string, documents: seq<string>)

  /** The route a document's workflow is pushed to; the document identifier is
      spliced in as it is, without escaping. */
  function DocumentRoute(documentId: string): (r: string)
    ensures |r| == |documentId| + 26
    ensures r[..17] == "/krita/documents/" && r[|r| - 9..] == "/workflow"
    ensures r[17..|r| - 9] == documentId
  {
    "/krita/documents/" + documentId + "/workflow"
  }

  /** Different documents give different route strings. The strings are
      later resolved as URLs, which this model does not do, and resolution can
      map two different strings to the same address. */
  lemma DocumentRouteInjective(a: string, b: string)
    ensures DocumentRoute(a) == DocumentRoute(b) <==> a == b
  {
    var prefix := "/krita/documents/";
    if DocumentRoute(a) == DocumentRoute(b) {
      assert |a| == |b|;
      assert a == DocumentRoute(a)[|prefix|..|prefix| + |a|];
      assert b == DocumentRoute(b)[|prefix|..|prefix| + |b|];
    }
  }

  /** The pushes of one cycle, one per key of the usage map in key order. */
  function PushesFor(order: seq<string>, usage: map<string, seq<NodeRef>>, tabName: string): (r: seq<Put>)
    requires forall k :: k in order ==> k in usage
    ensures |r| == |order|
    ensures forall i :: 0 <= i < |order| ==> r[i] == Put(DocumentRoute(order[i]), WorkflowBody(tabName, usage[order[i]]))
  {
    if order == [] then []
    else
      var last := order[|order| - 1];
      PushesFor(order[..|order| - 1], usage, tabName) + [Put(DocumentRoute(last), WorkflowBody(tabName, usage[last]))]
  }

  /** Every key of `usage` gets a request carrying its bucket. */
  predicate EveryKeyPushed(pushes: seq<Put>, usage: map<string, seq<NodeRef>>, tabName: string) {
    forall k :: k in usage ==> exists i :: 0 <= i < |pushes| && pushes[i] == Put(DocumentRoute(k), WorkflowBody(tabName, usage[k]))
  }

  /** Every request is the one of some key of `usage`. */
  predicate OnlyKeysPushed(pushes: seq<Put>, usage: map<string, seq<NodeRef>>, tabName: string) {
    forall i :: 0 <= i < |pushes| ==> exists k :: k in usage && pushes[i] == Put(DocumentRoute(k), WorkflowBody(tabName, usage[k]))
  }

  /** No two requests share a route. */
  predicate RoutesDistinct(pushes: seq<Put>) {
    forall i, j :: 0 <= i < j < |pushes| ==> pushes[i].route != pushes[j].route
  }

  /** `pushes` sends exactly one request per document key of `usage`. */
  predicate OnePushPerDocument(pushes: seq<Put>, usage: map<string, seq<NodeRef>>, tabName: string) {
    EveryKeyPushed(pushes, usage, tabName) && OnlyKeysPushed(pushes, usage, tabName) && RoutesDistinct(pushes)
  }

  lemma EveryKeyPushedFor(order: seq<string>, usage: map<string, seq<NodeRef>>, tabName: string)
    requires forall k :: k in order <==> k in usage
    ensures EveryKeyPushed(PushesFor(order, usage, tabName), usage, tabName)
  {
    var pushes := PushesFor(order, usage, tabName);
    forall k | k in usage
      ensures exists i :: 0 <= i < |pushes| && pushes[i] == Put(DocumentRoute(k), WorkflowBody(tabName, usage[k]))
    {
      var i :| 0 <= i < |order| && order[i] == k;
      assert pushes[i] == Put(DocumentRoute(k), WorkflowBody(tabName, usage[k]));
    }
  }

  lemma OnlyKeysPushedFor(order: seq<string>, usage: map<string, seq<NodeRef>>, tabName: string)
    requires forall k :: k in order <==> k in usage
    ensures OnlyKeysPushed(PushesFor(order, usage, tabName), usage, tabName)
  {
    var pushes := PushesFor(order, usage, tabName);
    forall i | 0 <= i < |pushes|
      ensures exists k :: k in usage && pushes[i] == Put(DocumentRoute(k), WorkflowBody(tabName, usage[k]))
    {
      var k := order[i];
      assert k in order;
      assert pushes[i] == Put(DocumentRoute(k), WorkflowBody(tabName, usage[k]));
    }
  }

  lemma RoutesDistinctFor(order: seq<string>, usage: map<string, seq<NodeRef>>, tabName: string)
    requires Distinct(order)
    requires forall k :: k in order ==> k in usage
    ensures RoutesDistinct(PushesFor(order, usage, tabName))
  {
    var pushes := PushesFor(order, usage, tabName);
    forall i, j | 0 <= i < j < |pushes|
      ensures pushes[i].route != pushes[j].route
    {
      assert order[i] != order[j];
      DocumentRouteInjective(order[i], order[j]);
    }
  }

  /** Pushing along a key order without repeats that lists exactly the keys
      of the usage map sends one request per document. */
  lemma OnePushPerKey(order: seq<string>, usage: map<string, seq<NodeRef>>, tabName: string)
    requires Distinct(order)
    requires forall k :: k in order <==> k in usage
    ensures OnePushPerDocument(PushesFor(order, usage, tabName), usage, tabName)
  {
    EveryKeyPushedFor(order, usage, tabName);
    OnlyKeysPushedFor(order, usage, tabName);
    RoutesDistinctFor(order, usage, tabName);
  }

  /** The pushes of a cycle over a registry: one per document key of its
      usage map. */
  lemma PushesOfCycle(entries: seq<Entry>, tabName: string)
    ensures OnePushPerDocument(PushesFor(KeyOrder(entries), UsageMap(entries), tabName), UsageMap(entries), tabName)
  {
    var order, usage := KeyOrder(entries), UsageMap(entries);
    forall k
      ensures k in order <==> k in usage
    {
      assert k in usage <==> k in UsedKeys(entries);
    }
    OnePushPerKey(order, usage, tabName);
  }

  /** Whether a cycle stays silent: it is not forced and nothing it would
      report has changed since the last push. */
  predicate Quiet(skipCondition: bool, current: map<string, seq<NodeRef>>, previous: map<string, seq<NodeRef>>,
                  tabName: string, previousTabName: Option<string>): (r: bool)
    ensures skipCondition ==> !r
    ensures r ==> current.Keys == previous.Keys && previousTabName == Some(tabName)
  {
    !skipCondition && Suppressed(current, previous, tabName, previousTabName)
  }

  /** The tab a cycle reports: the active tab's label when there is an active
      tab (`??` falls back only when it is missing), otherwise the
      previously reported tab; no tab at all, or an empty label, aborts. */
  function ResolveTab(activeTabLabel: Option<string>, previousTabName: Option<string>): (r: Option<string>)
    ensures r.Some? ==> r.value != ""
    ensures activeTabLabel.Some? ==> r == if activeTabLabel.value == "" then None else activeTabLabel
    ensures activeTabLabel.None? ==> r == if previousTabName == Some("") then None else previousTabName
  {
    var tabName := if activeTabLabel.Some? then activeTabLabel else previousTabName;
    if tabName.Some? && tabName.value != "" then tabName else None
  }

  /** The first cycle of a fresh engine, with no previous tab and an empty
      previous map, is never quiet: the start-up call pushes even though it
      is not forced. */
  lemma FirstCycleNeverQuiet(skipCondition: bool, current: map<string, seq<NodeRef>>, tabName: string)
    ensures !Quiet(skipCondition, current, map[], tabName, None)
  {
  }

  class SyncEngine {
    /** The participating nodes at the last rebuild (`kritaNodes`). */
    var kritaNodes: seq<Node>
    var previousTabName: Option<string>
    var previousUsedDocumentIdsInGraph: map<string, seq<NodeRef>>
    /** Every PUT request issued so far, oldest first. */
    var puts: seq<Put>

    /** The sync state only ever records a non-empty tab name and non-empty
        buckets. */
    ghost predicate Valid()
      reads this
    {
      (previousTabName.Some? ==> previousTabName.value != "") &&
      forall k :: k in previousUsedDocumentIdsInGraph ==> |previousUsedDocumentIdsInGraph[k]| > 0
    }

    /** What validity buys: once a tab has been reported, a cycle in which no
        tab is active falls back to it and goes on; before the first report
        such a cycle aborts. Without validity a recorded empty name would
        abort every such cycle. */
    lemma FallbackTabResolves()
      requires Valid()
      ensures ResolveTab(None, previousTabName) == previousTabName
      ensures ResolveTab(None, previousTabName).None? <==> previousTabName.None?
    {
    }

    constructor ()
      ensures Valid()
      ensures kritaNodes == [] && previousTabName == None && previousUsedDocumentIdsInGraph == map[] && puts == []
    {
      kritaNodes := [];
      previousTabName := None;
      previousUsedDocumentIdsInGraph := map[];
      puts := [];
    }

    /** Rebuild the registry from the live node list (`updateKritaNodes`). */
    method UpdateKritaNodes(liveNodes: seq<Node>)
      modifies this`kritaNodes
      ensures kritaNodes == FilterKrita(liveNodes)
    {
      kritaNodes := [];
      for i := 0 to |liveNodes|
        invariant kritaNodes == FilterKrita(liveNodes[..i])
      {
        assert liveNodes[..i + 1][..i] == liveNodes[..i];
        if IsKritaType(liveNodes[i].nodeType) {
          kritaNodes := kritaNodes + [liveNodes[i]];
        }
      }
      assert liveNodes[..|liveNodes|] == liveNodes;
    }

    /** Reconcile every participating node's document dropdown with
        `documentNames` (`updateKritaNodeDocuments`) in one uninterrupted
        step. This is the path on which the caller supplies the list, as the
        socket listener does; the path that awaits a fetch between the
        rebuild and the loop is not modelled. */
    method UpdateKritaNodeDocuments(liveNodes: seq<Node>, documentNames: seq<string>)
      requires Valid()
      modifies this, liveNodes
      ensures Valid()
      ensures kritaNodes == FilterKrita(liveNodes)
      ensures forall n :: n in liveNodes ==>
        n.widgets == if IsKritaType(n.nodeType) then ReconcileWidgets(old(n.widgets), documentNames) else old(n.widgets)
      ensures forall n :: n in liveNodes ==> n.widgetsValues == old(n.widgetsValues) && n.inputs == old(n.inputs)
      ensures previousTabName == old(previousTabName) && puts == old(puts)
      ensures previousUsedDocumentIdsInGraph == old(previousUsedDocumentIdsInGraph)
    {
      UpdateKritaNodes(liveNodes);
      ReconcileAll(kritaNodes, documentNames);
      forall n | n in liveNodes
        ensures n.widgets == if IsKritaType(n.nodeType) then ReconcileWidgets(old(n.widgets), documentNames) else old(n.widgets)
      {
        if !IsKritaType(n.nodeType) {
          assert n !in kritaNodes;
        }
      }
    }

    /** One synchronisation cycle (`sendWorkflow`). The active tab's label,
        the live node list and whether the cycle is forced are its inputs. */
    method SendWorkflow(activeTabLabel: Option<string>, liveNodes: seq<Node>, skipCondition: bool)
      requires Valid()
      modifies this
      ensures Valid()
      ensures ResolveTab(activeTabLabel, old(previousTabName)).None? ==>
        kritaNodes == old(kritaNodes) && puts == old(puts) &&
        previousTabName == old(previousTabName) &&
        previousUsedDocumentIdsInGraph == old(previousUsedDocumentIdsInGraph)
      ensures ResolveTab(activeTabLabel, old(previousTabName)).Some? ==>
        kritaNodes == FilterKrita(liveNodes)
      ensures var tab := ResolveTab(activeTabLabel, old(previousTabName));
        var current := UsageMap(Entries(kritaNodes));
        tab.Some? && Quiet(skipCondition, current, old(previousUsedDocumentIdsInGraph), tab.value, old(previousTabName)) ==>
          puts == old(puts) &&
          previousTabName == old(previousTabName) &&
          previousUsedDocumentIdsInGraph == old(previousUsedDocumentIdsInGraph)
      ensures var tab := ResolveTab(activeTabLabel, old(previousTabName));
        var current := UsageMap(Entries(kritaNodes));
        tab.Some? && !Quiet(skipCondition, current, old(previousUsedDocumentIdsInGraph), tab.value, old(previousTabName)) ==>
          puts == old(puts) + PushesFor(KeyOrder(Entries(kritaNodes)), current, tab.value) &&
          previousUsedDocumentIdsInGraph == current &&
          previousTabName == tab
    {
      var tabName := if activeTabLabel.Some? then activeTabLabel else previousTabName;
      if tabName.None? || tabName.value == "" {
        return;
      }
      assert tabName == ResolveTab(activeTabLabel, old(previousTabName));
      UpdateKritaNodes(liveNodes);
      PushChangedDocuments(tabName.value, skipCondition);
    }

    /** The part of a cycle after the registry rebuild: group the registry by
        document, and unless the cycle is quiet push every group and record
        what was reported. */
    method PushChangedDocuments(tabName: string, skipCondition: bool)
      requires Valid() && tabName != ""
      modifies this`puts, this`previousTabName, this`previousUsedDocumentIdsInGraph
      ensures Valid()
      ensures Quiet(skipCondition, UsageMap(Entries(kritaNodes)), old(previousUsedDocumentIdsInGraph), tabName, old(previousTabName)) ==>
        puts == old(puts) &&
        previousTabName == old(previousTabName) &&
        previousUsedDocumentIdsInGraph == old(previousUsedDocumentIdsInGraph)
      ensures !Quiet(skipCondition, UsageMap(Entries(kritaNodes)), old(previousUsedDocumentIdsInGraph), tabName, old(previousTabName)) ==>
        puts == old(puts) + PushesFor(KeyOrder(Entries(kritaNodes)), UsageMap(Entries(kritaNodes)), tabName) &&
        previousUsedDocumentIdsInGraph == UsageMap(Entries(kritaNodes)) &&
        previousTabName == Some(tabName)
    {
      var order, documentIdLists := CollectUsage(kritaNodes);
      ghost var entries := Entries(kritaNodes);
      if Quiet(skipCondition, documentIdLists, previousUsedDocumentIdsInGraph, tabName, previousTabName) {
        return;
      }
      BucketsNonEmpty(Entries(kritaNodes));
      var issued := WorkflowPushes(order, documentIdLists, tabName);
      RecordCycle(issued, documentIdLists, tabName);
      assert Entries(kritaNodes) == entries;
    }

    /** Issue a cycle's requests and remember what it reported. */
    method RecordCycle(issued: seq<Put>, documentIdLists: map<string, seq<NodeRef>>, tabName: string)
      requires tabName != "" && forall k :: k in documentIdLists ==> |documentIdLists[k]| > 0
      modifies this`puts, this`previousTabName, this`previousUsedDocumentIdsInGraph
      ensures Valid()
      ensures puts == old(puts) + issued
      ensures previousUsedDocumentIdsInGraph == documentIdLists && previousTabName == Some(tabName)
    {
      puts := puts + issued;
      previousUsedDocumentIdsInGraph := documentIdLists;
      previousTabName := Some(tabName);
    }

    /** The WebSocket listener: a document-list update reconciles the
        dropdowns with the list it carries; any other message is ignored. */
    method OnSocketMessage(message: SocketMessage, liveNodes: seq<Node>)
      requires Valid()
      modifies this, liveNodes
      ensures Valid()
      ensures message.messageType == DOCUMENTS_UPDATE_MESSAGE ==>
        kritaNodes == FilterKrita(liveNodes) &&
        forall n :: n in liveNodes ==>
          n.widgets == if IsKritaType(n.nodeType) then ReconcileWidgets(old(n.widgets), message.documents) else old(n.widgets)
      ensures message.messageType != DOCUMENTS_UPDATE_MESSAGE ==>
        kritaNodes == old(kritaNodes) && forall n :: n in liveNodes ==> n.widgets == old(n.widgets)
      ensures forall n :: n in liveNodes ==> n.widgetsValues == old(n.widgetsValues) && n.inputs == old(n.inputs)
      ensures previousTabName == old(previousTabName) && puts == old(puts)
      ensures previousUsedDocumentIdsInGraph == old(previousUsedDocumentIdsInGraph)
    {
      if message.messageType == DOCUMENTS_UPDATE_MESSAGE {
        UpdateKritaNodeDocuments(liveNodes, message.documents);
      }
    }
  }

  /** The loop body of `updateKritaNodeDocuments` for one node: refill the
      dropdown's choices in place and repair its selection. */
  method ReconcileNode(node: Node, documentNames: seq<string>)
    modifies node
    ensures node.widgets == ReconcileWidgets(old(node.widgets), documentNames)
    ensures node.widgetsValues == old(node.widgetsValues) && node.inputs == old(node.inputs)
  {
    var dropdown := FindIndex(node.widgets, IsDocumentWidget);
    if dropdown.None? {
      // a participating node without a document dropdown is skipped
      return;
    }
    var k := dropdown.value;
    var widget := node.widgets[k];
    var values: seq<string> := [];
    for j := 0 to |documentNames|
      invariant values == documentNames[..j]
    {
      values := values + [documentNames[j]];
    }
    assert values == documentNames;
    var value := widget.value;
    if !(value.Str? && value.s in documentNames) {
      value := Null;
    }
    if IsNullish(value) && |documentNames| > 0 {
      value := Str(documentNames[0]);
    }
    node.widgets := node.widgets[k := widget.(choices := values, value := value)];
  }

  /** The requests of the `forEach` over `Object.entries`: one PUT per
      document key, in key order. They are issued and never awaited, so only
      the requests themselves are recorded. */
  method WorkflowPushes(order: seq<string>, documentIdLists: map<string, seq<NodeRef>>, tabName: string)
    returns (issued: seq<Put>)
    requires forall k :: k in order ==> k in documentIdLists
    ensures issued == PushesFor(order, documentIdLists, tabName)
  {
    issued := [];
    for i := 0 to |order|
      invariant issued == PushesFor(order[..i], documentIdLists, tabName)
    {
      assert order[..i + 1][..i] == order[..i];
      var documentId := order[i];
      var workflowResponse := WorkflowBody(tabName, documentIdLists[documentId]);
      issued := issued + [Put(DocumentRoute(documentId), workflowResponse)];
    }
    assert order[..|order|] == order;
  }

  /** The reconciliation loop of `updateKritaNodeDocuments` over the
      registry. A node listed twice is reconciled twice, to the same effect. */
  method ReconcileAll(registry: seq<Node>, documentNames: seq<string>)
    modifies set n | n in registry
    ensures forall n :: n in registry ==> n.widgets == ReconcileWidgets(old(n.widgets), documentNames)
    ensures forall n :: n in registry ==> n.widgetsValues == old(n.widgetsValues) && n.inputs == old(n.inputs)
  {
    for i := 0 to |registry|
      invariant forall n :: n in registry ==>
        n.widgets == if n in registry[..i] then ReconcileWidgets(old(n.widgets), documentNames) else old(n.widgets)
      invariant forall n :: n in registry ==> n.widgetsValues == old(n.widgetsValues) && n.inputs == old(n.inputs)
    {
      var node := registry[i];
      ReconcileWidgetsIdempotent(old(node.widgets), documentNames);
      ReconcileNode(node, documentNames);
      assert forall n :: n in registry[..i + 1] <==> n in registry[..i] || n == node;
    }
    assert registry[..|registry|] == registry;
  }

  /** A timer tick after a recorded cycle, with the same tab and nothing
      changed in the graph: the cycle is silent and the engine is left as it
      was. */
  method UnchangedTimerCycle(engine: SyncEngine, tabName: string, liveNodes: seq<Node>)
    requires engine.Valid() && tabName != ""
    requires engine.kritaNodes == FilterKrita(liveNodes)
    requires engine.previousTabName == Some(tabName)
    requires engine.previousUsedDocumentIdsInGraph == UsageMap(Entries(engine.kritaNodes))
    modifies engine
    ensures engine.Valid()
    ensures engine.kritaNodes == old(engine.kritaNodes) && engine.puts == old(engine.puts)
    ensures engine.previousTabName == old(engine.previousTabName)
    ensures engine.previousUsedDocumentIdsInGraph == old(engine.previousUsedDocumentIdsInGraph)
  {
    ghost var entries := Entries(engine.kritaNodes);
    SuppressedReflexive(engine.previousUsedDocumentIdsInGraph, tabName);
    engine.SendWorkflow(Some(tabName), liveNodes, false);
    assert Entries(engine.kritaNodes) == entries;
  }

  /** A focus event: the forced cycle pushes every document of the rebuilt
      registry once and records the map and the tab, whatever was recorded
      before. */
  method FocusCycle(engine: SyncEngine, tabName: string, liveNodes: seq<Node>)
    requires engine.Valid() && tabName != ""
    modifies engine
    ensures engine.Valid()
    ensures engine.kritaNodes == FilterKrita(liveNodes)
    ensures engine.puts == old(engine.puts) +
      PushesFor(KeyOrder(Entries(engine.kritaNodes)), UsageMap(Entries(engine.kritaNodes)), tabName)
    ensures engine.previousTabName == Some(tabName)
    ensures engine.previousUsedDocumentIdsInGraph == UsageMap(Entries(engine.kritaNodes))
  {
    engine.SendWorkflow(Some(tabName), liveNodes, true);
  }

  /** Focus regained, then a timer tick with nothing changed in between: the
      forced cycle pushes every document once and the timer cycle after it is
      silent, so the pair sends exactly one request per document. */
  method ForcedThenQuietCycle(engine: SyncEngine, tabName: string, liveNodes: seq<Node>)
    requires engine.Valid() && tabName != ""
    modifies engine
    ensures engine.Valid()
    ensures engine.puts == old(engine.puts) +
      PushesFor(KeyOrder(Entries(FilterKrita(liveNodes))), UsageMap(Entries(FilterKrita(liveNodes))), tabName)
    ensures engine.kritaNodes == FilterKrita(liveNodes)
    ensures engine.previousTabName == Some(tabName)
    ensures engine.previousUsedDocumentIdsInGraph == UsageMap(Entries(FilterKrita(liveNodes)))
  {
    FocusCycle(engine, tabName, liveNodes);
    ghost var entries := Entries(engine.kritaNodes);
    ghost var pushed := engine.puts;
    UnchangedTimerCycle(engine, tabName, liveNodes);
    assert Entries(engine.kritaNodes) == entries;
    assert engine.puts == pushed;
  }
}
