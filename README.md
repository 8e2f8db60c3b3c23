# Krita workflow sync engine, modelled in Dafny

The ComfyUI front-end extension "Krita.WorkflowSync" keeps the graph editor's
document-aware nodes (kind `KritaSaveImage-15347`) in step with the documents
open in Krita, and it tells Krita which graph nodes use which document. This
project models the engine in `js/workflow_actions.js` and proves properties of
that model:

- **Registry rebuild** (`updateKritaNodes`). The module array `kritaNodes` is
  emptied and refilled from the live node list (`Sync.SyncEngine.UpdateKritaNodes`,
  specified by `Registry.FilterKrita`).
- **Dropdown reconciliation** (`updateKritaNodeDocuments`). Each participating
  node's "document" dropdown gets the new list of choices and a repaired
  selection (`Catalog`, `Sync.ReconcileNode`, `Sync.ReconcileAll`).
- **Usage map** (the grouping loop of `sendWorkflow`). Node references
  `{id, type}` are grouped by the serialised value of the node's "document"
  widget, used as an object key (`Usage`).
- **Change gate** (`haveSameElements` and the three-part test). It decides
  whether a timer cycle has anything to report (`Gate`).
- **Pushes and state update.** The engine sends one PUT per document key. It
  then overwrites `previousUsedDocumentIdsInGraph` and `previousTabName`
  (`Sync`).
- **Tab fallback.** The label of the active tab is used, else the previous tab
  name. If the result is empty, the cycle aborts (`Sync.ResolveTab`).
- **Input declutter** (`fixKritaNodeUi`). Removes the "document" and meta input
  slots and hides the meta widget (`Declutter`).
- **Base URL rewrite** (`wsToHttpBase`). Derives the HTTP base address from the
  WebSocket URL (`RemoteUrl`).

Modelling choices:

- Graph nodes are objects: `Graph.Node` is a class. The registry and the live
  graph share the same node objects, so reconciliation through the registry
  changes the graph's nodes.
- Widgets and input slots are values held in the node's `seq` fields.
- The engine's module-level state is the class `Sync.SyncEngine`. Its
  constructor gives the state the module starts with (lines 16-19): an empty
  registry, no previous tab, an empty previous map and an empty log. Its
  fields are:
  - `kritaNodes`
  - `previousTabName`
  - `previousUsedDocumentIdsInGraph`
  - `puts`, the log of outbound PUT requests, oldest first.
- A serialised reference `JSON.stringify({id, type})` is modelled as the value
  `NodeRef(id, type)`. Stringification is injective on that shape, and
  `JSON.parse` inverts it, so the body of a push carries the bucket's `NodeRef`s.
- Object keys are strings. A widget value used as a key goes through
  `JsValues.KeyString`, so: null becomes `"null"`, undefined becomes
  `"undefined"`, and a widget past the end of `widgets_values` reads as
  undefined.
- `sendWorkflow` is `Sync.SyncEngine.SendWorkflow`. Its inputs are:
  - the active tab's label (`None` when the DOM query finds no active tab);
  - the live node list;
  - the forced flag `skipCondition`.

  Its contract gives the new state and the appended requests for each outcome:
  - aborted;
  - suppressed by the gate;
  - pushed.
- `Usage.Entries` is what grouping reads of one node: its reference and the key
  it is grouped under. The usage map and the key order are functions of that
  snapshot.
- The reconciliation writes `widget.value` and `options.values`. Grouping reads
  `node.widgets_values`. These are two different fields of a node in the code,
  and the model keeps them apart. Reconciliation proves nothing about
  `widgets_values`, which it leaves unchanged.
- **URL rewrite.** `wsToHttpBase` sets the whole pathname to `/` when it
  ends in `/ws` (js/workflow_actions.js:205-207), so `wss://host/path/ws`
  gives `https://host/`, not `https://host/path/`. `RemoteUrl.Examples`
  proves this.

## Model

| member | source | states |
|---|---|---|
| Graph.FindIndex | js/workflow_actions.js:78-80 | the element `find` returns, which `indexOf` locates again: an in-range index whose element matches, with no earlier match; no index exactly when nothing matches |
| Registry.FilterKrita | js/workflow_actions.js:214-223 | the rebuilt registry holds only participating live nodes, and every participating live node is in it |
| Registry.FilterKritaAppend | js/workflow_actions.js:218-222 | the rebuild keeps graph order: filtering a concatenation is concatenating the filters |
| Registry.FilterKritaIdempotent | js/workflow_actions.js:214-223 | rebuilding from an already filtered list changes nothing |
| Sync.SyncEngine.UpdateKritaNodes | js/workflow_actions.js:214-223 | after the splice-and-push loop, the registry is exactly the participating live nodes in graph order; nothing it held before is kept |
| Catalog.ReconcileWidget | js/workflow_actions.js:118-126 | the choices become the document list; a selection still offered is kept, otherwise the first document is selected, otherwise null; label and visibility are unchanged; the selection is always valid |
| Catalog.ReconcileWidgets | js/workflow_actions.js:112-116 | reconciliation keeps the number of widgets and their labels |
| Catalog.ReconcileWidgetsOutcome | js/workflow_actions.js:112-126 | only the first "document" widget changes: it offers exactly the documents and holds a valid selection; a node without one is left as it is |
| Catalog.ReconcileWidgetIdempotent | js/workflow_actions.js:118-126 | repairing a dropdown twice against the same list is the same as once |
| Catalog.ReconcileWidgetsIdempotent | js/workflow_actions.js:111-127 | reconciling a node twice against the same list is the same as once |
| Sync.ReconcileNode | js/workflow_actions.js:112-126 | the loop body for one node refills the choices in order and repairs the selection; the node's widgets become their reconciled form; its values and inputs are untouched |
| Sync.ReconcileAll | js/workflow_actions.js:111-127 | every registry node, including one listed twice, ends with its reconciled widgets; values and inputs are untouched |
| Sync.SyncEngine.UpdateKritaNodeDocuments | js/workflow_actions.js:106-128 | the registry is rebuilt; every participating live node gets reconciled widgets and every other live node is untouched; the sync state and the request log are unchanged |
| Sync.SyncEngine.OnSocketMessage | js/workflow_actions.js:96-102 | a documents-update message reconciles with the list it carries; any other message changes nothing |
| JsValues.KeyString | js/workflow_actions.js:161-162 | the object key a widget value becomes: a string is its own key, null and undefined become "null" and "undefined" |
| JsValues.KeyStringCollisions | js/workflow_actions.js:161-162 | two values share a key exactly when they are equal, or one is null (undefined) and the other the string "null" ("undefined") |
| Usage.DocumentKey | js/workflow_actions.js:153-161 | no key exactly when the node has no "document" widget; otherwise the key of `widgets_values` at the first such widget's index, "undefined" past the end |
| Usage.Entries | js/workflow_actions.js:152-166 | the snapshot has one entry per registry node |
| Usage.EntriesAt | js/workflow_actions.js:153-166 | entry `i` is node `i`'s reference, with the key `widgets_values[indexOf(documentWidget)]` or no key when the node has no "document" widget |
| Usage.UsageMap | js/workflow_actions.js:148-167 | the map's keys are exactly the keys some node is grouped under |
| Usage.UsedKeysMembers | js/workflow_actions.js:160-162 | a key is used if and only if some registry node is grouped under it |
| Usage.KeyOrder | js/workflow_actions.js:162 | the keys in first-insertion order: no repeats, and exactly the used keys |
| Usage.UsageMapIsBuckets | js/workflow_actions.js:152-167 | each bucket lists, in registry order, the references of exactly the nodes grouped under its key |
| Usage.GroupingStep | js/workflow_actions.js:160-166 | a proof step for `CollectUsage`: unfolds one step of `UsageMap` and `KeyOrder` at `entries + [e]`, which either leave map and order alone (no widget) or append the reference to its key's bucket, creating the bucket and the key's place in the order on first use |
| Usage.CollectUsage | js/workflow_actions.js:148-167 | the grouping loop builds exactly the usage map of the registry and its key order |
| Usage.NodeInItsBucket | js/workflow_actions.js:160-166 | a node with a "document" widget is in the bucket of its key |
| Usage.BucketsNonEmpty | js/workflow_actions.js:162-166 | no bucket is empty |
| Usage.NodeInExactlyOneBucket | js/workflow_actions.js:152-166 | with unique references, a node is in the bucket of its own key and in no other |
| Usage.RegistryNodeGrouping | js/workflow_actions.js:152-166 | the same for registry node `i` itself: it is in exactly the bucket its "document" widget selects, and a node without that widget is in no bucket |
| Usage.BucketDistinct | js/workflow_actions.js:163-166 | with pairwise different references, no bucket holds a duplicate |
| Gate.HaveSameElements | js/workflow_actions.js:191-193 | a missing list never matches; two present, equal lists always match |
| Gate.PermutedBucketMatches | js/workflow_actions.js:191-193 | a bucket whose references were only reordered still matches |
| Gate.Suppressed | js/workflow_actions.js:171-173 | a suppressed cycle has the same keys as the previous one, equal bucket lengths, and the same tab |
| Gate.SuppressedIff | js/workflow_actions.js:169-174 | the gate holds exactly when both maps have the same keys, paired buckets have equal length and the same elements, and the tab is unchanged |
| Gate.SuppressedSymmetric | js/workflow_actions.js:171-172 | the two `every` tests are mirror images: swapping current and previous does not change the verdict |
| Gate.SuppressedReflexive | js/workflow_actions.js:169-174 | an unchanged map under an unchanged tab is suppressed |
| Gate.ChangeDetected | js/workflow_actions.js:169-174 | a bucket that appears or disappears, a new element in a bucket, or a new tab is never suppressed |
| Gate.NotMultisetEquality | js/workflow_actions.js:191-193 | `haveSameElements` is not multiset equality: `[x,x,y]` and `[x,y,y]` match both ways |
| Gate.DistinctSameElementsIsMultisetEquality | js/workflow_actions.js:191-193 | for duplicate-free buckets, matching both ways is the same as multiset equality |
| Gate.SuppressedIsMultisetEquality | js/workflow_actions.js:169-174 | with duplicate-free buckets, the gate is multiset equality of every paired bucket plus an unchanged tab |
| Sync.Quiet | js/workflow_actions.js:169-174 | a forced cycle is never quiet; a quiet cycle has the previous keys and the previous tab |
| Sync.ResolveTab | js/workflow_actions.js:143-146 | the active label when there is one; the previous tab otherwise; an empty name aborts; a resolved tab is never empty |
| Sync.SyncEngine.constructor | js/workflow_actions.js:16-19 | empty registry, no previous tab, empty previous map, empty request log; the state is valid |
| Sync.FirstCycleNeverQuiet | js/workflow_actions.js:18-19 | with the starting state (no previous tab, empty previous map), a cycle is never quiet, so the non-forced start-up call at line 131 pushes whenever it resolves a tab |
| Sync.SyncEngine.FallbackTabResolves | js/workflow_actions.js:145-146 | with a valid state, a cycle without an active tab reports the previous tab, and aborts only when none was ever reported |
| Sync.DocumentRoute | js/workflow_actions.js:183 | the route is `/krita/documents/`, the unescaped document id, then `/workflow`; the id can be read back from it |
| Sync.DocumentRouteInjective | js/workflow_actions.js:183 | two documents share a route string if and only if they are the same document |
| Sync.PushesFor | js/workflow_actions.js:176-184 | one request per key, in key order; request `i` goes to key `i`'s route, with the tab name and key `i`'s bucket as its body |
| Sync.WorkflowPushes | js/workflow_actions.js:176-184 | the `forEach` loop issues exactly those requests |
| Sync.EveryKeyPushedFor | js/workflow_actions.js:176-184 | every document key gets a request carrying its bucket |
| Sync.OnlyKeysPushedFor | js/workflow_actions.js:176-184 | every request is the one of some document key |
| Sync.RoutesDistinctFor | js/workflow_actions.js:176-184 | no two requests of a cycle share a route |
| Sync.OnePushPerKey | js/workflow_actions.js:176-184 | a repeat-free order that lists exactly the map's keys yields exactly one request per document |
| Sync.PushesOfCycle | js/workflow_actions.js:148-184 | a pushing cycle sends exactly one request per document key of its usage map |
| Sync.SyncEngine.RecordCycle | js/workflow_actions.js:183-187 | the requests are appended to the log; the current map and tab become the previous ones |
| Sync.SyncEngine.PushChangedDocuments | js/workflow_actions.js:148-187 | a quiet cycle changes nothing; otherwise the requests for the registry's usage map are appended, and the map and the tab are recorded |
| Sync.SyncEngine.SendWorkflow | js/workflow_actions.js:142-188 | unresolved tab: nothing changes, not even the registry; else the registry is rebuilt; a non-forced cycle with no change in buckets or tab issues no request and keeps the state; any other cycle pushes one request per key and overwrites both pieces of state; the state stays valid |
| Sync.FocusCycle | js/workflow_actions.js:133 | a forced cycle on focus rebuilds the registry, pushes one request per document of its usage map, and records that map and the tab, whatever was recorded before |
| Sync.UnchangedTimerCycle | js/workflow_actions.js:135-137 | a timer cycle after a recorded one, with the same tab and an unchanged graph, issues no request and leaves registry, map, tab and log as they were |
| Sync.ForcedThenQuietCycle | js/workflow_actions.js:133-138 | a forced cycle (on focus), then a timer cycle with nothing changed: they send one request per document between them, and leave the rebuilt registry, its usage map and the tab recorded |
| Declutter.RemoveFirst | js/workflow_actions.js:79-88 | `find`, `indexOf` and a single `splice`: one element fewer exactly when some element matches |
| Declutter.RemoveFirstRemovesFirstMatch | js/workflow_actions.js:79-88 | the list loses the element at its first matching position and nothing else, and is unchanged when nothing matches |
| Declutter.FirstMatchFound | js/workflow_actions.js:78-82 | the first matching position is the one `find` and `indexOf` report |
| Declutter.RemoveFirstShrinks | js/workflow_actions.js:81-88 | a splice never adds an element |
| Declutter.RemoveFirstIsDropFirstMatch | js/workflow_actions.js:81-88 | the splice agrees with a reference definition that walks the list and drops the first match |
| Declutter.DropFirstMatchCommutes | js/workflow_actions.js:81-88 | dropping the first matches of two disjoint predicates gives the same list in either order |
| Declutter.DeclutterOrderIrrelevant | js/workflow_actions.js:81-88 | removing the "document" slot before the meta slot, as the code does, is the same as the other order |
| Declutter.RemoveFirstKeepsOtherMatches | js/workflow_actions.js:85-87 | the meta slot found before the first splice is still present after it |
| Declutter.HideMetaWidget | js/workflow_actions.js:89-91 | hiding keeps the number of widgets and their labels |
| Declutter.HideMetaWidgetHidesFirst | js/workflow_actions.js:78-91 | exactly the first meta widget becomes hidden; every other widget is unchanged |
| Declutter.TakesPartCases | js/workflow_actions.js:76 | the early-return test (`TakesPart`): every participating type takes part, and so does an unset type, which is never a participating type |
| Declutter.DeclutteredInputs | js/workflow_actions.js:79-88 | the inputs lose one slot for a "document" slot and one for a meta slot when each is present |
| Declutter.FixKritaNodeUi | js/workflow_actions.js:75-92 | a node with a set, non-participating type is unchanged; any other node (an unset type included) loses its first "document" and first meta input, keeps the rest in order, and hides its meta widget; widget values are never touched |
| RemoteUrl.HttpBaseUrl | js/workflow_actions.js:199-208 | the host is kept; the protocol is never `ws:` or `wss:` afterwards, and other protocols are kept; a path ending in `/ws` becomes `/` with the query cleared, any other path and query are kept |
| RemoteUrl.WsToHttpBase | js/workflow_actions.js:196-211 | `ws:` becomes `http:`, `wss:` becomes `https:`, other protocols pass through; the result is origin plus rewritten pathname |
| RemoteUrl.BasePath | js/workflow_actions.js:205-208 | a pathname ending in `/ws` becomes `/`; any other pathname is kept |
| RemoteUrl.WsToHttpBaseIgnoresSearch | js/workflow_actions.js:205-210 | the query string never affects the result |
| RemoteUrl.HttpBaseUrlIdempotent | js/workflow_actions.js:196-211 | rewriting an address that is already an HTTP base changes nothing |
| RemoteUrl.Examples | js/workflow_actions.js:196-211 | `ws://host/ws` gives `http://host/`, and `wss://host/path/ws?clientId=1` gives `https://host/` |

## Left out

- `request` and `api` (js/workflow_actions.js:22-54): `fetch`, the HTTP status check and parsing of the body are I/O. A PUT is recorded in `puts` as route and body. Its completion and failure are not modelled, since the promise is never awaited.
- The fetch of the document list when `updateKritaNodeDocuments` gets none (line 109) is I/O. The list is a parameter of `Sync.SyncEngine.UpdateKritaNodeDocuments`.
- `Sync.SyncEngine.UpdateKritaNodeDocuments` models the path on which the caller passes the list (the socket listener, line 100), which has no `await`. On the fetch path, the `await` at line 109 lets a timer `sendWorkflow` rebuild `kritaNodes` (line 150) or a socket update reconcile with a newer list (line 100) before the loop at line 111 runs. The loop then walks whatever registry exists when the fetch returns, and can overwrite a newer list with the fetched one. That interleaving is not modelled.
- The route is spliced in unescaped and resolved against the base with `new URL`. The model keeps the route string and does not model URL resolution or percent-encoding.
- The timer loop and the focus listener (lines 133-138) are event wiring. The forced flag is a parameter. The initial `await sendWorkflow()` and the later calls are separate calls of `Sync.SyncEngine.SendWorkflow`.
- The DOM tab-label query (lines 143-144) is a browser facility. The active label is an optional input.
- URL parsing with `new URL` is done by the browser. `RemoteUrl` takes an already-parsed record of protocol, host, pathname and search. The `baseUrl` cache at line 24 is not modelled.
- JSON parsing of WebSocket events (line 97) is left out. `Sync.SocketMessage` is the already-parsed message.
- `app.registerExtension`, the `afterConfigureGraph` and `nodeCreated` hooks, their loop over `app.graph._nodes` calling `fixKritaNodeUi`, and `console` logging are host-framework glue. `Declutter.FixKritaNodeUi` models one call.
- `__init__.py`, `launch_scripts/*.py` and `pykrita/` are not part of this model. They are a node schema declaration, process launching and editor start-up.
- `Object.entries` lists integer-like keys first, in ascending order. `Usage.KeyOrder` uses plain insertion order, so the order of pushes is not modelled for documents whose names look like array indices.
- Keys inherited from `Object.prototype` are not modelled; the model treats every object as starting empty. In JavaScript `"constructor" in {}` is true, so a document named `constructor`, `toString` or `__proto__` makes the test at line 162 skip creating a bucket, and the `push` at line 163 then throws. Such a cycle stops before any PUT and leaves the sync state as it was, on every cycle while that document is selected. The model instead groups the node under that key and pushes.
- Widget values other than strings, null and undefined (numbers, objects) are not modelled.
- `node.widgets`, `node.inputs` or `node.widgets_values` being undefined is not modelled. In the code that throws.
- Distinct graph nodes that share both `id` and `type` have the same serialised reference. The exactly-one-bucket lemmas assume unique references.
