/** The graph editor's node and widget model, as far as the engine reads and
    writes it, together with the `Array.prototype.find` search it relies on. */
module Graph {
  import opened JsValues

  const KRITA_SAVE_IMAGE_NODE_TYPE: string := "KritaSaveImage-15347"
  const DOCUMENT_WIDGET_LABEL: string := "document"
  const META_WIDGET_LABEL: string := "_meta-15347"
  /** The node kinds that take part in document input/output. */
  const KRITA_CUSTOM_IO_NODE_TYPES: seq<string> := [KRITA_SAVE_IMAGE_NODE_TYPE]

  /** A node widget: its label text, its selected value, its list of choices
      (`options.values`) and whether it is hidden. */
  datatype Widget = Widget(labelText: string, value: JsValue, choices: seq<string>, hidden: bool)

  /** An input slot of a node. */
  datatype Slot = Slot(name: string, slotType: string)

  /** The `{id, type}` reference the engine reports for a node. */
  datatype NodeRef = NodeRef(id: int, nodeType: string)

  /** A live graph node. Its identity and kind never change; its widgets, its
      serialised widget values and its inputs are updated in place. An empty
      `nodeType` stands for a node whose type is unset (falsy). */
  class Node {
    const id: int
    const nodeType: string
    var widgets: seq<Widget>
    var widgetsValues: seq<JsValue>
    var inputs: seq<Slot>

    constructor (id: int, nodeType: string, widgets: seq<Widget>, widgetsValues: seq<JsValue>, inputs: seq<Slot>)
      ensures this.id == id && this.nodeType == nodeType
      ensures this.widgets == widgets && this.widgetsValues == widgetsValues && this.inputs == inputs
    {
      this.id := id;
      this.nodeType := nodeType;
      this.widgets := widgets;
      this.widgetsValues := widgetsValues;
      this.inputs := inputs;
    }
  }

  function RefOf(n: Node): NodeRef {
    NodeRef(n.id, n.nodeType)
  }

  predicate IsKritaType(t: string) {
    t in KRITA_CUSTOM_IO_NODE_TYPES
  }

  predicate IsDocumentWidget(w: Widget) {
    w.labelText == DOCUMENT_WIDGET_LABEL
  }

  predicate IsMetaWidget(w: Widget) {
    w.labelText == META_WIDGET_LABEL
  }

  predicate IsDocumentSlot(s: Slot) {
    s.name == DOCUMENT_WIDGET_LABEL
  }

  predicate IsMetaSlot(s: Slot) {
    s.name == META_WIDGET_LABEL
  }

  /** The index of the element that `find` returns, which is also what
      `indexOf` gives back for it: the first element satisfying `p`. */
  function FindIndex<T>(s: seq<T>, p: T -> bool): (r: Option<nat>)
    ensures r.Some? ==> r.value < |s| && p(s[r.value])
    ensures r.Some? ==> forall j :: 0 <= j < r.value ==> !p(s[j])
    ensures r.None? <==> forall j :: 0 <= j < |s| ==> !p(s[j])
  {
    if s == [] then None
    else if p(s[0]) then Some(0)
    else match FindIndex(s[1..], p)
      case None => None
      case Some(i) => Some(i + 1)
  }
}
