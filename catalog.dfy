/** Document catalog reconciliation: bringing one node's document dropdown in
    line with the list of documents the editing application has open. */
module Catalog {
  import opened JsValues
  import opened Graph

  /** The selected value is one of the offered documents, or nothing is
      selected because nothing is offered. */
  predicate SelectionValid(value: JsValue, documentNames: seq<string>) {
    (value.Str? && value.s in documentNames) || (documentNames == [] && value.Null?)
  }

  /** The dropdown after its choices have been replaced by `documentNames`:
      a selection still on offer is kept, otherwise the first document is
      selected, and with no documents the selection is null. */
  function ReconcileWidget(w: Widget, documentNames: seq<string>): (r: Widget)
    ensures r.choices == documentNames
    ensures r.labelText == w.labelText && r.hidden == w.hidden
    ensures SelectionValid(r.value, documentNames)
    ensures w.value.Str? && w.value.s in documentNames ==> r.value == w.value
    ensures !(w.value.Str? && w.value.s in documentNames) && documentNames != [] ==> r.value == Str(documentNames[0])
    ensures documentNames == [] ==> r.value == Null
  {
    var kept := if w.value.Str? && w.value.s in documentNames then w.value else Null;
    var selected := if IsNullish(kept) && |documentNames| > 0 then Str(documentNames[0]) else kept;
    w.(choices := documentNames, value := selected)
  }

  /** A node's widgets after reconciliation: only the first widget labelled
      "document" is touched; a node without one is left as it is. */
  function ReconcileWidgets(ws: seq<Widget>, documentNames: seq<string>): (r: seq<Widget>)
    ensures |r| == |ws|
    ensures forall j :: 0 <= j < |ws| ==> r[j].labelText == ws[j].labelText
  {
    match FindIndex(ws, IsDocumentWidget)
    case None => ws
    case Some(i) => ws[i := ReconcileWidget(ws[i], documentNames)]
  }

  /** Reconciling against the same list twice is the same as once, so a node
      met twice in one pass, or a repeated update event, is harmless. */
  lemma ReconcileWidgetIdempotent(w: Widget, documentNames: seq<string>)
    ensures ReconcileWidget(ReconcileWidget(w, documentNames), documentNames) == ReconcileWidget(w, documentNames)
  {
  }

  lemma ReconcileWidgetsIdempotent(ws: seq<Widget>, documentNames: seq<string>)
    ensures ReconcileWidgets(ReconcileWidgets(ws, documentNames), documentNames) == ReconcileWidgets(ws, documentNames)
  {
    var once := ReconcileWidgets(ws, documentNames);
    assert forall j :: 0 <= j < |ws| ==> (IsDocumentWidget(once[j]) <==> IsDocumentWidget(ws[j]));
    assert FindIndex(once, IsDocumentWidget) == FindIndex(ws, IsDocumentWidget);
    match FindIndex(ws, IsDocumentWidget)
    case None =>
    case Some(i) =>
      ReconcileWidgetIdempotent(ws[i], documentNames);
  }

  /** After reconciliation the node's document dropdown, if it has one,
      offers exactly `documentNames`, holds a valid selection, and every other
      widget is untouched. */
  lemma ReconcileWidgetsOutcome(ws: seq<Widget>, documentNames: seq<string>)
    ensures var r := ReconcileWidgets(ws, documentNames);
      match FindIndex(ws, IsDocumentWidget)
      case None => r == ws
      case Some(i) =>
        r[i].choices == documentNames && SelectionValid(r[i].value, documentNames) &&
        forall j :: 0 <= j < |ws| && j != i ==> r[j] == ws[j]
  {
  }
}
