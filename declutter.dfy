/** Input-slot declutter: a participating node loses its "document" and
    meta input slots, and its meta widget is hidden. */
module Declutter {
  import opened JsValues
  import opened Graph

  /** `s` without its first element satisfying `p` (a `find` followed by a
      one-element `splice`); `s` itself when no element satisfies `p`. */
  function RemoveFirst<T>(s: seq<T>, p: T -> bool): (r: seq<T>)
    ensures |r| == |s| - (if FindIndex(s, p).Some? then 1 else 0)
  {
    match FindIndex(s, p)
    case None => s
    case Some(i) => s[..i] + s[i + 1..]
  }

  /** The splice removes exactly the first match: the list is unchanged
      when nothing matches, and otherwise it loses the element at the first
      matching position and nothing else. */
  lemma RemoveFirstRemovesFirstMatch<T>(s: seq<T>, p: T -> bool)
    ensures (forall j :: 0 <= j < |s| ==> !p(s[j])) ==> RemoveFirst(s, p) == s
    ensures forall i :: 0 <= i < |s| && p(s[i]) && (forall j :: 0 <= j < i ==> !p(s[j])) ==>
      RemoveFirst(s, p) == s[..i] + s[i + 1..]
  {
    forall i | 0 <= i < |s| && p(s[i]) && (forall j :: 0 <= j < i ==> !p(s[j]))
      ensures RemoveFirst(s, p) == s[..i] + s[i + 1..]
    {
      FirstMatchFound(s, p, i);
    }
  }

  /** The first matching position is the one `find` reports. */
  lemma FirstMatchFound<T>(s: seq<T>, p: T -> bool, i: nat)
    requires i < |s| && p(s[i]) && forall j :: 0 <= j < i ==> !p(s[j])
    ensures FindIndex(s, p) == Some(i)
  {
    var k := FindIndex(s, p).value;
    assert !(k < i) && !(i < k);
  }

  /** The splice never adds an element. */
  lemma RemoveFirstShrinks<T>(s: seq<T>, p: T -> bool)
    ensures multiset(RemoveFirst(s, p)) <= multiset(s)
  {
    match FindIndex(s, p)
    case None =>
    case Some(i) =>
      calc {
        multiset(s);
        { assert s == s[..i] + [s[i]] + s[i + 1..]; }
        multiset(s[..i]) + multiset{s[i]} + multiset(s[i + 1..]);
        multiset(RemoveFirst(s, p)) + multiset{s[i]};
      }
  }

  /** Reference definition: walk the list and drop the first match. */
  function DropFirstMatch<T>(s: seq<T>, p: T -> bool): seq<T> {
    if s == [] then []
    else if p(s[0]) then s[1..]
    else [s[0]] + DropFirstMatch(s[1..], p)
  }

  /** Past a leading non-match, the splice works on the rest of the list. */
  lemma RemoveFirstSkipsNonMatch<T>(s: seq<T>, p: T -> bool)
    requires s != [] && !p(s[0])
    ensures RemoveFirst(s, p) == [s[0]] + RemoveFirst(s[1..], p)
  {
    match FindIndex(s[1..], p)
    case None =>
      assert FindIndex(s, p) == None;
      assert s == [s[0]] + s[1..];
    case Some(i) =>
      SpliceAfterNonMatch(s, p, i);
  }

  lemma SpliceAfterNonMatch<T>(s: seq<T>, p: T -> bool, i: nat)
    requires s != [] && !p(s[0]) && FindIndex(s[1..], p) == Some(i)
    ensures RemoveFirst(s, p) == [s[0]] + RemoveFirst(s[1..], p)
  {
    var t := s[1..];
    assert FindIndex(s, p) == Some(i + 1);
    assert s[..i + 1] == [s[0]] + t[..i];
    assert s[i + 2..] == t[i + 1..];
    calc {
      RemoveFirst(s, p);
      s[..i + 1] + s[i + 2..];
      ([s[0]] + t[..i]) + t[i + 1..];
      [s[0]] + (t[..i] + t[i + 1..]);
      [s[0]] + RemoveFirst(t, p);
    }
  }

  lemma {:induction false} RemoveFirstIsDropFirstMatch<T>(s: seq<T>, p: T -> bool)
    ensures RemoveFirst(s, p) == DropFirstMatch(s, p)
  {
    if s != [] && !p(s[0]) {
      RemoveFirstIsDropFirstMatch(s[1..], p);
      RemoveFirstSkipsNonMatch(s, p);
    }
  }

  /** Removing the first match of one predicate and then of a disjoint one
      gives the same list in either order: splicing the "document" slot
      before the meta slot, as the node hook does, is no different from the
      other way round. */
  lemma {:induction false} DropFirstMatchCommutes<T>(s: seq<T>, p: T -> bool, q: T -> bool)
    requires forall x :: p(x) ==> !q(x)
    ensures DropFirstMatch(DropFirstMatch(s, p), q) == DropFirstMatch(DropFirstMatch(s, q), p)
  {
    if s != [] && !p(s[0]) && !q(s[0]) {
      DropFirstMatchCommutes(s[1..], p, q);
    }
  }

  /** The inputs of a participating node after declutter. */
  function DeclutteredInputs(inputs: seq<Slot>): (r: seq<Slot>)
    ensures |r| == |inputs| - (if FindIndex(inputs, IsDocumentSlot).Some? then 1 else 0)
                            - (if FindIndex(inputs, IsMetaSlot).Some? then 1 else 0)
  {
    RemoveFirstKeepsOtherMatches(inputs, IsDocumentSlot, IsMetaSlot);
    RemoveFirst(RemoveFirst(inputs, IsDocumentSlot), IsMetaSlot)
  }

  /** The widgets of a participating node after declutter: its first meta
      widget, if any, is hidden. */
  function HideMetaWidget(ws: seq<Widget>): (r: seq<Widget>)
    ensures |r| == |ws|
    ensures forall j :: 0 <= j < |ws| ==> r[j].labelText == ws[j].labelText
  {
    match FindIndex(ws, IsMetaWidget)
    case None => ws
    case Some(i) => ws[i := ws[i].(hidden := true)]
  }

  /** Exactly the first meta widget becomes hidden; every other widget,
      including any later meta widget, is left as it was. */
  lemma HideMetaWidgetHidesFirst(ws: seq<Widget>, j: nat)
    requires j < |ws|
    ensures IsMetaWidget(ws[j]) && (forall i :: 0 <= i < j ==> !IsMetaWidget(ws[i])) ==>
      HideMetaWidget(ws)[j] == ws[j].(hidden := true)
    ensures !IsMetaWidget(ws[j]) || (exists i :: 0 <= i < j && IsMetaWidget(ws[i])) ==>
      HideMetaWidget(ws)[j] == ws[j]
  {
  }

  /** The node hook returns early only for a node whose type is set and is
      not a participating kind; a node with no type is decluttered too. */
  predicate TakesPart(nodeType: string) {
    nodeType == "" || IsKritaType(nodeType)
  }

  /** Every participating type takes part, and so does an unset type, which
      is not a participating type: such a node is decluttered but never
      enters the registry. */
  lemma TakesPartCases(nodeType: string)
    ensures IsKritaType(nodeType) ==> TakesPart(nodeType)
    ensures nodeType == "" ==> TakesPart(nodeType) && !IsKritaType(nodeType)
  {
  }

  lemma DeclutterOrderIrrelevant(inputs: seq<Slot>)
    ensures DeclutteredInputs(inputs) == RemoveFirst(RemoveFirst(inputs, IsMetaSlot), IsDocumentSlot)
  {
    RemoveFirstIsDropFirstMatch(inputs, IsDocumentSlot);
    RemoveFirstIsDropFirstMatch(inputs, IsMetaSlot);
    RemoveFirstIsDropFirstMatch(RemoveFirst(inputs, IsDocumentSlot), IsMetaSlot);
    RemoveFirstIsDropFirstMatch(RemoveFirst(inputs, IsMetaSlot), IsDocumentSlot);
    DropFirstMatchCommutes(inputs, IsDocumentSlot, IsMetaSlot);
  }

  /** Removing a match of `p` keeps every match of a disjoint `q`: one is
      still found afterwards exactly when one was found before. */
  lemma RemoveFirstKeepsOtherMatches<T>(s: seq<T>, p: T -> bool, q: T -> bool)
    requires forall x :: p(x) ==> !q(x)
    ensures FindIndex(RemoveFirst(s, p), q).Some? == FindIndex(s, q).Some?
  {
    var r := RemoveFirst(s, p);
    match FindIndex(s, p)
    case None =>
    case Some(i) =>
      assert forall j :: 0 <= j < |r| ==> r[j] == (if j < i then s[j] else s[j + 1]);
      match FindIndex(s, q)
      case None =>
      case Some(m) =>
        assert m != i;
        assert q(r[if m < i then m else m - 1]);
  }

  /** Declutter a node in place (`fixKritaNodeUi`). */
  method FixKritaNodeUi(node: Node)
    modifies node
    ensures node.widgetsValues == old(node.widgetsValues)
    ensures !TakesPart(node.nodeType) ==> node.inputs == old(node.inputs) && node.widgets == old(node.widgets)
    ensures TakesPart(node.nodeType) ==>
      node.inputs == DeclutteredInputs(old(node.inputs)) && node.widgets == HideMetaWidget(old(node.widgets))
  {
    if node.nodeType != "" && !IsKritaType(node.nodeType) {
      return;
    }
    var inputs, widgets := node.inputs, node.widgets;
    ghost var original := inputs;
    var metaWidget := FindIndex(widgets, IsMetaWidget);
    var metaSlot := FindIndex(inputs, IsMetaSlot);
    var documentSlot := FindIndex(inputs, IsDocumentSlot);
    RemoveFirstKeepsOtherMatches(inputs, IsDocumentSlot, IsMetaSlot);
    if documentSlot.Some? {
      var slotIndex := documentSlot.value;
      inputs := inputs[..slotIndex] + inputs[slotIndex + 1..];
    }
    assert inputs == RemoveFirst(original, IsDocumentSlot);
    ghost var afterDocument := inputs;
    if metaSlot.Some? {
      // `indexOf` of the meta slot in the list the first splice left behind
      var slotIndex := FindIndex(inputs, IsMetaSlot).value;
      inputs := inputs[..slotIndex] + inputs[slotIndex + 1..];
    }
    if metaWidget.Some? {
      var i := metaWidget.value;
      widgets := widgets[i := widgets[i].(hidden := true)];
    }
    assert inputs == RemoveFirst(afterDocument, IsMetaSlot);
    assert widgets == HideMetaWidget(old(node.widgets));
    node.inputs, node.widgets := inputs, widgets;
  }
}
