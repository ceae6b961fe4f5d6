/** The rewrite that decides what the exported PDF shows: on a copy of the document,
    every element along the way from a selected layer up to the root gets its `display`
    property removed, and every other child of such an element (other than the
    selected layers themselves) gets `display:none`. */
module Visibility {
  import opened Wrappers
  import SimpleStyle
  import PyStr
  import opened Svg
  import opened Layers

  const Display := "display"
  const HiddenValue := "none"

  /** The ways the rewrite fails: an empty selection and a layer whose element cannot
      be found (both assertions in the original), and a `style` attribute `parseStyle`
      rejects. */
  datatype HideError = NoLayers | LayerNotFound | BadStyle

  function StyleOf(e: Element): Option<string> {
    Attr(e, StyleAttr)
  }

  /** The style properties of an element, or the error parsing its `style` raises. */
  function Properties(e: Element): Result<SimpleStyle.Style, SimpleStyle.StyleError> {
    SimpleStyle.ParseStyle(StyleOf(e))
  }

  /** `node.set('style', text)`. */
  function WithStyle(e: Element, text: string): (r: Element)
    ensures r.tag == e.tag && r.parent == e.parent && r.children == e.children
    ensures StyleOf(r) == Some(text)
    ensures forall a :: a != StyleAttr ==> Attr(r, a) == Attr(e, a)
  {
    e.(attrs := e.attrs[StyleAttr := text])
  }

  /** `_set_style(node, name, value)` on the text of the `style` attribute: parse it, set
      the property (or remove it when `value` is `None` and it is present) and format the
      result; the parse may raise. */
  function StyleAfterSet(style: Option<string>, name: string, value: Option<string>): (r: Result<string, SimpleStyle.StyleError>)
    ensures r.Ok? <==> SimpleStyle.ParseStyle(style).Ok?
  {
    var d :- SimpleStyle.ParseStyle(style);
    var d' :=
      if value.Some? then SimpleStyle.Put(d, name, value.value)
      else if name in SimpleStyle.Keys(d) then SimpleStyle.Delete(d, name)
      else d;
    Ok(SimpleStyle.FormatStyle(d'))
  }

  /** Reading the style back after `_set_style` shows the property with the new value (or
      absent) and every other property as before. */
  lemma SetStyleEffect(style: Option<string>, name: string, value: Option<string>)
    requires SimpleStyle.ParseStyle(style).Ok?
    requires SimpleStyle.Token(name) && (value.Some? ==> SimpleStyle.Token(value.value))
    ensures StyleAfterSet(style, name, value).Ok?
    ensures SimpleStyle.ParseStyle(Some(StyleAfterSet(style, name, value).value)).Ok?
    ensures SimpleStyle.Get(SimpleStyle.ParseStyle(Some(StyleAfterSet(style, name, value).value)).value, name) == value
    ensures forall k :: k != name ==>
              SimpleStyle.Get(SimpleStyle.ParseStyle(Some(StyleAfterSet(style, name, value).value)).value, k) ==
              SimpleStyle.Get(SimpleStyle.ParseStyle(style).value, k)
  {
    var d := SimpleStyle.ParseStyle(style).value;
    if value.Some? {
      SimpleStyle.PutWellFormed(d, name, value.value);
      SimpleStyle.ParseFormat(SimpleStyle.Put(d, name, value.value));
    } else if name in SimpleStyle.Keys(d) {
      SimpleStyle.DeleteWellFormed(d, name);
      SimpleStyle.ParseFormat(SimpleStyle.Delete(d, name));
    } else {
      SimpleStyle.ParseFormat(d);
    }
  }

  /** The property name and the value the rewrite writes survive the style round trip. */
  lemma DisplayTokens()
    ensures SimpleStyle.Token(Display) && SimpleStyle.Token(HiddenValue)
  {
    assert !PyStr.IsSpace('d') && !PyStr.IsSpace('y') && !PyStr.IsSpace('n') && !PyStr.IsSpace('e');
  }

  /** Removing `display` after setting it to `none` gives the text removing it from the
      original would have given. */
  lemma ClearAfterHide(style: Option<string>)
    requires SimpleStyle.ParseStyle(style).Ok?
    ensures StyleAfterSet(style, Display, Some(HiddenValue)).Ok?
    ensures StyleAfterSet(Some(StyleAfterSet(style, Display, Some(HiddenValue)).value), Display, None) ==
            StyleAfterSet(style, Display, None)
  {
    var d := SimpleStyle.ParseStyle(style).value;
    var hidden := SimpleStyle.Put(d, Display, HiddenValue);
    DisplayTokens();
    SimpleStyle.PutWellFormed(d, Display, HiddenValue);
    SimpleStyle.ParseFormat(hidden);
    SimpleStyle.DeletePut(d, Display, HiddenValue);
  }

  /** What the rewrite makes of one element: `inClosure` when it lies on the way from a
      selected layer to the root, `underHidden` when its parent does but is not itself
      selected. */
  function Outcome(e: Element, inClosure: bool, underHidden: bool): (r: Result<Element, SimpleStyle.StyleError>)
    ensures r.Err? <==> (inClosure || underHidden) && Properties(e).Err?
  {
    if inClosure then
      var text :- StyleAfterSet(StyleOf(e), Display, None);
      Ok(WithStyle(e, text))
    else if underHidden then
      var text :- StyleAfterSet(StyleOf(e), Display, Some(HiddenValue));
      Ok(WithStyle(e, text))
    else Ok(e)
  }

  /** The rewritten element keeps its place in the tree and every other attribute; on the
      way to a selected layer it shows no `display` property, below that way it shows
      `display:none`, and elsewhere it is left as it was. */
  lemma OutcomeMeaning(e: Element, inClosure: bool, underHidden: bool)
    requires Outcome(e, inClosure, underHidden).Ok?
    ensures var r := Outcome(e, inClosure, underHidden).value;
      && r.tag == e.tag && r.parent == e.parent && r.children == e.children
      && (forall a :: a != StyleAttr ==> Attr(r, a) == Attr(e, a))
      && (inClosure || underHidden ==>
           Properties(r).Ok? &&
           forall k :: k != Display ==> SimpleStyle.Get(Properties(r).value, k) == SimpleStyle.Get(Properties(e).value, k))
      && (inClosure ==> SimpleStyle.Get(Properties(r).value, Display).None?)
      && (!inClosure && underHidden ==> SimpleStyle.Get(Properties(r).value, Display) == Some(HiddenValue))
      && (!inClosure && !underHidden ==> r == e)
  {
    if inClosure {
      ClearedOutcome(e, underHidden);
    } else if underHidden {
      HiddenOutcome(e);
    }
  }

  lemma ClearedOutcome(e: Element, underHidden: bool)
    requires Outcome(e, true, underHidden).Ok?
    ensures var r := Outcome(e, true, underHidden).value;
      && Properties(r).Ok? && SimpleStyle.Get(Properties(r).value, Display).None?
      && forall k :: k != Display ==> SimpleStyle.Get(Properties(r).value, k) == SimpleStyle.Get(Properties(e).value, k)
  {
    var text := StyleAfterSet(StyleOf(e), Display, None).value;
    assert Outcome(e, true, underHidden).value == WithStyle(e, text);
    DisplayTokens();
    SetStyleEffect(StyleOf(e), Display, None);
  }

  lemma HiddenOutcome(e: Element)
    requires Outcome(e, false, true).Ok?
    ensures var r := Outcome(e, false, true).value;
      && Properties(r).Ok? && SimpleStyle.Get(Properties(r).value, Display) == Some(HiddenValue)
      && forall k :: k != Display ==> SimpleStyle.Get(Properties(r).value, k) == SimpleStyle.Get(Properties(e).value, k)
  {
    var text := StyleAfterSet(StyleOf(e), Display, Some(HiddenValue)).value;
    assert Outcome(e, false, true).value == WithStyle(e, text);
    DisplayTokens();
    SetStyleEffect(StyleOf(e), Display, Some(HiddenValue));
  }

  /** `_get_layer_node(tree, layer)`: the root for the root layer, otherwise the first
      element below the root, in document order, whose id is the layer's; `None` stands
      for the assertion failure when there is none. */
  function GetLayerNode(nodes: seq<Element>, layer: Layer): (r: Option<nat>)
    requires WellFormed(nodes)
    ensures r.Some? ==> r.value < |nodes|
    ensures layer.id.None? ==> r == Some(0)
    ensures layer.id.Some? ==> r == FirstWithId(nodes, PreOrder(nodes, 0), layer.id.value)
    ensures layer.id.Some? && r.Some? ==> r.value > 0 && Attr(nodes[r.value], IdAttr) == layer.id
    ensures layer.id.Some? ==> (r.None? <==> forall j :: 0 < j < |nodes| ==> Attr(nodes[j], IdAttr) != layer.id)
  {
    if layer.id.None? then Some(0)
    else
      var r := FindBelow(nodes, 0, layer.id.value);
      if r.None? then
        FindFromRootMisses(nodes, layer.id.value);
        r
      else r
  }

  /** Every layer `_gather_layers` builds from a document is found in that document, so
      the lookup fails only for layers from elsewhere. */
  lemma GatheredLayersFound(nodes: seq<Element>)
    requires WellFormed(nodes) && Gather(nodes).Some?
    ensures forall x :: x in Flatten(Gather(nodes).value) ==> GetLayerNode(nodes, x).Some?
  {
    var root := Gather(nodes).value;
    WalkIds(nodes, 0, None, []);
    forall x | x in Flatten(root) ensures GetLayerNode(nodes, x).Some? {
      if x != root {
        assert x in FlattenFrom(root, 0);
        var j :| 0 < j < |nodes| && Attr(nodes[j], IdAttr) == x.id;
      }
    }
  }

  predicate AllFound(nodes: seq<Element>, layers: set<Layer>)
    requires WellFormed(nodes)
  {
    forall l :: l in layers ==> GetLayerNode(nodes, l).Some?
  }

  /** The elements of the selected layers (`selected_nodes`). */
  function Targets(nodes: seq<Element>, layers: set<Layer>): (r: set<nat>)
    requires WellFormed(nodes) && AllFound(nodes, layers)
    ensures forall t :: t in r ==> t < |nodes|
  {
    set l | l in layers :: GetLayerNode(nodes, l).value
  }

  /** Element `a` is a selected element or one of its ancestors. */
  predicate OnSelectedPath(nodes: seq<Element>, targets: set<nat>, a: nat)
    requires WellFormed(nodes) && forall t :: t in targets ==> t < |nodes|
  {
    exists t :: t in targets && a in Ancestors(nodes, t)
  }

  /** The selected elements and all their ancestors (`selected_nodes_ancestors`). */
  function Closure(nodes: seq<Element>, targets: set<nat>): (r: set<nat>)
    requires WellFormed(nodes) && forall t :: t in targets ==> t < |nodes|
    ensures forall a :: a in r <==> 0 <= a < |nodes| && OnSelectedPath(nodes, targets, a)
  {
    set a | 0 <= a < |nodes| && OnSelectedPath(nodes, targets, a)
  }

  predicate ParentIn(nodes: seq<Element>, i: nat, s: set<nat>)
    requires i < |nodes|
  {
    nodes[i].parent.Some? && nodes[i].parent.value in s
  }

  /** Some element the rewrite touches has a `style` that does not parse. */
  predicate HideFails(nodes: seq<Element>, targets: set<nat>)
    requires WellFormed(nodes) && forall t :: t in targets ==> t < |nodes|
  {
    var closure := Closure(nodes, targets);
    exists i :: 0 <= i < |nodes| && Outcome(nodes[i], i in closure, ParentIn(nodes, i, closure - targets)).Err?
  }

  /** `result` is the document `nodes` after the rewrite for the selected elements. */
  predicate Rewritten(nodes: seq<Element>, targets: set<nat>, result: seq<Element>)
    requires WellFormed(nodes) && forall t :: t in targets ==> t < |nodes|
  {
    var closure := Closure(nodes, targets);
    |result| == |nodes| &&
    forall i :: 0 <= i < |nodes| ==> Outcome(nodes[i], i in closure, ParentIn(nodes, i, closure - targets)) == Ok(result[i])
  }

  /** What the exported document shows after the rewrite: the selected elements and their
      ancestors carry no `display` property, the other children of those ancestors are
      hidden, everything else is as it was, and the tree keeps its shape. */
  lemma RewrittenVisibility(nodes: seq<Element>, targets: set<nat>, closure: set<nat>, result: seq<Element>)
    requires WellFormed(nodes) && (forall t :: t in targets ==> t < |nodes|)
    requires closure == Closure(nodes, targets)
    requires Rewritten(nodes, targets, result)
    ensures SameShape(nodes, result) && WellFormed(result)
    ensures forall t, a :: t in targets && a in Ancestors(nodes, t) ==>
              Properties(result[a]).Ok? && SimpleStyle.Get(Properties(result[a]).value, Display).None?
    ensures forall i :: 0 <= i < |nodes| && i !in closure && ParentIn(nodes, i, closure - targets) ==>
              Properties(result[i]).Ok? && SimpleStyle.Get(Properties(result[i]).value, Display) == Some(HiddenValue)
    ensures forall i :: 0 <= i < |nodes| && i !in closure && !ParentIn(nodes, i, closure - targets) ==>
              result[i] == nodes[i]
  {
    RewrittenShape(nodes, targets, closure, result);
    RewrittenCleared(nodes, targets, closure, result);
    RewrittenHidden(nodes, targets, closure, result);
    RewrittenUntouched(nodes, targets, closure, result);
  }

  lemma RewrittenShape(nodes: seq<Element>, targets: set<nat>, closure: set<nat>, result: seq<Element>)
    requires WellFormed(nodes) && (forall t :: t in targets ==> t < |nodes|)
    requires closure == Closure(nodes, targets)
    requires Rewritten(nodes, targets, result)
    ensures SameShape(nodes, result) && WellFormed(result)
  {
    forall i | 0 <= i < |nodes|
      ensures result[i].tag == nodes[i].tag && result[i].parent == nodes[i].parent && result[i].children == nodes[i].children
    {
      RewrittenAt(nodes, targets, closure, result, i);
    }
    SameShapeWellFormed(nodes, result);
  }

  lemma RewrittenCleared(nodes: seq<Element>, targets: set<nat>, closure: set<nat>, result: seq<Element>)
    requires WellFormed(nodes) && (forall t :: t in targets ==> t < |nodes|)
    requires closure == Closure(nodes, targets)
    requires Rewritten(nodes, targets, result)
    ensures forall t, a :: t in targets && a in Ancestors(nodes, t) ==>
              Properties(result[a]).Ok? && SimpleStyle.Get(Properties(result[a]).value, Display).None?
  {
    forall t, a | t in targets && a in Ancestors(nodes, t)
      ensures Properties(result[a]).Ok? && SimpleStyle.Get(Properties(result[a]).value, Display).None?
    {
      AncestorInClosure(nodes, targets, t, a);
      RewrittenAt(nodes, targets, closure, result, a);
    }
  }

  /** An ancestor of a selected element is in the closure. */
  lemma AncestorInClosure(nodes: seq<Element>, targets: set<nat>, t: nat, a: nat)
    requires WellFormed(nodes) && (forall t :: t in targets ==> t < |nodes|)
    requires t in targets && a in Ancestors(nodes, t)
    ensures a < |nodes| && a in Closure(nodes, targets)
  {
    AncestorAtMost(nodes, t, a);
    assert OnSelectedPath(nodes, targets, a);
  }

  lemma AncestorAtMost(nodes: seq<Element>, i: nat, a: nat)
    requires WellFormed(nodes) && i < |nodes| && a in Ancestors(nodes, i)
    ensures a <= i
  {
    var chain := Ancestors(nodes, i);
    var k :| 0 <= k < |chain| && chain[k] == a;
  }

  lemma RewrittenHidden(nodes: seq<Element>, targets: set<nat>, closure: set<nat>, result: seq<Element>)
    requires WellFormed(nodes) && (forall t :: t in targets ==> t < |nodes|)
    requires closure == Closure(nodes, targets)
    requires Rewritten(nodes, targets, result)
    ensures forall i :: 0 <= i < |nodes| && i !in closure && ParentIn(nodes, i, closure - targets) ==>
              Properties(result[i]).Ok? && SimpleStyle.Get(Properties(result[i]).value, Display) == Some(HiddenValue)
  {
    forall i | 0 <= i < |nodes| && i !in closure && ParentIn(nodes, i, closure - targets)
      ensures Properties(result[i]).Ok? && SimpleStyle.Get(Properties(result[i]).value, Display) == Some(HiddenValue)
    {
      RewrittenAt(nodes, targets, closure, result, i);
    }
  }

  lemma RewrittenUntouched(nodes: seq<Element>, targets: set<nat>, closure: set<nat>, result: seq<Element>)
    requires WellFormed(nodes) && (forall t :: t in targets ==> t < |nodes|)
    requires closure == Closure(nodes, targets)
    requires Rewritten(nodes, targets, result)
    ensures forall i :: 0 <= i < |nodes| && i !in closure && !ParentIn(nodes, i, closure - targets) ==>
              result[i] == nodes[i]
  {
    forall i | 0 <= i < |nodes| && i !in closure && !ParentIn(nodes, i, closure - targets)
      ensures result[i] == nodes[i]
    {
      RewrittenAt(nodes, targets, closure, result, i);
    }
  }

  lemma RewrittenAt(nodes: seq<Element>, targets: set<nat>, closure: set<nat>, result: seq<Element>, i: nat)
    requires WellFormed(nodes) && (forall t :: t in targets ==> t < |nodes|)
    requires closure == Closure(nodes, targets)
    requires Rewritten(nodes, targets, result) && i < |nodes|
    ensures result[i].tag == nodes[i].tag && result[i].parent == nodes[i].parent && result[i].children == nodes[i].children
    ensures i in closure ==> Properties(result[i]).Ok? && SimpleStyle.Get(Properties(result[i]).value, Display).None?
    ensures i !in closure && ParentIn(nodes, i, closure - targets) ==>
              Properties(result[i]).Ok? && SimpleStyle.Get(Properties(result[i]).value, Display) == Some(HiddenValue)
    ensures i !in closure && !ParentIn(nodes, i, closure - targets) ==> result[i] == nodes[i]
  {
    var inClosure := i in closure;
    var underHidden := ParentIn(nodes, i, closure - targets);
    assert Outcome(nodes[i], inClosure, underHidden) == Ok(result[i]);
    OutcomeMeaning(nodes[i], inClosure, underHidden);
  }

  /** The root sentinel `save_to_pdf` selects when no layers are given. */
  const RootLayer := Layer(None, [], [])

  /** Selecting the root sentinel selects the root element. */
  lemma RootTargets(nodes: seq<Element>)
    requires WellFormed(nodes)
    ensures AllFound(nodes, {RootLayer})
    ensures Targets(nodes, {RootLayer}) == {0}
  {
    assert GetLayerNode(nodes, RootLayer) == Some(0);
  }

  /** The root has no ancestors but itself. */
  lemma RootClosure(nodes: seq<Element>)
    requires WellFormed(nodes)
    ensures Closure(nodes, {0}) == {0}
  {
    var c := Closure(nodes, {0});
    forall a | a in c ensures a == 0 {
      var t :| t in {0} && a in Ancestors(nodes, t);
    }
  }

  /** With only the root selected, the root is un-hidden and nothing is hidden. */
  lemma RootOutcome(nodes: seq<Element>, i: nat)
    requires WellFormed(nodes) && i < |nodes|
    ensures Outcome(nodes[i], i in Closure(nodes, {0}), ParentIn(nodes, i, Closure(nodes, {0}) - {0})) ==
            Outcome(nodes[i], i == 0, false)
  {
    RootClosure(nodes);
    assert Closure(nodes, {0}) - {0} == {};
  }

  /** With only the root selected, the rewrite fails exactly when the root's style does
      not parse. */
  lemma RootRewrite(nodes: seq<Element>)
    requires WellFormed(nodes)
    ensures HideFails(nodes, {0}) <==> Properties(nodes[0]).Err?
  {
    forall i | 0 <= i < |nodes|
      ensures Outcome(nodes[i], i in Closure(nodes, {0}), ParentIn(nodes, i, Closure(nodes, {0}) - {0})) ==
              Outcome(nodes[i], i == 0, false)
    {
      RootOutcome(nodes, i);
    }
  }

  /** Selecting the root sentinel selects the root element, and the rewrite then fails
      exactly when the root's style does not parse. */
  lemma RootSelection(nodes: seq<Element>)
    requires WellFormed(nodes)
    ensures AllFound(nodes, {RootLayer}) && Targets(nodes, {RootLayer}) == {0}
    ensures HideFails(nodes, Targets(nodes, {RootLayer})) <==> Properties(nodes[0]).Err?
  {
    RootTargets(nodes);
    RootRewrite(nodes);
  }

  /** With only the root selected, the rewrite changes the root alone. */
  lemma RootRewritten(nodes: seq<Element>, result: seq<Element>)
    requires WellFormed(nodes) && Rewritten(nodes, {0}, result)
    ensures Outcome(nodes[0], true, false).Ok?
    ensures result == nodes[0 := Outcome(nodes[0], true, false).value]
  {
    forall i | 0 <= i < |nodes| ensures Outcome(nodes[i], i == 0, false) == Ok(result[i]) {
      RootOutcome(nodes, i);
    }
    assert Outcome(nodes[0], true, false) == Ok(result[0]);
  }

  /** Un-hiding an element the rewrite has just hidden gives what un-hiding the original
      would have: the intermediate `display:none` leaves no trace. */
  lemma UnhideHidden(e: Element)
    requires Outcome(e, false, true).Ok?
    ensures Outcome(Outcome(e, false, true).value, true, false) == Outcome(e, true, true)
  {
    var h := StyleAfterSet(StyleOf(e), Display, Some(HiddenValue)).value;
    var c := StyleAfterSet(StyleOf(e), Display, None).value;
    ClearAfterHide(StyleOf(e));
    WithStyleTwice(e, h, c);
  }

  lemma WithStyleTwice(e: Element, first: string, second: string)
    ensures WithStyle(WithStyle(e, first), second) == WithStyle(e, second)
  {
    assert e.attrs[StyleAttr := first][StyleAttr := second] == e.attrs[StyleAttr := second];
  }

  /** Which elements have `p` as their parent: exactly those `p` lists as children. */
  lemma ParentedIffListed(nodes: seq<Element>, p: nat, i: nat)
    requires WellFormed(nodes) && p < |nodes| && i < |nodes|
    ensures nodes[i].parent == Some(p) <==> i in nodes[p].children
  {
    if i in nodes[p].children {
      var m :| 0 <= m < |nodes[p].children| && nodes[p].children[m] == i;
      assert Child(nodes, p, m) == i;
    }
    if nodes[i].parent == Some(p) {
      assert i != 0;
      assert Parent(nodes, i) == p;
    }
  }

  lemma TargetsAdd(nodes: seq<Element>, seen: set<Layer>, l: Layer)
    requires WellFormed(nodes) && AllFound(nodes, seen) && GetLayerNode(nodes, l).Some?
    ensures AllFound(nodes, seen + {l})
    ensures Targets(nodes, seen + {l}) == Targets(nodes, seen) + {GetLayerNode(nodes, l).value}
  {
  }

  lemma ClosureAdd(nodes: seq<Element>, targets: set<nat>, t: nat)
    requires WellFormed(nodes) && (forall u :: u in targets ==> u < |nodes|) && t < |nodes|
    ensures Closure(nodes, targets + {t}) == Closure(nodes, targets) + set a | a in Ancestors(nodes, t)
  {
    ClosureAddWithin(nodes, targets, t);
    ClosureAddCovers(nodes, targets, t);
    ClosureAddChain(nodes, targets, t);
  }

  lemma ClosureAddWithin(nodes: seq<Element>, targets: set<nat>, t: nat)
    requires WellFormed(nodes) && (forall u :: u in targets ==> u < |nodes|) && t < |nodes|
    ensures forall a :: a in Closure(nodes, targets + {t}) ==> a in Closure(nodes, targets) || a in Ancestors(nodes, t)
  {
    forall a | a in Closure(nodes, targets + {t}) ensures a in Closure(nodes, targets) || a in Ancestors(nodes, t) {
      var u :| u in targets + {t} && a in Ancestors(nodes, u);
      if u != t {
        assert OnSelectedPath(nodes, targets, a);
      }
    }
  }

  lemma ClosureAddCovers(nodes: seq<Element>, targets: set<nat>, t: nat)
    requires WellFormed(nodes) && (forall u :: u in targets ==> u < |nodes|) && t < |nodes|
    ensures forall a :: a in Closure(nodes, targets) ==> a in Closure(nodes, targets + {t})
  {
    forall a | a in Closure(nodes, targets) ensures a in Closure(nodes, targets + {t}) {
      var u :| u in targets && a in Ancestors(nodes, u);
      assert u in targets + {t};
    }
  }

  lemma ClosureAddChain(nodes: seq<Element>, targets: set<nat>, t: nat)
    requires WellFormed(nodes) && (forall u :: u in targets ==> u < |nodes|) && t < |nodes|
    ensures forall a :: a in Ancestors(nodes, t) ==> a in Closure(nodes, targets + {t})
  {
    forall a | a in Ancestors(nodes, t) ensures a in Closure(nodes, targets + {t}) {
      AncestorAtMost(nodes, t, a);
      assert t in targets + {t};
    }
  }

  /** Part way through the rewrite: element `i` of `current` is element `i` of `orig`
      un-hidden if it is in `cleared`, hidden if it is in `hidden`, and untouched otherwise. */
  ghost predicate Staged(orig: seq<Element>, current: seq<Element>, i: nat, cleared: set<nat>, hidden: set<nat>)
    requires i < |orig| && i < |current|
  {
    Outcome(orig[i], i in cleared, i in hidden) == Ok(current[i])
  }

  ghost predicate AllStaged(orig: seq<Element>, current: seq<Element>, cleared: set<nat>, hidden: set<nat>) {
    |current| == |orig| &&
    forall i {:trigger Staged(orig, current, i, cleared, hidden)} :: 0 <= i < |orig| ==> Staged(orig, current, i, cleared, hidden)
  }

  /** `current` after `node.set('style', ...)` with what `_set_style(node, 'display', value)` computes. */
  ghost predicate SetAt(current: seq<Element>, next: seq<Element>, c: nat, value: Option<string>)
    requires c < |current|
  {
    StyleAfterSet(StyleOf(current[c]), Display, value).Ok? &&
    next == current[c := WithStyle(current[c], StyleAfterSet(StyleOf(current[c]), Display, value).value)]
  }

  /** Hiding an untouched element moves it into the hidden set. */
  lemma HideStep(orig: seq<Element>, current: seq<Element>, next: seq<Element>, cleared: set<nat>, hidden: set<nat>, c: nat)
    requires AllStaged(orig, current, cleared, hidden) && c < |orig| && c !in cleared && c !in hidden
    requires SetAt(current, next, c, Some(HiddenValue))
    ensures AllStaged(orig, next, cleared, hidden + {c})
  {
    assert Staged(orig, current, c, cleared, hidden);
    assert Staged(orig, next, c, cleared, hidden + {c});
    StagedOthers(orig, current, next, cleared, hidden, cleared, hidden + {c}, c);
  }

  /** Hiding fails only on an untouched element whose own style does not parse. */
  lemma HideStepFails(orig: seq<Element>, current: seq<Element>, cleared: set<nat>, hidden: set<nat>, c: nat)
    requires AllStaged(orig, current, cleared, hidden) && c < |orig| && c !in cleared && c !in hidden
    requires Properties(current[c]).Err?
    ensures Properties(orig[c]).Err?
  {
    assert Staged(orig, current, c, cleared, hidden);
  }

  /** Un-hiding an element moves it into the cleared set, whether or not it was hidden. */
  lemma UnhideStep(orig: seq<Element>, current: seq<Element>, next: seq<Element>, cleared: set<nat>, hidden: set<nat>, a: nat)
    requires AllStaged(orig, current, cleared, hidden) && a < |orig| && a !in cleared
    requires SetAt(current, next, a, None)
    ensures AllStaged(orig, next, cleared + {a}, hidden)
  {
    assert Staged(orig, current, a, cleared, hidden);
    UnhideElement(orig[a], current[a], a in hidden);
    assert Staged(orig, next, a, cleared + {a}, hidden);
    StagedOthers(orig, current, next, cleared, hidden, cleared + {a}, hidden, a);
  }

  /** Clearing `display` on an element that was left alone or hidden gives what clearing
      the original gives. */
  lemma UnhideElement(e: Element, current: Element, underHidden: bool)
    requires Outcome(e, false, underHidden) == Ok(current)
    requires StyleAfterSet(StyleOf(current), Display, None).Ok?
    ensures Outcome(e, true, underHidden) == Ok(WithStyle(current, StyleAfterSet(StyleOf(current), Display, None).value))
  {
    if underHidden {
      UnhideHidden(e);
    }
  }

  /** A step that changes element `c` alone, and moves it alone between the sets, keeps
      every other element staged. */
  lemma StagedOthers(orig: seq<Element>, current: seq<Element>, next: seq<Element>,
                     cleared: set<nat>, hidden: set<nat>, cleared': set<nat>, hidden': set<nat>, c: nat)
    requires AllStaged(orig, current, cleared, hidden) && c < |orig|
    requires |next| == |orig| && next == current[c := next[c]]
    requires cleared' - {c} == cleared - {c} && hidden' - {c} == hidden - {c}
    requires Staged(orig, next, c, cleared', hidden')
    ensures AllStaged(orig, next, cleared', hidden')
  {
    forall i | 0 <= i < |orig| ensures Staged(orig, next, i, cleared', hidden') {
      if i != c {
        assert Staged(orig, current, i, cleared, hidden);
        assert (i in cleared' - {c} <==> i in cleared - {c}) && (i in hidden' - {c} <==> i in hidden - {c});
      }
    }
  }

  /** Un-hiding never fails on an element the rewrite has hidden, so it fails only where
      the element's own style does not parse. */
  lemma UnhideStepFails(orig: seq<Element>, current: seq<Element>, cleared: set<nat>, hidden: set<nat>, a: nat)
    requires AllStaged(orig, current, cleared, hidden) && a < |orig| && a !in cleared
    requires Properties(current[a]).Err?
    ensures Properties(orig[a]).Err?
  {
    assert Staged(orig, current, a, cleared, hidden);
    if a in hidden {
      OutcomeMeaning(orig[a], false, true);
    }
  }

  /** The untouched document is staged with nothing cleared and nothing hidden. */
  lemma StagedStart(orig: seq<Element>)
    ensures AllStaged(orig, orig, {}, {})
  {
    forall i | 0 <= i < |orig| ensures Staged(orig, orig, i, {}, {}) {
    }
  }

  /** Once the ways are cleared and their other children hidden, the document is rewritten. */
  lemma StagedRewritten(orig: seq<Element>, targets: set<nat>, current: seq<Element>, hidden: set<nat>)
    requires WellFormed(orig) && (forall t :: t in targets ==> t < |orig|)
    requires AllStaged(orig, current, Closure(orig, targets), hidden)
    requires forall i :: 0 <= i < |orig| ==> (i in hidden <==> ParentIn(orig, i, Closure(orig, targets) - targets))
    ensures Rewritten(orig, targets, current)
  {
    var closure := Closure(orig, targets);
    forall i | 0 <= i < |orig| ensures Outcome(orig[i], i in closure, ParentIn(orig, i, closure - targets)) == Ok(current[i]) {
      assert Staged(orig, current, i, closure, hidden);
    }
  }

  /** An element of the rewrite that fails makes the whole rewrite fail. */
  lemma FailsAt(orig: seq<Element>, targets: set<nat>, i: nat)
    requires WellFormed(orig) && (forall t :: t in targets ==> t < |orig|) && i < |orig|
    requires i in Closure(orig, targets) || ParentIn(orig, i, Closure(orig, targets) - targets)
    requires Properties(orig[i]).Err?
    ensures HideFails(orig, targets)
  {
    var closure := Closure(orig, targets);
    assert Outcome(orig[i], i in closure, ParentIn(orig, i, closure - targets)).Err?;
  }

  /** A rewrite that runs to the end fails nowhere. */
  lemma RewrittenSucceeds(orig: seq<Element>, targets: set<nat>, current: seq<Element>)
    requires WellFormed(orig) && (forall t :: t in targets ==> t < |orig|)
    requires Rewritten(orig, targets, current)
    ensures !HideFails(orig, targets)
  {
  }

  lemma PrefixStep(s: seq<nat>, k: nat)
    requires k < |s|
    ensures forall x :: x in s[..k + 1] <==> x in s[..k] || x == s[k]
  {
    assert s[..k + 1] == s[..k] + [s[k]];
  }

  lemma PrefixAll(s: seq<nat>)
    ensures s[..|s|] == s
  {
  }

  /** A mutable SVG document: the arena of elements, updated in place. */
  class SvgTree {
    var nodes: seq<Element>

    ghost predicate Valid()
      reads this
    {
      WellFormed(nodes)
    }

    constructor (nodes: seq<Element>)
      requires WellFormed(nodes)
      ensures Valid() && this.nodes == nodes
    {
      this.nodes := nodes;
    }

    /** `copy.deepcopy(tree)`: a new document with the same elements. */
    constructor Copy(source: SvgTree)
      requires source.Valid()
      ensures Valid() && nodes == source.nodes
    {
      nodes := source.nodes;
    }

    /** `_get_ancestor_nodes(node)`: the element, its parent, and so on up to the root. */
    method AncestorNodes(node: nat) returns (chain: seq<nat>)
      requires Valid() && node < |nodes|
      ensures chain == Ancestors(nodes, node)
    {
      ghost var full := Ancestors(nodes, node);
      chain := [];
      var current: Option<nat> := Some(node);
      while current.Some?
        invariant current.Some? ==> |chain| < |full| && current.value == full[|chain|] && chain == full[..|chain|]
        invariant current.None? ==> chain == full
        decreases |full| - |chain|
      {
        var c := current.value;
        AncestorsLinked(nodes, node, |chain|);
        assert full[..|chain| + 1] == chain + [c];
        chain := chain + [c];
        current := nodes[c].parent;
      }
    }

    /** `_set_style(node, name, value)`: `ok` is false where `parseStyle` raises, and then
        nothing changes. */
    method SetStyle(node: nat, name: string, value: Option<string>) returns (ok: bool)
      requires Valid() && node < |nodes|
      modifies this
      ensures Valid() && SameShape(old(nodes), nodes)
      ensures ok <==> Properties(old(nodes)[node]).Ok?
      ensures ok ==> nodes == old(nodes)[node := WithStyle(old(nodes)[node], StyleAfterSet(StyleOf(old(nodes)[node]), name, value).value)]
      ensures !ok ==> nodes == old(nodes)
    {
      var e := nodes[node];
      var parsed := SimpleStyle.ParseStyle(StyleOf(e));
      if parsed.Err? {
        return false;
      }
      var style := parsed.value;
      if value.Some? {
        style := SimpleStyle.Put(style, name, value.value);
      } else if name in SimpleStyle.Keys(style) {
        style := SimpleStyle.Delete(style, name);
      }
      nodes := nodes[node := WithStyle(e, SimpleStyle.FormatStyle(style))];
      SameShapeWellFormed(old(nodes), nodes);
      return true;
    }

    /** The inner loop of `_hide_deselected_layers`: `_set_style(child, 'display', 'none')`
        on every child of `p`, in order; `ok` is false where one of them raises. */
    method HideChildren(p: nat, ghost orig: seq<Element>, ghost done: set<nat>, ghost hidden: set<nat>)
      returns (ok: bool, ghost hidden': set<nat>)
      requires Valid() && SameShape(orig, nodes) && WellFormed(orig) && p < |orig| && p !in done
      requires AllStaged(orig, nodes, {}, hidden)
      requires forall i :: 0 <= i < |orig| ==> (i in hidden <==> ParentIn(orig, i, done))
      modifies this
      ensures Valid() && SameShape(orig, nodes)
      ensures ok ==> AllStaged(orig, nodes, {}, hidden')
      ensures ok ==> forall i :: 0 <= i < |orig| ==> (i in hidden' <==> ParentIn(orig, i, done + {p}))
      ensures !ok ==> exists c :: 0 <= c < |orig| && orig[c].parent == Some(p) && Properties(orig[c]).Err?
    {
      hidden' := hidden;
      var children := nodes[p].children;
      for k := 0 to |children|
        invariant Valid() && SameShape(orig, nodes)
        invariant AllStaged(orig, nodes, {}, hidden')
        invariant forall i :: 0 <= i < |orig| ==> (i in hidden' <==> ParentIn(orig, i, done) || i in children[..k])
      {
        var c := children[k];
        assert c == Child(orig, p, k);
        assert DistinctChildren(orig, p);
        assert c !in children[..k];
        assert c !in hidden';
        ghost var before := nodes;
        var styled := SetStyle(c, Display, Some(HiddenValue));
        if !styled {
          HideStepFails(orig, before, {}, hidden', c);
          return false, hidden';
        }
        HideStep(orig, before, nodes, {}, hidden', c);
        hidden' := hidden' + {c};
        PrefixStep(children, k);
      }
      forall i | 0 <= i < |orig| ensures ParentIn(orig, i, done + {p}) <==> ParentIn(orig, i, done) || i in children {
        ParentedIffListed(orig, p, i);
      }
      PrefixAll(children);
      return true, hidden';
    }

    /** The outer loop of the hiding half of `_hide_deselected_layers`: hide the children
        of every element of `parents`; `ok` is false where one of them raises. */
    method HideChildrenOfAll(parents: set<nat>, ghost orig: seq<Element>) returns (ok: bool, ghost hidden: set<nat>)
      requires Valid() && WellFormed(orig) && nodes == orig && forall p :: p in parents ==> p < |orig|
      modifies this
      ensures Valid() && SameShape(orig, nodes)
      ensures ok ==> AllStaged(orig, nodes, {}, hidden)
      ensures ok ==> forall i :: 0 <= i < |orig| ==> (i in hidden <==> ParentIn(orig, i, parents))
      ensures !ok ==> exists c :: 0 <= c < |orig| && ParentIn(orig, c, parents) && Properties(orig[c]).Err?
    {
      StagedStart(orig);
      var todo := parents;
      ghost var done: set<nat> := {};
      hidden := {};
      while todo != {}
        invariant done + todo == parents && done !! todo
        invariant Valid() && SameShape(orig, nodes)
        invariant AllStaged(orig, nodes, {}, hidden)
        invariant forall i :: 0 <= i < |orig| ==> (i in hidden <==> ParentIn(orig, i, done))
        decreases todo
      {
        var p :| p in todo;
        ok, hidden := HideChildren(p, orig, done, hidden);
        if !ok {
          return;
        }
        done := done + {p};
        todo := todo - {p};
      }
      return true, hidden;
    }

    /** The un-hiding loop of `_hide_deselected_layers`: `_set_style(node, 'display', None)`
        on every element of `path`; `ok` is false where one of them raises. */
    method UnhideAll(path: set<nat>, ghost orig: seq<Element>, ghost hidden: set<nat>) returns (ok: bool)
      requires Valid() && WellFormed(orig) && SameShape(orig, nodes) && forall a :: a in path ==> a < |orig|
      requires AllStaged(orig, nodes, {}, hidden)
      modifies this
      ensures Valid() && SameShape(orig, nodes)
      ensures ok ==> AllStaged(orig, nodes, path, hidden)
      ensures !ok ==> exists a :: a in path && Properties(orig[a]).Err?
    {
      var todo := path;
      ghost var cleared: set<nat> := {};
      while todo != {}
        invariant cleared + todo == path && cleared !! todo
        invariant Valid() && SameShape(orig, nodes)
        invariant AllStaged(orig, nodes, cleared, hidden)
        decreases todo
      {
        var a :| a in todo;
        ghost var before := nodes;
        ok := SetStyle(a, Display, None);
        if !ok {
          UnhideStepFails(orig, before, cleared, hidden, a);
          return;
        }
        UnhideStep(orig, before, nodes, cleared, hidden, a);
        cleared := cleared + {a};
        todo := todo - {a};
      }
      return true;
    }
  }

  /** The first half of `_hide_deselected_layers`: the elements of the selected layers
      (`selected_nodes`) and those elements with all their ancestors
      (`selected_nodes_ancestors`), or the failed assertion for a layer without an element. */
  method SelectedNodes(tree: SvgTree, layers: set<Layer>) returns (r: Result<(set<nat>, set<nat>), HideError>)
    requires tree.Valid()
    ensures r.Err? <==> !AllFound(tree.nodes, layers)
    ensures r.Err? ==> r.error == LayerNotFound
    ensures r.Ok? ==> r.value.0 == Targets(tree.nodes, layers) && r.value.1 == Closure(tree.nodes, r.value.0)
  {
    var selected: set<nat> := {};
    var ancestors: set<nat> := {};
    var todo := layers;
    ghost var seen: set<Layer> := {};
    while todo != {}
      invariant seen + todo == layers && seen !! todo
      invariant AllFound(tree.nodes, seen)
      invariant selected == Targets(tree.nodes, seen)
      invariant ancestors == Closure(tree.nodes, selected)
      decreases todo
    {
      var layer :| layer in todo;
      var node := GetLayerNode(tree.nodes, layer);
      if node.None? {
        return Err(LayerNotFound);
      }
      var chain := tree.AncestorNodes(node.value);
      TargetsAdd(tree.nodes, seen, layer);
      ClosureAdd(tree.nodes, selected, node.value);
      selected := selected + {chain[0]};
      ancestors := ancestors + set a | a in chain;
      seen := seen + {layer};
      todo := todo - {layer};
    }
    assert seen == layers;
    return Ok((selected, ancestors));
  }

  /** `_hide_deselected_layers(tree, layers)`: on a copy of the document, hide every child
      of an element on the way from a selected layer to the root (unless it is itself
      selected) and un-hide the elements on those ways; the original is left alone. */
  method HideDeselectedLayers(tree: SvgTree, layers: set<Layer>) returns (r: Result<SvgTree, HideError>)
    requires tree.Valid()
    ensures r == Err(NoLayers) <==> layers == {}
    ensures r == Err(LayerNotFound) <==> layers != {} && !AllFound(tree.nodes, layers)
    ensures r == Err(BadStyle) <==> layers != {} && AllFound(tree.nodes, layers) && HideFails(tree.nodes, Targets(tree.nodes, layers))
    ensures r.Ok? ==> fresh(r.value) && r.value.Valid() && Rewritten(tree.nodes, Targets(tree.nodes, layers), r.value.nodes)
  {
    if layers == {} {
      return Err(NoLayers);
    }
    var copy := new SvgTree.Copy(tree);
    ghost var orig := tree.nodes;
    var found :- SelectedNodes(copy, layers);
    var (selected, ancestors) := found;
    ghost var targets := selected;
    ghost var closure := ancestors;

    // Hide the children of the elements on the way that are not themselves selected,
    // then un-hide the elements on the way.
    var ok;
    ghost var hidden;
    ok, hidden := copy.HideChildrenOfAll(ancestors - selected, orig);
    if !ok {
      ghost var c :| 0 <= c < |orig| && ParentIn(orig, c, closure - targets) && Properties(orig[c]).Err?;
      FailsAt(orig, targets, c);
      return Err(BadStyle);
    }
    ok := copy.UnhideAll(ancestors, orig, hidden);
    if !ok {
      ghost var a :| a in closure && Properties(orig[a]).Err?;
      FailsAt(orig, targets, a);
      return Err(BadStyle);
    }
    StagedRewritten(orig, targets, copy.nodes, hidden);
    RewrittenSucceeds(orig, targets, copy.nodes);
    return Ok(copy);
  }

  /** The visibility step of `save_to_pdf(path, layers)`: without a selection the root
      sentinel is selected, which only removes the root's own `display` property. */
  method SaveToPdfTree(tree: SvgTree, layers: Option<set<Layer>>) returns (r: Result<SvgTree, HideError>)
    requires tree.Valid()
    ensures layers.Some? ==> (r == Err(NoLayers) <==> layers.value == {})
    ensures layers.Some? ==> (r == Err(LayerNotFound) <==> layers.value != {} && !AllFound(tree.nodes, layers.value))
    ensures layers.Some? ==>
      (r == Err(BadStyle) <==> layers.value != {} && AllFound(tree.nodes, layers.value) && HideFails(tree.nodes, Targets(tree.nodes, layers.value)))
    ensures layers.Some? && r.Ok? ==>
      fresh(r.value) && r.value.Valid() && Rewritten(tree.nodes, Targets(tree.nodes, layers.value), r.value.nodes)
    ensures layers.None? ==> r.Err? ==> r.error == BadStyle
    ensures layers.None? ==> (r.Ok? <==> Properties(tree.nodes[0]).Ok?)
    ensures layers.None? && r.Ok? ==>
      fresh(r.value) && r.value.nodes == tree.nodes[0 := Outcome(tree.nodes[0], true, false).value]
  {
    if layers.None? {
      r := HideRootOnly(tree);
    } else {
      r := HideDeselectedLayers(tree, layers.value);
    }
  }

  /** The rewrite with only the root sentinel selected. */
  method HideRootOnly(tree: SvgTree) returns (r: Result<SvgTree, HideError>)
    requires tree.Valid()
    ensures r.Err? ==> r.error == BadStyle
    ensures r.Ok? <==> Properties(tree.nodes[0]).Ok?
    ensures r.Ok? ==> fresh(r.value) && r.value.nodes == tree.nodes[0 := Outcome(tree.nodes[0], true, false).value]
  {
    r := HideDeselectedLayers(tree, {RootLayer});
    RootSelection(tree.nodes);
    assert r.Err? ==> r.error == NoLayers || r.error == LayerNotFound || r.error == BadStyle;
    if r.Ok? {
      RootRewritten(tree.nodes, r.value.nodes);
    }
  }
}
