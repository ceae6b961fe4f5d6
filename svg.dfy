/** The parsed SVG document as the layer code sees it: an arena of elements, the root
    element at index 0, every other element holding the index of its parent and every
    element the indices of its element children in document order. */
module Svg {
  import opened Wrappers
  import Inkex

  const SvgNS := "http://www.w3.org/2000/svg"
  const InkscapeNS := "http://www.inkscape.org/namespaces/inkscape"

  const IdAttr := "id"
  const StyleAttr := "style"
  const LabelAttr := "{" + InkscapeNS + "}label"
  const GroupModeAttr := "{" + InkscapeNS + "}groupmode"
  const GroupTag := "{" + SvgNS + "}g"

  /** The group tag the layer code writes out literally is the one `addNS` builds. */
  lemma GroupTagQualified()
    ensures GroupTag == Inkex.AddNS("g", Some("svg"))
  {
    assert "svg" in Inkex.NSS && Inkex.NSS["svg"] == SvgNS;
  }

  /** So is the label attribute. */
  lemma LabelAttrQualified()
    ensures LabelAttr == Inkex.AddNS("label", Some("inkscape"))
  {
    assert "inkscape" in Inkex.NSS && Inkex.NSS["inkscape"] == InkscapeNS;
  }

  /** And the group-mode attribute. */
  lemma GroupModeAttrQualified()
    ensures GroupModeAttr == Inkex.AddNS("groupmode", Some("inkscape"))
  {
    assert "inkscape" in Inkex.NSS && Inkex.NSS["inkscape"] == InkscapeNS;
  }

  datatype Element = Element(tag: string, attrs: map<string, string>, parent: Option<nat>, children: seq<nat>)

  /** `element.get(name)`. */
  function Attr(e: Element, name: string): Option<string> {
    if name in e.attrs then Some(e.attrs[name]) else None
  }

  /** Element `i` (not the root) has a parent that comes before it and lists it. */
  predicate ParentLinked(nodes: seq<Element>, i: nat)
    requires i < |nodes|
  {
    nodes[i].parent.Some? && nodes[i].parent.value < i && i in nodes[nodes[i].parent.value].children
  }

  /** The `k`-th child of element `i` exists and has `i` as its parent. */
  predicate ChildLinked(nodes: seq<Element>, i: nat, k: nat)
    requires i < |nodes| && k < |nodes[i].children|
  {
    nodes[i].children[k] < |nodes| && nodes[nodes[i].children[k]].parent == Some(i)
  }

  /** A tree: the root has no parent, every other element's parent comes before it and
      lists it as a child, and child lists hold distinct elements whose parent is the owner. */
  predicate WellFormed(nodes: seq<Element>) {
    && |nodes| > 0
    && nodes[0].parent.None?
    && (forall i {:trigger ParentLinked(nodes, i)} :: 0 < i < |nodes| ==> ParentLinked(nodes, i))
    && (forall i, k {:trigger ChildLinked(nodes, i, k)} ::
          0 <= i < |nodes| && 0 <= k < |nodes[i].children| ==> ChildLinked(nodes, i, k))
    && (forall i {:trigger DistinctChildren(nodes, i)} :: 0 <= i < |nodes| ==> DistinctChildren(nodes, i))
  }

  /** The child list of element `i` holds no element twice. */
  predicate DistinctChildren(nodes: seq<Element>, i: nat)
    requires i < |nodes|
  {
    forall a, b :: 0 <= a < b < |nodes[i].children| ==> nodes[i].children[a] != nodes[i].children[b]
  }

  /** Two arenas with the same elements in the same places, whatever their attributes. */
  predicate SameShape(a: seq<Element>, b: seq<Element>) {
    |a| == |b| && forall i :: 0 <= i < |a| ==> a[i].tag == b[i].tag && a[i].parent == b[i].parent && a[i].children == b[i].children
  }

  lemma SameShapeWellFormed(a: seq<Element>, b: seq<Element>)
    requires WellFormed(a) && SameShape(a, b)
    ensures WellFormed(b)
  {
    forall i | 0 < i < |b| ensures ParentLinked(b, i) {
      assert ParentLinked(a, i);
    }
    forall i, k | 0 <= i < |b| && 0 <= k < |b[i].children| ensures ChildLinked(b, i, k) {
      assert ChildLinked(a, i, k);
    }
    forall i | 0 <= i < |b| ensures DistinctChildren(b, i) {
      assert DistinctChildren(a, i);
    }
  }

  /** The parent of an element other than the root. */
  function Parent(nodes: seq<Element>, i: nat): (p: nat)
    requires WellFormed(nodes) && 0 < i < |nodes|
    ensures p < i && nodes[i].parent == Some(p) && i in nodes[p].children
  {
    assert ParentLinked(nodes, i);
    nodes[i].parent.value
  }

  /** A child of `i` comes after it in the arena and has `i` as its parent. */
  lemma ChildAfterParent(nodes: seq<Element>, i: nat, k: nat)
    requires WellFormed(nodes) && i < |nodes| && k < |nodes[i].children|
    ensures i < nodes[i].children[k] < |nodes| && nodes[nodes[i].children[k]].parent == Some(i)
  {
    assert ChildLinked(nodes, i, k);
    var c := nodes[i].children[k];
    assert c != 0;
    assert Parent(nodes, c) == i;
  }

  /** The `k`-th child of element `i`. */
  function Child(nodes: seq<Element>, i: nat, k: nat): (c: nat)
    requires WellFormed(nodes) && i < |nodes| && k < |nodes[i].children|
    ensures i < c < |nodes| && nodes[c].parent == Some(i) && c == nodes[i].children[k]
  {
    ChildAfterParent(nodes, i, k);
    nodes[i].children[k]
  }

  /** The chain `_get_ancestor_nodes` walks: the element itself, its parent, and so on
      up to the root. */
  function Ancestors(nodes: seq<Element>, i: nat): (chain: seq<nat>)
    requires WellFormed(nodes) && i < |nodes|
    ensures |chain| > 0 && chain[0] == i && chain[|chain| - 1] == 0
    ensures forall k :: 0 <= k < |chain| ==> chain[k] <= i
    decreases i
  {
    if i == 0 then [0]
    else
      var rest := Ancestors(nodes, Parent(nodes, i));
      var chain := [i] + rest;
      assert forall k :: 0 < k < |chain| ==> chain[k] == rest[k - 1];
      chain
  }

  /** One step up the chain. */
  lemma AncestorsStep(nodes: seq<Element>, i: nat)
    requires WellFormed(nodes) && 0 < i < |nodes|
    ensures Ancestors(nodes, i) == [i] + Ancestors(nodes, Parent(nodes, i))
  {
  }

  /** Each element of the chain is the parent of the one before it, and the chain stops
      at the element without a parent. */
  lemma {:induction false} AncestorsLinked(nodes: seq<Element>, i: nat, k: nat)
    requires WellFormed(nodes) && i < |nodes| && k < |Ancestors(nodes, i)|
    ensures k + 1 < |Ancestors(nodes, i)| ==> nodes[Ancestors(nodes, i)[k]].parent == Some(Ancestors(nodes, i)[k + 1])
    ensures k + 1 == |Ancestors(nodes, i)| ==> nodes[Ancestors(nodes, i)[k]].parent.None?
    decreases i
  {
    if i > 0 {
      AncestorsStep(nodes, i);
      if k > 0 {
        AncestorsLinked(nodes, Parent(nodes, i), k - 1);
      }
    }
  }

  /** The chain of an ancestor is the tail of the chain of its descendant. */
  lemma {:induction false} AncestorsOfAncestor(nodes: seq<Element>, j: nat, a: nat)
    requires WellFormed(nodes) && j < |nodes| && a in Ancestors(nodes, j)
    ensures forall b :: b in Ancestors(nodes, a) ==> b in Ancestors(nodes, j)
    decreases j
  {
    if a != j {
      var p := Parent(nodes, j);
      AncestorsOfAncestor(nodes, p, a);
    }
  }

  /** The proper descendants of element `i` in document order: each child of `i`,
      followed by that child's own descendants. */
  function PreOrder(nodes: seq<Element>, i: nat): (r: seq<nat>)
    requires WellFormed(nodes) && i < |nodes|
    ensures forall j :: j in r ==> i < j < |nodes| && i in Ancestors(nodes, j)
    decreases |nodes| - i, 1
  {
    PreOrderFrom(nodes, i, 0)
  }

  /** The children of `i` from the `k`-th on, each followed by its descendants. */
  function PreOrderFrom(nodes: seq<Element>, i: nat, k: nat): (r: seq<nat>)
    requires WellFormed(nodes) && i < |nodes| && k <= |nodes[i].children|
    ensures forall j :: j in r ==> i < j < |nodes| && i in Ancestors(nodes, j)
    decreases |nodes| - i, 0, |nodes[i].children| - k
  {
    if k == |nodes[i].children| then []
    else
      var c := Child(nodes, i, k);
      assert Ancestors(nodes, c) == [c] + Ancestors(nodes, i);
      var below := PreOrder(nodes, c);
      assert forall j :: j in below ==> i in Ancestors(nodes, j) by {
        forall j | j in below ensures i in Ancestors(nodes, j) {
          AncestorsOfAncestor(nodes, j, c);
        }
      }
      [c] + below + PreOrderFrom(nodes, i, k + 1)
  }

  lemma {:induction false} PreOrderFromHas(nodes: seq<Element>, i: nat, k: nat, m: nat)
    requires WellFormed(nodes) && i < |nodes| && k <= m < |nodes[i].children|
    ensures Child(nodes, i, m) in PreOrderFrom(nodes, i, k)
    ensures forall j :: j in PreOrder(nodes, Child(nodes, i, m)) ==> j in PreOrderFrom(nodes, i, k)
    decreases m - k
  {
    if k < m {
      PreOrderFromHas(nodes, i, k + 1, m);
    }
  }

  /** Every proper descendant of `i` appears in its pre-order list. */
  lemma {:induction false} PreOrderComplete(nodes: seq<Element>, i: nat, j: nat)
    requires WellFormed(nodes) && i < |nodes| && j < |nodes|
    requires j != i && i in Ancestors(nodes, j)
    ensures j in PreOrder(nodes, i)
    decreases |nodes| - i
  {
    var chain := Ancestors(nodes, j);
    var n :| 0 <= n < |chain| && chain[n] == i;
    var c := chain[n - 1];
    AncestorsLinked(nodes, j, n - 1);
    assert c != 0;
    var m :| 0 <= m < |nodes[i].children| && nodes[i].children[m] == c by {
      assert Parent(nodes, c) == i;
    }
    PreOrderFromHas(nodes, i, 0, m);
    if j != c {
      assert c in Ancestors(nodes, j);
      PreOrderComplete(nodes, c, j);
    }
  }

  /** Element `j` exists and its id is `x`. */
  predicate HasId(nodes: seq<Element>, j: nat, x: string) {
    j < |nodes| && Attr(nodes[j], IdAttr) == Some(x)
  }

  /** The first element of `s` whose id is `x`. */
  function FirstWithId(nodes: seq<Element>, s: seq<nat>, x: string): (r: Option<nat>)
    ensures r.None? <==> forall p :: 0 <= p < |s| ==> !HasId(nodes, s[p], x)
    ensures r.Some? ==> exists p :: 0 <= p < |s| && s[p] == r.value && HasId(nodes, s[p], x) &&
                          forall q :: 0 <= q < p ==> !HasId(nodes, s[q], x)
  {
    if |s| == 0 then None
    else if HasId(nodes, s[0], x) then Some(s[0])
    else
      var rest := FirstWithId(nodes, s[1..], x);
      assert forall p :: 0 < p < |s| ==> s[p] == s[1..][p - 1];
      rest
  }

  /** The first carrier of `x` in `a + b` is the first in `a`, or else the first in `b`. */
  lemma {:induction false} FirstWithIdAppend(nodes: seq<Element>, a: seq<nat>, b: seq<nat>, x: string)
    ensures FirstWithId(nodes, a + b, x) ==
      if FirstWithId(nodes, a, x).Some? then FirstWithId(nodes, a, x) else FirstWithId(nodes, b, x)
  {
    if |a| == 0 {
      assert a + b == b;
    } else {
      assert (a + b)[1..] == a[1..] + b;
      FirstWithIdAppend(nodes, a[1..], b, x);
    }
  }

  /** The first carrier of `x` in `c`, then `below`, then `rest`. */
  lemma FirstWithIdCons(nodes: seq<Element>, c: nat, below: seq<nat>, rest: seq<nat>, x: string)
    ensures FirstWithId(nodes, [c] + (below + rest), x) ==
      if HasId(nodes, c, x) then Some(c)
      else if FirstWithId(nodes, below, x).Some? then FirstWithId(nodes, below, x)
      else FirstWithId(nodes, rest, x)
  {
    FirstWithIdAppend(nodes, [c], below + rest, x);
    FirstWithIdAppend(nodes, below, rest, x);
  }

  /** The descendant search by id below element `i` (which never returns `i` itself):
      the first element in document order whose id is `x`. */
  function FindBelow(nodes: seq<Element>, i: nat, x: string): (r: Option<nat>)
    requires WellFormed(nodes) && i < |nodes|
    ensures r == FirstWithId(nodes, PreOrder(nodes, i), x)
    ensures r.Some? ==> r.value < |nodes| && r.value != i && i in Ancestors(nodes, r.value)
    ensures r.Some? ==> Attr(nodes[r.value], IdAttr) == Some(x)
    decreases |nodes| - i, 1
  {
    var r := FindAmong(nodes, i, 0, x);
    assert r.Some? ==> r.value in PreOrder(nodes, i);
    r
  }

  /** The search over the children of `i` from the `k`-th on, each followed by its subtree. */
  function FindAmong(nodes: seq<Element>, i: nat, k: nat, x: string): (r: Option<nat>)
    requires WellFormed(nodes) && i < |nodes| && k <= |nodes[i].children|
    ensures r == FirstWithId(nodes, PreOrderFrom(nodes, i, k), x)
    decreases |nodes| - i, 0, |nodes[i].children| - k
  {
    if k == |nodes[i].children| then None
    else
      var c := Child(nodes, i, k);
      assert PreOrderFrom(nodes, i, k) == [c] + (PreOrder(nodes, c) + PreOrderFrom(nodes, i, k + 1));
      FirstWithIdCons(nodes, c, PreOrder(nodes, c), PreOrderFrom(nodes, i, k + 1), x);
      if Attr(nodes[c], IdAttr) == Some(x) then Some(c)
      else
        var below := FindBelow(nodes, c, x);
        if below.Some? then below else FindAmong(nodes, i, k + 1, x)
  }

  lemma {:induction false} FindAmongMisses(nodes: seq<Element>, i: nat, k: nat, x: string)
    requires WellFormed(nodes) && i < |nodes| && k <= |nodes[i].children|
    requires FindAmong(nodes, i, k, x).None?
    ensures forall m :: k <= m < |nodes[i].children| ==>
              Attr(nodes[Child(nodes, i, m)], IdAttr) != Some(x) && FindBelow(nodes, Child(nodes, i, m), x).None?
    decreases |nodes[i].children| - k
  {
    if k < |nodes[i].children| {
      FindAmongMisses(nodes, i, k + 1, x);
    }
  }

  /** A search that finds nothing below `i` has passed over every descendant of `i`. */
  lemma {:induction false} FindBelowMisses(nodes: seq<Element>, i: nat, j: nat, x: string)
    requires WellFormed(nodes) && i < |nodes| && j < |nodes|
    requires FindBelow(nodes, i, x).None?
    requires j != i && i in Ancestors(nodes, j)
    ensures Attr(nodes[j], IdAttr) != Some(x) && FindBelow(nodes, j, x).None?
    decreases j
  {
    var p := Parent(nodes, j);
    assert Ancestors(nodes, j) == [j] + Ancestors(nodes, p);
    var m :| 0 <= m < |nodes[p].children| && nodes[p].children[m] == j;
    assert Child(nodes, p, m) == j;
    if p == i {
      FindAmongMisses(nodes, i, 0, x);
    } else {
      FindBelowMisses(nodes, i, p, x);
      FindAmongMisses(nodes, p, 0, x);
    }
  }

  /** The search from the root reports an absent id only when no element other than the
      root carries it. */
  lemma FindFromRootMisses(nodes: seq<Element>, x: string)
    requires WellFormed(nodes) && FindBelow(nodes, 0, x).None?
    ensures forall j :: 0 < j < |nodes| ==> Attr(nodes[j], IdAttr) != Some(x)
  {
    forall j | 0 < j < |nodes| ensures Attr(nodes[j], IdAttr) != Some(x) {
      FindBelowMisses(nodes, 0, j, x);
    }
  }

  lemma {:induction false} SameShapeAncestors(a: seq<Element>, b: seq<Element>, i: nat)
    requires WellFormed(a) && SameShape(a, b) && i < |a|
    ensures WellFormed(b) && Ancestors(a, i) == Ancestors(b, i)
    decreases i
  {
    SameShapeWellFormed(a, b);
    if i > 0 {
      SameShapeAncestors(a, b, Parent(a, i));
    }
  }
}
