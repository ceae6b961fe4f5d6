/** The layer tree of a document: a read-only mapping from child names to child layers,
    built once from the `<g inkscape:groupmode="layer">` elements nested under the root. */
module Layers {
  import opened Wrappers
  import opened Svg

  /** A layer: the id of its group element (`None` only for the root), the labels on the
      way from the root to it (`None` where a group has no label) and its child layers in
      document order. */
  datatype Layer = Layer(id: Option<string>, path: seq<Option<string>>, children: seq<Layer>)

  /** `Layer.name`: the last label of the path, the empty name for the root. */
  function Name(l: Layer): Option<string> {
    ([Some("")] + l.path)[|l.path|]
  }

  /** `len(layer)`: the number of child entries. */
  function Len(l: Layer): nat {
    |l.children|
  }

  /** `iter(layer)`: the names of the child entries, in order, duplicates included. */
  function Names(l: Layer): (r: seq<Option<string>>)
    ensures |r| == Len(l)
    ensures forall k :: 0 <= k < |r| ==> r[k] == Name(l.children[k])
  {
    seq(|l.children|, k requires 0 <= k < |l.children| => Name(l.children[k]))
  }

  /** The position of the first of `children` whose name is `key`. */
  function FirstNamed(children: seq<Layer>, key: Option<string>): (r: Option<nat>)
    ensures r.None? <==> forall k :: 0 <= k < |children| ==> Name(children[k]) != key
    ensures r.Some? ==> r.value < |children| && Name(children[r.value]) == key
    ensures r.Some? ==> forall k :: 0 <= k < r.value ==> Name(children[k]) != key
  {
    if |children| == 0 then None
    else if Name(children[0]) == key then Some(0)
    else
      var rest := FirstNamed(children[1..], key);
      assert forall k :: 0 < k < |children| ==> children[k] == children[1..][k - 1];
      if rest.None? then None else Some(rest.value + 1)
  }

  /** `layer[key]`: the first child named `key`; `None` stands for the `KeyError`. */
  function GetItem(l: Layer, key: Option<string>): (r: Option<Layer>)
    ensures r.None? <==> key !in Names(l)
    ensures r.Some? ==> exists k :: 0 <= k < |l.children| && r.value == l.children[k] && Name(r.value) == key &&
                          forall j :: 0 <= j < k ==> Name(l.children[j]) != key
  {
    var k := FirstNamed(l.children, key);
    if k.None? then None else Some(l.children[k.value])
  }

  /** The layer `items()` pairs with the `k`-th name: `layer[name]`, which is the first
      child carrying that name, not necessarily the `k`-th child. */
  function ItemChild(l: Layer, k: nat): (r: Layer)
    requires k < |l.children|
    ensures GetItem(l, Name(l.children[k])) == Some(r)
    ensures Name(r) == Name(l.children[k])
    ensures r in l.children
  {
    var f := FirstNamed(l.children, Name(l.children[k]));
    l.children[f.value]
  }

  /** Sibling names are distinct. */
  predicate DistinctNames(l: Layer) {
    forall a, b :: 0 <= a < b < |l.children| ==> Name(l.children[a]) != Name(l.children[b])
  }

  /** With distinct sibling names `items()` pairs every name with its own child. */
  lemma ItemsOfDistinctNames(l: Layer, k: nat)
    requires DistinctNames(l) && k < |l.children|
    ensures ItemChild(l, k) == l.children[k]
  {
    var f := FirstNamed(l.children, Name(l.children[k])).value;
    if f != k {
      assert false;
    }
  }

  /** With two siblings of the same name, `items()` pairs the second name with the first
      child and the second child is never reached. */
  lemma ItemsOfDuplicateNames(a: Layer, b: Layer)
    requires Name(a) == Name(b)
    ensures ItemChild(Layer(Some("p"), [], [a, b]), 1) == a
  {
    var l := Layer(Some("p"), [], [a, b]);
    assert FirstNamed(l.children, Name(b)) == Some(0);
  }

  /** `layer.flatten`: the layer followed by the flattening of each child entry, in order. */
  function Flatten(l: Layer): (r: seq<Layer>)
    ensures |r| >= 1 && r[0] == l
    decreases l, 1
  {
    [l] + FlattenFrom(l, 0)
  }

  /** The flattenings of the children of `l` from the `k`-th on, concatenated. */
  function FlattenFrom(l: Layer, k: nat): seq<Layer>
    requires k <= |l.children|
    decreases l, 0, |l.children| - k
  {
    if k == |l.children| then [] else Flatten(l.children[k]) + FlattenFrom(l, k + 1)
  }

  /** The flattenings of the children of `l` before the `k`-th, concatenated. */
  function FlattenUpTo(l: Layer, k: nat): seq<Layer>
    requires k <= |l.children|
  {
    if k == 0 then [] else FlattenUpTo(l, k - 1) + Flatten(l.children[k - 1])
  }

  lemma {:induction false} FlattenSplits(l: Layer, k: nat)
    requires k <= |l.children|
    ensures FlattenFrom(l, 0) == FlattenUpTo(l, k) + FlattenFrom(l, k)
    decreases k
  {
    if k > 0 {
      FlattenSplits(l, k - 1);
      assert FlattenFrom(l, k - 1) == Flatten(l.children[k - 1]) + FlattenFrom(l, k);
    }
  }

  /** Pre-order: the flattening of a layer is the layer, then the flattenings of the
      children before the `k`-th, then that of the `k`-th child, then the rest. */
  lemma FlattenIsPreOrder(l: Layer, k: nat)
    requires k < |l.children|
    ensures Flatten(l) == [l] + (FlattenUpTo(l, k) + (Flatten(l.children[k]) + FlattenFrom(l, k + 1)))
  {
    FlattenSplits(l, k);
  }

  /** Membership in a flattening: the layer itself or a member of a child's flattening. */
  lemma {:induction false} InFlattenFrom(l: Layer, k: nat, x: Layer)
    requires k <= |l.children|
    ensures x in FlattenFrom(l, k) <==> exists m :: k <= m < |l.children| && x in Flatten(l.children[m])
    decreases |l.children| - k
  {
    if k < |l.children| {
      InFlattenFrom(l, k + 1, x);
    }
  }

  /** The total number of layers in a list of trees. */
  function CountAll(ls: seq<Layer>): nat {
    if |ls| == 0 then 0 else |Flatten(ls[0])| + CountAll(ls[1..])
  }

  lemma {:induction false} FlattenFromLength(l: Layer, k: nat)
    requires k <= |l.children|
    ensures |FlattenFrom(l, k)| == CountAll(l.children[k..])
    decreases |l.children| - k
  {
    if k < |l.children| {
      FlattenFromLength(l, k + 1);
      assert l.children[k..][1..] == l.children[k + 1..];
    }
  }

  /** A layer contributes itself plus all layers of its child entries. */
  lemma FlattenLength(l: Layer)
    ensures |Flatten(l)| == 1 + CountAll(l.children)
  {
    FlattenFromLength(l, 0);
    assert l.children[0..] == l.children;
  }

  /** The shape `_gather_layers` gives every layer below the root: it has an id, and its
      path is its parent's path followed by its own label. */
  predicate WellBuilt(l: Layer)
    decreases l
  {
    forall k :: 0 <= k < |l.children| ==>
      && l.children[k].id.Some?
      && |l.children[k].path| == |l.path| + 1
      && l.children[k].path[..|l.path|] == l.path
      && WellBuilt(l.children[k])
  }

  /** In a well-built tree each child's name is its own label at the end of its path. */
  lemma ChildNameEndsPath(l: Layer, k: nat)
    requires WellBuilt(l) && k < |l.children|
    ensures l.children[k].path == l.path + [Name(l.children[k])]
  {
    var c := l.children[k];
    assert c.path == c.path[..|l.path|] + [c.path[|l.path|]];
  }

  /** Every layer of a well-built tree is well built, and every layer after the first
      has an id and a path strictly extending that of the top layer. */
  lemma {:induction false} FlattenWellBuilt(l: Layer)
    requires WellBuilt(l)
    ensures forall x :: x in Flatten(l) ==> WellBuilt(x) && |x.path| >= |l.path| && x.path[..|l.path|] == l.path
    ensures forall k :: 1 <= k < |Flatten(l)| ==>
              Flatten(l)[k].id.Some? && |Flatten(l)[k].path| > |l.path|
    decreases l, 1
  {
    FlattenFromWellBuilt(l, 0);
  }

  lemma {:induction false} FlattenFromWellBuilt(l: Layer, k: nat)
    requires WellBuilt(l) && k <= |l.children|
    ensures forall x :: x in FlattenFrom(l, k) ==>
              WellBuilt(x) && x.id.Some? && |x.path| > |l.path| && x.path[..|l.path|] == l.path
    decreases l, 0, |l.children| - k
  {
    if k < |l.children| {
      var c := l.children[k];
      FlattenWellBuilt(c);
      FlattenFromWellBuilt(l, k + 1);
      forall x | x in Flatten(c)
        ensures x.id.Some? && |x.path| > |l.path| && x.path[..|l.path|] == l.path
      {
        var i :| 0 <= i < |Flatten(c)| && Flatten(c)[i] == x;
        assert x.path[..|l.path|] == x.path[..|c.path|][..|l.path|];
      }
    }
  }

  /** An element `_gather_layers` turns into a layer: a `<g>` in layer group mode. */
  predicate IsLayerGroup(e: Element) {
    e.tag == GroupTag && Attr(e, GroupModeAttr) == Some("layer")
  }

  /** The layer groups among `cs`, in order. */
  function LayerGroups(nodes: seq<Element>, cs: seq<nat>): (r: seq<nat>)
    requires forall k :: 0 <= k < |cs| ==> cs[k] < |nodes|
    ensures forall k :: 0 <= k < |r| ==> r[k] in cs && r[k] < |nodes| && IsLayerGroup(nodes[r[k]])
    ensures forall c :: c in cs && IsLayerGroup(nodes[c]) ==> c in r
  {
    if |cs| == 0 then []
    else
      var rest := LayerGroups(nodes, cs[1..]);
      assert forall c :: c in cs[1..] ==> c in cs;
      if IsLayerGroup(nodes[cs[0]]) then [cs[0]] + rest else rest
  }

  /** `LayerGroups` keeps the document order of the children. */
  lemma {:induction false} LayerGroupsInOrder(nodes: seq<Element>, cs: seq<nat>)
    requires forall k :: 0 <= k < |cs| ==> cs[k] < |nodes|
    ensures InOrder(cs, LayerGroups(nodes, cs))
  {
    if |cs| > 0 {
      var rest := LayerGroups(nodes, cs[1..]);
      LayerGroupsInOrder(nodes, cs[1..]);
      assert cs == [cs[0]] + cs[1..];
      InOrderTail(cs[0], cs[1..], rest);
      if IsLayerGroup(nodes[cs[0]]) {
        InOrderCons(cs[0], cs[1..], rest);
      }
    }
  }

  /** `r` keeps the order of `cs`: any two of its entries come from two positions of
      `cs` in the same order. */
  predicate InOrder(cs: seq<nat>, r: seq<nat>) {
    forall a, b :: 0 <= a < b < |r| ==> PairInOrder(cs, r[a], r[b])
  }

  /** `x` and `y` occur in `cs`, `x` before `y`. */
  predicate PairInOrder(cs: seq<nat>, x: nat, y: nat) {
    exists p, q :: 0 <= p < q < |cs| && cs[p] == x && cs[q] == y
  }

  lemma InOrderTail(x: nat, t: seq<nat>, r: seq<nat>)
    requires InOrder(t, r)
    ensures InOrder([x] + t, r)
  {
    var cs := [x] + t;
    forall a, b | 0 <= a < b < |r| ensures PairInOrder(cs, r[a], r[b]) {
      var p, q :| 0 <= p < q < |t| && t[p] == r[a] && t[q] == r[b];
      assert cs[p + 1] == r[a] && cs[q + 1] == r[b];
    }
  }

  lemma InOrderCons(x: nat, t: seq<nat>, r: seq<nat>)
    requires InOrder(t, r) && forall c :: c in r ==> c in t
    ensures InOrder([x] + t, [x] + r)
  {
    var cs, r' := [x] + t, [x] + r;
    forall a, b | 0 <= a < b < |r'| ensures PairInOrder(cs, r'[a], r'[b]) {
      if a == 0 {
        assert r'[b] == r[b - 1] && r[b - 1] in r;
        var q :| 0 <= q < |t| && t[q] == r[b - 1];
        assert cs[0] == r'[a] && cs[q + 1] == r'[b];
      } else {
        var p, q :| 0 <= p < q < |t| && t[p] == r[a - 1] && t[q] == r[b - 1];
        assert cs[p + 1] == r'[a] && cs[q + 1] == r'[b];
      }
    }
  }

  /** The layer groups directly under element `i` (the `findall` of `walk_layer`). */
  function LayerChildren(nodes: seq<Element>, i: nat): (r: seq<nat>)
    requires WellFormed(nodes) && i < |nodes|
    ensures forall k :: 0 <= k < |r| ==> i < r[k] < |nodes| && nodes[r[k]].parent == Some(i) && IsLayerGroup(nodes[r[k]])
  {
    var cs := nodes[i].children;
    forall m | 0 <= m < |cs| ensures i < cs[m] < |nodes| && nodes[cs[m]].parent == Some(i) {
      ChildAfterParent(nodes, i, m);
    }
    var r := LayerGroups(nodes, cs);
    forall k | 0 <= k < |r| ensures i < r[k] && nodes[r[k]].parent == Some(i) {
      var m :| 0 <= m < |cs| && cs[m] == r[k];
    }
    r
  }

  /** Every layer group directly under `i` is among the ones the walk visits. */
  lemma LayerChildrenComplete(nodes: seq<Element>, i: nat, m: nat)
    requires WellFormed(nodes) && i < |nodes| && m < |nodes[i].children|
    requires IsLayerGroup(nodes[Child(nodes, i, m)])
    ensures Child(nodes, i, m) in LayerChildren(nodes, i)
  {
    assert Child(nodes, i, m) in nodes[i].children;
  }

  /** `l` carries what `walk_layer` records for the layer group `c` below a layer at
      `path`: the id of `c`, which is present, and the path extended by its label. */
  predicate LayerOfGroup(nodes: seq<Element>, c: nat, path: seq<Option<string>>, l: Layer)
    requires c < |nodes|
  {
    && l.id == Attr(nodes[c], IdAttr)
    && l.id.Some?
    && l.path == path + [Attr(nodes[c], LabelAttr)]
  }

  /** `walk_layer(id, path, element)`: the layer for element `i` and, recursively, its
      layer groups; `None` stands for the assertion failure on a layer group without id. */
  function Walk(nodes: seq<Element>, i: nat, id: Option<string>, path: seq<Option<string>>): (r: Option<Layer>)
    requires WellFormed(nodes) && i < |nodes|
    ensures r.Some? ==> r.value.id == id && r.value.path == path
    ensures r.Some? ==> |r.value.children| == |LayerChildren(nodes, i)|
    ensures r.Some? ==> forall k :: 0 <= k < |r.value.children| ==>
              LayerOfGroup(nodes, LayerChildren(nodes, i)[k], path, r.value.children[k])
    decreases |nodes| - i, 1
  {
    var cs := WalkFrom(nodes, i, 0, path);
    if cs.None? then None else Some(Layer(id, path, cs.value))
  }

  /** The layers of the layer groups under `i` from the `k`-th on (`iter_children`). */
  function WalkFrom(nodes: seq<Element>, i: nat, k: nat, path: seq<Option<string>>): (r: Option<seq<Layer>>)
    requires WellFormed(nodes) && i < |nodes| && k <= |LayerChildren(nodes, i)|
    ensures r.Some? ==> |r.value| == |LayerChildren(nodes, i)| - k
    ensures r.Some? ==> forall m :: 0 <= m < |r.value| ==> LayerOfGroup(nodes, LayerChildren(nodes, i)[k + m], path, r.value[m])
    decreases |nodes| - i, 0, |LayerChildren(nodes, i)| - k
  {
    var lcs := LayerChildren(nodes, i);
    if k == |lcs| then Some([])
    else
      var c := lcs[k];
      var id := Attr(nodes[c], IdAttr);
      if id.None? then None
      else
        var first := Walk(nodes, c, id, path + [Attr(nodes[c], LabelAttr)]);
        var rest := WalkFrom(nodes, i, k + 1, path);
        if first.None? || rest.None? then None
        else
          ConsLayers(nodes, lcs, k, path, first.value, rest.value);
          Some([first.value] + rest.value)
  }

  lemma ConsLayers(nodes: seq<Element>, lcs: seq<nat>, k: nat, path: seq<Option<string>>, first: Layer, rest: seq<Layer>)
    requires forall j :: 0 <= j < |lcs| ==> lcs[j] < |nodes|
    requires k < |lcs| && |rest| == |lcs| - (k + 1)
    requires LayerOfGroup(nodes, lcs[k], path, first)
    requires forall m :: 0 <= m < |rest| ==> LayerOfGroup(nodes, lcs[k + 1 + m], path, rest[m])
    ensures forall m :: 0 <= m < |rest| + 1 ==> LayerOfGroup(nodes, lcs[k + m], path, ([first] + rest)[m])
  {
    forall m | 0 <= m < |rest| + 1 ensures LayerOfGroup(nodes, lcs[k + m], path, ([first] + rest)[m]) {
      if m > 0 {
        assert ([first] + rest)[m] == rest[m - 1];
        assert LayerOfGroup(nodes, lcs[k + 1 + (m - 1)], path, rest[m - 1]);
      }
    }
  }

  /** Every layer the walk builds is well built. */
  lemma {:induction false} WalkWellBuilt(nodes: seq<Element>, i: nat, id: Option<string>, path: seq<Option<string>>)
    requires WellFormed(nodes) && i < |nodes| && Walk(nodes, i, id, path).Some?
    ensures WellBuilt(Walk(nodes, i, id, path).value)
    decreases |nodes| - i, 1
  {
    var l := Walk(nodes, i, id, path).value;
    WalkFromWellBuilt(nodes, i, 0, path);
    forall k | 0 <= k < |l.children|
      ensures |l.children[k].path| == |l.path| + 1 && l.children[k].path[..|l.path|] == l.path
    {
      assert LayerOfGroup(nodes, LayerChildren(nodes, i)[k], path, l.children[k]);
    }
  }

  lemma {:induction false} WalkFromWellBuilt(nodes: seq<Element>, i: nat, k: nat, path: seq<Option<string>>)
    requires WellFormed(nodes) && i < |nodes| && k <= |LayerChildren(nodes, i)| && WalkFrom(nodes, i, k, path).Some?
    ensures forall m :: 0 <= m < |WalkFrom(nodes, i, k, path).value| ==> WellBuilt(WalkFrom(nodes, i, k, path).value[m])
    decreases |nodes| - i, 0, |LayerChildren(nodes, i)| - k
  {
    var lcs := LayerChildren(nodes, i);
    if k < |lcs| {
      var c := lcs[k];
      var id := Attr(nodes[c], IdAttr);
      WalkWellBuilt(nodes, c, id, path + [Attr(nodes[c], LabelAttr)]);
      WalkFromWellBuilt(nodes, i, k + 1, path);
      var first := Walk(nodes, c, id, path + [Attr(nodes[c], LabelAttr)]).value;
      var rest := WalkFrom(nodes, i, k + 1, path).value;
      assert WalkFrom(nodes, i, k, path).value == [first] + rest;
      forall m | 0 <= m < |rest| + 1 ensures WellBuilt(([first] + rest)[m]) {
        if m > 0 {
          assert ([first] + rest)[m] == rest[m - 1];
        }
      }
    }
  }

  /** Layer `x` has an id, and some element after `i` carries it. */
  ghost predicate IdAfter(nodes: seq<Element>, i: nat, x: Layer) {
    x.id.Some? && exists j :: i < j < |nodes| && Attr(nodes[j], IdAttr) == x.id
  }

  /** Every layer below the top of a walk from `i` has the id of an element after `i`. */
  lemma {:induction false} WalkIds(nodes: seq<Element>, i: nat, id: Option<string>, path: seq<Option<string>>)
    requires WellFormed(nodes) && i < |nodes| && Walk(nodes, i, id, path).Some?
    ensures forall x :: x in FlattenFrom(Walk(nodes, i, id, path).value, 0) ==> IdAfter(nodes, i, x)
    decreases |nodes| - i, 1
  {
    var l := Walk(nodes, i, id, path).value;
    assert l.children == WalkFrom(nodes, i, 0, path).value;
    WalkFromIds(nodes, i, 0, path);
    forall x | x in FlattenFrom(l, 0) ensures IdAfter(nodes, i, x) {
      InFlattenFrom(l, 0, x);
      var m :| 0 <= m < |l.children| && x in Flatten(l.children[m]);
    }
  }

  lemma {:induction false} WalkFromIds(nodes: seq<Element>, i: nat, k: nat, path: seq<Option<string>>)
    requires WellFormed(nodes) && i < |nodes| && k <= |LayerChildren(nodes, i)| && WalkFrom(nodes, i, k, path).Some?
    ensures forall m, x :: 0 <= m < |WalkFrom(nodes, i, k, path).value| && x in Flatten(WalkFrom(nodes, i, k, path).value[m]) ==>
              IdAfter(nodes, i, x)
    decreases |nodes| - i, 0, |LayerChildren(nodes, i)| - k
  {
    var lcs := LayerChildren(nodes, i);
    if k < |lcs| {
      var c := lcs[k];
      var id := Attr(nodes[c], IdAttr);
      var cpath := path + [Attr(nodes[c], LabelAttr)];
      WalkIds(nodes, c, id, cpath);
      WalkFromIds(nodes, i, k + 1, path);
      var first := Walk(nodes, c, id, cpath).value;
      var rest := WalkFrom(nodes, i, k + 1, path).value;
      assert WalkFrom(nodes, i, k, path).value == [first] + rest;
      forall m, x | 0 <= m < |rest| + 1 && x in Flatten(([first] + rest)[m]) ensures IdAfter(nodes, i, x) {
        if m > 0 {
          assert ([first] + rest)[m] == rest[m - 1];
        } else if x == first {
          assert i < c && Attr(nodes[c], IdAttr) == x.id;
        } else {
          assert x in FlattenFrom(first, 0);
          var j :| c < j < |nodes| && Attr(nodes[j], IdAttr) == x.id;
          assert i < j;
        }
      }
    }
  }

  /** `_gather_layers(tree)`: the root layer, with no id and an empty path. */
  function Gather(nodes: seq<Element>): (r: Option<Layer>)
    requires WellFormed(nodes)
    ensures r.Some? ==> r.value.id.None? && r.value.path == [] && WellBuilt(r.value)
  {
    var r := Walk(nodes, 0, None, []);
    if r.Some? then
      WalkWellBuilt(nodes, 0, None, []);
      r
    else r
  }

  /** Element `i` lies below element `j` with only layer groups on the way down
      (`i` included, `j` excluded): the elements the nested walk visits from `j`. */
  ghost predicate ReachedFrom(nodes: seq<Element>, i: nat, j: nat)
    requires WellFormed(nodes) && i < |nodes|
    decreases i
  {
    i != 0 && IsLayerGroup(nodes[i]) &&
    var p := Parent(nodes, i);
    p == j || ReachedFrom(nodes, p, j)
  }

  /** Some layer group the walk from `j` visits has no id. */
  ghost predicate MissingBelow(nodes: seq<Element>, j: nat)
    requires WellFormed(nodes)
  {
    exists i :: 0 <= i < |nodes| && ReachedFrom(nodes, i, j) && Attr(nodes[i], IdAttr).None?
  }

  lemma {:induction false} ReachedViaChild(nodes: seq<Element>, i: nat, j: nat)
    requires WellFormed(nodes) && i < |nodes| && j < |nodes| && ReachedFrom(nodes, i, j)
    ensures exists c :: c in LayerChildren(nodes, j) && (c == i || ReachedFrom(nodes, i, c))
    decreases i
  {
    var p := Parent(nodes, i);
    if p == j {
      var m :| 0 <= m < |nodes[j].children| && nodes[j].children[m] == i;
      assert Child(nodes, j, m) == i;
      LayerChildrenComplete(nodes, j, m);
    } else {
      ReachedViaChild(nodes, p, j);
      var c :| c in LayerChildren(nodes, j) && (c == p || ReachedFrom(nodes, p, c));
      assert ReachedFrom(nodes, i, c);
    }
  }

  lemma {:induction false} ReachedThroughChild(nodes: seq<Element>, i: nat, c: nat, j: nat)
    requires WellFormed(nodes) && i < |nodes| && j < |nodes| && c in LayerChildren(nodes, j)
    requires c == i || ReachedFrom(nodes, i, c)
    ensures ReachedFrom(nodes, i, j)
    decreases i
  {
    var lcs := LayerChildren(nodes, j);
    var k :| 0 <= k < |lcs| && lcs[k] == c;
    if c != i {
      var p := Parent(nodes, i);
      if p != c {
        ReachedThroughChild(nodes, p, c, j);
      } else {
        assert ReachedFrom(nodes, p, j);
      }
    }
  }

  /** The walk into layer group `c` fails: `c` itself or a layer group below it has no id. */
  ghost predicate ChildFails(nodes: seq<Element>, c: nat)
    requires WellFormed(nodes) && c < |nodes|
  {
    Attr(nodes[c], IdAttr).None? || MissingBelow(nodes, c)
  }

  /** The walk fails into one of the layer groups under `i` from the `k`-th on. */
  ghost predicate FailsFrom(nodes: seq<Element>, i: nat, k: nat)
    requires WellFormed(nodes) && i < |nodes|
  {
    var lcs := LayerChildren(nodes, i);
    exists m :: k <= m < |lcs| && ChildFails(nodes, lcs[m])
  }

  /** Below `j` an id is missing exactly when it is missing on one of the layer groups
      directly under `j` or below one of them. */
  lemma MissingBelowViaChildren(nodes: seq<Element>, j: nat)
    requires WellFormed(nodes) && j < |nodes|
    ensures MissingBelow(nodes, j) <==> FailsFrom(nodes, j, 0)
  {
    var lcs := LayerChildren(nodes, j);
    if MissingBelow(nodes, j) {
      var i :| 0 <= i < |nodes| && ReachedFrom(nodes, i, j) && Attr(nodes[i], IdAttr).None?;
      ReachedViaChild(nodes, i, j);
      var c :| c in lcs && (c == i || ReachedFrom(nodes, i, c));
      var k :| 0 <= k < |lcs| && lcs[k] == c;
      if c != i {
        assert MissingBelow(nodes, c);
      }
      assert ChildFails(nodes, lcs[k]);
    }
    if FailsFrom(nodes, j, 0) {
      var k :| 0 <= k < |lcs| && ChildFails(nodes, lcs[k]);
      var c := lcs[k];
      if Attr(nodes[c], IdAttr).None? {
        ReachedThroughChild(nodes, c, c, j);
      } else {
        var i :| 0 <= i < |nodes| && ReachedFrom(nodes, i, c) && Attr(nodes[i], IdAttr).None?;
        ReachedThroughChild(nodes, i, c, j);
      }
    }
  }

  /** The walk from `i` fails exactly when a layer group below `i` lacks an id. */
  lemma {:induction false} WalkFails(nodes: seq<Element>, i: nat, id: Option<string>, path: seq<Option<string>>)
    requires WellFormed(nodes) && i < |nodes|
    ensures Walk(nodes, i, id, path).None? <==> MissingBelow(nodes, i)
    decreases |nodes| - i, 1
  {
    WalkFromFails(nodes, i, 0, path);
    MissingBelowViaChildren(nodes, i);
  }

  lemma {:induction false} WalkFromFails(nodes: seq<Element>, i: nat, k: nat, path: seq<Option<string>>)
    requires WellFormed(nodes) && i < |nodes| && k <= |LayerChildren(nodes, i)|
    ensures WalkFrom(nodes, i, k, path).None? <==> FailsFrom(nodes, i, k)
    decreases |nodes| - i, 0, |LayerChildren(nodes, i)| - k
  {
    var lcs := LayerChildren(nodes, i);
    if k < |lcs| {
      var c := lcs[k];
      var id := Attr(nodes[c], IdAttr);
      WalkFromFails(nodes, i, k + 1, path);
      if id.Some? {
        WalkFails(nodes, c, id, path + [Attr(nodes[c], LabelAttr)]);
      }
      assert FailsFrom(nodes, i, k) <==> ChildFails(nodes, c) || FailsFrom(nodes, i, k + 1);
    }
  }

  /** `_gather_layers` fails exactly when some layer group it reaches from the root has
      no id. */
  lemma GatherFails(nodes: seq<Element>)
    requires WellFormed(nodes)
    ensures Gather(nodes).None? <==>
      exists i :: 0 <= i < |nodes| && ReachedFrom(nodes, i, 0) && Attr(nodes[i], IdAttr).None?
  {
    WalkFails(nodes, 0, None, []);
  }

  /** The labels of the layer groups on the way down from `j` to a group `i` the walk
      from `j` reaches: the part of `i`'s path that the walk adds below `j`. */
  ghost function LabelsFrom(nodes: seq<Element>, i: nat, j: nat): seq<Option<string>>
    requires WellFormed(nodes) && i < |nodes| && ReachedFrom(nodes, i, j)
    decreases i
  {
    var p := Parent(nodes, i);
    (if p == j then [] else LabelsFrom(nodes, p, j)) + [Attr(nodes[i], LabelAttr)]
  }

  /** A group reached below a layer group `c` directly under `j` is reached from `j`,
      and its labels from `j` are those from `c` with `c`'s own label in front. */
  lemma {:induction false} LabelsThroughChild(nodes: seq<Element>, i: nat, c: nat, j: nat)
    requires WellFormed(nodes) && i < |nodes| && j < |nodes| && c in LayerChildren(nodes, j)
    requires ReachedFrom(nodes, i, c)
    ensures ReachedFrom(nodes, i, j)
    ensures LabelsFrom(nodes, i, j) == [Attr(nodes[c], LabelAttr)] + LabelsFrom(nodes, i, c)
    decreases i
  {
    ReachedThroughChild(nodes, i, c, j);
    var p := Parent(nodes, i);
    assert Parent(nodes, c) == j;
    if p != c {
      ReachedAfter(nodes, p, c);
      LabelsThroughChild(nodes, p, c, j);
      assert LabelsFrom(nodes, i, j) == LabelsFrom(nodes, p, j) + [Attr(nodes[i], LabelAttr)];
    }
  }

  /** The walk only goes down: a group reached from `j` comes after it. */
  lemma {:induction false} ReachedAfter(nodes: seq<Element>, i: nat, j: nat)
    requires WellFormed(nodes) && i < |nodes| && ReachedFrom(nodes, i, j)
    ensures j < i
    decreases i
  {
    var p := Parent(nodes, i);
    if p != j {
      ReachedAfter(nodes, p, j);
    }
  }

  /** Layer `x` is what the walk from `top` along `path` records for element `j`: `j` is
      a layer group it reaches, and `x` has `j`'s id and the path down to `j`. */
  ghost predicate LayerOf(nodes: seq<Element>, top: nat, path: seq<Option<string>>, j: nat, x: Layer)
    requires WellFormed(nodes)
  {
    j < |nodes| && ReachedFrom(nodes, j, top) && x.id == Attr(nodes[j], IdAttr) && x.path == path + LabelsFrom(nodes, j, top)
  }

  /** The layers below the top of a walk from `i` are, by id and path, exactly the layer
      groups the walk reaches from `i`. */
  lemma {:induction false} WalkMirrors(nodes: seq<Element>, i: nat, id: Option<string>, path: seq<Option<string>>)
    requires WellFormed(nodes) && i < |nodes| && Walk(nodes, i, id, path).Some?
    ensures forall x :: x in FlattenFrom(Walk(nodes, i, id, path).value, 0) ==> exists j :: LayerOf(nodes, i, path, j, x)
    ensures forall j :: 0 <= j < |nodes| && ReachedFrom(nodes, j, i) ==>
              exists x :: x in FlattenFrom(Walk(nodes, i, id, path).value, 0) && LayerOf(nodes, i, path, j, x)
    decreases |nodes| - i, 1
  {
    var l := Walk(nodes, i, id, path).value;
    assert l.children == WalkFrom(nodes, i, 0, path).value;
    WalkFromMirrors(nodes, i, 0, path);
    ChildrenMirror(nodes, i, path, l);
  }

  /** A layer whose children mirror the layer groups under `i` mirrors, below its top,
      every group the walk from `i` reaches. */
  lemma ChildrenMirror(nodes: seq<Element>, i: nat, path: seq<Option<string>>, l: Layer)
    requires WellFormed(nodes) && i < |nodes| && MirrorsFrom(nodes, i, path, LayerChildren(nodes, i), 0, l.children)
    ensures forall x :: x in FlattenFrom(l, 0) ==> exists j :: LayerOf(nodes, i, path, j, x)
    ensures forall j :: 0 <= j < |nodes| && ReachedFrom(nodes, j, i) ==>
              exists x :: x in FlattenFrom(l, 0) && LayerOf(nodes, i, path, j, x)
  {
    var lcs := LayerChildren(nodes, i);
    forall x | x in FlattenFrom(l, 0) ensures exists j :: LayerOf(nodes, i, path, j, x) {
      InFlattenFrom(l, 0, x);
      var m :| 0 <= m < |l.children| && x in Flatten(l.children[m]);
      MirrorsLength(nodes, i, path, lcs, 0, l.children);
      MirrorsAt(nodes, i, path, lcs, 0, l.children, m);
    }
    ChildrenMirrorReached(nodes, i, path, l);
  }

  /** Below its top, a layer whose children mirror the layer groups under `i` holds the
      layer of every group the walk from `i` reaches. */
  lemma ChildrenMirrorReached(nodes: seq<Element>, i: nat, path: seq<Option<string>>, l: Layer)
    requires WellFormed(nodes) && i < |nodes| && MirrorsFrom(nodes, i, path, LayerChildren(nodes, i), 0, l.children)
    ensures forall j :: 0 <= j < |nodes| && ReachedFrom(nodes, j, i) ==>
              exists x :: x in FlattenFrom(l, 0) && LayerOf(nodes, i, path, j, x)
  {
    forall j | 0 <= j < |nodes| && ReachedFrom(nodes, j, i)
      ensures exists x :: x in FlattenFrom(l, 0) && LayerOf(nodes, i, path, j, x)
    {
      var x := ReachedLayer(nodes, i, path, l, j);
    }
  }

  lemma ReachedLayer(nodes: seq<Element>, i: nat, path: seq<Option<string>>, l: Layer, j: nat) returns (x: Layer)
    requires WellFormed(nodes) && i < |nodes| && MirrorsFrom(nodes, i, path, LayerChildren(nodes, i), 0, l.children)
    requires j < |nodes| && ReachedFrom(nodes, j, i)
    ensures x in FlattenFrom(l, 0) && LayerOf(nodes, i, path, j, x)
  {
    var lcs := LayerChildren(nodes, i);
    var m := ReachedChild(nodes, j, i);
    MirrorsAt(nodes, i, path, lcs, 0, l.children, m);
    x :| x in Flatten(l.children[m]) && LayerOf(nodes, i, path, j, x);
    InFlattenFrom(l, 0, x);
  }

  /** A group the walk from `i` reaches is, or lies below, one of the layer groups
      directly under `i`. */
  lemma ReachedChild(nodes: seq<Element>, j: nat, i: nat) returns (m: nat)
    requires WellFormed(nodes) && i < |nodes| && j < |nodes| && ReachedFrom(nodes, j, i)
    ensures m < |LayerChildren(nodes, i)| && Under(nodes, j, LayerChildren(nodes, i)[m])
  {
    var lcs := LayerChildren(nodes, i);
    ReachedViaChild(nodes, j, i);
    var c :| c in lcs && (c == j || ReachedFrom(nodes, j, c));
    m :| 0 <= m < |lcs| && lcs[m] == c;
  }

  /** The layers the walk builds for the layer groups under `i` from the `k`-th on mirror
      those groups, one layer per group. */
  lemma {:induction false} WalkFromMirrors(nodes: seq<Element>, i: nat, k: nat, path: seq<Option<string>>)
    requires WellFormed(nodes) && i < |nodes| && k <= |LayerChildren(nodes, i)| && WalkFrom(nodes, i, k, path).Some?
    ensures MirrorsFrom(nodes, i, path, LayerChildren(nodes, i), k, WalkFrom(nodes, i, k, path).value)
    decreases |nodes| - i, 0, |LayerChildren(nodes, i)| - k
  {
    var lcs := LayerChildren(nodes, i);
    var v := WalkFrom(nodes, i, k, path).value;
    if k < |lcs| {
      var c := lcs[k];
      var first := Walk(nodes, c, Attr(nodes[c], IdAttr), path + [Attr(nodes[c], LabelAttr)]).value;
      var rest := WalkFrom(nodes, i, k + 1, path).value;
      assert v == [first] + rest;
      assert v[0] == first && v[1..] == rest;
      WalkFromMirrors(nodes, i, k + 1, path);
      GroupMirrors(nodes, i, c, path);
    }
  }

  /** The layers `v` mirror the layer groups `lcs[k..]` under `i`, one by one. */
  ghost predicate MirrorsFrom(nodes: seq<Element>, i: nat, path: seq<Option<string>>, lcs: seq<nat>, k: nat, v: seq<Layer>)
    requires WellFormed(nodes) && k <= |lcs|
    decreases |lcs| - k
  {
    if k == |lcs| then v == []
    else |v| > 0 && Mirror(nodes, i, path, lcs[k], v[0]) && MirrorsFrom(nodes, i, path, lcs, k + 1, v[1..])
  }

  /** The `m`-th layer group of `lcs` is mirrored by the matching layer of `v`. */
  lemma {:induction false} MirrorsAt(nodes: seq<Element>, i: nat, path: seq<Option<string>>, lcs: seq<nat>, k: nat, v: seq<Layer>, m: nat)
    requires WellFormed(nodes) && k <= m < |lcs| && MirrorsFrom(nodes, i, path, lcs, k, v)
    ensures |v| == |lcs| - k && Mirror(nodes, i, path, lcs[m], v[m - k])
    decreases m - k
  {
    if m > k {
      MirrorsAt(nodes, i, path, lcs, k + 1, v[1..], m);
      assert v[1..][m - (k + 1)] == v[m - k];
    } else {
      MirrorsLength(nodes, i, path, lcs, k, v);
    }
  }

  lemma {:induction false} MirrorsLength(nodes: seq<Element>, i: nat, path: seq<Option<string>>, lcs: seq<nat>, k: nat, v: seq<Layer>)
    requires WellFormed(nodes) && k <= |lcs| && MirrorsFrom(nodes, i, path, lcs, k, v)
    ensures |v| == |lcs| - k
    decreases |lcs| - k
  {
    if k < |lcs| {
      MirrorsLength(nodes, i, path, lcs, k + 1, v[1..]);
    }
  }

  /** Layer `l` mirrors layer group `c` below `i`, as sets: every layer in its flattening
      is the layer of some group the walk from `i` reaches, and every group at or below
      `c` has its layer there. */
  ghost predicate Mirror(nodes: seq<Element>, i: nat, path: seq<Option<string>>, c: nat, l: Layer)
    requires WellFormed(nodes)
  {
    && (forall x :: x in Flatten(l) ==> exists j :: LayerOf(nodes, i, path, j, x))
    && (forall j :: 0 <= j < |nodes| && Under(nodes, j, c) ==> exists x :: x in Flatten(l) && LayerOf(nodes, i, path, j, x))
  }

  /** Element `j` is the layer group `c` or lies below it with only layer groups on the
      way down. */
  ghost predicate Under(nodes: seq<Element>, j: nat, c: nat)
    requires WellFormed(nodes) && j < |nodes|
  {
    c == j || ReachedFrom(nodes, j, c)
  }

  /** The walk into a layer group `c` directly under `i` mirrors `c`, with paths counted
      from `i`. */
  lemma {:induction false} GroupMirrors(nodes: seq<Element>, i: nat, c: nat, path: seq<Option<string>>)
    requires WellFormed(nodes) && i < |nodes| && c in LayerChildren(nodes, i)
    requires Walk(nodes, c, Attr(nodes[c], IdAttr), path + [Attr(nodes[c], LabelAttr)]).Some?
    ensures Mirror(nodes, i, path, c, Walk(nodes, c, Attr(nodes[c], IdAttr), path + [Attr(nodes[c], LabelAttr)]).value)
    decreases |nodes| - i, 0, 0
  {
    var cpath := path + [Attr(nodes[c], LabelAttr)];
    var first := Walk(nodes, c, Attr(nodes[c], IdAttr), cpath).value;
    assert Parent(nodes, c) == i;
    assert ReachedFrom(nodes, c, i) && LabelsFrom(nodes, c, i) == [Attr(nodes[c], LabelAttr)];
    assert LayerOf(nodes, i, path, c, first);
    WalkMirrors(nodes, c, Attr(nodes[c], IdAttr), cpath);
    forall x | x in Flatten(first) ensures exists j :: LayerOf(nodes, i, path, j, x) {
      if x != first {
        assert x in FlattenFrom(first, 0);
        var j :| LayerOf(nodes, c, cpath, j, x);
        DeeperLayer(nodes, i, c, path, j, x);
      }
    }
    forall j | 0 <= j < |nodes| && Under(nodes, j, c)
      ensures exists x :: x in Flatten(first) && LayerOf(nodes, i, path, j, x)
    {
      if c != j {
        var x :| x in FlattenFrom(first, 0) && LayerOf(nodes, c, cpath, j, x);
        DeeperLayer(nodes, i, c, path, j, x);
        assert x in Flatten(first);
      }
    }
  }

  /** The layer of a group reached below a layer group `c` directly under `i` is also
      the layer of that group as reached from `i`. */
  lemma DeeperLayer(nodes: seq<Element>, i: nat, c: nat, path: seq<Option<string>>, j: nat, x: Layer)
    requires WellFormed(nodes) && i < |nodes| && c in LayerChildren(nodes, i)
    requires LayerOf(nodes, c, path + [Attr(nodes[c], LabelAttr)], j, x)
    ensures LayerOf(nodes, i, path, j, x)
  {
    LabelsThroughChild(nodes, j, c, i);
    PathsJoin(path, [Attr(nodes[c], LabelAttr)], LabelsFrom(nodes, j, c));
  }

  lemma PathsJoin(a: seq<Option<string>>, b: seq<Option<string>>, c: seq<Option<string>>)
    ensures (a + b) + c == a + (b + c)
  {
  }

  /** `_gather_layers` mirrors the document: the layers after the root in its flattening
      are, by id and by path of labels from the root, exactly the layer groups the walk
      reaches from the root. */
  lemma GatherMirrors(nodes: seq<Element>)
    requires WellFormed(nodes) && Gather(nodes).Some?
    ensures forall x :: x in Flatten(Gather(nodes).value)[1..] ==> exists j :: LayerOf(nodes, 0, [], j, x)
    ensures forall j :: 0 <= j < |nodes| && ReachedFrom(nodes, j, 0) ==>
              exists x :: x in Flatten(Gather(nodes).value)[1..] && LayerOf(nodes, 0, [], j, x)
  {
    assert Flatten(Gather(nodes).value)[1..] == FlattenFrom(Walk(nodes, 0, None, []).value, 0);
    WalkMirrors(nodes, 0, None, []);
  }

  /** Layer `l` has the shape of the layer groups below element `c`: one child for each
      layer group directly under `c`, in document order, carrying that group's id and
      `l`'s path followed by the group's label, and shaped in turn like that group. */
  ghost predicate Shaped(nodes: seq<Element>, c: nat, l: Layer)
    requires WellFormed(nodes) && c < |nodes|
    decreases l
  {
    var lcs := LayerChildren(nodes, c);
    && |l.children| == |lcs|
    && forall k {:trigger l.children[k]} :: 0 <= k < |l.children| ==>
         && LayerOfGroup(nodes, lcs[k], l.path, l.children[k])
         && Shaped(nodes, lcs[k], l.children[k])
  }

  /** The layer `walk_layer` builds for element `i` is shaped like the layer groups
      below `i`. */
  lemma {:induction false} WalkShaped(nodes: seq<Element>, i: nat, id: Option<string>, path: seq<Option<string>>)
    requires WellFormed(nodes) && i < |nodes| && Walk(nodes, i, id, path).Some?
    ensures Shaped(nodes, i, Walk(nodes, i, id, path).value)
    decreases |nodes| - i, 1
  {
    var l := Walk(nodes, i, id, path).value;
    assert l.children == WalkFrom(nodes, i, 0, path).value;
    WalkFromShaped(nodes, i, 0, path);
    ChildrenShaped(nodes, i, l);
  }

  lemma ChildrenShaped(nodes: seq<Element>, i: nat, l: Layer)
    requires WellFormed(nodes) && i < |nodes| && ShapedFrom(nodes, LayerChildren(nodes, i), 0, l.path, l.children)
    ensures Shaped(nodes, i, l)
  {
    var lcs := LayerChildren(nodes, i);
    ShapedFromAt(nodes, lcs, 0, l.path, l.children, 0);
    forall m | 0 <= m < |l.children|
      ensures LayerOfGroup(nodes, lcs[m], l.path, l.children[m]) && Shaped(nodes, lcs[m], l.children[m])
    {
      ShapedFromAt(nodes, lcs, 0, l.path, l.children, m);
    }
  }

  lemma {:induction false} WalkFromShaped(nodes: seq<Element>, i: nat, k: nat, path: seq<Option<string>>)
    requires WellFormed(nodes) && i < |nodes| && k <= |LayerChildren(nodes, i)| && WalkFrom(nodes, i, k, path).Some?
    ensures ShapedFrom(nodes, LayerChildren(nodes, i), k, path, WalkFrom(nodes, i, k, path).value)
    decreases |nodes| - i, 0, |LayerChildren(nodes, i)| - k
  {
    var lcs := LayerChildren(nodes, i);
    if k < |lcs| {
      var c := lcs[k];
      var id := Attr(nodes[c], IdAttr);
      var first := Walk(nodes, c, id, path + [Attr(nodes[c], LabelAttr)]).value;
      var rest := WalkFrom(nodes, i, k + 1, path).value;
      assert Shaped(nodes, c, first) by {
        WalkShaped(nodes, c, id, path + [Attr(nodes[c], LabelAttr)]);
      }
      assert ShapedFrom(nodes, lcs, k + 1, path, rest) by {
        WalkFromShaped(nodes, i, k + 1, path);
      }
      assert WalkFrom(nodes, i, k, path).value == [first] + rest;
      ConsShapedFrom(nodes, lcs, k, path, first, rest);
    }
  }

  lemma ConsShapedFrom(nodes: seq<Element>, lcs: seq<nat>, k: nat, path: seq<Option<string>>, first: Layer, rest: seq<Layer>)
    requires WellFormed(nodes) && (forall j :: 0 <= j < |lcs| ==> lcs[j] < |nodes|) && k < |lcs|
    requires first.id == Attr(nodes[lcs[k]], IdAttr) && first.id.Some?
    requires first.path == path + [Attr(nodes[lcs[k]], LabelAttr)]
    requires Shaped(nodes, lcs[k], first) && ShapedFrom(nodes, lcs, k + 1, path, rest)
    ensures ShapedFrom(nodes, lcs, k, path, [first] + rest)
  {
    assert ([first] + rest)[0] == first && ([first] + rest)[1..] == rest;
  }

  /** The layers `v` are shaped like the layer groups `lcs[k..]`, one for one, below a
      layer at `path`. */
  ghost predicate ShapedFrom(nodes: seq<Element>, lcs: seq<nat>, k: nat, path: seq<Option<string>>, v: seq<Layer>)
    requires WellFormed(nodes) && (forall j :: 0 <= j < |lcs| ==> lcs[j] < |nodes|) && k <= |lcs|
    decreases |lcs| - k
  {
    if k == |lcs| then v == []
    else
      && |v| > 0
      && LayerOfGroup(nodes, lcs[k], path, v[0])
      && Shaped(nodes, lcs[k], v[0])
      && ShapedFrom(nodes, lcs, k + 1, path, v[1..])
  }

  lemma {:induction false} ShapedFromAt(nodes: seq<Element>, lcs: seq<nat>, k: nat, path: seq<Option<string>>, v: seq<Layer>, m: nat)
    requires WellFormed(nodes) && (forall j :: 0 <= j < |lcs| ==> lcs[j] < |nodes|) && k <= |lcs|
    requires ShapedFrom(nodes, lcs, k, path, v)
    ensures |v| == |lcs| - k
    ensures k <= m < |lcs| ==> LayerOfGroup(nodes, lcs[m], path, v[m - k]) && Shaped(nodes, lcs[m], v[m - k])
    decreases |lcs| - k
  {
    if k < |lcs| {
      ShapedFromAt(nodes, lcs, k + 1, path, v[1..], m);
    }
  }

  /** Two layers with the same id and path shaped like the same element are equal: the
      shape leaves nothing else to choose. */
  lemma {:induction false} ShapedUnique(nodes: seq<Element>, c: nat, a: Layer, b: Layer)
    requires WellFormed(nodes) && c < |nodes| && Shaped(nodes, c, a) && Shaped(nodes, c, b)
    requires a.id == b.id && a.path == b.path
    ensures a == b
    decreases a
  {
    var lcs := LayerChildren(nodes, c);
    forall k | 0 <= k < |a.children| ensures a.children[k] == b.children[k] {
      assert LayerOfGroup(nodes, lcs[k], a.path, a.children[k]);
      assert LayerOfGroup(nodes, lcs[k], b.path, b.children[k]);
      ShapedUnique(nodes, lcs[k], a.children[k], b.children[k]);
    }
    assert a.children == b.children;
  }

  /** `_gather_layers` builds the tree of the document's layer groups: the root layer,
      with no id and an empty path, shaped like the root element, and no other tree
      with that root is so shaped. */
  lemma GatherShaped(nodes: seq<Element>, t: Layer)
    requires WellFormed(nodes) && Gather(nodes).Some?
    ensures Shaped(nodes, 0, Gather(nodes).value)
    ensures Shaped(nodes, 0, t) && t.id.None? && t.path == [] <==> t == Gather(nodes).value
  {
    WalkShaped(nodes, 0, None, []);
    if Shaped(nodes, 0, t) && t.id.None? && t.path == [] {
      ShapedUnique(nodes, 0, t, Gather(nodes).value);
    }
  }
}
