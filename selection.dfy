/** Choosing layers by path pattern: a pattern is split on `/` and matched one level of
    the layer tree per piece, starting from the root; several patterns select the union
    of what each selects, and the listing mode prints the path of every layer. */
module Selection {
  import opened Wrappers
  import PyStr
  import opened Layers

  /** The exceptions the selection can end in: the `UserError` reported for a pattern
      that selects nothing, and the `TypeError` raised when a layer without a label is
      matched or printed. */
  datatype Failure = UserError(message: string) | TypeError

  const NoMatchMessage := "Pattern did not match any layers: "

  /** `fnmatch.fnmatchcase(name, pattern)`, taken as given. */
  type Matcher = (string, string) -> bool

  /** How the child entries of a layer are visited: `Items` pairs each name with
      `layer[name]`, as `Mapping.items()` does; `Children` takes each entry's own layer. */
  datatype Lookup = Items | Children

  /** The layer paired with the `k`-th child name. */
  function Pick(l: Layer, k: nat, lookup: Lookup): (r: Layer)
    requires k < |l.children|
    ensures r in l.children && Name(r) == Name(l.children[k])
    ensures lookup == Items ==> GetItem(l, Name(l.children[k])) == Some(r)
    ensures lookup == Children ==> r == l.children[k]
  {
    if lookup == Items then ItemChild(l, k) else l.children[k]
  }

  /** The `k`-th child of `l` has a label that matches `part`. */
  predicate Matches(l: Layer, k: nat, part: string, glob: Matcher)
    requires k < |l.children|
  {
    Name(l.children[k]).Some? && glob(Name(l.children[k]).value, part)
  }

  /** Some child of `l` from the `k`-th on has no label. */
  predicate UnlabeledFrom(l: Layer, k: nat) {
    exists j :: k <= j < |l.children| && Name(l.children[j]).None?
  }

  /** `x` is what `l` contributes for a child from the `k`-th on whose label matches. */
  predicate ProducesFrom(l: Layer, k: nat, x: Layer, part: string, glob: Matcher, lookup: Lookup) {
    exists j :: k <= j < |l.children| && Matches(l, j, part, glob) && x == Pick(l, j, lookup)
  }

  /** The children of `l` from the `k`-th on whose label matches `part`, in order; matching
      an unlabeled child raises. */
  function MatchingFrom(l: Layer, k: nat, part: string, glob: Matcher, lookup: Lookup): (r: Result<seq<Layer>, Failure>)
    requires k <= |l.children|
    ensures r.Err? <==> UnlabeledFrom(l, k)
    ensures r.Err? ==> r.error == TypeError
    ensures r.Ok? ==> forall x :: x in r.value <==> ProducesFrom(l, k, x, part, glob, lookup)
    decreases |l.children| - k
  {
    if k == |l.children| then Ok([])
    else if Name(l.children[k]).None? then Err(TypeError)
    else
      var rest :- MatchingFrom(l, k + 1, part, glob, lookup);
      var here := if glob(Name(l.children[k]).value, part) then [Pick(l, k, lookup)] else [];
      assert forall x :: ProducesFrom(l, k, x, part, glob, lookup) <==>
        (Matches(l, k, part, glob) && x == Pick(l, k, lookup)) || ProducesFrom(l, k + 1, x, part, glob, lookup);
      Ok(here + rest)
  }

  /** `l` has a child without a label. */
  predicate Unlabeled(l: Layer) {
    UnlabeledFrom(l, 0)
  }

  /** `x` is what `l` contributes for a child whose label matches `part`. */
  predicate Produces(l: Layer, x: Layer, part: string, glob: Matcher, lookup: Lookup) {
    ProducesFrom(l, 0, x, part, glob, lookup)
  }

  /** One step of `_select_layers`: the matching children of every layer of the frontier,
      frontier order first and child order second. */
  function Expand(frontier: seq<Layer>, part: string, glob: Matcher, lookup: Lookup): (r: Result<seq<Layer>, Failure>)
    ensures r.Err? <==> exists f :: f in frontier && Unlabeled(f)
    ensures r.Err? ==> r.error == TypeError
    ensures r.Ok? ==> forall x :: x in r.value <==> exists f :: f in frontier && Produces(f, x, part, glob, lookup)
  {
    if |frontier| == 0 then Ok([])
    else
      assert forall f :: f in frontier <==> f == frontier[0] || f in frontier[1..];
      var here := MatchingFrom(frontier[0], 0, part, glob, lookup);
      if here.Err? then
        assert Unlabeled(frontier[0]);
        Err(TypeError)
      else
        var rest :- Expand(frontier[1..], part, glob, lookup);
        assert forall x :: x in here.value <==> Produces(frontier[0], x, part, glob, lookup);
        Ok(here.value + rest)
  }

  /** The frontier after matching the pieces `parts`, starting from `[root]`. */
  function Frontier(root: Layer, parts: seq<string>, glob: Matcher, lookup: Lookup): (r: Result<seq<Layer>, Failure>)
    ensures r.Err? ==> r.error == TypeError
    decreases |parts|
  {
    if |parts| == 0 then Ok([root])
    else
      var frontier :- Frontier(root, parts[..|parts| - 1], glob, lookup);
      Expand(frontier, parts[|parts| - 1], glob, lookup)
  }

  /** `_select_layers(document, pattern)` on the layer tree `root`. */
  function Select(root: Layer, pattern: string, glob: Matcher, lookup: Lookup): (r: Result<seq<Layer>, Failure>)
    ensures r.Ok? ==> |r.value| > 0 && Frontier(root, PyStr.Split(pattern, '/'), glob, lookup) == r
    ensures r.Err? ==> r.error == TypeError || r.error == UserError(NoMatchMessage + pattern)
    ensures r == Err(UserError(NoMatchMessage + pattern)) <==>
              Frontier(root, PyStr.Split(pattern, '/'), glob, lookup) == Ok([])
  {
    var layers :- Frontier(root, PyStr.Split(pattern, '/'), glob, lookup);
    if |layers| == 0 then Err(UserError(NoMatchMessage + pattern)) else Ok(layers)
  }

  /** A frontier that raises makes every later frontier raise. */
  lemma {:induction false} FrontierFailsOn(root: Layer, parts: seq<string>, n: nat, glob: Matcher, lookup: Lookup)
    requires n <= |parts| && Frontier(root, parts[..n], glob, lookup).Err?
    ensures Frontier(root, parts, glob, lookup) == Err(TypeError)
    decreases |parts| - n
  {
    if n < |parts| {
      assert parts[..n + 1][..n] == parts[..n];
      FrontierFailsOn(root, parts, n + 1, glob, lookup);
    } else {
      assert parts[..n] == parts;
    }
  }

  /** `_select_layers(document, pattern)`: reassign the frontier once per piece of the
      pattern, then report a pattern that selected nothing. */
  method SelectLayers(root: Layer, pattern: string, glob: Matcher) returns (r: Result<seq<Layer>, Failure>)
    ensures r == Select(root, pattern, glob, Items)
  {
    var parts := PyStr.Split(pattern, '/');
    var layers := [root];
    for i := 0 to |parts|
      invariant Frontier(root, parts[..i], glob, Items) == Ok(layers)
    {
      assert parts[..i + 1][..i] == parts[..i];
      var next := Expand(layers, parts[i], glob, Items);
      if next.Err? {
        FrontierFailsOn(root, parts, i + 1, glob, Items);
        return Err(next.error);
      }
      layers := next.value;
    }
    assert parts[..|parts|] == parts;
    if |layers| == 0 {
      return Err(UserError(NoMatchMessage + pattern));
    }
    return Ok(layers);
  }

  /** Each label of `path` is present and matches the piece of the pattern at its depth. */
  predicate PathMatches(path: seq<Option<string>>, parts: seq<string>, glob: Matcher) {
    |path| == |parts| && forall i :: 0 <= i < |parts| ==> path[i].Some? && glob(path[i].value, parts[i])
  }

  /** `x` is a layer `n` levels below `root`. */
  ghost predicate Descends(root: Layer, x: Layer, n: nat)
    decreases n
  {
    if n == 0 then x == root else exists p :: Descends(root, p, n - 1) && x in p.children
  }

  /** Soundness: every layer a pattern reaches is as deep as the pattern has pieces, and each
      label on its path matches the piece at its depth. */
  lemma {:induction false} FrontierSound(root: Layer, parts: seq<string>, glob: Matcher, lookup: Lookup)
    requires WellBuilt(root) && root.path == [] && Frontier(root, parts, glob, lookup).Ok?
    ensures forall x :: x in Frontier(root, parts, glob, lookup).value ==>
              WellBuilt(x) && PathMatches(x.path, parts, glob) && Descends(root, x, |parts|)
    decreases |parts|
  {
    if |parts| > 0 {
      var n := |parts|;
      var init := parts[..n - 1];
      FrontierStep(root, parts, init, parts[n - 1], glob, lookup);
      FrontierSound(root, init, glob, lookup);
      var frontier := Frontier(root, init, glob, lookup).value;
      forall x | x in Frontier(root, parts, glob, lookup).value
        ensures WellBuilt(x) && PathMatches(x.path, parts, glob) && Descends(root, x, n)
      {
        var f :| f in frontier && Produces(f, x, parts[n - 1], glob, lookup);
        ProducedChild(f, x, parts, glob, lookup);
        assert Descends(root, f, n - 1);
      }
    }
  }

  /** The frontier for `parts` is what the frontier for all but the last piece produces
      for the last piece. */
  lemma FrontierStep(root: Layer, parts: seq<string>, init: seq<string>, last: string, glob: Matcher, lookup: Lookup)
    requires |parts| > 0 && init == parts[..|parts| - 1] && last == parts[|parts| - 1]
    requires Frontier(root, parts, glob, lookup).Ok?
    ensures Frontier(root, init, glob, lookup).Ok?
    ensures forall x :: x in Frontier(root, parts, glob, lookup).value <==>
              exists f :: f in Frontier(root, init, glob, lookup).value && Produces(f, x, last, glob, lookup)
  {
    var frontier := Frontier(root, init, glob, lookup);
    assert frontier.Ok?;
    assert Frontier(root, parts, glob, lookup) == Expand(frontier.value, last, glob, lookup);
  }

  /** A child a layer contributes extends its matching path by one matching label. */
  lemma ProducedChild(f: Layer, x: Layer, parts: seq<string>, glob: Matcher, lookup: Lookup)
    requires |parts| > 0 && WellBuilt(f) && PathMatches(f.path, parts[..|parts| - 1], glob)
    requires Produces(f, x, parts[|parts| - 1], glob, lookup)
    ensures x in f.children && WellBuilt(x) && PathMatches(x.path, parts, glob)
  {
    var n := |parts|;
    var j :| 0 <= j < |f.children| && Matches(f, j, parts[n - 1], glob) && x == Pick(f, j, lookup);
    var m :| 0 <= m < |f.children| && f.children[m] == x;
    ChildNameEndsPath(f, m);
    assert Name(x).Some? && glob(Name(x).value, parts[n - 1]);
    forall i | 0 <= i < n ensures x.path[i].Some? && glob(x.path[i].value, parts[i]) {
      if i < n - 1 {
        assert x.path[i] == f.path[i] && parts[i] == parts[..n - 1][i];
      }
    }
  }

  /** A layer below a well-built root is well built, with a path as long as its depth. */
  lemma {:induction false} DescendsShape(root: Layer, x: Layer, n: nat)
    requires WellBuilt(root) && root.path == [] && Descends(root, x, n)
    ensures WellBuilt(x) && |x.path| == n
    decreases n
  {
    if n > 0 {
      var p :| Descends(root, p, n - 1) && x in p.children;
      DescendsShape(root, p, n - 1);
      var m :| 0 <= m < |p.children| && p.children[m] == x;
      ChildNameEndsPath(p, m);
    }
  }

  /** Completeness: a layer whose labels match the pieces one by one is reached, when the
      child entries themselves are visited. */
  lemma {:induction false} FrontierComplete(root: Layer, parts: seq<string>, glob: Matcher, x: Layer)
    requires WellBuilt(root) && root.path == [] && Frontier(root, parts, glob, Children).Ok?
    requires Descends(root, x, |parts|) && PathMatches(x.path, parts, glob)
    ensures x in Frontier(root, parts, glob, Children).value
    decreases |parts|
  {
    var n := |parts|;
    if n > 0 {
      var init := parts[..n - 1];
      FrontierStep(root, parts, init, parts[n - 1], glob, Children);
      var p :| Descends(root, p, n - 1) && x in p.children;
      DescendsShape(root, p, n - 1);
      var m :| 0 <= m < |p.children| && p.children[m] == x;
      ParentPathMatches(p, m, parts, glob);
      FrontierComplete(root, init, glob, p);
      assert Produces(p, x, parts[n - 1], glob, Children) by {
        assert Matches(p, m, parts[n - 1], glob) && x == Pick(p, m, Children);
      }
    }
  }

  /** A child whose path matches all the pieces has a parent whose path matches all but
      the last, and a label that matches the last. */
  lemma ParentPathMatches(p: Layer, m: nat, parts: seq<string>, glob: Matcher)
    requires WellBuilt(p) && m < |p.children| && |parts| > 0 && |p.path| == |parts| - 1
    requires PathMatches(p.children[m].path, parts, glob)
    ensures PathMatches(p.path, parts[..|parts| - 1], glob) && Matches(p, m, parts[|parts| - 1], glob)
  {
    var n := |parts|;
    var x := p.children[m];
    ChildNameEndsPath(p, m);
    assert forall i :: 0 <= i < n - 1 ==> p.path[i] == x.path[i] && parts[..n - 1][i] == parts[i];
    assert x.path[n - 1] == Name(x);
  }

  /** Sibling names are distinct at every level of the tree. */
  predicate DistinctEverywhere(l: Layer)
    decreases l
  {
    DistinctNames(l) && forall k :: 0 <= k < |l.children| ==> DistinctEverywhere(l.children[k])
  }

  lemma {:induction false} DescendsDistinct(root: Layer, x: Layer, n: nat)
    requires DistinctEverywhere(root) && Descends(root, x, n)
    ensures DistinctEverywhere(x)
    decreases n
  {
    if n > 0 {
      var p :| Descends(root, p, n - 1) && x in p.children;
      DescendsDistinct(root, p, n - 1);
    }
  }

  lemma {:induction false} MatchingAgree(l: Layer, k: nat, part: string, glob: Matcher)
    requires DistinctNames(l) && k <= |l.children|
    ensures MatchingFrom(l, k, part, glob, Items) == MatchingFrom(l, k, part, glob, Children)
    decreases |l.children| - k
  {
    if k < |l.children| {
      MatchingAgree(l, k + 1, part, glob);
      ItemsOfDistinctNames(l, k);
    }
  }

  lemma {:induction false} ExpandAgree(frontier: seq<Layer>, part: string, glob: Matcher)
    requires forall f :: f in frontier ==> DistinctNames(f)
    ensures Expand(frontier, part, glob, Items) == Expand(frontier, part, glob, Children)
  {
    if |frontier| > 0 {
      MatchingAgree(frontier[0], 0, part, glob);
      ExpandAgree(frontier[1..], part, glob);
    }
  }

  /** With distinct sibling names, visiting `items()` and visiting the child entries
      select the same layers in the same order. */
  lemma {:induction false} FrontierAgree(root: Layer, parts: seq<string>, glob: Matcher)
    requires WellBuilt(root) && root.path == [] && DistinctEverywhere(root)
    ensures Frontier(root, parts, glob, Items) == Frontier(root, parts, glob, Children)
    decreases |parts|
  {
    if |parts| > 0 {
      var init := parts[..|parts| - 1];
      FrontierAgree(root, init, glob);
      var frontier := Frontier(root, init, glob, Children);
      if frontier.Ok? {
        FrontierSound(root, init, glob, Children);
        forall f | f in frontier.value ensures DistinctNames(f) {
          DescendsDistinct(root, f, |init|);
        }
        ExpandAgree(frontier.value, parts[|parts| - 1], glob);
      }
    }
  }

  lemma {:induction false} DescendsCompose(l: Layer, c: Layer, x: Layer, d: nat)
    requires c in l.children && Descends(c, x, d)
    ensures Descends(l, x, d + 1)
    decreases d
  {
    assert Descends(l, l, 0);
    if d > 0 {
      var p :| Descends(c, p, d - 1) && x in p.children;
      DescendsCompose(l, c, p, d - 1);
    }
  }

  /** Every layer of the flattening of a well-built tree lies as many levels below its
      top as its path is longer. */
  lemma {:induction false} FlattenDescends(l: Layer, x: Layer)
    requires WellBuilt(l) && x in Flatten(l)
    ensures |x.path| >= |l.path| && Descends(l, x, |x.path| - |l.path|)
    decreases l
  {
    if x != l {
      InFlattenFrom(l, 0, x);
      var m :| 0 <= m < |l.children| && x in Flatten(l.children[m]);
      var c := l.children[m];
      ChildNameEndsPath(l, m);
      FlattenDescends(c, x);
      DescendsCompose(l, c, x, |x.path| - |c.path|);
    }
  }

  /** Soundness of `_select_layers`: every selected layer lies as many levels below the
      root as the pattern has pieces, and each label on its path matches its piece. */
  lemma SelectSound(root: Layer, pattern: string, glob: Matcher, lookup: Lookup, x: Layer)
    requires WellBuilt(root) && root.path == []
    requires Select(root, pattern, glob, lookup).Ok? && x in Select(root, pattern, glob, lookup).value
    ensures Descends(root, x, |PyStr.Split(pattern, '/')|) && PathMatches(x.path, PyStr.Split(pattern, '/'), glob)
  {
    FrontierSound(root, PyStr.Split(pattern, '/'), glob, lookup);
  }

  /** Completeness of the selection that visits the child entries: every layer of the tree
      whose labels match the pieces one by one is selected, unless matching raises. */
  lemma SelectComplete(root: Layer, pattern: string, glob: Matcher, x: Layer)
    requires WellBuilt(root) && root.path == [] && x in Flatten(root)
    requires PathMatches(x.path, PyStr.Split(pattern, '/'), glob)
    requires Frontier(root, PyStr.Split(pattern, '/'), glob, Children).Ok?
    ensures Select(root, pattern, glob, Children).Ok? && x in Select(root, pattern, glob, Children).value
  {
    FlattenDescends(root, x);
    FrontierComplete(root, PyStr.Split(pattern, '/'), glob, x);
  }

  /** With distinct sibling names everywhere, `_select_layers` as written is complete too. */
  lemma SelectCompleteDistinct(root: Layer, pattern: string, glob: Matcher, x: Layer)
    requires WellBuilt(root) && root.path == [] && DistinctEverywhere(root) && x in Flatten(root)
    requires PathMatches(x.path, PyStr.Split(pattern, '/'), glob)
    requires Frontier(root, PyStr.Split(pattern, '/'), glob, Items).Ok?
    ensures Select(root, pattern, glob, Items).Ok? && x in Select(root, pattern, glob, Items).value
  {
    FrontierAgree(root, PyStr.Split(pattern, '/'), glob);
    SelectComplete(root, pattern, glob, x);
  }

  /** The frontier after one piece is what the root contributes. */
  lemma OnePiece(root: Layer, part: string, glob: Matcher, lookup: Lookup)
    ensures Frontier(root, [part], glob, lookup) == MatchingFrom(root, 0, part, glob, lookup)
  {
    assert [part][..0] == [];
    assert Frontier(root, [], glob, lookup) == Ok([root]);
    assert [root][1..] == [];
    assert Expand([], part, glob, lookup) == Ok([]);
    var here := MatchingFrom(root, 0, part, glob, lookup);
    var expanded := Expand([root], part, glob, lookup);
    if here.Ok? {
      assert expanded.Ok? && expanded.value == here.value + [];
      assert here.value + [] == here.value;
    }
    assert Frontier(root, [part], glob, lookup) == expanded;
  }

  /** Two matching siblings with the same label: `items()` yields the first one twice. */
  lemma TwinSiblings(l: Layer, part: string, glob: Matcher)
    requires |l.children| == 2 && Name(l.children[0]) == Name(l.children[1]) && Matches(l, 0, part, glob)
    ensures MatchingFrom(l, 0, part, glob, Items).Ok?
    ensures MatchingFrom(l, 0, part, glob, Items).value == [l.children[0], l.children[0]]
    ensures MatchingFrom(l, 0, part, glob, Children).Ok?
    ensures MatchingFrom(l, 0, part, glob, Children).value == [l.children[0], l.children[1]]
  {
    assert FirstNamed(l.children, Name(l.children[1])) == Some(0);
    assert Pick(l, 1, Items) == l.children[0] && Pick(l, 0, Items) == l.children[0];
    assert MatchingFrom(l, 2, part, glob, Items) == Ok([]);
    assert MatchingFrom(l, 2, part, glob, Children) == Ok([]);
    var items1 := MatchingFrom(l, 1, part, glob, Items);
    assert items1.Ok? && items1.value == [l.children[0]];
    var children1 := MatchingFrom(l, 1, part, glob, Children);
    assert children1.Ok? && children1.value == [l.children[1]];
  }

  /** Two sibling layers labelled `L` under the root, and a matcher that accepts a
      label equal to the piece. */
  const TwinA := Layer(Some("a"), [Some("L")], [])
  const TwinB := Layer(Some("b"), [Some("L")], [])
  const TwinRoot := Layer(None, [], [TwinA, TwinB])
  const Exact: Matcher := (name: string, part: string) => name == part

  /** The second twin is a layer of the tree whose path matches the pattern `L`. */
  lemma TwinReachable()
    ensures WellBuilt(TwinRoot) && Descends(TwinRoot, TwinB, 1) && PathMatches(TwinB.path, ["L"], Exact)
  {
    assert Descends(TwinRoot, TwinRoot, 0);
  }

  /** The pattern `L` selects the first twin twice and never the second, where visiting
      the child entries themselves selects both. */
  lemma DuplicateLabelUnselectable()
    ensures Select(TwinRoot, "L", Exact, Items) == Ok([TwinA, TwinA])
    ensures TwinB !in Select(TwinRoot, "L", Exact, Items).value
    ensures Select(TwinRoot, "L", Exact, Children) == Ok([TwinA, TwinB])
  {
    PyStr.SplitNoSeparator("L", '/');
    assert Name(TwinA) == Some("L") && Name(TwinB) == Some("L");
    assert Exact(Name(TwinRoot.children[0]).value, "L");
    TwinSiblings(TwinRoot, "L", Exact);
    OnePiece(TwinRoot, "L", Exact, Items);
    OnePiece(TwinRoot, "L", Exact, Children);
  }

  /** The union `main` builds from the selections of several patterns, in order; the first
      selection that raises ends it. */
  function Union(results: seq<Result<seq<Layer>, Failure>>): (r: Result<set<Layer>, Failure>)
    ensures r.Ok? <==> forall i :: 0 <= i < |results| ==> results[i].Ok?
    decreases |results|
  {
    if |results| == 0 then Ok({})
    else
      var n := |results| - 1;
      assert forall i :: 0 <= i < n ==> results[..n][i] == results[i];
      var before :- Union(results[..n]);
      var layers :- results[n];
      Ok(before + set x | x in layers)
  }

  /** `x` is in one of the selections. */
  predicate SelectedIn(results: seq<Result<seq<Layer>, Failure>>, x: Layer) {
    exists i :: 0 <= i < |results| && results[i].Ok? && x in results[i].value
  }

  /** The union holds exactly the layers some selection holds. */
  lemma {:induction false} UnionMembers(results: seq<Result<seq<Layer>, Failure>>, x: Layer)
    requires Union(results).Ok?
    ensures x in Union(results).value <==> SelectedIn(results, x)
    decreases |results|
  {
    if |results| > 0 {
      var n := |results| - 1;
      UnionMembers(results[..n], x);
      assert forall i :: 0 <= i < n ==> results[..n][i] == results[i];
      if SelectedIn(results, x) {
        var i :| 0 <= i < |results| && results[i].Ok? && x in results[i].value;
        if i < n {
          assert SelectedIn(results[..n], x);
        }
      }
    }
  }

  /** A union that fails reports the error of the first selection that raised. */
  lemma {:induction false} UnionFailure(results: seq<Result<seq<Layer>, Failure>>)
    requires Union(results).Err?
    ensures exists i :: 0 <= i < |results| && results[i] == Err(Union(results).error) &&
              forall j :: 0 <= j < i ==> results[j].Ok?
    decreases |results|
  {
    var n := |results| - 1;
    assert forall i :: 0 <= i < n ==> results[..n][i] == results[i];
    if Union(results[..n]).Err? {
      UnionFailure(results[..n]);
      var i :| 0 <= i < n && results[..n][i] == Err(Union(results[..n]).error) &&
        forall j :: 0 <= j < i ==> results[..n][j].Ok?;
      assert results[i] == Err(Union(results).error);
    } else {
      assert results[n] == Err(Union(results).error);
    }
  }

  /** Selections that all hold something hold something together. */
  lemma UnionNonEmpty(results: seq<Result<seq<Layer>, Failure>>)
    requires |results| > 0 && Union(results).Ok?
    requires forall i :: 0 <= i < |results| && results[i].Ok? ==> |results[i].value| > 0
    ensures Union(results).value != {}
  {
    UnionMembers(results, results[0].value[0]);
  }

  lemma {:induction false} UnionFailsOn(results: seq<Result<seq<Layer>, Failure>>, n: nat)
    requires n <= |results| && Union(results[..n]).Err?
    ensures Union(results) == Union(results[..n])
    decreases |results| - n
  {
    if n < |results| {
      assert results[..n + 1][..n] == results[..n];
      UnionFailsOn(results, n + 1);
    } else {
      assert results[..n] == results;
    }
  }

  /** The selections of `patterns`, one per pattern. */
  function Selections(root: Layer, patterns: seq<string>, glob: Matcher): (r: seq<Result<seq<Layer>, Failure>>)
    ensures |r| == |patterns| && forall i :: 0 <= i < |patterns| ==> r[i] == Select(root, patterns[i], glob, Items)
  {
    seq(|patterns|, i requires 0 <= i < |patterns| => Select(root, patterns[i], glob, Items))
  }

  /** A non-empty list of patterns that all select something never hands an empty
      selection on to the export, whose visibility rewrite asserts a non-empty one. */
  lemma SelectionsNonEmpty(root: Layer, patterns: seq<string>, glob: Matcher)
    requires |patterns| > 0 && Union(Selections(root, patterns, glob)).Ok?
    ensures Union(Selections(root, patterns, glob)).value != {}
  {
    UnionNonEmpty(Selections(root, patterns, glob));
  }

  /** The selection step of `main`: no `--layer` option gives `None`, otherwise the union
      of the layers every pattern selects. */
  method SelectAll(root: Layer, patterns: Option<seq<string>>, glob: Matcher) returns (r: Result<Option<set<Layer>>, Failure>)
    ensures patterns.None? ==> r == Ok(None)
    ensures patterns.Some? ==> (r.Ok? <==> Union(Selections(root, patterns.value, glob)).Ok?)
    ensures patterns.Some? && r.Ok? ==> r.value == Some(Union(Selections(root, patterns.value, glob)).value)
    ensures patterns.Some? && r.Err? ==> r.error == Union(Selections(root, patterns.value, glob)).error
  {
    if patterns.None? {
      return Ok(None);
    }
    var ps := patterns.value;
    ghost var results := Selections(root, ps, glob);
    var selected: set<Layer> := {};
    for i := 0 to |ps|
      invariant Union(results[..i]) == Ok(selected)
    {
      assert results[..i + 1][..i] == results[..i];
      var layers := SelectLayers(root, ps[i], glob);
      assert results[..i + 1][i] == layers;
      if layers.Err? {
        UnionFailsOn(results, i + 1);
        return Err(layers.error);
      }
      selected := selected + set x | x in layers.value;
    }
    assert results[..|ps|] == results;
    return Ok(Some(selected));
  }

  /** The labels of a path without a missing one. */
  function Labels(path: seq<Option<string>>): (r: seq<string>)
    requires forall i :: 0 <= i < |path| ==> path[i].Some?
    ensures |r| == |path| && forall i :: 0 <= i < |path| ==> path[i] == Some(r[i])
  {
    seq(|path|, i requires 0 <= i < |path| => path[i].value)
  }

  /** `'/'.join(path)`; `None` stands for the `TypeError` a missing label raises. */
  function PathText(path: seq<Option<string>>): (r: Option<string>)
    ensures r.Some? <==> forall i :: 0 <= i < |path| ==> path[i].Some?
  {
    if forall i :: 0 <= i < |path| ==> path[i].Some? then Some(PyStr.Join(Labels(path), '/')) else None
  }

  /** The path text of a path whose labels hold no `/` splits back into those labels, so a
      printed path used as a pattern has one piece per level. */
  lemma PathTextSplits(path: seq<Option<string>>)
    requires |path| > 0 && PathText(path).Some?
    requires forall i :: 0 <= i < |path| ==> '/' !in path[i].value
    ensures PyStr.Split(PathText(path).value, '/') == Labels(path)
  {
    PyStr.SplitJoin(Labels(path), '/');
  }

  /** What the listing prints for `layers`, and whether it gets to the end. */
  function Listing(layers: seq<Layer>): (seq<string>, bool) {
    if |layers| == 0 then ([], true)
    else
      var text := PathText(layers[0].path);
      if text.None? then ([], false)
      else
        var rest := Listing(layers[1..]);
        ([text.value] + rest.0, rest.1)
  }

  /** The listing prints the path of each layer in turn and stops at the first layer whose
      path has a missing label; it gets to the end exactly when there is none. */
  lemma {:induction false} ListingMeaning(layers: seq<Layer>)
    ensures Listing(layers).1 <==> forall k :: 0 <= k < |layers| ==> PathText(layers[k].path).Some?
    ensures |Listing(layers).0| <= |layers| && (Listing(layers).1 ==> |Listing(layers).0| == |layers|)
    ensures forall k :: 0 <= k < |Listing(layers).0| ==> PathText(layers[k].path) == Some(Listing(layers).0[k])
    ensures !Listing(layers).1 ==> PathText(layers[|Listing(layers).0|].path).None?
  {
    if |layers| > 0 && PathText(layers[0].path).Some? {
      ListingMeaning(layers[1..]);
      assert forall k :: 0 < k < |layers| ==> layers[k] == layers[1..][k - 1];
    }
  }

  lemma ListingStep(layers: seq<Layer>, i: nat)
    requires i < |layers|
    ensures PathText(layers[i].path).None? ==> Listing(layers[i..]) == ([], false)
    ensures PathText(layers[i].path).Some? ==>
              Listing(layers[i..]) == ([PathText(layers[i].path).value] + Listing(layers[i + 1..]).0, Listing(layers[i + 1..]).1)
  {
    assert layers[i..][0] == layers[i];
    assert layers[i..][1..] == layers[i + 1..];
  }

  /** The listing mode of `main`: the path of every layer but the root, in pre-order;
      `complete` is false where printing a path raises. */
  method ListLayers(root: Layer) returns (lines: seq<string>, complete: bool)
    ensures (lines, complete) == Listing(Flatten(root)[1..])
  {
    var layers := Flatten(root)[1..];
    lines := [];
    assert layers[0..] == layers;
    for i := 0 to |layers|
      invariant Listing(layers).0 == lines + Listing(layers[i..]).0
      invariant Listing(layers).1 == Listing(layers[i..]).1
    {
      ListingStep(layers, i);
      var text := PathText(layers[i].path);
      if text.None? {
        assert Listing(layers).0 == lines + [] == lines;
        return lines, false;
      }
      lines := lines + [text.value];
    }
    assert layers[|layers|..] == [];
    assert Listing(layers).0 == lines + [] == lines;
    return lines, true;
  }

  /** A layer the listing prints is selected by its printed path, when its labels hold no
      `/`, each label matches itself as a pattern and matching raises nowhere on the way. */
  lemma ListedLayerSelectable(root: Layer, x: Layer, glob: Matcher)
    requires WellBuilt(root) && root.path == [] && x in Flatten(root)[1..]
    requires PathText(x.path).Some?
    requires forall i :: 0 <= i < |x.path| ==> '/' !in x.path[i].value && glob(x.path[i].value, x.path[i].value)
    requires Frontier(root, Labels(x.path), glob, Children).Ok?
    ensures Select(root, PathText(x.path).value, glob, Children).Ok?
    ensures x in Select(root, PathText(x.path).value, glob, Children).value
  {
    assert Flatten(root)[1..] == FlattenFrom(root, 0);
    FlattenFromWellBuilt(root, 0);
    assert x in Flatten(root);
    var labels := Labels(x.path);
    PathTextSplits(x.path);
    assert PathMatches(x.path, labels, glob);
    SelectComplete(root, PathText(x.path).value, glob, x);
  }
}
