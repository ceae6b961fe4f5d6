# inkscape-flatten, modelled in Dafny

inkscape-flatten exports chosen layers of an Inkscape SVG drawing to PDF. It reads the
document and builds a tree of the layers (the `<g inkscape:groupmode="layer">`
elements). Layers are chosen with shell-like path patterns such as `Sheet*/Cut`, one
piece per level of the tree. Before the export, a copy of the document is rewritten so
that only the chosen layers show:

- every element on the way from a chosen layer up to the root loses its `display`
  property;
- every other child of such an element, unless that element is itself a chosen layer,
  gets `display:none`; a chosen layer's own children keep their style.

A listing mode prints the path of every layer instead. Two vendored helpers are part
of the core:

- `simplestyle`, the `k:v;k:v` inline-style codec;
- `inkex.addNS`, which qualifies a tag name with a namespace URI.

The model is split into one module per concern:

- `wrappers.dfy`: `Option` and `Result`.
- `pystr.dfy` (module `PyStr`): Python's `str.split` with a one-character separator,
  `str.join` and `str.strip`, as far as the codec and the selector need them.
- `inkex.dfy` (module `Inkex`): the namespace table and `addNS`.
- `simplestyle.dfy` (module `SimpleStyle`): `parseStyle` and `formatStyle`. A parsed
  style is an insertion-ordered list of distinct keys, like the Python dict it comes
  from, because `formatStyle` writes the entries in dict order.
- `svg.dfy` (module `Svg`): the parsed document as an arena of elements.
  - Element 0 is the root.
  - Every other element records the index of its parent.
  - Every element lists its element children in document order.
  - Ancestor chains and the descendant search by id are defined here.
- `layers.dfy` (module `Layers`): the `Layer` value and its mapping operations
  (`len`, iteration, `[name]`, `name`, `flatten`), and `_gather_layers` as a
  recursive walk over the arena.
- `selection.dfy` (module `Selection`): `_select_layers`, the union that `main` builds
  from several patterns, and the listing loop.
- `visibility.dfy` (module `Visibility`): `_get_layer_node`, `_get_ancestor_nodes`,
  `_set_style`, `_hide_deselected_layers` and the root-sentinel default of
  `save_to_pdf`. The document being rewritten is a class, `SvgTree`, whose arena the
  methods update in place.

`fnmatch.fnmatchcase` is a parameter of the selector: any function from a name and a
pattern piece to a boolean.

Failures that Python raises become `Err` values:

- a failed `assert`;
- `KeyError`;
- the `TypeError` raised by matching or joining a missing label;
- the `ValueError` of `dict()` in `parseStyle`;
- the `UserError` for a pattern that selects nothing.

## Model

| member | source | states |
|---|---|---|
| Inkex.AddNS | inkscapeflatten/vendored/inkex.py:43-47 | A known non-empty prefix and a non-empty tag not starting with `{` give exactly `{uri}tag`. Otherwise the tag comes back unchanged, and only then. The result always ends with the tag and is never shorter. |
| Inkex.AddNSIdempotent | inkscapeflatten/vendored/inkex.py:45-46 | Qualifying a tag twice gives the same as qualifying it once. |
| Inkex.AddNSQualifies | inkscapeflatten/vendored/inkex.py:45-46 | A tag that `addNS` changes becomes a qualified tag, which `addNS` then leaves alone. |
| Svg.GroupTagQualified | inkscapeflatten/inkscape.py:21 | The literal group tag used by the layer search is `addNS('g', 'svg')`. |
| Svg.GroupModeAttrQualified | inkscapeflatten/inkscape.py:21 | The literal group-mode attribute is `addNS('groupmode', 'inkscape')`. |
| Svg.LabelAttrQualified | inkscapeflatten/inkscape.py:25 | The literal label attribute is `addNS('label', 'inkscape')`. |
| Svg.Parent | inkscapeflatten/inkscape.py:57 | `getparent()` of an element other than the root is an earlier element that lists it as a child. |
| Svg.Child | inkscapeflatten/inkscape.py:90 | The `k`-th element child comes after its parent and names it as its parent. |
| Svg.Ancestors | inkscapeflatten/inkscape.py:50-59 | The chain starts at the element and ends at the root, and every element on it comes no later than the start. |
| Svg.AncestorsLinked | inkscapeflatten/inkscape.py:54-57 | Each element of the chain is the parent of the one before it, and the chain ends at the one element without a parent. |
| Svg.AncestorsOfAncestor | inkscapeflatten/inkscape.py:50-59 | The chain of any ancestor lies inside the chain of its descendant. |
| Svg.PreOrder | inkscapeflatten/inkscape.py:43 | The document order below an element: every element in it is a proper descendant of that element and comes after it. |
| Svg.PreOrderComplete | inkscapeflatten/inkscape.py:43 | Every proper descendant of an element appears in its document order. |
| Svg.FirstWithId | inkscapeflatten/inkscape.py:43 | The first element of a sequence whose id is the given one: none is found exactly when no element carries the id, and no element before the one found carries it. |
| Svg.FindBelow | inkscapeflatten/inkscape.py:43 | The `.//*[@id=...]` search returns the first element in document order below the element that carries the id. That element is a proper descendant carrying the id. |
| Svg.FindAmong | inkscapeflatten/inkscape.py:43 | The search over the children from the `k`-th on, each followed by its subtree, returns the first of them in that order that carries the id. |
| Svg.FindBelowMisses | inkscapeflatten/inkscape.py:43 | A search that finds nothing below an element has passed over every one of its descendants. |
| Svg.FindFromRootMisses | inkscapeflatten/inkscape.py:43-45 | The search from the root finds nothing only when no element other than the root carries the id. |
| Svg.SameShapeWellFormed | inkscapeflatten/inkscape.py:70 | Changing attributes, as `node.set` does, keeps the arena a tree. |
| Layers.Names | inkscapeflatten/inkscape.py:192-193 | Iteration yields one name per child (so `len` many), in order and with duplicates; each is the child's `name`: its last label, or the empty name for the root. |
| Layers.FirstNamed | inkscapeflatten/inkscape.py:195-200 | The lookup loop finds the first child with the name, or reports that no child has it. |
| Layers.GetItem | inkscapeflatten/inkscape.py:195-200 | `layer[key]` is the first child with that name. It is `None`, the `KeyError`, exactly when the name is not among the names. |
| Layers.ItemChild | inkscapeflatten/inkscape.py:187-200 | The layer `items()` pairs with the `k`-th name is `layer[name]`, the first child with that name, whichever child the name came from. |
| Layers.ItemsOfDistinctNames | inkscapeflatten/inkscape.py:187-200 | With distinct sibling names, `items()` pairs each name with its own child. |
| Layers.ItemsOfDuplicateNames | inkscapeflatten/inkscape.py:187-200 | With two siblings of the same name, the second name is paired with the first child. |
| Layers.Flatten | inkscapeflatten/inkscape.py:210-212 | `flatten` starts with the layer itself. |
| Layers.FlattenIsPreOrder | inkscapeflatten/inkscape.py:210-212 | `flatten` is pre-order: the layer, then the flattenings of the children before the `k`-th, then the `k`-th child's, then the rest. |
| Layers.InFlattenFrom | inkscapeflatten/inkscape.py:212 | A layer is among the children's flattenings exactly when it is in the flattening of one of them. |
| Layers.FlattenLength | inkscapeflatten/inkscape.py:210-212 | The length of `flatten` is one plus the lengths of the children's flattenings. |
| Layers.ChildNameEndsPath | inkscapeflatten/inkscape.py:206-208 | In a gathered tree each child's path is its parent's path followed by its own name. |
| Layers.FlattenWellBuilt | inkscapeflatten/inkscape.py:19-35 | Every layer of a gathered tree is well built. Every layer after the first has an id and a path that strictly extends the top layer's path. |
| Layers.LayerGroups | inkscapeflatten/inkscape.py:20-21 | The `findall` keeps exactly the layer groups among the children. |
| Layers.LayerGroupsInOrder | inkscapeflatten/inkscape.py:20-21 | The groups found keep the document order of the children: any two come from two child positions in the same order, so none repeats. |
| Layers.LayerChildren | inkscapeflatten/inkscape.py:20-21 | Each layer group found under an element is a child of that element. |
| Layers.LayerChildrenComplete | inkscapeflatten/inkscape.py:20-21 | Every layer group that is a child of the element is found. |
| Layers.Walk | inkscapeflatten/inkscape.py:19-33 | `walk_layer` keeps the given id and path and has one child layer per layer group found. Each child carries its group's id, which is present, and the path extended by the group's label. |
| Layers.WalkFrom | inkscapeflatten/inkscape.py:23-31 | `iter_children` yields, from the `k`-th group on, layers with the group's id and the extended path. |
| Layers.WalkWellBuilt | inkscapeflatten/inkscape.py:19-35 | Every layer the walk builds is well built. |
| Layers.Gather | inkscapeflatten/inkscape.py:18-35 | `_gather_layers` yields a root with no id, an empty path, and a well-built tree below it. |
| Layers.WalkFails | inkscapeflatten/inkscape.py:26-29 | The walk from an element fails exactly when a layer group reached below it has no id. |
| Layers.WalkFromFails | inkscapeflatten/inkscape.py:23-31 | The walk over the groups from the `k`-th on fails exactly when one of them, or a group below it, has no id. |
| Layers.MissingBelowViaChildren | inkscapeflatten/inkscape.py:20-31 | An id is missing below an element exactly when it is missing on or below one of its layer groups. |
| Layers.GatherFails | inkscapeflatten/inkscape.py:26-29 | `_gather_layers` fails its assertion exactly when some layer group it reaches has no id. |
| Layers.WalkIds | inkscapeflatten/inkscape.py:19-33 | Every layer the walk builds below its top has an id carried by some later element of the document. |
| Layers.WalkMirrors | inkscapeflatten/inkscape.py:19-33 | As a set: below its top, the walk from an element holds exactly the layers of the layer groups it reaches, at any depth. Each such layer has its group's id, and its path is the given path followed by the labels of the groups on the way down. Every reached group has such a layer. |
| Layers.WalkFromMirrors | inkscapeflatten/inkscape.py:23-31 | From the `k`-th layer group on, `iter_children` yields one layer per group, in order. As sets, by id and path: every layer in the flattening of the layer for group `c` is the layer of some group reached from the parent, and every group at or below `c` has its layer there. |
| Layers.GroupMirrors | inkscapeflatten/inkscape.py:26-31 | As sets, by id and path counted from the parent: every layer in the flattening of the layer built for one layer group `c` is the layer of some group reached from the parent, and every group at or below `c` has its layer there. |
| Layers.GatherMirrors | inkscapeflatten/inkscape.py:18-35 | As sets, by id and by the path of labels from the root: every layer after the root in the flattening of `_gather_layers`' tree is the layer of a layer group reached from the root, and every such group has its layer there. How often each occurs is stated by `Layers.GatherShaped`. |
| Layers.WalkShaped | inkscapeflatten/inkscape.py:19-33 | The layer `walk_layer` builds for an element has the shape of the layer groups below it. It has one child per layer group directly under the element, in document order, none left out and none repeated. Each child carries that group's id and the path followed by the group's label, and has in turn the shape of the groups below that group. |
| Layers.WalkFromShaped | inkscapeflatten/inkscape.py:23-31 | From the `k`-th layer group on, `iter_children` yields exactly one layer per group, in order; each carries its group's id and extended path and has the shape of the groups below it. |
| Layers.ShapedUnique | inkscapeflatten/inkscape.py:19-33 | The shape fixes the tree: two layers with the same id and path that both have the shape of the same element are equal. |
| Layers.GatherShaped | inkscapeflatten/inkscape.py:18-35 | `_gather_layers`' tree has the shape of the document's layer groups below the root. A tree with no id and an empty path has that shape if and only if it is the gathered tree, so no layer is duplicated, dropped or hung under the wrong parent. |
| Selection.Pick | inkscapeflatten/__init__.py:21 | The layer paired with a child name is a child with that name. With `items()` it is `layer[name]`, the first child with that name. Visiting the child entries directly gives the child itself. |
| Selection.MatchingFrom | inkscapeflatten/__init__.py:18-22 | One layer's contribution holds exactly the paired layers of the children whose label matches. It raises `TypeError` exactly when some child has no label. |
| Selection.Expand | inkscapeflatten/__init__.py:18-22 | The next frontier holds exactly what some layer of the frontier contributes. It raises exactly when a frontier layer has an unlabeled child. |
| Selection.Frontier | inkscapeflatten/__init__.py:15-22 | Folding the pieces over `[root]` can only fail with `TypeError`. |
| Selection.Select | inkscapeflatten/__init__.py:14-27 | A successful selection is the non-empty final frontier. It fails with the `UserError` naming the pattern exactly when the final frontier is empty, and otherwise only with `TypeError`. |
| Selection.SelectLayers | inkscapeflatten/__init__.py:14-27 | The loop that reassigns the frontier once per piece computes `Select` with `items()` pairing. |
| Selection.FrontierFailsOn | inkscapeflatten/__init__.py:17-22 | Once a frontier raises, the selection raises `TypeError`. |
| Selection.FrontierSound | inkscapeflatten/__init__.py:17-22 | Every layer of the frontier lies as many levels down as there are pieces. Its path has that many labels, each matching the piece at its depth. |
| Selection.FrontierComplete | inkscapeflatten/__init__.py:17-22 | With the child entries visited directly, every layer at that depth whose labels match the pieces one by one is in the frontier. |
| Selection.FrontierAgree | inkscapeflatten/__init__.py:21 | With distinct sibling names everywhere, `items()` pairing and direct visiting give the same frontiers. |
| Selection.SelectSound | inkscapeflatten/__init__.py:14-27 | Every selected layer lies one level down per pattern piece, and each of its labels matches the piece at its depth. |
| Selection.SelectComplete | inkscapeflatten/__init__.py:14-27 | With direct visiting, every layer whose labels match the pieces is selected, unless matching raises. |
| Selection.SelectCompleteDistinct | inkscapeflatten/__init__.py:14-27 | With distinct sibling names, the selection as written is complete too. |
| Selection.OnePiece | inkscapeflatten/__init__.py:17-22 | A one-piece pattern selects from the root's children. |
| Selection.TwinSiblings | inkscapeflatten/__init__.py:21 | For two matching siblings with one label, `items()` yields the first twice, whereas direct visiting yields both. |
| Selection.TwinReachable | inkscapeflatten/__init__.py:17-22 | The second twin is a layer of a gathered tree whose path matches the pattern. |
| Selection.DuplicateLabelUnselectable | inkscapeflatten/__init__.py:21 | The pattern `L` selects the first of two sibling layers labelled `L` twice and never the second. Visiting the child entries selects both. |
| Selection.Union | inkscapeflatten/__init__.py:84 | The union succeeds exactly when every selection does. |
| Selection.UnionMembers | inkscapeflatten/__init__.py:84 | The union holds exactly the layers some selection holds. |
| Selection.UnionFailure | inkscapeflatten/__init__.py:84 | A failed union reports the error of the first selection that raised. |
| Selection.UnionNonEmpty | inkscapeflatten/__init__.py:84 | Non-empty selections have a non-empty union. |
| Selection.Selections | inkscapeflatten/__init__.py:84 | There is one selection per pattern, made with `_select_layers`. |
| Selection.SelectionsNonEmpty | inkscapeflatten/__init__.py:81-86 | A non-empty pattern list that succeeds hands on a non-empty set, as the rewrite's assertion demands. |
| Selection.SelectAll | inkscapeflatten/__init__.py:81-84 | No patterns gives `None`. Otherwise the result is the union of the selections, or the first selection's error. |
| Selection.Labels | inkscapeflatten/__init__.py:79 | A path without a missing label gives its labels, one per level. |
| Selection.PathText | inkscapeflatten/__init__.py:79 | `'/'.join(path)` succeeds exactly when no label is missing. |
| Selection.PathTextSplits | inkscapeflatten/__init__.py:79 | A printed path whose labels hold no `/` splits back into its labels. |
| Selection.ListingMeaning | inkscapeflatten/__init__.py:78-79 | The listing prints each layer's joined path in turn. It stops at the first layer with a missing label, and completes exactly when there is none. |
| Selection.ListLayers | inkscapeflatten/__init__.py:76-79 | The loop over `flatten[1:]` prints what `Listing` says, so the root is left out and the order is pre-order. |
| Selection.ListedLayerSelectable | inkscapeflatten/__init__.py:76-84 | A listed layer whose labels hold no `/` and match themselves is selected by its printed path, when visiting the child entries and nothing raises. |
| Selection.FlattenDescends | inkscapeflatten/inkscape.py:210-212 | Every layer of the flattening of a gathered tree lies one level down per extra label on its path. |
| SimpleStyle.Keys | inkscapeflatten/vendored/simplestyle.py:34 | The keys of the dict, one per entry, in order. |
| SimpleStyle.Get | inkscapeflatten/inkscape.py:67 | The lookup behind the `name in style` test. It gives no value exactly when `k` is not a key. |
| SimpleStyle.GetAt | inkscapeflatten/inkscape.py:67 | With distinct keys, lookup finds the value of the entry holding the key. |
| SimpleStyle.Put | inkscapeflatten/inkscape.py:66 | After `style[k] = v`, `k` maps to `v` and every other key is unchanged. An existing key keeps its place; a new key is appended. |
| SimpleStyle.PutWellFormed | inkscapeflatten/inkscape.py:66 | Setting a token key to a token value keeps the dict one that `parseStyle` can return. |
| SimpleStyle.Delete | inkscapeflatten/inkscape.py:67-68 | `del style[k]` removes one entry and leaves every other key as it was. |
| SimpleStyle.DeleteRemovesFirst | inkscapeflatten/inkscape.py:67-68 | The entry removed is the first with key `k`, and the others stay in their order. |
| SimpleStyle.DeleteDistinct | inkscapeflatten/inkscape.py:67-68 | After `del`, the key is absent and the keys stay distinct. |
| SimpleStyle.DeleteWellFormed | inkscapeflatten/inkscape.py:67-68 | Deleting from a parsable dict keeps it parsable and removes the key. |
| SimpleStyle.DeletePut | inkscapeflatten/inkscape.py:65-68 | Deleting a key just set gives what deleting it beforehand gives: the old dict when the key was new. |
| SimpleStyle.StripAll | inkscapeflatten/vendored/simplestyle.py:29 | `[x.strip() for x in ...]` strips every part and keeps their number. |
| SimpleStyle.Fields | inkscapeflatten/vendored/simplestyle.py:29 | Fields from `;`-free segments are tokens. Some field fails to have two parts exactly when some segment is malformed. |
| SimpleStyle.FieldsMeaning | inkscapeflatten/vendored/simplestyle.py:29 | There is one field per non-blank segment, in segment order, and blank segments give none. The field of a segment is that segment split on `:` with every part stripped. |
| SimpleStyle.ParseSpaced | inkscapeflatten/vendored/simplestyle.py:24-29 | A one-entry style with white space around its key and value, such as `" fill : red "`, parses to that entry with the white space stripped. |
| SimpleStyle.FromPairs | inkscapeflatten/vendored/simplestyle.py:29 | `dict(pairs)` succeeds exactly when every field has two parts. |
| SimpleStyle.ParseStyle | inkscapeflatten/vendored/simplestyle.py:24-29 | `None` parses to the empty dict. Every parsed dict has distinct, stripped keys and values free of `;` and `:`. |
| SimpleStyle.ParseStyleRejects | inkscapeflatten/vendored/simplestyle.py:29 | Parsing raises exactly when a non-blank segment does not split into two parts on `:`. |
| SimpleStyle.BlankStyleIsEmpty | inkscapeflatten/vendored/simplestyle.py:29 | A style of only white space and `;`, such as `""`, parses to the empty dict. |
| SimpleStyle.LaterSegmentWins | inkscapeflatten/vendored/simplestyle.py:29 | When a key repeats, the last segment's value wins. |
| SimpleStyle.UnnamedKeyAbsent | inkscapeflatten/vendored/simplestyle.py:29 | A key no segment names is absent. |
| SimpleStyle.Entries | inkscapeflatten/vendored/simplestyle.py:34 | One `key:value` text per entry, in order. |
| SimpleStyle.FormatStyle | inkscapeflatten/vendored/simplestyle.py:32-34 | The empty dict gives `""`. A dict of tokens gives text that splits on `;` back into its `key:value` entries. |
| SimpleStyle.EntryFields | inkscapeflatten/vendored/simplestyle.py:29-34 | A `key:value` entry of tokens is non-blank and splits and strips back to `[key, value]`. |
| SimpleStyle.ParseFormat | inkscapeflatten/vendored/simplestyle.py:24-34 | Round trip: parsing the formatted text of any parsable dict gives the same dict, in the same order. |
| SimpleStyle.ParseFormatParse | inkscapeflatten/vendored/simplestyle.py:24-34 | A parsed style written out and parsed again is unchanged. |
| PyStr.Strip | inkscapeflatten/vendored/simplestyle.py:29 | `strip()` gives a slice of the string with only white space before and after it, and no white space at either end of the slice. A string without white space at its ends comes back unchanged. The result is empty exactly for an all-blank string. |
| PyStr.StripUnique | inkscapeflatten/vendored/simplestyle.py:29 | Exactly one string meets `strip()`'s contract: any slice without white space at its ends and with only white space around it is the result. |
| PyStr.StripSpaced | inkscapeflatten/vendored/simplestyle.py:29 | `strip()` removes exactly the white space added on either side of a string without white space at its ends. |
| PyStr.Split | inkscapeflatten/vendored/simplestyle.py:29 | `split(sep)` has at least one piece, and no piece holds the separator. |
| PyStr.JoinSplit | inkscapeflatten/vendored/simplestyle.py:29-34 | Joining the pieces of a split gives the string back. |
| PyStr.SplitJoin | inkscapeflatten/vendored/simplestyle.py:29-34 | Splitting the join of separator-free pieces gives back the pieces. |
| Visibility.WithStyle | inkscapeflatten/inkscape.py:70 | `node.set('style', text)` changes the `style` attribute alone. |
| Visibility.StyleAfterSet | inkscapeflatten/inkscape.py:62-70 | `_set_style` fails exactly when the current style does not parse. |
| Visibility.SetStyleEffect | inkscapeflatten/inkscape.py:62-70 | Read back after `_set_style`, the property has the new value, or is absent for `None`. Every other property is as before. |
| Visibility.ClearAfterHide | inkscapeflatten/inkscape.py:91-95 | Clearing `display` after setting it to `none` gives the text that clearing the original gives. |
| Visibility.Outcome | inkscapeflatten/inkscape.py:89-95 | What the rewrite makes of one element fails exactly when the element is touched and its style does not parse. |
| Visibility.OutcomeMeaning | inkscapeflatten/inkscape.py:89-95 | A rewritten element keeps its place and other attributes. On the way it has no `display`, under the way it has `display:none`, and elsewhere it is unchanged. |
| Visibility.UnhideHidden | inkscapeflatten/inkscape.py:89-95 | Un-hiding an element just hidden leaves no trace of the hiding. |
| Visibility.GetLayerNode | inkscapeflatten/inkscape.py:38-47 | The root layer gives the root. Any other layer gives the first element in document order below the root that carries its id. The assertion fails exactly when no non-root element carries the id. |
| Visibility.GatheredLayersFound | inkscapeflatten/inkscape.py:18-47 | Every layer `_gather_layers` builds from a document is found in that document, so the lookup's assertion cannot fail for them. |
| Visibility.Targets | inkscapeflatten/inkscape.py:82-85 | `selected_nodes` are elements of the document. |
| Visibility.TargetsAdd | inkscapeflatten/inkscape.py:83-85 | Adding a found layer adds its element to `selected_nodes`. |
| Visibility.Closure | inkscapeflatten/inkscape.py:82-86 | `selected_nodes_ancestors` holds exactly the elements on the way from a selected element to the root. |
| Visibility.ClosureAdd | inkscapeflatten/inkscape.py:83-86 | `update(ancestors)` adds exactly the new chain. |
| Visibility.RewrittenVisibility | inkscapeflatten/inkscape.py:73-97 | After the rewrite the tree keeps its shape. Every element on a selected layer's way to the root, the root included, has no `display`. Every other child of an unselected element on the way shows `display:none`. Every other element is untouched. |
| Visibility.RewrittenShape | inkscapeflatten/inkscape.py:73-97 | The rewrite keeps every element's tag, parent and children. |
| Visibility.RewrittenCleared | inkscapeflatten/inkscape.py:94-95 | Every ancestor of a selected element has no `display`. |
| Visibility.RewrittenHidden | inkscapeflatten/inkscape.py:89-91 | An off-way child of an unselected way element shows `display:none`. |
| Visibility.RewrittenUntouched | inkscapeflatten/inkscape.py:73-97 | Every other element is unchanged. |
| Visibility.RootSelection | inkscapeflatten/inkscape.py:148-152 | The root sentinel selects the root element. The rewrite then fails exactly when the root's style does not parse. |
| Visibility.RootRewritten | inkscapeflatten/inkscape.py:148-152 | With only the root selected, the rewrite changes the root alone. |
| Visibility.HideStep | inkscapeflatten/inkscape.py:90-91 | Hiding an untouched element moves it into the hidden set. |
| Visibility.UnhideStep | inkscapeflatten/inkscape.py:94-95 | Un-hiding moves an element into the cleared set. |
| Visibility.StagedRewritten | inkscapeflatten/inkscape.py:89-95 | Once every way element is cleared and every off-way child hidden, the document is rewritten. |
| Visibility.FailsAt | inkscapeflatten/inkscape.py:89-95 | An element that is touched and does not parse makes the rewrite fail. |
| Visibility.RewrittenSucceeds | inkscapeflatten/inkscape.py:89-95 | A rewrite that runs to the end fails nowhere. |
| Visibility.SvgTree.constructor | inkscapeflatten/inkscape.py:143-144 | A document holds the given tree. |
| Visibility.SvgTree.Copy | inkscapeflatten/inkscape.py:77 | `copy.deepcopy(tree)` is a new document with the same elements. |
| Visibility.SvgTree.AncestorNodes | inkscapeflatten/inkscape.py:50-59 | The `getparent()` loop returns exactly the ancestor chain. |
| Visibility.SvgTree.SetStyle | inkscapeflatten/inkscape.py:62-70 | `_set_style` fails, changing nothing, exactly when the style does not parse. Otherwise it writes the formatted new style into that element alone. |
| Visibility.SvgTree.HideChildren | inkscapeflatten/inkscape.py:90-91 | Hides every child of one element. It fails only on a child whose own style does not parse. |
| Visibility.SvgTree.HideChildrenOfAll | inkscapeflatten/inkscape.py:89-91 | After the hiding loop, exactly the children of the given elements are hidden. It fails only on such a child whose style does not parse. |
| Visibility.SvgTree.UnhideAll | inkscapeflatten/inkscape.py:94-95 | After the un-hiding loop, the given elements are cleared. It fails only on one whose style does not parse. |
| Visibility.SelectedNodes | inkscapeflatten/inkscape.py:79-86 | The collection loop yields `selected_nodes` and `selected_nodes_ancestors`, or the assertion failure for a layer whose element is missing. |
| Visibility.HideDeselectedLayers | inkscapeflatten/inkscape.py:73-97 | It fails on an empty selection, on a layer whose element is missing, or on a touched style that does not parse, each exactly when that happens. Otherwise it returns a new document that is the rewrite of the original; the original is not modified. |
| Visibility.SaveToPdfTree | inkscapeflatten/inkscape.py:147-152 | Given layers, this is the rewrite for them. Without layers the root sentinel is selected, and only the root loses its `display`. |
| Visibility.HideRootOnly | inkscapeflatten/inkscape.py:148-152 | With the root sentinel, the rewrite fails only on the root's style. Otherwise it changes the root alone. |

## Left out

- `_adjust_view_box` and `_crop_to_layer_bounds` (region cropping): floating-point
  arithmetic, regular-expression unit parsing, and a bounding box from
  `simpletransform`, which is not part of this model.
- The rest of `save_to_pdf`, `_safe_update_file` and `SVGDocument.from_file`: the
  `inkscape` subprocess, temporary files, `tree.write`, the rename and XML parsing.
  The model starts from an already parsed element arena.
- `parse_args` and `script_main`: command-line validation and error printing. The
  listing's `print` calls are modelled as the returned lines.
- `fnmatch.fnmatchcase` is a parameter, so nothing about glob syntax is proved.
- `_get_layer_node` splices the id into an XPath expression without escaping it. The
  model searches for the id itself, so an id containing `"` is not modelled.
- Text, comment and processing-instruction nodes are not in the arena. `findall('*')`
  and `getparent()` see only elements, which is what the arena holds.
- `Layer.__hash__` uses object identity. Layers are values in the model, so two
  structurally equal layers count as one in the set `main` builds.
- `save_to_pdf` receives a list of layers and `main` a set. The model takes a set,
  because the rewrite does not depend on order or repetition.
- Selection.Select: no lemma states that a layer appears at most once in a selection.
  `Selection.DuplicateLabelUnselectable` shows a repeat as the code is written. The
  order of a selection (frontier order, then child order) is given by the definition
  of `Selection.Expand` and not restated as a separate lemma.
- Selection.SelectAll: models `main` as written, with `items()` pairing. The
  completeness lemma for that pairing needs distinct sibling names
  (`Selection.SelectCompleteDistinct`).
- Visibility.SvgTree.HideChildren walks the children of one element in document
  order, as the source does. When several children have a style that does not parse,
  its contract leaves open which of them is reported.
- Visibility.SvgTree.HideChildrenOfAll and `Visibility.SvgTree.UnhideAll`: these visit
  the set's elements in an unspecified order. Python iterates the set in hash order,
  and the end result does not depend on it; which failing element is reported first is
  not modelled.
- Visibility.Targets and `Visibility.Closure` are sets of arena indices, standing for
  the sets of lxml element objects.

## Findings

| source | as written | input that shows it | evidently intended | confidence | as-written member | corrected member |
|---|---|---|---|---|---|---|
| inkscapeflatten/__init__.py:21 | `for name, child in i.items()` pairs each child name with `i[name]`. `Layer.__getitem__` (inkscape.py:195-200) returns the first child with that name. | Two sibling layers both labelled `L`, pattern `L`. The selection is the first layer twice; the second layer is never selected, nor exported. | Each child entry is visited once with its own layer (`for name, child in i._items`), so both siblings are selected. | high, not executed | Selection.DuplicateLabelUnselectable | Selection.SelectComplete |
