/**
 * The flattener (src/functions/flatten.ts): a depth-first, pre-order walk of a
 * nested `children` structure that appends one TreeItem per node to a shared
 * accumulator.
 *
 * `Layout` is the specification: the shape (payload, level, size, inset,
 * hasChildren, parent slot) of every item the walk appends, in order. The
 * method `Flatten` is proved to build exactly those items, and the lemmas
 * below state what the shapes satisfy.
 */
module Flattening {
  import opened Optional
  import opened TreeItems

  /**
   * CanHaveChildren: a payload with a `children` array. An absent `children`
   * is the empty array here: flatten treats the two alike (no children, and
   * `hasChildren` false).
   */
  datatype Node<P> = Node(payload: P, children: seq<Node<P>>)

  /** `Boolean(data.children?.length ?? 0)`: present and non-empty. */
  predicate HasChildren<P>(n: Node<P>) {
    |n.children| > 0
  }

  /** The number of nodes in a forest. */
  function Count<P>(forest: seq<Node<P>>): nat
    decreases forest
  {
    if forest == [] then 0 else 1 + Count(forest[0].children) + Count(forest[1..])
  }

  /** The nodes of a forest in pre-order: each node, then its subtree, then its next sibling. */
  function PreOrder<P>(forest: seq<Node<P>>): seq<Node<P>>
    decreases forest
  {
    if forest == [] then [] else [forest[0]] + PreOrder(forest[0].children) + PreOrder(forest[1..])
  }

  lemma {:induction false} PreOrderLength<P>(forest: seq<Node<P>>)
    ensures |PreOrder(forest)| == Count(forest)
    decreases forest
  {
    if forest != [] {
      PreOrderLength(forest[0].children);
      PreOrderLength(forest[1..]);
    }
  }

  /** JavaScript's `Array.prototype.indexOf`: the first position of `x`, or -1. */
  function IndexOf<T(==)>(s: seq<T>, x: T): (r: int)
    ensures -1 <= r < |s|
  {
    if s == [] then -1
    else if s[0] == x then 0
    else
      var t := IndexOf(s[1..], x);
      if t == -1 then -1 else t + 1
  }

  /** `IndexOf` is -1 exactly for an absent element, and otherwise the first position holding it. */
  lemma {:induction false} IndexOfIsFirstMatch<T>(s: seq<T>, x: T)
    ensures -1 <= IndexOf(s, x) < |s|
    ensures IndexOf(s, x) == -1 <==> x !in s
    ensures IndexOf(s, x) >= 0 ==> s[IndexOf(s, x)] == x && forall j :: 0 <= j < IndexOf(s, x) ==> s[j] != x
  {
    if s != [] && s[0] != x {
      IndexOfIsFirstMatch(s[1..], x);
      assert x in s <==> x in s[1..] by {
        assert s == [s[0]] + s[1..];
      }
    }
  }

  /**
   * What flatten records about one node: the node, its depth, the sibling
   * array it sits in (its size and inset are read off that array) and the
   * slot of its parent item.
   */
  datatype ItemShape<P> = ItemShape(data: Node<P>, level: int, siblings: seq<Node<P>>, parent: Option<nat>)

  /**
   * The shapes the loop appends for `source[j..]` when they land at slot
   * `base` onwards, at depth `level`, under the parent slot `parent`.
   */
  function Layout<P>(source: seq<Node<P>>, j: nat, level: int, parent: Option<nat>, base: nat)
    : seq<ItemShape<P>>
    requires j <= |source|
    decreases source, |source| - j
  {
    if j == |source| then []
    else
      var sub := Layout(source[j].children, 0, level + 1, Some(base), base + 1);
      [ItemShape(source[j], level, source, parent)] + sub + Layout(source, j + 1, level, parent, base + 1 + |sub|)
  }

  /** One step of the walk: a node's shape, then its subtree's, then the rest of its siblings'. */
  lemma LayoutUnfold<P>(source: seq<Node<P>>, j: nat, level: int, parent: Option<nat>, base: nat)
    requires j < |source|
    ensures var sub := Layout(source[j].children, 0, level + 1, Some(base), base + 1);
            Layout(source, j, level, parent, base) ==
            [ItemShape(source[j], level, source, parent)] + sub + Layout(source, j + 1, level, parent, base + 1 + |sub|)
  {
  }

  function Payloads<P>(shapes: seq<ItemShape<P>>): seq<Node<P>> {
    seq(|shapes|, k requires 0 <= k < |shapes| => shapes[k].data)
  }

  lemma PayloadsConcat<P>(a: seq<ItemShape<P>>, b: seq<ItemShape<P>>)
    ensures Payloads(a + b) == Payloads(a) + Payloads(b)
  {
    assert |Payloads(a + b)| == |Payloads(a) + Payloads(b)|;
    forall k | 0 <= k < |a + b| ensures Payloads(a + b)[k] == (Payloads(a) + Payloads(b))[k] {
      if k >= |a| {
        assert (a + b)[k] == b[k - |a|];
      }
    }
  }

  lemma PayloadsCons<P>(here: ItemShape<P>, sub: seq<ItemShape<P>>, rest: seq<ItemShape<P>>)
    ensures Payloads([here] + sub + rest) == [here.data] + Payloads(sub) + Payloads(rest)
  {
    PayloadsConcat([here] + sub, rest);
    PayloadsConcat([here], sub);
    assert Payloads([here]) == [here.data];
  }

  /** The number of nodes in `source[j..]` and their subtrees. */
  function Size<P>(source: seq<Node<P>>, j: nat): nat
    requires j <= |source|
    decreases |source| - j
  {
    if j == |source| then 0 else 1 + Count(source[j].children) + Size(source, j + 1)
  }

  /** `Size` counts the nodes of the suffix `source[j..]`. */
  lemma {:induction false} SizeIsCount<P>(source: seq<Node<P>>, j: nat)
    requires j <= |source|
    ensures Size(source, j) == Count(source[j..])
    decreases |source| - j
  {
    if j < |source| {
      SizeIsCount(source, j + 1);
      assert source[j..][0] == source[j] && source[j..][1..] == source[j + 1..];
    }
  }

  /** `Size` from the first position counts the whole forest. */
  lemma ForestSize<P>(forest: seq<Node<P>>)
    ensures Size(forest, 0) == Count(forest)
  {
    SizeIsCount(forest, 0);
    assert forest[0..] == forest;
  }

  /** Flatten emits exactly one item per node of `source[j..]` and their subtrees. */
  lemma {:induction false} LayoutLength<P>(source: seq<Node<P>>, j: nat, level: int, parent: Option<nat>, base: nat)
    requires j <= |source|
    ensures |Layout(source, j, level, parent, base)| == Size(source, j)
    decreases source, |source| - j
  {
    if j < |source| {
      var n := source[j];
      var sub := Layout(n.children, 0, level + 1, Some(base), base + 1);
      LayoutLength(n.children, 0, level + 1, Some(base), base + 1);
      ForestSize(n.children);
      LayoutLength(source, j + 1, level, parent, base + 1 + |sub|);
    }
  }

  /** A forest's layout has one shape per node. */
  lemma LayoutCount<P>(source: seq<Node<P>>, level: int, parent: Option<nat>, base: nat)
    ensures |Layout(source, 0, level, parent, base)| == Count(source)
  {
    LayoutLength(source, 0, level, parent, base);
    ForestSize(source);
  }

  /** The pre-order of `source[j..]`: the node at `j`, its subtree, then the rest. */
  lemma PreOrderStep<P>(source: seq<Node<P>>, j: nat)
    requires j < |source|
    ensures PreOrder(source[j..]) == [source[j]] + PreOrder(source[j].children[0..]) + PreOrder(source[j + 1..])
  {
    assert source[j..][0] == source[j] && source[j..][1..] == source[j + 1..];
    assert source[j].children[0..] == source[j].children;
  }

  /** Flatten emits the nodes in pre-order, siblings in source order. */
  lemma {:induction false} LayoutIsPreOrder<P>(source: seq<Node<P>>, j: nat, level: int, parent: Option<nat>, base: nat)
    requires j <= |source|
    ensures Payloads(Layout(source, j, level, parent, base)) == PreOrder(source[j..])
    decreases source, |source| - j
  {
    if j < |source| {
      var n := source[j];
      var sub := Layout(n.children, 0, level + 1, Some(base), base + 1);
      var rest := Layout(source, j + 1, level, parent, base + 1 + |sub|);
      LayoutIsPreOrder(n.children, 0, level + 1, Some(base), base + 1);
      LayoutIsPreOrder(source, j + 1, level, parent, base + 1 + |sub|);
      LayoutUnfold(source, j, level, parent, base);
      PreOrderStep(source, j);
      PayloadsStep(Layout(source, j, level, parent, base), ItemShape(n, level, source, parent), sub, rest,
                PreOrder(source[j..]), PreOrder(n.children[0..]), PreOrder(source[j + 1..]));
    }
  }

  lemma PayloadsStep<P>(shapes: seq<ItemShape<P>>, here: ItemShape<P>, sub: seq<ItemShape<P>>, rest: seq<ItemShape<P>>,
                     whole: seq<Node<P>>, a: seq<Node<P>>, b: seq<Node<P>>)
    requires shapes == [here] + sub + rest && Payloads(sub) == a && Payloads(rest) == b
    requires whole == [here.data] + a + b
    ensures Payloads(shapes) == whole
  {
    PayloadsCons(here, sub, rest);
  }

  /**
   * Shape `k` of `shapes` (laid out from slot `base`) is placed in its own
   * sibling array, and is either a top sibling of `source` under `parent`,
   * or a child of an earlier shape `q` of the same layout: one level deeper,
   * among `q`'s children.
   */
  ghost predicate ShapeFits<P>(shapes: seq<ItemShape<P>>, k: nat, source: seq<Node<P>>, level: int,
                               parent: Option<nat>, base: nat)
    requires k < |shapes|
  {
    var s := shapes[k];
    s.data in s.siblings &&
    ((s.parent == parent && s.level == level && s.siblings == source) ||
     (s.parent.Some? && base <= s.parent.value < base + k &&
      var q := shapes[s.parent.value - base];
      s.level == q.level + 1 && s.siblings == q.data.children))
  }

  /** Every shape flatten lays out fits: a top sibling, or one level below an earlier shape. */
  lemma {:induction false} LayoutFits<P>(source: seq<Node<P>>, j: nat, level: int, parent: Option<nat>, base: nat)
    requires j <= |source|
    requires parent.Some? ==> parent.value < base
    ensures var shapes := Layout(source, j, level, parent, base);
            forall k :: 0 <= k < |shapes| ==> ShapeFits(shapes, k, source, level, parent, base)
    decreases source, |source| - j
  {
    if j < |source| {
      var n := source[j];
      var here := ItemShape(n, level, source, parent);
      var sub := Layout(n.children, 0, level + 1, Some(base), base + 1);
      var rest := Layout(source, j + 1, level, parent, base + 1 + |sub|);
      LayoutUnfold(source, j, level, parent, base);
      LayoutFits(n.children, 0, level + 1, Some(base), base + 1);
      LayoutFits(source, j + 1, level, parent, base + 1 + |sub|);
      assert n in source;
      HeadFits(here, sub, rest, source, level, parent, base);
      SubShapesFit(here, sub, rest, source, level, parent, base, n.children, level + 1, Some(base), base + 1);
      RestShapesFit(here, sub, rest, source, level, parent, base, base + 1 + |sub|);
    }
  }

  lemma HeadFits<P>(here: ItemShape<P>, sub: seq<ItemShape<P>>, rest: seq<ItemShape<P>>,
                    source: seq<Node<P>>, level: int, parent: Option<nat>, base: nat)
    requires here.data in source && here.siblings == source && here.level == level && here.parent == parent
    ensures ShapeFits([here] + sub + rest, 0, source, level, parent, base)
  {
    assert ([here] + sub + rest)[0] == here;
  }

  /** The children's shapes fit under `here`, the first shape of the layout. */
  lemma SubShapesFit<P>(here: ItemShape<P>, sub: seq<ItemShape<P>>, rest: seq<ItemShape<P>>,
                        source: seq<Node<P>>, level: int, parent: Option<nat>, base: nat,
                        children: seq<Node<P>>, subLevel: int, subParent: Option<nat>, subBase: nat)
    requires children == here.data.children && subLevel == level + 1
    requires here.level == level && subParent == Some(base) && subBase == base + 1
    requires forall k :: 0 <= k < |sub| ==> ShapeFits(sub, k, children, subLevel, subParent, subBase)
    ensures var shapes := [here] + sub + rest;
            forall k :: 1 <= k < 1 + |sub| ==> ShapeFits(shapes, k, source, level, parent, base)
  {
    var shapes := [here] + sub + rest;
    forall k | 1 <= k < 1 + |sub| ensures ShapeFits(shapes, k, source, level, parent, base) {
      assert shapes[k] == sub[k - 1];
      assert ShapeFits(sub, k - 1, children, subLevel, subParent, subBase);
      var s := sub[k - 1];
      if s.parent == Some(base) && s.level == level + 1 && s.siblings == here.data.children {
        assert shapes[0] == here;
      } else {
        assert shapes[s.parent.value - base] == sub[s.parent.value - (base + 1)];
      }
    }
  }

  /** The later siblings' shapes keep fitting once shifted past `here` and its subtree. */
  lemma RestShapesFit<P>(here: ItemShape<P>, sub: seq<ItemShape<P>>, rest: seq<ItemShape<P>>,
                         source: seq<Node<P>>, level: int, parent: Option<nat>, base: nat, restBase: nat)
    requires parent.Some? ==> parent.value < base
    requires restBase == base + 1 + |sub|
    requires forall k :: 0 <= k < |rest| ==> ShapeFits(rest, k, source, level, parent, restBase)
    ensures var shapes := [here] + sub + rest;
            forall k :: 1 + |sub| <= k < |shapes| ==> ShapeFits(shapes, k, source, level, parent, base)
  {
    var shapes := [here] + sub + rest;
    forall k | 1 + |sub| <= k < |shapes| ensures ShapeFits(shapes, k, source, level, parent, base) {
      var k' := k - 1 - |sub|;
      assert shapes[k] == rest[k'];
      assert ShapeFits(rest, k', source, level, parent, restBase);
      var s := rest[k'];
      if !(s.parent == parent && s.level == level && s.siblings == source) {
        assert shapes[s.parent.value - base] == rest[s.parent.value - (base + 1 + |sub|)];
      }
    }
  }

  /** `LayoutFits` for a whole list, stated on a named layout so callers can use it. */
  lemma LayoutFitsAll<P>(shapes: seq<ItemShape<P>>, source: seq<Node<P>>, level: int, parent: Option<nat>, base: nat)
    requires parent.Some? ==> parent.value < base
    requires shapes == Layout(source, 0, level, parent, base)
    ensures forall k :: 0 <= k < |shapes| ==> ShapeFits(shapes, k, source, level, parent, base)
  {
    LayoutFits(source, 0, level, parent, base);
  }

  // ---------------------------------------------------------------------------
  // The imperative walk
  // ---------------------------------------------------------------------------

  /**
   * An item's structural fields are those its shape determines: its size is
   * the length of its sibling array and its inset the first position of its
   * node there plus one.
   */
  ghost predicate Builds<P>(item: TreeItem<Node<P>>, s: ItemShape<P>, identifier: string) {
    item.data == s.data && item.level == s.level && item.size == |s.siblings| &&
    item.inset == IndexOf(s.siblings, s.data) + 1 && item.hasChildren == HasChildren(s.data) &&
    item.parent == s.parent && item.identifier == identifier
  }

  /** Slots `base..` of `r` hold items built from `shapes`, with identifiers `item-<uuid(slot)>`. */
  ghost predicate BuiltFrom<P>(r: seq<TreeItem<Node<P>>>, base: nat, shapes: seq<ItemShape<P>>, uuid: nat -> string) {
    |r| == base + |shapes| &&
    forall k :: 0 <= k < |shapes| ==> Builds(r[base + k], shapes[k], "item-" + uuid(base + k))
  }

  /** The state a TreeItem starts in when flatten builds it: not focusable, not selected, collapsed. */
  predicate Initial<D>(item: TreeItem<D>)
    reads item`tabIndex, item`selected, item`expandedCell
  {
    item.tabIndex == -1 && !item.selected && !item.expandedCell
  }

  /**
   * The bookkeeping of one pass of flatten's loop: once `r` has grown by the
   * item for `source[j]` (at `slot`) and then by its subtree, the shapes
   * accounted for are again a prefix of the whole layout.
   */
  lemma LoopStepLayout<P>(source: seq<Node<P>>, j: nat, level: int, parent: Option<nat>,
                          done: seq<ItemShape<P>>, base: nat, slot: nat, len: nat)
    requires j < |source|
    requires len == slot + 1 + |Layout(source[j].children, 0, level + 1, Some(slot), slot + 1)|
    requires Layout(source, 0, level, parent, base) == done + Layout(source, j, level, parent, slot)
    ensures Layout(source, 0, level, parent, base) ==
            done + [ItemShape(source[j], level, source, parent)] +
            Layout(source[j].children, 0, level + 1, Some(slot), slot + 1) +
            Layout(source, j + 1, level, parent, len)
  {
    var sub := Layout(source[j].children, 0, level + 1, Some(slot), slot + 1);
    var rest := Layout(source, j + 1, level, parent, len);
    LayoutUnfold(source, j, level, parent, slot);
    AppendAssoc(done, [ItemShape(source[j], level, source, parent)], sub, rest);
  }

  lemma AppendAssoc<T>(a: seq<T>, b: seq<T>, c: seq<T>, d: seq<T>)
    ensures a + (b + c + d) == a + b + c + d
  {
  }

  /** The items of one pass of the loop extend what `r` was built from. */
  lemma LoopStepBuilt<P>(uuid: nat -> string, done: seq<ItemShape<P>>, here: ItemShape<P>, sub: seq<ItemShape<P>>,
                         base: nat, before: seq<TreeItem<Node<P>>>, r: seq<TreeItem<Node<P>>>)
    requires |before| == base + |done| && BuiltFrom(before, base, done, uuid)
    requires |r| > |before| && r[..|before|] == before
    requires Builds(r[|before|], here, "item-" + uuid(|before|))
    requires BuiltFrom(r, |before| + 1, sub, uuid)
    ensures BuiltFrom(r, base, done + [here] + sub, uuid)
  {
    var shapes := done + [here] + sub;
    forall k | 0 <= k < |shapes| ensures Builds(r[base + k], shapes[k], "item-" + uuid(base + k)) {
      if k < |done| {
        assert shapes[k] == done[k];
        assert r[base + k] == before[base + k];
      } else if k == |done| {
        assert shapes[k] == here;
      } else {
        var i := k - |done| - 1;
        assert shapes[k] == sub[i];
        assert r[base + k] == r[(|before| + 1) + i];
      }
    }
  }

  /** Growing a sequence past `before` keeps every prefix of `before`. */
  lemma PrefixKept<T>(r: seq<T>, before: seq<T>, n: nat)
    requires n <= |before| <= |r| && r[..|before|] == before
    ensures r[..n] == before[..n]
    ensures forall k :: 0 <= k < |before| ==> r[k] == before[k]
  {
    assert forall k :: 0 <= k < |before| ==> r[k] == r[..|before|][k];
  }

  /**
   * flatten(source, level, parent, finalData): appends one new item per node
   * of `source`, in pre-order, to the accumulator and returns it. The random
   * uuid of each default identifier is `uuid(slot)`.
   */
  method Flatten<P(==)>(uuid: nat -> string, source: seq<Node<P>>, level: int, parent: Option<nat>,
                        finalData: seq<TreeItem<Node<P>>>)
    returns (r: seq<TreeItem<Node<P>>>)
    ensures |r| == |finalData| + Count(source)
    ensures r[..|finalData|] == finalData
    ensures BuiltFrom(r, |finalData|, Layout(source, 0, level, parent, |finalData|), uuid)
    ensures forall k :: |finalData| <= k < |r| ==> fresh(r[k]) && Initial(r[k])
    ensures WellFormed(finalData) && (parent.Some? ==> parent.value < |finalData|) ==> WellFormed(r)
    decreases source, 1
  {
    r := finalData;
    ghost var done: seq<ItemShape<P>> := [];
    for j := 0 to |source|
      invariant |r| == |finalData| + |done| && r[..|finalData|] == finalData
      invariant Layout(source, 0, level, parent, |finalData|) == done + Layout(source, j, level, parent, |r|)
      invariant BuiltFrom(r, |finalData|, done, uuid)
      invariant forall k :: |finalData| <= k < |r| ==> fresh(r[k]) && Initial(r[k])
    {
      ghost var before := r;
      ghost var here := ItemShape(source[j], level, source, parent);
      r := FlattenNode(uuid, source, j, level, parent, r);
      ghost var sub := Layout(source[j].children, 0, level + 1, Some(|before|), |before| + 1);
      LoopStepLayout(source, j, level, parent, done, |finalData|, |before|, |r|);
      LoopStepBuilt(uuid, done, here, sub, |finalData|, before, r);
      PrefixKept(r, before, |finalData|);
      done := done + [here] + sub;
    }
    LayoutCount(source, level, parent, |finalData|);
    if WellFormed(finalData) && (parent.Some? ==> parent.value < |finalData|) {
      FlattenedIsWellFormed(r, finalData, source, level, parent, uuid);
    }
  }

  /**
   * One pass of flatten's loop: builds the item for `source[j]` at the next
   * slot, collapsed (flatten passes `expanded: false`), then flattens its
   * children beneath it.
   */
  method FlattenNode<P(==)>(uuid: nat -> string, source: seq<Node<P>>, j: nat, level: int, parent: Option<nat>,
                            r0: seq<TreeItem<Node<P>>>)
    returns (r: seq<TreeItem<Node<P>>>)
    requires j < |source|
    ensures |r| > |r0| && r[..|r0|] == r0
    ensures Builds(r[|r0|], ItemShape(source[j], level, source, parent), "item-" + uuid(|r0|))
    ensures BuiltFrom(r, |r0| + 1, Layout(source[j].children, 0, level + 1, Some(|r0|), |r0| + 1), uuid)
    ensures forall k :: |r0| <= k < |r| ==> fresh(r[k]) && Initial(r[k])
    decreases source, 0
  {
    var data := source[j];
    var item := new TreeItem(data, TreeItemMetadata(level, |source|, IndexOf(source, data) + 1,
                                                    HasChildren(data), Some(false)),
                             parent, "item-" + uuid(|r0|));
    assert Initial(item);
    var slot := |r0|;
    r := r0 + [item];
    // `if (data.children)`: an absent array is the empty one, on which the call appends nothing.
    var r1 := Flatten(uuid, data.children, level + 1, Some(slot), r);
    assert r1[..|r0|] == r[..|r0|];
    assert r1[|r0|] == item;
    forall k | |r0| <= k < |r1| ensures fresh(r1[k]) && Initial(r1[k]) {
      if k == |r0| {
        assert r1[k] == item;
      }
    }
    r := r1;
  }

  /** The items flatten appends put every parent before its children. */
  lemma {:induction false} FlattenedIsWellFormed<P>(r: seq<TreeItem<Node<P>>>, finalData: seq<TreeItem<Node<P>>>,
                                 source: seq<Node<P>>, level: int, parent: Option<nat>, uuid: nat -> string)
    requires WellFormed(finalData) && (parent.Some? ==> parent.value < |finalData|)
    requires |r| >= |finalData| && r[..|finalData|] == finalData
    requires BuiltFrom(r, |finalData|, Layout(source, 0, level, parent, |finalData|), uuid)
    ensures WellFormed(r)
  {
    var shapes := Layout(source, 0, level, parent, |finalData|);
    LayoutFitsAll(shapes, source, level, parent, |finalData|);
    forall k | 0 <= k < |r| && r[k].parent.Some? ensures r[k].parent.value < k {
      if k < |finalData| {
        assert r[k] == finalData[k];
      } else {
        var k': nat := k - |finalData|;
        assert k' < |shapes|;
        assert r[|finalData| + k'] == r[k];
        assert Builds(r[|finalData| + k'], shapes[k'], "item-" + uuid(|finalData| + k'));
        assert ShapeFits(shapes, k', source, level, parent, |finalData|);
      }
    }
  }

  // ---------------------------------------------------------------------------
  // The top-level call and what it promises about the items
  // ---------------------------------------------------------------------------

  /** Item `k` sits one level below item `p`, which has children, among whose children it is placed. */
  ghost predicate ChildOf<P>(r: seq<TreeItem<Node<P>>>, p: nat, k: nat) {
    p < k < |r| && r[p].hasChildren && r[k].level == r[p].level + 1 &&
    r[k].data in r[p].data.children && r[k].size == |r[p].data.children| &&
    r[k].inset == IndexOf(r[p].data.children, r[k].data) + 1
  }

  /**
   * What `flatten(source)` (level 1, no parent, an empty accumulator) builds,
   * item by item: one item per node, in pre-order, parents first; roots at
   * level 1 placed among the top-level nodes; every other item one level
   * below its parent item and placed among its parent's children.
   */
  lemma FlattenedItems<P>(r: seq<TreeItem<Node<P>>>, source: seq<Node<P>>, uuid: nat -> string)
    requires BuiltFrom(r, 0, Layout(source, 0, 1, None, 0), uuid)
    ensures |r| == Count(source) == |PreOrder(source)|
    ensures forall k :: 0 <= k < |r| ==> r[k].data == PreOrder(source)[k]
    ensures WellFormed(r)
    ensures forall k :: 0 <= k < |r| ==>
              r[k].identifier == "item-" + uuid(k) && 1 <= r[k].inset <= r[k].size &&
              r[k].hasChildren == HasChildren(r[k].data)
    ensures forall k :: 0 <= k < |r| && r[k].parent.None? ==>
              r[k].level == 1 && r[k].data in source && r[k].size == |source| &&
              r[k].inset == IndexOf(source, r[k].data) + 1
    ensures forall k :: 0 <= k < |r| && r[k].parent.Some? ==> ChildOf(r, r[k].parent.value, k)
  {
    var shapes := Layout(source, 0, 1, None, 0);
    assert source[0..] == source;
    LayoutCount(source, 1, None, 0);
    LayoutIsPreOrder(source, 0, 1, None, 0);
    PreOrderLength(source);
    LayoutFitsAll(shapes, source, 1, None, 0);
    FlattenedIsWellFormed(r, [], source, 1, None, uuid);
    forall k | 0 <= k < |r|
      ensures r[k].data == PreOrder(source)[k]
      ensures r[k].identifier == "item-" + uuid(k) && 1 <= r[k].inset <= r[k].size &&
              r[k].hasChildren == HasChildren(r[k].data)
      ensures r[k].parent.None? ==>
              r[k].level == 1 && r[k].data in source && r[k].size == |source| &&
              r[k].inset == IndexOf(source, r[k].data) + 1
      ensures r[k].parent.Some? ==> ChildOf(r, r[k].parent.value, k)
    {
      ItemFacts(r, shapes, source, uuid, k);
    }
  }

  /** The facts `FlattenedItems` states, for the single item `k`. */
  lemma ItemFacts<P>(r: seq<TreeItem<Node<P>>>, shapes: seq<ItemShape<P>>, source: seq<Node<P>>,
                     uuid: nat -> string, k: nat)
    requires BuiltFrom(r, 0, shapes, uuid) && k < |r|
    requires forall i :: 0 <= i < |shapes| ==> ShapeFits(shapes, i, source, 1, None, 0)
    ensures r[k].data == Payloads(shapes)[k]
    ensures r[k].identifier == "item-" + uuid(k) && 1 <= r[k].inset <= r[k].size &&
            r[k].hasChildren == HasChildren(r[k].data)
    ensures r[k].parent.None? ==>
            r[k].level == 1 && r[k].data in source && r[k].size == |source| &&
            r[k].inset == IndexOf(source, r[k].data) + 1
    ensures r[k].parent.Some? ==> ChildOf(r, r[k].parent.value, k)
  {
    var s := shapes[k];
    assert Builds(r[0 + k], s, "item-" + uuid(0 + k));
    assert ShapeFits(shapes, k, source, 1, None, 0);
    IndexOfIsFirstMatch(s.siblings, s.data);
    if r[k].parent.Some? {
      var p := r[k].parent.value;
      assert Builds(r[0 + p], shapes[p], "item-" + uuid(0 + p));
      assert s.data in shapes[p].data.children;
    }
  }

  /**
   * `flatten(source)` with its defaults: level 1, no parent, an empty
   * accumulator.
   */
  method FlattenForest<P(==)>(uuid: nat -> string, source: seq<Node<P>>) returns (r: seq<TreeItem<Node<P>>>)
    ensures BuiltFrom(r, 0, Layout(source, 0, 1, None, 0), uuid)
    ensures |r| == Count(source) && WellFormed(r)
    ensures forall k :: 0 <= k < |r| ==> fresh(r[k]) && Initial(r[k])
  {
    r := Flatten(uuid, source, 1, None, []);
  }

  /**
   * Every parent item flatten builds has children and is stored collapsed,
   * so right after flattening exactly the roots are visible.
   */
  lemma FlattenedShowsOnlyRoots<P>(r: seq<TreeItem<Node<P>>>, source: seq<Node<P>>, uuid: nat -> string)
    requires BuiltFrom(r, 0, Layout(source, 0, 1, None, 0), uuid)
    requires forall k :: 0 <= k < |r| ==> Initial(r[k])
    ensures WellFormed(r)
    ensures forall k :: 0 <= k < |r| ==> (Visible(r, k) <==> r[k].parent.None?)
  {
    FlattenedItems(r, source, uuid);
    forall k | 0 <= k < |r| ensures Visible(r, k) <==> r[k].parent.None? {
      if r[k].parent.Some? {
        var p := r[k].parent.value;
        assert ChildOf(r, p, k);
        assert Initial(r[p]);
        assert r[p].Expanded() == Some(false);
      }
    }
  }
}
