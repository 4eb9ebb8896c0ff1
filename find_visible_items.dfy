/**
 * Finding the visible items of a flattened tree
 * (src/functions/find-visible-items.ts), and the filter the tree element
 * uses for its visible content (src/tree.ts).
 *
 * `VisibleContent` is the specification: `content.filter(isVisible)`, kept in
 * source order. `VisibleIndices` names the positions it keeps, and
 * `FilterKeepsVisibleIndices` proves the two agree, so the filter keeps
 * exactly the visible items and in order.
 */
module FindVisible {
  import opened Optional
  import opened TreeItems

  /** The record findVisibleItems returns: the visible items and the lengths kept for triage. */
  datatype FoundVisibleItems<D> = FoundVisibleItems(
    visibleItems: seq<TreeItem<D>>, contentLength: int, visibleItemsLength: int, difference: int)

  /** The visible items among the first `n` of `content`, in order. */
  function VisiblePrefix<D>(content: seq<TreeItem<D>>, n: nat): (r: seq<TreeItem<D>>)
    requires WellFormed(content) && n <= |content|
    reads content`expandedCell
    ensures |r| <= n
    ensures forall m :: 0 <= m < |r| ==> r[m] in content[..n]
    decreases n
  {
    if n == 0 then []
    else
      var r := VisiblePrefix(content, n - 1);
      assert content[..n - 1] <= content[..n];
      if Visible(content, n - 1) then r + [content[n - 1]] else r
  }

  /** `content.filter((item) => item.isVisible)`. */
  function VisibleContent<D>(content: seq<TreeItem<D>>): (r: seq<TreeItem<D>>)
    requires WellFormed(content)
    reads content`expandedCell
    ensures |r| <= |content|
    ensures forall m :: 0 <= m < |r| ==> r[m] in content
  {
    VisiblePrefix(content, |content|)
  }

  /** The positions below `n` whose items are visible, in increasing order. */
  function VisibleIndices<D>(content: seq<TreeItem<D>>, n: nat): (r: seq<nat>)
    requires WellFormed(content) && n <= |content|
    reads content`expandedCell
    ensures forall a, b :: 0 <= a < b < |r| ==> r[a] < r[b]
    ensures forall m :: 0 <= m < |r| ==> r[m] < n
    ensures forall k :: 0 <= k < n ==> (k in r <==> Visible(content, k))
    decreases n
  {
    if n == 0 then []
    else
      var r := VisibleIndices(content, n - 1);
      if Visible(content, n - 1) then r + [n - 1] else r
  }

  /** The filter keeps the item at each visible position, and nothing else, in order. */
  lemma {:induction false} FilterKeepsVisibleIndices<D>(content: seq<TreeItem<D>>, n: nat)
    requires WellFormed(content) && n <= |content|
    ensures var idx := VisibleIndices(content, n);
            |VisiblePrefix(content, n)| == |idx| &&
            forall m :: 0 <= m < |idx| ==> VisiblePrefix(content, n)[m] == content[idx[m]]
    decreases n
  {
    if n > 0 {
      FilterKeepsVisibleIndices(content, n - 1);
      var items, idx := VisiblePrefix(content, n - 1), VisibleIndices(content, n - 1);
      if Visible(content, n - 1) {
        assert VisiblePrefix(content, n) == items + [content[n - 1]];
        assert VisibleIndices(content, n) == idx + [n - 1];
        AppendedPairs(items, idx, content, n - 1);
      } else {
        assert VisiblePrefix(content, n) == items && VisibleIndices(content, n) == idx;
      }
    }
  }

  /** Appending the item at `k` and the position `k` keeps items and positions paired. */
  lemma AppendedPairs<D>(items: seq<TreeItem<D>>, idx: seq<nat>, content: seq<TreeItem<D>>, k: nat)
    requires k < |content| && |items| == |idx| && forall m :: 0 <= m < |idx| ==> idx[m] < |content|
    requires forall m :: 0 <= m < |idx| ==> items[m] == content[idx[m]]
    ensures var items', idx' := items + [content[k]], idx + [k];
            |items'| == |idx'| && forall m :: 0 <= m < |idx'| ==> items'[m] == content[idx'[m]]
  {
  }

  /** A content of roots only is shown in full. */
  lemma {:induction false} RootsAreAllVisible<D>(content: seq<TreeItem<D>>, n: nat)
    requires WellFormed(content) && n <= |content|
    requires forall k :: 0 <= k < |content| ==> content[k].parent.None?
    ensures VisiblePrefix(content, n) == content[..n]
    decreases n
  {
    if n > 0 {
      RootsAreAllVisible(content, n - 1);
      assert content[..n] == content[..n - 1] + [content[n - 1]];
    }
  }

  /**
   * findVisibleItems(content): the visible items, in order, and the lengths
   * before and after filtering together with their difference.
   */
  method FindVisibleItems<D>(content: seq<TreeItem<D>>) returns (found: FoundVisibleItems<D>)
    requires WellFormed(content)
    ensures found.visibleItems == VisibleContent(content)
    ensures found.contentLength == |content| && found.visibleItemsLength == |found.visibleItems|
    ensures found.difference == found.contentLength - found.visibleItemsLength >= 0
  {
    var visibleItems: seq<TreeItem<D>> := [];
    for i := 0 to |content|
      invariant visibleItems == VisiblePrefix(content, i)
    {
      var visible := IsVisible(content, i);
      assert VisiblePrefix(content, i + 1) ==
             if Visible(content, i) then VisiblePrefix(content, i) + [content[i]] else VisiblePrefix(content, i);
      if visible {
        visibleItems := visibleItems + [content[i]];
      }
    }
    found := FoundVisibleItems(visibleItems, |content|, |visibleItems|, |content| - |visibleItems|);
  }

  /** A content of roots only loses nothing to the filter: the difference is zero. */
  method FindVisibleItemsOfRoots<D>(content: seq<TreeItem<D>>) returns (found: FoundVisibleItems<D>)
    requires WellFormed(content)
    requires forall k :: 0 <= k < |content| ==> content[k].parent.None?
    ensures found.visibleItems == content && found.difference == 0
  {
    found := FindVisibleItems(content);
    RootsAreAllVisible(content, |content|);
    assert content[..|content|] == content;
  }
}
