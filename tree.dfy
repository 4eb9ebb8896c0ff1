/**
 * The tree element's engine (src/tree.ts): the stored content, the visible
 * range reported by the virtualizer, the derived visible content, rendered
 * window and current focusable item, and roving focus.
 *
 * Signals and `computed` values become fields and functions of the state;
 * the `#ensureTreeItemIsFocusable` effect becomes a method that the range
 * handler calls; `batch` becomes two assignments in sequence.
 */
module TreeEngine {
  import opened Optional
  import opened TreeItems
  import opened FindVisible
  import opened Flattening

  /** How `Array.prototype.slice` turns an argument into a position: from the end when negative, clamped to `[0, len]`. */
  function Clamp(i: int, len: nat): (r: nat)
    ensures r <= len
    ensures 0 <= i <= len ==> r == i
    ensures i > len ==> r == len
    ensures i < 0 && 0 <= len + i ==> r == len + i
    ensures len + i < 0 ==> r == 0
  {
    if i < 0 then (if len + i < 0 then 0 else len + i) else if i > len then len else i
  }

  /** `s.slice(start, end)` in JavaScript. */
  function JsSlice<T>(s: seq<T>, start: int, end: int): (r: seq<T>)
    ensures |r| <= |s|
    ensures forall m :: 0 <= m < |r| ==> Clamp(start, |s|) + m < |s| && r[m] == s[Clamp(start, |s|) + m]
    ensures 0 <= start <= end <= |s| ==> r == s[start..end]
    ensures 0 <= start <= |s| <= end ==> r == s[start..]
    ensures 0 <= end <= start ==> r == []
    ensures |r| == if Clamp(start, |s|) <= Clamp(end, |s|) then Clamp(end, |s|) - Clamp(start, |s|) else 0
  {
    var lo := Clamp(start, |s|);
    var hi := Clamp(end, |s|);
    if lo <= hi then s[lo..hi] else []
  }

  /** `s.find((item) => item.tabIndex.value === 0)`, as a position. */
  function FirstFocusable<D>(s: seq<TreeItem<D>>): (r: Option<nat>)
    reads s`tabIndex
    ensures r.Some? ==> r.value < |s| && s[r.value].tabIndex == 0 &&
                        forall j :: 0 <= j < r.value ==> s[j].tabIndex != 0
    ensures r.None? <==> forall j :: 0 <= j < |s| ==> s[j].tabIndex != 0
  {
    if s == [] then None
    else if s[0].tabIndex == 0 then Some(0)
    else
      match FirstFocusable(s[1..])
      case None => None
      case Some(j) => Some(j + 1)
  }

  /** `s.find((item) => item.identifier === identifier)`, as a position. */
  function FindById<D>(s: seq<TreeItem<D>>, identifier: string): (r: Option<nat>)
    ensures r.Some? ==> r.value < |s| && s[r.value].identifier == identifier &&
                        forall j :: 0 <= j < r.value ==> s[j].identifier != identifier
    ensures r.None? <==> forall j :: 0 <= j < |s| ==> s[j].identifier != identifier
  {
    if s == [] then None
    else if s[0].identifier == identifier then Some(0)
    else
      match FindById(s[1..], identifier)
      case None => None
      case Some(j) => Some(j + 1)
  }

  /** The item roving focus goes to: the first with the identifier, none for an undefined one. */
  function RoveTarget<D>(s: seq<TreeItem<D>>, identifier: Option<string>): Option<nat> {
    if identifier.None? then None else FindById(s, identifier.value)
  }

  /** The items of `s` that hold `tabIndex` 0. */
  function Focused<D>(s: seq<TreeItem<D>>): set<TreeItem<D>>
    reads s`tabIndex
  {
    set x | x in s && x.tabIndex == 0
  }

  /** No two items share an identifier. */
  predicate UniqueIds<D>(s: seq<TreeItem<D>>) {
    forall a, b :: 0 <= a < b < |s| ==> s[a].identifier != s[b].identifier
  }

  /** In a list without repeated identifiers, finding an item's identifier finds that item. */
  lemma {:induction false} FindByIdOfUnique<D>(s: seq<TreeItem<D>>, k: nat)
    requires UniqueIds(s) && k < |s|
    ensures FindById(s, s[k].identifier) == Some(k)
  {
  }

  /** Finding the identifier of an item of the list finds some item. */
  lemma FindByIdFinds<D>(s: seq<TreeItem<D>>, k: nat)
    requires k < |s|
    ensures FindById(s, s[k].identifier).Some?
  {
  }

  /** The visible content keeps identifiers apart when the content does. */
  lemma VisibleContentKeepsUniqueIds<D>(content: seq<TreeItem<D>>)
    requires WellFormed(content) && UniqueIds(content)
    ensures UniqueIds(VisibleContent(content))
  {
    var vc := VisibleContent(content);
    var idx := VisibleIndices(content, |content|);
    FilterKeepsVisibleIndices(content, |content|);
    forall a, b | 0 <= a < b < |vc| ensures vc[a].identifier != vc[b].identifier {
      assert vc[a] == content[idx[a]] && vc[b] == content[idx[b]] && idx[a] < idx[b];
    }
  }

  /** Flattened items carry `item-<uuid>` identifiers, distinct when the uuids are. */
  lemma FlattenedIdsAreUnique<P>(r: seq<TreeItem<Node<P>>>, source: seq<Node<P>>, uuid: nat -> string)
    requires BuiltFrom(r, 0, Layout(source, 0, 1, None, 0), uuid)
    requires forall a, b :: 0 <= a < b < |r| ==> uuid(a) != uuid(b)
    ensures UniqueIds(r)
  {
    FlattenedItems(r, source, uuid);
    forall a, b | 0 <= a < b < |r| ensures r[a].identifier != r[b].identifier {
      var ia, ib := r[a].identifier, r[b].identifier;
      assert ia[5..] == uuid(a) && ib[5..] == uuid(b);
    }
  }

  class TreeElement<D> {
    /** `#content`: the items the tree holds, in display order, parents first. */
    var content: seq<TreeItem<D>>
    /** `#visibleRange`: the first and last visible positions the virtualizer reported. */
    var first: int
    var last: int

    constructor()
      ensures content == [] && first == 0 && last == 0
    {
      content := [];
      first := 0;
      last := 0;
    }

    /** `#visibleContent`. */
    function VisibleContent(): (r: seq<TreeItem<D>>)
      requires WellFormed(content)
      reads this, content`expandedCell
      ensures |r| <= |content|
      ensures forall m :: 0 <= m < |r| ==> r[m] in content
    {
      FindVisible.VisibleContent(content)
    }

    /** `#visibleItems`: the rendered window, `visibleContent.slice(first, last + 1)`. */
    function VisibleItems(): (r: seq<TreeItem<D>>)
      requires WellFormed(content)
      reads this, content`expandedCell
      ensures var vc := VisibleContent(); var lo, hi := Clamp(first, |vc|), Clamp(last + 1, |vc|);
              |r| == (if lo <= hi then hi - lo else 0) &&
              forall m :: 0 <= m < |r| ==> lo + m < |vc| && r[m] == vc[lo + m]
    {
      JsSlice(VisibleContent(), first, last + 1)
    }

    /** `#currentFocusableItem`: the first visible item with `tabIndex` 0, if any. */
    function CurrentFocusableItem(): (r: Option<TreeItem<D>>)
      requires WellFormed(content)
      reads this, content`expandedCell, content`tabIndex
      ensures r.Some? <==> exists x :: x in VisibleContent() && x.tabIndex == 0
      ensures r.Some? ==> r.value in VisibleContent() && r.value.tabIndex == 0
      ensures r.Some? ==> exists i :: 0 <= i < |VisibleContent()| && VisibleContent()[i] == r.value &&
                                      forall j :: 0 <= j < i ==> VisibleContent()[j].tabIndex != 0
    {
      var vc := VisibleContent();
      match FirstFocusable(vc)
      case None => None
      case Some(i) => Some(vc[i])
    }

    /** The `content` setter: replaces the stored items by (a copy of) `data`. */
    method SetContent(data: seq<TreeItem<D>>)
      modifies this`content
      ensures content == data
    {
      content := data;
    }

    /** `#visibilityChanged`: stores the range of the event. */
    method VisibilityChanged(f: int, l: int)
      modifies this`first, this`last
      ensures first == f && last == l
    {
      first := f;
      last := l;
    }

    /**
     * `#roveFocusTo(identifier)`: when the identifier names a visible item,
     * takes focus from the current focusable item and gives it to that one.
     */
    method RoveFocusTo(identifier: Option<string>)
      requires WellFormed(content)
      modifies content`tabIndex
      ensures VisibleContent() == old(VisibleContent()) && VisibleItems() == old(VisibleItems())
      ensures var vc := VisibleContent();
              RoveTarget(vc, identifier).None? ==> forall x :: x in content ==> x.tabIndex == old(x.tabIndex)
      ensures var vc := VisibleContent(); var t := RoveTarget(vc, identifier);
              t.Some? ==> vc[t.value].tabIndex == 0
      ensures var vc := VisibleContent(); var t := RoveTarget(vc, identifier); var cur := old(FirstFocusable(vc));
              t.Some? && cur.Some? && vc[cur.value] != vc[t.value] ==> vc[cur.value].tabIndex == -1
      ensures var vc := VisibleContent(); var t := RoveTarget(vc, identifier); var cur := old(FirstFocusable(vc));
              t.Some? ==> forall x :: x in content && x != vc[t.value] && (cur.None? || x != vc[cur.value]) ==>
                                        x.tabIndex == old(x.tabIndex)
      ensures var vc := VisibleContent(); var t := RoveTarget(vc, identifier);
              t.Some? && old(|Focused(vc)|) <= 1 ==> Focused(vc) == {vc[t.value]}
    {
      var vc := VisibleContent();
      var current := FirstFocusable(vc);
      if identifier.None? {
        return;
      }
      var found := FindById(vc, identifier.value);
      if found.None? {
        return;
      }
      var item := vc[found.value];
      ghost var before := Focused(vc);
      assert current.Some? ==> vc[current.value] in before;
      assert current.None? ==> before == {};
      ghost var window := VisibleItems();
      if current.Some? {
        vc[current.value].DisableFocus();
        assert VisibleContent() == vc && VisibleItems() == window;
      }
      item.EnableFocus();
      assert VisibleContent() == vc && VisibleItems() == window;
      FocusAfterRove(vc, item, current, before);
    }

    /**
     * `#ensureTreeItemIsFocusable`: when no item of the rendered window is
     * focusable, roves focus to the window's first item.
     */
    method EnsureTreeItemIsFocusable()
      requires WellFormed(content)
      modifies content`tabIndex
      ensures VisibleContent() == old(VisibleContent()) && VisibleItems() == old(VisibleItems())
      ensures var w := VisibleItems();
              old(FirstFocusable(w)).Some? || w == [] ==> forall x :: x in content ==> x.tabIndex == old(x.tabIndex)
      ensures var w := VisibleItems(); var vc := VisibleContent();
              old(FirstFocusable(w)).None? && w != [] ==>
                var t := FindById(vc, w[0].identifier); var cur := old(FirstFocusable(vc));
                t.Some? && vc[t.value].tabIndex == 0 &&
                (cur.Some? && vc[cur.value] != vc[t.value] ==> vc[cur.value].tabIndex == -1) &&
                forall x :: x in content && x != vc[t.value] && (cur.None? || x != vc[cur.value]) ==>
                              x.tabIndex == old(x.tabIndex)
      ensures var w := VisibleItems(); var vc := VisibleContent();
              old(FirstFocusable(w)).None? && w != [] && UniqueIds(vc) ==>
                w[0].tabIndex == 0 && (old(|Focused(vc)|) <= 1 ==> Focused(vc) == {w[0]})
      ensures UniqueIds(VisibleContent()) && VisibleItems() != [] ==> FirstFocusable(VisibleItems()).Some?
    {
      var window := VisibleItems();
      var focused := FirstFocusable(window);
      if focused.Some? {
        return;
      }
      // `visibleItems.at(0)?.identifier`: undefined for an empty window, on which roving does nothing.
      var target: Option<string> := None;
      if |window| > 0 {
        ghost var vc := VisibleContent();
        ghost var c := Clamp(first, |vc|);
        assert window[0] == vc[c];
        FindByIdFinds(vc, c);
        if UniqueIds(vc) {
          FindByIdOfUnique(vc, c);
        }
        target := Some(window[0].identifier);
      }
      RoveFocusTo(target);
    }

    /**
     * A visibility change: the range handler, then the effect that reads the
     * range, on the new window and with the items' focus as it was before.
     */
    method OnVisibilityChanged(f: int, l: int)
      requires WellFormed(content)
      modifies this`first, this`last, content`tabIndex
      ensures first == f && last == l && content == old(content)
      ensures var w := VisibleItems();
              old(FirstFocusable(w)).Some? || w == [] ==> forall x :: x in content ==> x.tabIndex == old(x.tabIndex)
      ensures var w := VisibleItems(); var vc := VisibleContent();
              old(FirstFocusable(w)).None? && w != [] ==>
                var t := FindById(vc, w[0].identifier); var cur := old(FirstFocusable(vc));
                t.Some? && vc[t.value].tabIndex == 0 &&
                (cur.Some? && vc[cur.value] != vc[t.value] ==> vc[cur.value].tabIndex == -1) &&
                forall x :: x in content && x != vc[t.value] && (cur.None? || x != vc[cur.value]) ==>
                              x.tabIndex == old(x.tabIndex)
      ensures var w := VisibleItems(); var vc := VisibleContent();
              old(FirstFocusable(w)).None? && w != [] && UniqueIds(vc) ==>
                w[0].tabIndex == 0 && (old(|Focused(vc)|) <= 1 ==> Focused(vc) == {w[0]})
      ensures UniqueIds(VisibleContent()) && VisibleItems() != [] ==> FirstFocusable(VisibleItems()).Some?
    {
      VisibilityChanged(f, l);
      ghost var w, vc := VisibleItems(), VisibleContent();
      assert FirstFocusable(w) == old(FirstFocusable(w)) && FirstFocusable(vc) == old(FirstFocusable(vc));
      assert Focused(vc) == old(Focused(vc));
      EnsureTreeItemIsFocusable();
    }

    /**
     * Setting new content: the setter, then the effect that reads the
     * rendered window of the new content.
     */
    method OnContentChanged(data: seq<TreeItem<D>>)
      requires WellFormed(data)
      modifies this`content, data`tabIndex
      ensures content == data && first == old(first) && last == old(last)
      ensures var w := VisibleItems();
              old(FirstFocusable(w)).Some? || w == [] ==> forall x :: x in content ==> x.tabIndex == old(x.tabIndex)
      ensures var w := VisibleItems(); var vc := VisibleContent();
              old(FirstFocusable(w)).None? && w != [] ==>
                var t := FindById(vc, w[0].identifier); var cur := old(FirstFocusable(vc));
                t.Some? && vc[t.value].tabIndex == 0 &&
                (cur.Some? && vc[cur.value] != vc[t.value] ==> vc[cur.value].tabIndex == -1) &&
                forall x :: x in content && x != vc[t.value] && (cur.None? || x != vc[cur.value]) ==>
                              x.tabIndex == old(x.tabIndex)
      ensures var w := VisibleItems(); var vc := VisibleContent();
              old(FirstFocusable(w)).None? && w != [] && UniqueIds(vc) ==>
                w[0].tabIndex == 0 && (old(|Focused(vc)|) <= 1 ==> Focused(vc) == {w[0]})
      ensures UniqueIds(VisibleContent()) && VisibleItems() != [] ==> FirstFocusable(VisibleItems()).Some?
    {
      SetContent(data);
      ghost var w, vc := VisibleItems(), VisibleContent();
      assert FirstFocusable(w) == old(FirstFocusable(w)) && FirstFocusable(vc) == old(FirstFocusable(vc));
      assert Focused(vc) == old(Focused(vc));
      EnsureTreeItemIsFocusable();
    }
  }

  /**
   * After roving: the target holds focus, the previous holder has lost it
   * unless it is the target, and when at most one item was focused before,
   * the target is the only one now.
   */
  lemma FocusAfterRove<D>(vc: seq<TreeItem<D>>, item: TreeItem<D>, current: Option<nat>,
                          before: set<TreeItem<D>>)
    requires item in vc && item.tabIndex == 0
    requires current.Some? ==> current.value < |vc| && vc[current.value] in before
    requires current.None? ==> before == {}
    requires current.Some? && vc[current.value] != item ==> vc[current.value].tabIndex == -1
    requires forall x :: x in vc && x != item && (current.None? || x != vc[current.value]) ==>
                         (x.tabIndex == 0 <==> x in before)
    ensures |before| <= 1 ==> Focused(vc) == {item}
  {
    if |before| <= 1 {
      forall x | x in vc && x.tabIndex == 0 ensures x == item {
        if x != item && (current.None? || x != vc[current.value]) {
          assert x in before;
          if current.Some? {
            CardAtMostOne(before, x, vc[current.value]);
          }
        }
      }
    }
  }

  /** Two members of a set of at most one element are the same. */
  lemma CardAtMostOne<T>(s: set<T>, a: T, b: T)
    requires |s| <= 1 && a in s && b in s
    ensures a == b
  {
    var rest := s - {a};
    assert |rest| == |s| - 1;
    assert rest == {};
  }
}
