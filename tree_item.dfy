/**
 * One node of the flattened tree (src/item/TreeItem.ts).
 *
 * The structural fields of an item never change after construction, so they
 * are `const`; the three state cells (`tabIndex`, `selected` and the private
 * expansion cell) are mutable fields. Items live in one owned sequence (the
 * arena) and `parent` is the index of the parent item in that sequence.
 */
module TreeItems {
  import opened Optional

  // ---------------------------------------------------------------------------
  // Identifier validation: the regular expression ^[a-zA-Z][\w\-_]*$
  // ---------------------------------------------------------------------------

  predicate IsAsciiLetter(c: char) {
    'a' <= c <= 'z' || 'A' <= c <= 'Z'
  }

  /** The class `[\w\-_]`: `\w` is `[A-Za-z0-9_]` in a JavaScript regular expression. */
  predicate IsIdChar(c: char) {
    IsAsciiLetter(c) || '0' <= c <= '9' || c == '_' || c == '-'
  }

  /** Matches `[\w\-_]*$` against the whole of `s`, one character at a time. */
  function MatchesIdTail(s: string): (r: bool)
    ensures r <==> forall i :: 0 <= i < |s| ==> IsIdChar(s[i])
  {
    s == [] || (IsIdChar(s[0]) && MatchesIdTail(s[1..]))
  }

  /** isValidHtmlId: an ASCII letter, then letters, digits, `_` or `-` only. */
  function IsValidHtmlId(identifier: string): (r: bool)
    ensures r <==> |identifier| > 0 && IsAsciiLetter(identifier[0]) &&
                   forall i :: 1 <= i < |identifier| ==> IsIdChar(identifier[i])
  {
    |identifier| > 0 && IsAsciiLetter(identifier[0]) && MatchesIdTail(identifier[1..])
  }

  /** The identifier the test suite accepts. */
  lemma HtmlIdAccepted()
    ensures IsValidHtmlId("test")
  {
    assert MatchesIdTail("est");
  }

  /** An identifier that starts with a digit is rejected. */
  lemma HtmlIdStartingWithDigitRejected()
    ensures !IsValidHtmlId("2three")
  {
    assert !IsAsciiLetter("2three"[0]);
  }

  /** Identifiers with a dot or a colon are rejected. */
  lemma HtmlIdWithPunctuationRejected()
    ensures !IsValidHtmlId("three.two") && !IsValidHtmlId("three:two")
  {
    RejectedAt("three.two", 5);
    RejectedAt("three:two", 5);
  }

  /** Identifiers with a space or a tab are rejected. */
  lemma HtmlIdWithWhitespaceRejected()
    ensures !IsValidHtmlId("three two") && !IsValidHtmlId("three\ttwo")
  {
    RejectedAt("three two", 5);
    RejectedAt("three\ttwo", 5);
  }

  /** One character outside the class past the first rejects the identifier. */
  lemma RejectedAt(identifier: string, i: nat)
    requires 1 <= i < |identifier| && !IsIdChar(identifier[i])
    ensures !IsValidHtmlId(identifier)
  {
  }

  /** The default identifier `item-<uuid>` is valid whenever the uuid is made of id characters. */
  lemma {:induction false} DefaultIdentifierIsValid(uuid: string)
    requires forall i :: 0 <= i < |uuid| ==> IsIdChar(uuid[i])
    ensures IsValidHtmlId("item-" + uuid)
  {
    var id := "item-" + uuid;
    forall i | 1 <= i < |id| ensures IsIdChar(id[i]) {
      if i >= 5 { assert id[i] == uuid[i - 5]; }
    }
  }

  // ---------------------------------------------------------------------------
  // Construction metadata and diagnostics
  // ---------------------------------------------------------------------------

  /** TreeItemMetadata: `expanded` is optional. */
  datatype TreeItemMetadata = TreeItemMetadata(
    level: int, size: int, inset: int, hasChildren: bool, expanded: Option<bool>)

  /** The conditions the constructor reports through `console.error`. */
  datatype Diagnostic =
    | InvalidIdentifier(identifier: string)
    | LevelBelowOne
    | SizeBelowOne
    | InsetAboveSize
    | InsetBelowOne

  /** The single report `d` when `condition` holds, and nothing otherwise. */
  function Reported(condition: bool, d: Diagnostic): (r: seq<Diagnostic>)
    ensures |r| <= 1
    ensures forall x :: x in r <==> condition && x == d
  {
    if condition then [d] else []
  }

  /**
   * The diagnostics the constructor reports, in the order it reports them.
   * They never stop construction. A report is present exactly when it is one
   * of the five checks' reports and that check fails.
   */
  function Diagnose(identifier: string, level: int, size: int, inset: int): (r: seq<Diagnostic>)
    ensures |r| <= 5
    ensures forall x :: x in r <==>
                        (x == InvalidIdentifier(identifier) && !IsValidHtmlId(identifier)) ||
                        (x == LevelBelowOne && level < 1) || (x == SizeBelowOne && size < 1) ||
                        (x == InsetAboveSize && inset > size) || (x == InsetBelowOne && inset < 1)
  {
    var a := Reported(!IsValidHtmlId(identifier), InvalidIdentifier(identifier));
    var b := Reported(level < 1, LevelBelowOne);
    var c := Reported(size < 1, SizeBelowOne);
    var d := Reported(inset > size, InsetAboveSize);
    var e := Reported(inset < 1, InsetBelowOne);
    InFive(a, b, c, d, e);
    a + b + c + d + e
  }

  /** Membership in a concatenation of five sequences. */
  lemma InFive<T>(a: seq<T>, b: seq<T>, c: seq<T>, d: seq<T>, e: seq<T>)
    ensures forall x :: x in a + b + c + d + e <==> x in a || x in b || x in c || x in d || x in e
  {
  }

  /** Each condition is reported exactly when it holds. */
  lemma DiagnoseReports(identifier: string, level: int, size: int, inset: int)
    ensures var r := Diagnose(identifier, level, size, inset);
            (InvalidIdentifier(identifier) in r <==> !IsValidHtmlId(identifier)) &&
            (LevelBelowOne in r <==> level < 1) &&
            (SizeBelowOne in r <==> size < 1) &&
            (InsetAboveSize in r <==> inset > size) &&
            (InsetBelowOne in r <==> inset < 1)
  {
  }

  /** Every identifier report names the item's own identifier. */
  lemma DiagnoseNamesIdentifier(identifier: string, level: int, size: int, inset: int)
    ensures forall x :: x in Diagnose(identifier, level, size, inset) && x.InvalidIdentifier? ==>
                        x.identifier == identifier
  {
  }

  /** No diagnostic at all exactly when the identifier is valid and every range holds. */
  lemma NoDiagnosticsIffValid(identifier: string, level: int, size: int, inset: int)
    ensures Diagnose(identifier, level, size, inset) == [] <==>
            IsValidHtmlId(identifier) && level >= 1 && size >= 1 && 1 <= inset <= size
  {
    var r := Diagnose(identifier, level, size, inset);
    if IsValidHtmlId(identifier) && level >= 1 && size >= 1 && 1 <= inset <= size {
      assert r == [] + [] + [] + [] + [];
    }
  }

  // ---------------------------------------------------------------------------
  // The item
  // ---------------------------------------------------------------------------

  /** The tab index of an item is either -1 (not focusable) or 0 (the roving focus). */
  type TabIndex = t: int | t == -1 || t == 0 witness -1

  class TreeItem<D> {
    const data: D
    /** Index of the parent item in the arena, None for a root. */
    const parent: Option<nat>
    const identifier: string
    const level: int
    const size: int
    const inset: int
    const hasChildren: bool

    var tabIndex: TabIndex
    var selected: bool
    /** The private `#expanded` cell; only meaningful when `hasChildren`. */
    var expandedCell: bool

    /** The derived `expanded`: None (undefined) for an item without children. */
    function Expanded(): (r: Option<bool>)
      reads this`expandedCell
      ensures r.Some? <==> hasChildren
      ensures r.Some? ==> r.value == expandedCell
    {
      if hasChildren then Some(expandedCell) else None
    }

    /** What the constructor logged; it reports, it never refuses. */
    function Diagnostics(): seq<Diagnostic> {
      Diagnose(identifier, level, size, inset)
    }

    constructor (data: D, meta: TreeItemMetadata, parent: Option<nat>, identifier: string)
      ensures this.data == data && this.parent == parent && this.identifier == identifier
      ensures level == meta.level && size == meta.size && inset == meta.inset
      ensures hasChildren == meta.hasChildren
      ensures tabIndex == -1 && !selected
      ensures expandedCell == meta.expanded.GetOr(true)
      ensures Expanded() == if meta.hasChildren then Some(meta.expanded.GetOr(true)) else None
    {
      this.data := data;
      this.level := meta.level;
      this.size := meta.size;
      this.inset := meta.inset;
      this.identifier := identifier;
      this.hasChildren := meta.hasChildren;
      this.parent := parent;
      tabIndex := -1;
      selected := false;
      expandedCell := true;
      new;
      if meta.expanded.Some? {
        expandedCell := meta.expanded.value;
      }
    }

    method EnableFocus()
      modifies this`tabIndex
      ensures tabIndex == 0
    {
      tabIndex := 0;
    }

    method DisableFocus()
      modifies this`tabIndex
      ensures tabIndex == -1
    {
      tabIndex := -1;
    }

    method Expand()
      modifies this`expandedCell
      ensures expandedCell == if hasChildren then true else old(expandedCell)
      ensures Expanded() == if hasChildren then Some(true) else None
    {
      if !hasChildren {
        return;
      }
      expandedCell := true;
    }

    method Collapse()
      modifies this`expandedCell
      ensures expandedCell == if hasChildren then false else old(expandedCell)
      ensures Expanded() == if hasChildren then Some(false) else None
    {
      if !hasChildren {
        return;
      }
      expandedCell := false;
    }

    method ToggleExpansion()
      modifies this`expandedCell
      ensures expandedCell == if hasChildren then !old(expandedCell) else old(expandedCell)
      ensures Expanded() == if hasChildren then Some(!old(expandedCell)) else None
    {
      if !hasChildren {
        return;
      }
      expandedCell := !expandedCell;
    }

    method Select()
      modifies this`selected
      ensures selected
    {
      selected := true;
    }

    method Deselect()
      modifies this`selected
      ensures !selected
    {
      selected := false;
    }

    method ToggleSelection()
      modifies this`selected
      ensures selected == !old(selected)
    {
      selected := !selected;
    }
  }

  /** Toggling expansion twice gives back the original state, with or without children. */
  method ToggleExpansionTwice<D>(item: TreeItem<D>)
    modifies item`expandedCell
    ensures item.expandedCell == old(item.expandedCell)
    ensures item.Expanded() == old(item.Expanded())
  {
    item.ToggleExpansion();
    item.ToggleExpansion();
  }

  /** Toggling selection twice gives back the original selection. */
  method ToggleSelectionTwice<D>(item: TreeItem<D>)
    modifies item`selected
    ensures item.selected == old(item.selected)
  {
    item.ToggleSelection();
    item.ToggleSelection();
  }

  // ---------------------------------------------------------------------------
  // The arena and visibility
  // ---------------------------------------------------------------------------

  /** Every parent index points to an earlier slot, as flatten lays items out. */
  predicate WellFormed<D>(content: seq<TreeItem<D>>) {
    forall k :: 0 <= k < |content| && content[k].parent.Some? ==> content[k].parent.value < k
  }

  /** No item on the chain that starts at slot `p` is collapsed. */
  predicate AncestorsExpanded<D>(content: seq<TreeItem<D>>, p: Option<nat>)
    requires WellFormed(content)
    requires p.Some? ==> p.value < |content|
    reads content`expandedCell
    decreases if p.Some? then p.value + 1 else 0
  {
    match p
    case None => true
    case Some(q) => content[q].Expanded() != Some(false) && AncestorsExpanded(content, content[q].parent)
  }

  /** isVisible: roots are visible; others when no ancestor has `expanded == false`. */
  predicate Visible<D>(content: seq<TreeItem<D>>, i: nat)
    requires WellFormed(content) && i < |content|
    reads content`expandedCell
  {
    AncestorsExpanded(content, content[i].parent)
  }

  /** Slot `a` is on the parent chain of slot `i`. */
  predicate IsAncestor<D>(content: seq<TreeItem<D>>, a: nat, i: nat)
    requires WellFormed(content) && i < |content|
    decreases i
  {
    match content[i].parent
    case None => false
    case Some(p) => p == a || IsAncestor(content, a, p)
  }

  lemma {:induction false} AncestorPrecedes<D>(content: seq<TreeItem<D>>, a: nat, i: nat)
    requires WellFormed(content) && i < |content|
    requires IsAncestor(content, a, i)
    ensures a < i
    decreases i
  {
    var p := content[i].parent.value;
    if p != a {
      AncestorPrecedes(content, a, p);
    }
  }

  /** The getter's loop: an item is visible iff no ancestor is collapsed. */
  lemma {:induction false} VisibleIffNoCollapsedAncestor<D>(content: seq<TreeItem<D>>, i: nat)
    requires WellFormed(content) && i < |content|
    ensures Visible(content, i) <==>
            forall a :: 0 <= a < i && IsAncestor(content, a, i) ==> content[a].Expanded() != Some(false)
    decreases i
  {
    match content[i].parent
    case None =>
    case Some(p) =>
      VisibleIffNoCollapsedAncestor(content, p);
      forall a | 0 <= a < p && IsAncestor(content, a, p) ensures IsAncestor(content, a, i) { }
      forall a | 0 <= a < i && IsAncestor(content, a, i) && a != p ensures a < p && IsAncestor(content, a, p) {
        AncestorPrecedes(content, a, p);
      }
  }

  /** Every ancestor of a visible item is itself visible. */
  lemma {:induction false} AncestorOfVisibleIsVisible<D>(content: seq<TreeItem<D>>, a: nat, i: nat)
    requires WellFormed(content) && i < |content|
    requires IsAncestor(content, a, i) && Visible(content, i)
    ensures a < i && Visible(content, a)
    decreases i
  {
    AncestorPrecedes(content, a, i);
    var p := content[i].parent.value;
    if p != a {
      AncestorOfVisibleIsVisible(content, a, p);
    }
  }

  /** A collapsed item hides every item below it. */
  lemma CollapsedAncestorHides<D>(content: seq<TreeItem<D>>, a: nat, i: nat)
    requires WellFormed(content) && i < |content|
    requires IsAncestor(content, a, i) && a < i && content[a].Expanded() == Some(false)
    ensures !Visible(content, i)
  {
    VisibleIffNoCollapsedAncestor(content, i);
  }

  /** The `isVisible` getter: a loop up the parent chain that stops at the first collapsed ancestor. */
  method IsVisible<D>(content: seq<TreeItem<D>>, i: nat) returns (visible: bool)
    requires WellFormed(content) && i < |content|
    ensures visible == Visible(content, i)
  {
    var parent: Option<nat> := content[i].parent;
    while parent.Some?
      invariant parent.Some? ==> parent.value < |content|
      invariant Visible(content, i) == AncestorsExpanded(content, parent)
      decreases if parent.Some? then parent.value + 1 else 0
    {
      var item := content[parent.value];
      if item.Expanded() == Some(false) {
        return false;
      }
      parent := item.parent;
    }
    return true;
  }
}
