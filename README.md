# Garbee/tree: the tree engine in Dafny

This project models the engine of Garbee/tree, a web component that shows a
hierarchical list (a tree) in a virtualized scroll view. It models the
engine's three parts:

- **The flattener** (`flatten`): a depth-first, pre-order walk of nested
  records with `children` arrays. It appends one `TreeItem` per node to a
  shared accumulator. Each item gets its level, its sibling count (`size`),
  its 1-based position among its siblings (`inset`, from `indexOf`), whether
  it has children, a collapsed state and a link to its parent item.
- **The tree item** (`TreeItem`): immutable structural fields, and three
  mutable cells: `tabIndex` (-1 or 0), `selected`, and the private expansion
  cell.
  - The derived `expanded` is undefined for leaves.
  - Expand, collapse and toggle are guarded by `hasChildren`.
  - Focus and selection have their own mutators.
  - `isVisible` walks up the parent chain.
  - Construction checks the identifier against `^[a-zA-Z][\w\-_]*$` and the
    level, size and inset ranges, and reports problems without failing.
- **The visibility and roving-focus engine** (`TreeElement` and
  `findVisibleItems`):
  - the visible content is `content.filter(isVisible)`;
  - the rendered window is `visibleContent.slice(first, last + 1)`;
  - the current focusable item is the first visible item with `tabIndex` 0;
  - `#roveFocusTo` moves that single focus to the item with a given
    identifier;
  - the `#ensureTreeItemIsFocusable` effect restores a focusable item inside
    the window.

Items live in one sequence, the *arena*. A parent link is the index of the
parent item in that sequence. `WellFormed` says every parent index is smaller
than the child's own index, which is how flatten lays items out
(`FlattenedIsWellFormed`).

The flattener is an imperative method. `Flatten` loops over the siblings,
builds each item and recurses into its children; `FlattenNode` is one pass
of that loop. Both are proved against the pure specification `Layout`, which
gives the shape of every item in order. The properties the source promises
are then proved about `Layout` and about the items (`FlattenedItems`):
- one item per node;
- pre-order;
- levels, parents, sizes and insets;
- parents before children.

The tree element is a class whose methods change `content`, the range and
the items' `tabIndex` in place. The `computed` signals are functions of the
state. The effect is a method that the range handler and the content setter
call.

Files: `optional.dfy` (Option), `tree_item.dfy` (module `TreeItems`),
`flatten.dfy` (module `Flattening`), `find_visible_items.dfy` (module
`FindVisible`), `tree.dfy` (module `TreeEngine`) and `sample_directory.dfy`
(the 42-entry test fixture).

## Model

| member | source | states |
|---|---|---|
| TreeItems.MatchesIdTail | src/item/TreeItem.ts:10-11 | the tail `[\w\-_]*$` matches exactly when every character is a letter, digit, `_` or `-` |
| TreeItems.IsValidHtmlId | src/item/TreeItem.ts:7-12 | valid iff non-empty, first character an ASCII letter, every later one a letter, digit, `_` or `-` |
| TreeItems.HtmlIdAccepted | tests/item/TreeItem.spec.ts:38-42 | the custom identifier `test` is a valid id |
| TreeItems.HtmlIdStartingWithDigitRejected | tests/item/TreeItem.spec.ts:226-230 | `2three` is rejected: the first character must be a letter |
| TreeItems.HtmlIdWithPunctuationRejected | tests/item/TreeItem.spec.ts:232-242 | `three.two` and `three:two` are rejected |
| TreeItems.HtmlIdWithWhitespaceRejected | tests/item/TreeItem.spec.ts:244-254 | `three two` and `three<tab>two` are rejected |
| TreeItems.RejectedAt | src/item/TreeItem.ts:7-12 | a single character outside the id class after the first rejects the identifier |
| TreeItems.DefaultIdentifierIsValid | src/item/TreeItem.ts:72 | `item-<uuid>` is a valid id whenever the uuid consists of id characters |
| TreeItems.Diagnose | src/item/TreeItem.ts:91-110 | at most five reports; a diagnostic is reported exactly when it is one of the five checks' reports (the invalid-identifier one naming the identifier) and that check fails |
| TreeItems.DiagnoseReports | src/item/TreeItem.ts:91-110 | each diagnostic is reported iff its condition holds: invalid id, level < 1, size < 1, inset > size, inset < 1 |
| TreeItems.DiagnoseNamesIdentifier | src/item/TreeItem.ts:91-97 | an invalid-identifier report names the item's own identifier |
| TreeItems.NoDiagnosticsIffValid | src/item/TreeItem.ts:91-110 | nothing is reported iff the id is valid, level and size are at least 1, and `1 <= inset <= size` |
| TreeItems.TreeItem.constructor | src/item/TreeItem.ts:68-111 | stores the given structural fields; `tabIndex` -1, not selected; expansion cell is the metadata's boolean or else true; `expanded` undefined without children. Construction never fails; the diagnostics are those `Diagnose` gives for the stored fields |
| TreeItems.TreeItem.Expanded | src/item/TreeItem.ts:45-53 | `expanded` is defined exactly for items with children, and then is the stored expansion cell |
| TreeItems.TreeItem.EnableFocus | src/item/TreeItem.ts:170-172 | `tabIndex` becomes 0; nothing else changes |
| TreeItems.TreeItem.DisableFocus | src/item/TreeItem.ts:178-180 | `tabIndex` becomes -1; nothing else changes |
| TreeItems.TreeItem.Expand | src/item/TreeItem.ts:186-192 | with children: expanded becomes true; without: no change |
| TreeItems.TreeItem.Collapse | src/item/TreeItem.ts:198-204 | with children: expanded becomes false; without: no change |
| TreeItems.TreeItem.ToggleExpansion | src/item/TreeItem.ts:206-212 | with children: expansion flips; without: no change |
| TreeItems.TreeItem.Select | src/item/TreeItem.ts:217-219 | `selected` becomes true; nothing else changes |
| TreeItems.TreeItem.Deselect | src/item/TreeItem.ts:224-226 | `selected` becomes false; nothing else changes |
| TreeItems.TreeItem.ToggleSelection | src/item/TreeItem.ts:232-234 | `selected` flips; nothing else changes |
| TreeItems.ToggleExpansionTwice | src/item/TreeItem.ts:206-212 | toggling expansion twice restores the cell and `expanded`, for leaves and parents alike |
| TreeItems.ToggleSelectionTwice | src/item/TreeItem.ts:232-234 | toggling selection twice restores `selected` |
| TreeItems.AncestorPrecedes | src/functions/flatten.ts:30-39 | in a well-formed arena every ancestor of an item sits before it |
| TreeItems.VisibleIffNoCollapsedAncestor | src/item/TreeItem.ts:113-131 | an item is visible iff no ancestor on its parent chain has `expanded == false`; roots are visible |
| TreeItems.AncestorOfVisibleIsVisible | src/item/TreeItem.ts:113-131 | every ancestor of a visible item is visible |
| TreeItems.CollapsedAncestorHides | src/item/TreeItem.ts:119-131 | an item below a collapsed ancestor is not visible |
| TreeItems.IsVisible | src/item/TreeItem.ts:119-131 | the getter's loop up the parent chain returns exactly `Visible` |
| Flattening.PreOrderLength | src/functions/flatten.ts:19-45 | the pre-order listing of a forest has one entry per node |
| Flattening.IndexOf | src/functions/flatten.ts:26 | `indexOf` on the sibling array: a position of `s`, or -1 |
| Flattening.IndexOfIsFirstMatch | src/functions/flatten.ts:26 | `indexOf`: -1 iff absent, otherwise the first matching position |
| Flattening.Layout | src/functions/flatten.ts:19-42 | the reference definition of the walk: for each sibling from `j` on, its shape at the next slot, then its children's shapes one level down with that slot as parent; its properties are the lemmas below |
| Flattening.SizeIsCount | src/functions/flatten.ts:19-45 | the siblings from position `j` on, with their subtrees, number `Size(source, j)` nodes |
| Flattening.LayoutLength | src/functions/flatten.ts:19-45 | the layout of the siblings from position `j` on has one item per node of them and their subtrees |
| Flattening.LayoutCount | src/functions/flatten.ts:19-45 | flatten lays out exactly one item per node of the input |
| Flattening.LayoutIsPreOrder | src/functions/flatten.ts:19-42 | the items' payloads are the nodes in pre-order: a node, then its subtree, then its next sibling |
| Flattening.LayoutFits | src/functions/flatten.ts:20-42 | every shape's node is among the siblings it records. The shape is either a top sibling (the given level and parent, placed among `source`) or sits one level below an earlier shape, whose slot is its parent, placed among that shape's children |
| Flattening.Flatten | src/functions/flatten.ts:8-46 | the accumulator is kept as a prefix and grows by one fresh item per node. The items are built as `Layout` says, with identifiers `item-<uuid>`, not focusable, not selected and collapsed. A well-formed accumulator stays well-formed |
| Flattening.FlattenNode | src/functions/flatten.ts:20-42 | one loop pass: the item for the node at the next slot, then its subtree with that slot as parent |
| Flattening.FlattenedIsWellFormed | src/functions/flatten.ts:30-39 | every parent index flatten records is smaller than the child's own index |
| Flattening.FlattenedItems | src/functions/flatten.ts:8-46 | the top-level call: one item per node, in pre-order, parents first. Roots are at level 1 and placed among the top-level nodes; each other item is one level below its parent item, which has children, and is placed among that item's children |
| Flattening.FlattenForest | src/functions/flatten.ts:11-16 | `flatten(source)` with its defaults builds the layout from level 1 without a parent: a well-formed arena of `Count(source)` fresh items in their initial state |
| Flattening.FlattenedShowsOnlyRoots | src/functions/flatten.ts:27-30 | since flatten stores every item collapsed, right after flattening an item is visible iff it is a root |
| SampleDirectory.Files | data/sample-directory.ts:23-38 | a run of files has one entry per name |
| SampleDirectory.Projects | data/sample-directory.ts:9-62 | the Projects folder holds 11 entries below it |
| SampleDirectory.Reports | data/sample-directory.ts:63-130 | the Reports folder holds 14 entries below it |
| SampleDirectory.Letters | data/sample-directory.ts:131-198 | the Letters folder holds 14 entries below it |
| SampleDirectory.DirectoryStructure | data/sample-directory.ts:8-199 | the test fixture has 42 entries |
| SampleDirectory.FlattenFixtures | tests/functions/flatten.spec.ts:9-18 | flattening an empty array gives 0 items; flattening the fixture gives 42 |
| FindVisible.VisibleContent | src/functions/find-visible-items.ts:46-52 | `content.filter(isVisible)`: no longer than the content and made of its items (exactly the visible ones in order, by `FilterKeepsVisibleIndices`) |
| FindVisible.VisiblePrefix | src/functions/find-visible-items.ts:46-52 | the filter over a prefix is no longer than the prefix and keeps only its items |
| FindVisible.VisibleIndices | src/functions/find-visible-items.ts:48-52 | the kept positions are strictly increasing, in range, and a position is kept iff its item is visible |
| FindVisible.FilterKeepsVisibleIndices | src/functions/find-visible-items.ts:46-52 | the filtered list is exactly the items at the visible positions, in order |
| FindVisible.RootsAreAllVisible | src/functions/find-visible-items.ts:43-59 | a content made only of roots is shown in full |
| FindVisible.FindVisibleItems | src/functions/find-visible-items.ts:43-60 | the loop returns the visible content, both lengths, and a difference equal to their gap and at least 0 |
| FindVisible.FindVisibleItemsOfRoots | src/functions/find-visible-items.ts:54-59 | with only roots, nothing is filtered out and the difference is 0 |
| TreeEngine.Clamp | src/tree.ts:156-159 | a `slice` argument counts from the end when negative and is clamped to `[0, length]` |
| TreeEngine.JsSlice | src/tree.ts:154-159 | the result is the run of `s` from the clamped start to the clamped end (empty when the start passes the end): its length and every element are fixed; in-range arguments give `s[start..end]` |
| TreeEngine.FirstFocusable | src/tree.ts:193-196 | the first position holding `tabIndex` 0, or none iff no item holds it |
| TreeEngine.FindById | src/tree.ts:266-268 | the first position with the identifier, or none iff no item has it |
| TreeEngine.VisibleContentKeepsUniqueIds | src/tree.ts:112-115 | filtering keeps identifiers distinct |
| TreeEngine.FlattenedIdsAreUnique | src/item/TreeItem.ts:72 | flattened items' identifiers are distinct when the uuids are |
| TreeEngine.TreeElement.constructor | src/tree.ts:87-96 | empty content and the range `{first: 0, last: 0}` |
| TreeEngine.TreeElement.VisibleContent | src/tree.ts:103-139 | `#visibleContent`: the filter of the stored content, no longer than it and made of its items |
| TreeEngine.TreeElement.VisibleItems | src/tree.ts:145-182 | `#visibleItems`: the run of the visible content from the clamped `first` to the clamped `last + 1`, with its exact length |
| TreeEngine.TreeElement.CurrentFocusableItem | src/tree.ts:184-214 | an item is returned iff some visible item holds `tabIndex` 0; the returned item is visible, holds 0, and no visible item before it does |
| TreeEngine.TreeElement.SetContent | src/tree.ts:77-79 | the stored content becomes the given items; the range is unchanged |
| TreeEngine.TreeElement.VisibilityChanged | src/tree.ts:216-225 | the range becomes exactly the event's `first` and `last`; nothing else changes |
| TreeEngine.TreeElement.RoveFocusTo | src/tree.ts:250-295 | an undefined identifier, or one not in the visible content, changes no item. Otherwise the target gets `tabIndex` 0, the previous focusable item (if another) gets -1, and every other item keeps its own. If at most one visible item was focused, exactly the target is now |
| TreeEngine.TreeElement.EnsureTreeItemIsFocusable | src/tree.ts:227-239 | visible content and window are unchanged. No item changes when the window already holds a focusable item or is empty. Otherwise it roves to `w[0]`'s identifier: the first visible item with that identifier gets `tabIndex` 0, the previous focusable item (if another) gets -1, every other item keeps its own. With unique identifiers that item is `w[0]`, and if at most one visible item was focused, it is the only one now; then a non-empty window holds a focusable item |
| TreeEngine.TreeElement.OnVisibilityChanged | src/tree.ts:216-239 | the range becomes the event's `first` and `last`, content unchanged; then the effect on the new window, with the items' previous focus: no item changes when that window held a focusable item or is empty; otherwise focus roves to the window's first identifier as in `EnsureTreeItemIsFocusable`; with unique identifiers a non-empty window ends up holding a focusable item |
| TreeEngine.TreeElement.OnContentChanged | src/tree.ts:76-79 | the content becomes `data`, range unchanged; then the effect on the new window, with the items' previous focus: no item changes when that window held a focusable item or is empty; otherwise focus roves to the window's first identifier as in `EnsureTreeItemIsFocusable`; with unique identifiers a non-empty window ends up holding a focusable item |
| TreeEngine.FocusAfterRove | src/tree.ts:274-280 | after disabling the previous holder and enabling the target, a single focus before means only the target holds focus |

## Left out

- Rendering: Lit, the DOM, the virtualizer template, custom-element registration and `TreeItemElement` are not modelled; they are presentation.
- The signal runtime (`signal`, `computed`, `effect`, `batch`) is replaced by the state it reads.
  - Derived values are functions.
  - The effect is a method called after a range change (`OnVisibilityChanged`) or a content change (`OnContentChanged`).
  - The effect also re-runs when an item's expansion or `tabIndex` changes; those re-runs are not modelled.
- `debugMode` and the `performance` marks and measures carry no logic and are left out.
- `console.error` is I/O. The constructor's reports are the `Diagnose` list instead.
- `crypto.randomUUID()` is a parameter `uuid` indexed by the item's slot. Distinctness of identifiers is a hypothesis (`FlattenedIdsAreUnique`), not something the model generates.
- The library has no keyboard or click handling, selection policy or selection events; `src/events/item-selection.ts` declares an event without logic. None of them is modelled.
- Flattening.Node: an absent `children` is modelled as the empty array. The code recurses into an empty array without effect and computes `hasChildren` false for both.
- Flattening.Node: the payload other than `children` is a type parameter. The fixture's records keep only their names.
- Flattening.IndexOf: compares nodes by value, where JavaScript compares object identity.
  - Two structurally equal sibling objects both get the first one's inset here.
  - JavaScript gives each a different inset when they are distinct objects.
  - A sibling array that holds the same object twice gets the first inset in both.
- TreeItems.TreeItem: `parent` is an index into the arena, not an object reference. The visibility functions, `FindVisibleItems` and the `TreeElement` views require the content to be `WellFormed`, meaning parents come before children within the content. The JavaScript code also handles content whose items' parents are missing from it; the model does not.
- Numbers: levels, sizes, insets and range bounds are unbounded integers. JavaScript's doubles are not modelled.
- TreeEngine.TreeElement.SetContent: the copy `[...data]` is implicit, since Dafny sequences are values.
- Two behaviours worth noting:
  - Flattened items start collapsed: flatten passes `expanded: false`, while `TreeItem` defaults to true.
  - Flatten never passes an identifier, so every item gets a generated `item-<uuid>` identifier.
