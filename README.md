# Optimum mind-map core in Dafny

Optimum is a macOS SwiftUI app for building a mind map: a tree of titled
nodes with a cosmetic indent `level`. This project models the tree and its
edit operations from `Optimum/ContentView.swift`:

- `node.dfy` (module `MindMap`): the `Node` struct as a datatype over an
  abstract `Id` that stands in for `UUID`. It also holds the pre-order id
  listing `Ids`, the first-match lookup `Find` and the tree invariants
  `Unique` and `NonNegativeLevels`.
- `add.dfy` (`NewChild`): `updateNodeWithNewChild`.
- `delete.dfy` (`Deletion`): `deleteSelectedNode`. The source has two
  identical copies of it, at lines 82 and 259.
- `level.dfy` (`Levels`): the ⬇️/⬆️ level buttons.
- `search.dfy` (`ParentSearch`): the search logic of
  `findParentNodeChildrenBinding`. It is checked against a reference
  definition: a linear scan of the pre-order list of subtrees.
- `siblings.dfy` (`SiblingMove`): `moveNode`. The swap is done in place on
  an array holding the parent's children.
- `session.dfy` (`Editor`): a `Session` class. It holds the state the views
  keep: `rootNode`, `nodeTitle`, the shared `selectedNodeId`, and each row's
  `isSelected` box (the set `ticked`). Its methods are the buttons.

The pure rebuilds (`updateNodeWithNewChild`, `deleteSelectedNode`, the
search) are functions over sibling lists. They are mutually recursive: one
function for a node, one for its children. The state changes (`moveNode`'s
`swapAt`, the `+= 1`/`-= 1` on `level`, the reassignment of `rootNode`, the
selection toggle) are methods.

Three points where the code behaves differently from a first reading, and
which the model follows:
- Add child does not stop at the first match. It appends under every
  topmost node with the target id and keeps rebuilding the other siblings
  (`children.map`). In a tree of unique ids this is the same thing.
- The selection box toggles on the row's own `isSelected` flag, not on
  whether the slot holds that row's id. After ticking A and then B, pressing
  A's box clears the slot.
- The Delete button runs `deleteSelectedNode` on the pressed row's own
  node, not on the root. When that call returns `nil` (the row itself is
  the selected node), `?? node` puts the row back. So a row can remove
  nodes below it but never itself (`Deletion.DeleteAtRow`).

## Model

| member | source | states |
|---|---|---|
| `NewChild.UpdateWithNewChild` | Optimum/ContentView.swift:66-80 | the rebuilt node keeps its id, title and level; only children change |
| `NewChild.DeleteUndoesAdd` | Optimum/ContentView.swift:66-80 | deleting the added node (an id new to the tree) gives back exactly the tree before the add: no other node and no sibling order changes |
| `NewChild.UpdateAbsent` | Optimum/ContentView.swift:73-79 | with an id that occurs nowhere, the result equals the input tree |
| `NewChild.UpdateAppendsLastChild` | Optimum/ContentView.swift:66-72 | the node with the target id keeps id, title, level and old children and gains the new node as its last child, at level parent.level + 1 whatever level was passed |
| `NewChild.UpdateIds` | Optimum/ContentView.swift:66-80 | when the target id occurs at most once, the result's ids are the input's plus the new node's, added exactly when the target occurs |
| `NewChild.UpdateGrowsByOne` | Optimum/ContentView.swift:59-80 | a childless node added under an id that occurs exactly once grows the tree by exactly one node |
| `NewChild.UpdatePreservesUnique` | Optimum/ContentView.swift:13-16 | adding a node with fresh ids keeps every id unique |
| `NewChild.UpdatePreservesLevels` | Optimum/ContentView.swift:69-71 | adding keeps every level non-negative |
| `Deletion.DeleteSelectedNode` | Optimum/ContentView.swift:82-92 | nil exactly when the node itself is the selected one; otherwise a node with the same id, title and level |
| `Deletion.DeleteAtRow` | Optimum/ContentView.swift:239 | the pressed row keeps its id, title and level; a selected node strictly below the row is removed from it |
| `Deletion.PressedRowComesBack` | Optimum/ContentView.swift:239 | with the row's own id as the selection, the row comes back unchanged, since the rebuild returns nil and `?? node` restores it |
| `Deletion.DeleteAbsent` | Optimum/ContentView.swift:259-269 | a nil selection, or one that occurs nowhere, returns the tree unchanged |
| `Deletion.DeleteRemovesTarget` | Optimum/ContentView.swift:83-89 | no node of the result has the selected id |
| `Deletion.DeleteKeepsOrder` | Optimum/ContentView.swift:86-90 | the result's ids are a subsequence of the input's: survivors keep their relative order |
| `Deletion.DeleteRemovesSubtree` | Optimum/ContentView.swift:87-89 | for an id that occurs once below the root, the input's ids are exactly the result's plus the selected node's subtree |
| `Deletion.DeleteRemovesSubtreeIds` | Optimum/ContentView.swift:259-269 | with unique ids, an id survives exactly when it is outside the selected node's subtree |
| `Deletion.DeleteFindSurvivor` | Optimum/ContentView.swift:82-92 | for an id that occurs once and survives, the node found under it afterwards is the node found before with the same deletion applied |
| `Deletion.DeleteKeepsSurvivors` | Optimum/ContentView.swift:82-92 | with unique ids, every surviving node was in the input and keeps its title and level |
| `Deletion.DeletePreservesUnique` | Optimum/ContentView.swift:82-92 | deletion keeps ids unique |
| `Deletion.DeletePreservesLevels` | Optimum/ContentView.swift:82-92 | deletion keeps levels non-negative |
| `Levels.Step` | Optimum/ContentView.swift:198-210 | ⬇️ adds exactly 1; ⬆️ subtracts 1 only above 0 and is a no-op at 0; a non-negative level stays non-negative |
| `Levels.Relevel` | Optimum/ContentView.swift:198-210 | the rebuilt node keeps its id and title, and its level unless it is the target |
| `Levels.RelevelAbsent` | Optimum/ContentView.swift:198-210 | stepping an id that occurs nowhere leaves the tree unchanged |
| `Levels.RelevelKeepsIds` | Optimum/ContentView.swift:198-210 | the level buttons never move a node: same ids in the same order |
| `Levels.RelevelFind` | Optimum/ContentView.swift:198-210 | the target node keeps id, title and children; only its level is stepped |
| `Levels.RelevelFindOther` | Optimum/ContentView.swift:198-210 | for an id that occurs once, the node found under it after the press is the node found before with the press applied, so a node that is neither the target nor above it is unchanged |
| `Levels.RelevelKeepsOthers` | Optimum/ContentView.swift:198-210 | with unique ids, every node other than the target keeps its title and level |
| `Levels.RelevelPreservesLevels` | Optimum/ContentView.swift:204-208 | no press makes a level negative |
| `ParentSearch.FindParentChildren` | Optimum/ContentView.swift:284-302 | nothing for a nil id; a returned list always has the id as a direct child |
| `ParentSearch.FindParentIn` | Optimum/ContentView.swift:295-299 | the loop over the children keeps the same two guarantees |
| `ParentSearch.FindParentIsFirstInPreorder` | Optimum/ContentView.swift:284-302 | the search returns the children of the first node in pre-order that has the id as a direct child, or nothing when there is none |
| `ParentSearch.ParentFoundIff` | Optimum/ContentView.swift:285-301 | a list is found if and only if the id belongs to a strict descendant of the start node |
| `ParentSearch.RootHasNoParent` | Optimum/ContentView.swift:284-302 | with unique ids, searching for the start node's own id finds nothing |
| `ParentSearch.FoundListBelow` | Optimum/ContentView.swift:284-302 | every node in a found list is a strict descendant of the start node |
| `SiblingMove.IndexOf` | Optimum/ContentView.swift:273 | the first position holding the id, or none when no position does |
| `SiblingMove.Moved` | Optimum/ContentView.swift:272-279 | a move keeps the list's length and its multiset of nodes |
| `SiblingMove.MovedSwaps` | Optimum/ContentView.swift:274-276 | when 0 <= newIndex < count, the current and new positions are swapped and every other position is untouched |
| `SiblingMove.MovedOutOfRange` | Optimum/ContentView.swift:273-275 | an absent id or an out-of-range newIndex leaves the list unchanged |
| `SiblingMove.MoveAtEndsIsNoop` | Optimum/ContentView.swift:275 | moving the first child up, or the last child down, does nothing |
| `SiblingMove.MoveUndo` | Optimum/ContentView.swift:272-279 | with distinct sibling ids, a move that happened is undone by the opposite move |
| `SiblingMove.MoveFromOwnSubtreeIsNoop` | Optimum/ContentView.swift:218-234 | as written, the Move buttons search the row's own subtree; the found list never holds the row, so nothing moves |
| `SiblingMove.SearchFromRootFindsRow` | Optimum/ContentView.swift:284-302 | searched from the root, every node below the root is found in its parent's children |
| `SiblingMove.FirstIndex` | Optimum/ContentView.swift:273 | the loop returns the first index holding the id, or none when no index does |
| `SiblingMove.MoveNode` | Optimum/ContentView.swift:272-279 | the in-place swap leaves the array equal to `Moved` of its old contents |
| `Editor.Session.constructor` | Optimum/ContentView.swift:20-22 | a single childless "Root" at level 0, an empty text field and an empty selection |
| `Editor.Session.EditNodeTitle` | Optimum/ContentView.swift:31 | the text field holds the typed text, and the invariant is kept |
| `Editor.Session.AddNodeToSelected` | Optimum/ContentView.swift:59-64 | no-op without a selection; otherwise the tree is rebuilt with a new childless node titled from the field, one node larger when the selection is in the tree; deleting the new id gives back the old tree; the invariant is kept. The new id is in neither the tree nor the ticked set, as with a fresh `UUID()` whose row starts unticked (line 171) |
| `Editor.Session.ToggleBox` | Optimum/ContentView.swift:177-184 | on a ticked row the slot is cleared; on an unticked row the slot takes the row's id; the row's box flips |
| `Editor.Session.IncreaseLevel` | Optimum/ContentView.swift:198-202 | the row's level is stepped up and the invariant is kept |
| `Editor.Session.DecreaseLevel` | Optimum/ContentView.swift:204-210 | the row's level is stepped down, floored at 0, and the invariant is kept |
| `Editor.Session.DeleteSelectedAsWritten` | Optimum/ContentView.swift:236-239 | in the source's order the slot is cleared first, and the tree then stays the same |
| `Editor.Session.DeleteSelected` | Optimum/ContentView.swift:236-239 | the slot is always cleared; the node selected at the press and its subtree are removed, and a selected root is kept |
| `Editor.BuildScenario` | Optimum/ContentView.swift:59-80 | from a fresh root, ticking R, adding A, switching the tick to A and adding B gives R → A (level 1) → B (level 2) with A selected |
| `Editor.DeleteScenario` | Optimum/ContentView.swift:236-239 | on R → A → B with A selected: as written the tree stays the same; with the selection read first but the rebuild run on A's row, A comes back whole; deleting the captured selection from the root leaves R childless |
| `Editor.DeleteOrderCounterexample` | Optimum/ContentView.swift:236-239 | on Root → A, deleting with the cleared slot keeps A, while deleting with A's id removes it |

## Left out

- SwiftUI view bodies, fonts and layout, including the padding computed from `level` (lines 24-57 and 174-257). These are UI rendering.
- The Edit/Save toggle `isEditing` and the title `TextField` bound to `node.title` (lines 188-195, 212-216). Renaming is done by the framework's binding and has no code of its own.
- `encodeNodeToJSON` (lines 94-106) and the Submit button that prints its result. It wraps Foundation's `JSONEncoder`, whose output format cannot be seen, so no serialization round trip is stated.
- `generateAngularCodeFromMindMap`, `generateNodeArrayCode` and `saveAngularCodeToFile` (lines 108-165). Their only call sites are commented out, and they rely on `UUID.uuidString` formatting and on AppKit's save panel.
- `UUID()` generation (line 13). Ids are an abstract type, and each new id is passed in by the caller with the precondition that it is not yet in the tree.
- The `Binding` get/set wiring (lines 247-254, 286-293). Session methods act on the tree at the root and find the row's node by id. The source instead writes the row's changed node back through each parent's binding. This includes the move write-back setter at 289-291.
- Editor.Session has no Move Up/Move Down method. The move is modelled as `SiblingMove.MoveNode`, on an explicit array of the parent's children. The source writes the list back through a `Binding`, which is not modelled.
- Editor.Session.DeleteSelected and DeleteSelectedAsWritten apply `deleteSelectedNode` to the root. The source applies it to the pressed row's own node (line 239). That row-level step is modelled on values by `Deletion.DeleteAtRow`. DeleteSelected is the corrected form of both findings below.
- Editor.Session.ToggleBox, DeleteSelected: a ticked row whose node is deleted keeps its tick in `ticked`. In the app that row's view, and its `isSelected` state, goes away.
- Levels.Step: does not model the trap that Swift's `+= 1` raises on overflow at `Int.max`, because `level` is an unbounded `int`.
- NewChild.UpdateWithNewChild: does not model the overflow trap of `level + 1` at `Int.max`, for the same reason.

## Findings

| source | as written | input that shows it | evidently intended | confidence | as-written member | corrected member |
|---|---|---|---|---|---|---|
| Optimum/ContentView.swift:236-239 | Delete sets `selectedNodeId = nil` and only then calls `deleteSelectedNode`, which compares each node's id with `selectedNodeId`. No id equals nil, so nothing is ever deleted. | Root → A, A ticked and selected, press Delete: A stays | delete the node that was selected when the button was pressed. Reading the selection first is not enough on its own: the next row also applies | not executed; assumes the write to the `@Binding` is visible to the read that follows it in the same action | `Editor.Session.DeleteSelectedAsWritten` | `Editor.Session.DeleteSelected` |
| Optimum/ContentView.swift:239 | Delete runs `deleteSelectedNode` on the pressed row's own node and keeps that node when the call returns nil (`?? node`). The button shows on every ticked row, but the slot holds only the id of the row ticked last. When the pressed row is that row, it matches its own id even with the selection read before it is cleared: the call returns nil and the row is put back. In every case `?? node` keeps the pressed row, so the call can remove only nodes below it. | Root → A, A ticked and selected, selection read before clearing, press Delete: A and its subtree stay | remove the selected node from its parent's children. The corrected member deletes the captured selection from the root | not executed | `Deletion.PressedRowComesBack` | `Editor.Session.DeleteSelected` |
| Optimum/ContentView.swift:218-234 | Move Up/Move Down look for the parent's children starting from the pressed row's own node. With unique ids that subtree never holds the row as a child of one of its nodes, so `moveNode` never finds the row and nothing moves. | Root → [A, B], B ticked, press Move Up: order stays A, B | search for the row's parent starting from the root. That is not enough on its own: the write-back at 289-291 sets `node.children[index].children` for a child of the pressed row with id `nodeId`, and the row has no such child, so the swapped list is dropped. The `Binding` wiring is left out | not executed | `SiblingMove.MoveFromOwnSubtreeIsNoop` | `SiblingMove.SearchFromRootFindsRow` |
