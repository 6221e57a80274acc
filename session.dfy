/** The state ContentView and TreeView keep between events and the buttons
    that change it: the root node (`rootNode`), the text field
    (`nodeTitle`), the shared selection slot (`selectedNodeId`) and each
    row's own `isSelected` box. The buttons act on the tree at the root. */
module Editor {
  import opened MindMap
  import opened NewChild
  import opened Deletion
  import opened Levels

  class Session {
    var root: Node
    var nodeTitle: string
    var selected: Option<Id>
    /** The ids of the rows whose `isSelected` box is ticked. */
    var ticked: set<Id>

    /** Ids stay unique, levels stay non-negative, and the selection slot
        only ever holds a ticked row. */
    ghost predicate Valid()
      reads this
    {
      Unique(root) && NonNegativeLevels(root) && (selected.Some? ==> selected.value in ticked)
    }

    /** The application starts with a single childless "Root" at level 0 and
        nothing selected. */
    constructor (rootId: Id)
      ensures Valid()
      ensures root == Node(rootId, "Root", 0, []) && nodeTitle == ""
      ensures selected == None && ticked == {}
    {
      root := Node(rootId, "Root", 0, []);
      nodeTitle := "";
      selected := None;
      ticked := {};
      new;
      assert Ids(root) == [rootId];
    }

    /** Typing into the "Node title" field. */
    method EditNodeTitle(text: string)
      requires Valid()
      modifies this`nodeTitle
      ensures Valid()
      ensures nodeTitle == text
    {
      nodeTitle := text;
    }

    /** Add Node (`addNodeToSelected`): with a selection, a new childless
        node titled from the text field goes under the selected node;
        without one, nothing happens. `newId` stands for `UUID()`. */
    method AddNodeToSelected(newId: Id)
      requires Valid() && newId !in Ids(root) && newId !in ticked
      modifies this`root
      ensures Valid()
      ensures selected.None? ==> root == old(root)
      ensures selected.Some? ==>
                root == UpdateWithNewChild(old(root), selected.value, Node(newId, nodeTitle, 0, []))
      ensures selected.Some? && selected.value in Ids(old(root)) ==>
                |Ids(root)| == |Ids(old(root))| + 1
      ensures DeleteSelectedNode(root, Some(newId)) == Some(old(root))
    {
      DeleteAbsent(root, Some(newId));
      if selected.Some? {
        var newNode := Node(newId, nodeTitle, 0, []);
        assert Ids(newNode) == [newId];
        DeleteUndoesAdd(root, selected.value, newNode);
        UpdatePreservesUnique(root, selected.value, newNode);
        UpdatePreservesLevels(root, selected.value, newNode);
        if selected.value in Ids(root) {
          UpdateGrowsByOne(root, selected.value, newNode);
        }
        root := UpdateWithNewChild(root, selected.value, newNode);
      }
    }

    /** The ✅/🔲 box of row `row`: on a ticked row it clears the slot, on
        an unticked one it puts the row's id in the slot; either way the
        row's box flips. */
    method ToggleBox(row: Id)
      requires Valid()
      modifies this`selected, this`ticked
      ensures Valid()
      ensures row in old(ticked) ==> selected == None && ticked == old(ticked) - {row}
      ensures row !in old(ticked) ==> selected == Some(row) && ticked == old(ticked) + {row}
    {
      if row in ticked {
        selected := None;
        ticked := ticked - {row};
      } else {
        selected := Some(row);
        ticked := ticked + {row};
      }
    }

    /** ⬇️ on a ticked row: its level goes up by one. */
    method IncreaseLevel(row: Id)
      requires Valid() && row in ticked
      modifies this`root
      ensures Valid()
      ensures root == Relevel(old(root), row, true)
    {
      RelevelKeepsIds(root, row, true);
      RelevelPreservesLevels(root, row, true);
      root := Relevel(root, row, true);
    }

    /** ⬆️ on a ticked row: its level goes down by one, stopping at 0. */
    method DecreaseLevel(row: Id)
      requires Valid() && row in ticked
      modifies this`root
      ensures Valid()
      ensures root == Relevel(old(root), row, false)
    {
      RelevelKeepsIds(root, row, false);
      RelevelPreservesLevels(root, row, false);
      root := Relevel(root, row, false);
    }

    /** Delete on a ticked row, in the source's order: the slot is cleared
        first and `deleteSelectedNode` then compares against the cleared
        slot, so the tree never changes. */
    method DeleteSelectedAsWritten(row: Id)
      requires Valid() && row in ticked
      modifies this`root, this`selected, this`ticked
      ensures Valid()
      ensures selected == None && ticked == old(ticked) - {row}
      ensures root == old(root)
    {
      selected := None;
      ticked := ticked - {row};
      DeleteAbsent(root, selected);
      var r := DeleteSelectedNode(root, selected);
      root := if r.Some? then r.value else root;
    }

    /** Delete on a ticked row, deleting the node that was selected when the
        button was pressed: the selected node and its subtree go, the slot
        is cleared, and a selected root is kept (`?? node`). */
    method DeleteSelected(row: Id)
      requires Valid() && row in ticked
      modifies this`root, this`selected, this`ticked
      ensures Valid()
      ensures selected == None && ticked == old(ticked) - {row}
      ensures old(selected) == Some(old(root).id) ==> root == old(root)
      ensures old(selected) != Some(old(root).id) ==>
                Some(root) == DeleteSelectedNode(old(root), old(selected))
      ensures old(selected).Some? && old(selected).value != old(root).id ==>
                old(selected).value !in Ids(root)
    {
      var target := selected;
      selected := None;
      ticked := ticked - {row};
      var r := DeleteSelectedNode(root, target);
      if r.Some? {
        DeletePreservesUnique(root, target);
        DeletePreservesLevels(root, target);
        if target.Some? {
          DeleteRemovesTarget(root, target.value);
        }
        root := r.value;
      }
    }
  }

  /** The delete order, on values: with the slot already cleared nothing is
      removed; with the selection it held, the selected child goes. */
  lemma DeleteOrderCounterexample(rootId: Id, childId: Id)
    requires rootId != childId
    ensures var t := Node(rootId, "Root", 0, [Node(childId, "A", 1, [])]);
            DeleteSelectedNode(t, None) == Some(t)
            && DeleteSelectedNode(t, Some(childId)) == Some(Node(rootId, "Root", 0, []))
  {
    var t := Node(rootId, "Root", 0, [Node(childId, "A", 1, [])]);
    assert DeleteSelectedIn(t.children, None) == t.children;
    assert DeleteSelectedIn(t.children, Some(childId)) == [];
  }

  /** Root R; add A under R and B under A. */
  method BuildScenario(r: Id, a: Id, b: Id) returns (s: Session)
    requires r != a && r != b && a != b
    ensures fresh(s) && s.Valid()
    ensures s.root == Node(r, "Root", 0, [Node(a, "A", 1, [Node(b, "B", 2, [])])])
    ensures s.selected == Some(a) && a in s.ticked
  {
    s := new Session(r);
    s.ToggleBox(r);
    s.EditNodeTitle("A");
    s.AddNodeToSelected(a);
    assert s.root == Node(r, "Root", 0, [Node(a, "A", 1, [])]);
    s.ToggleBox(r);
    s.ToggleBox(a);
    s.EditNodeTitle("B");
    assert Ids(s.root) == [r, a];
    s.AddNodeToSelected(b);
    var leafA, leafB := Node(a, "A", 1, []), Node(b, "B", 0, []);
    assert [leafA][1..] == [];
    assert leafA.children + [leafB.(level := 2)] == [Node(b, "B", 2, [])];
    assert UpdateWithNewChild(leafA, a, leafB) == Node(a, "A", 1, [Node(b, "B", 2, [])]);
    assert UpdateWithNewChildIn([leafA], a, leafB) == [Node(a, "A", 1, [Node(b, "B", 2, [])])];
  }

  /** Pressing Delete on A three ways. As written, the tree keeps all three
      nodes. With the selection read before it is cleared but the rebuild
      still run on A's own row, A comes back whole (`?? node`). Deleting the
      captured selection from the root leaves R childless, because B goes
      with A. */
  method DeleteScenario(r: Id, a: Id, b: Id) returns (before: Node, asWritten: Node, atRow: Node, corrected: Node)
    requires r != a && r != b && a != b
    ensures before == Node(r, "Root", 0, [Node(a, "A", 1, [Node(b, "B", 2, [])])])
    ensures asWritten == before
    ensures atRow == Node(a, "A", 1, [Node(b, "B", 2, [])])
    ensures corrected == Node(r, "Root", 0, [])
  {
    var s := BuildScenario(r, a, b);
    before := s.root;
    s.DeleteSelectedAsWritten(a);
    asWritten := s.root;
    s.ToggleBox(a);
    assert s.selected == Some(a);
    var subtreeA := Node(a, "A", 1, [Node(b, "B", 2, [])]);
    assert s.root.children[0] == subtreeA;
    atRow := DeleteAtRow(s.root.children[0], s.selected);
    assert [subtreeA][1..] == [];
    assert DeleteSelectedIn([subtreeA], Some(a)) == [];
    s.DeleteSelected(a);
    corrected := s.root;
  }
}
