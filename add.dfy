/** `updateNodeWithNewChild`: the Add Node button's tree rebuild. */
module NewChild {
  import opened MindMap
  import opened Deletion

  /** `t` rebuilt with `newChild` appended as the last child of the node
      whose id is `target`. The rebuild does not descend below a matching
      node; every other child list is rebuilt in order (`children.map`). The appended copy
      takes its parent's level + 1, whatever level the caller gave it. */
  function UpdateWithNewChild(t: Node, target: Id, newChild: Node): (r: Node)
    decreases t
    ensures r.id == t.id && r.title == t.title && r.level == t.level
  {
    if t.id == target then t.(children := t.children + [newChild.(level := t.level + 1)])
    else t.(children := UpdateWithNewChildIn(t.children, target, newChild))
  }

  function UpdateWithNewChildIn(cs: seq<Node>, target: Id, newChild: Node): (r: seq<Node>)
    decreases cs
    ensures |r| == |cs|
  {
    if cs == [] then []
    else [UpdateWithNewChild(cs[0], target, newChild)] + UpdateWithNewChildIn(cs[1..], target, newChild)
  }

  /** An id that occurs nowhere leaves the tree exactly as it was. */
  lemma {:induction false} UpdateAbsent(t: Node, target: Id, c: Node)
    requires target !in Ids(t)
    ensures UpdateWithNewChild(t, target, c) == t
    decreases t
  {
    UpdateAbsentIn(t.children, target, c);
  }

  lemma {:induction false} UpdateAbsentIn(cs: seq<Node>, target: Id, c: Node)
    requires target !in IdsIn(cs)
    ensures UpdateWithNewChildIn(cs, target, c) == cs
    decreases cs
  {
    if cs != [] {
      UpdateAbsent(cs[0], target, c);
      UpdateAbsentIn(cs[1..], target, c);
    }
  }

  /** Seen through `Find`, the node with id `target` keeps its id, title and
      level, and gains `c` (at level parent + 1) as its last child. */
  lemma {:induction false} UpdateAppendsLastChild(t: Node, target: Id, c: Node)
    requires target in Ids(t)
    ensures var p := Find(t, target).value;
            Find(UpdateWithNewChild(t, target, c), target)
              == Some(Node(p.id, p.title, p.level, p.children + [c.(level := p.level + 1)]))
    decreases t
  {
    if t.id != target {
      UpdateAppendsLastChildIn(t.children, target, c);
    }
  }

  lemma {:induction false} UpdateAppendsLastChildIn(cs: seq<Node>, target: Id, c: Node)
    requires target in IdsIn(cs)
    ensures var p := FindIn(cs, target).value;
            FindIn(UpdateWithNewChildIn(cs, target, c), target)
              == Some(Node(p.id, p.title, p.level, p.children + [c.(level := p.level + 1)]))
    decreases cs
  {
    var r := UpdateWithNewChildIn(cs, target, c);
    assert r[1..] == UpdateWithNewChildIn(cs[1..], target, c);
    if target in Ids(cs[0]) {
      UpdateAppendsLastChild(cs[0], target, c);
    } else {
      UpdateAbsent(cs[0], target, c);
      UpdateAppendsLastChildIn(cs[1..], target, c);
    }
  }

  /** Deleting the added node gives back exactly the tree before the add:
      the add changes no other node, and no sibling order. */
  lemma {:induction false} DeleteUndoesAdd(t: Node, target: Id, c: Node)
    requires c.id !in Ids(t)
    ensures DeleteSelectedNode(UpdateWithNewChild(t, target, c), Some(c.id)) == Some(t)
    decreases t
  {
    if t.id == target {
      var c' := c.(level := t.level + 1);
      DeleteInAppend(t.children, [c'], Some(c.id));
      DeleteAbsentIn(t.children, Some(c.id));
      assert [c'][1..] == [];
      assert DeleteSelectedIn([c'], Some(c.id)) == [];
      assert t.children + [] == t.children;
    } else {
      DeleteUndoesAddIn(t.children, target, c);
    }
  }

  lemma {:induction false} DeleteUndoesAddIn(cs: seq<Node>, target: Id, c: Node)
    requires c.id !in IdsIn(cs)
    ensures DeleteSelectedIn(UpdateWithNewChildIn(cs, target, c), Some(c.id)) == cs
    decreases cs
  {
    if cs != [] {
      var u := UpdateWithNewChildIn(cs, target, c);
      assert u[0] == UpdateWithNewChild(cs[0], target, c);
      assert u[1..] == UpdateWithNewChildIn(cs[1..], target, c);
      DeleteUndoesAdd(cs[0], target, c);
      DeleteUndoesAddIn(cs[1..], target, c);
      assert cs == [cs[0]] + cs[1..];
    }
  }

  /** When `target` occurs at most once, the ids of the result are those of
      `t` plus, exactly when `target` occurs, those of `c`. */
  lemma {:induction false} UpdateIds(t: Node, target: Id, c: Node)
    requires multiset(Ids(t))[target] <= 1
    ensures multiset(Ids(UpdateWithNewChild(t, target, c)))
            == multiset(Ids(t)) + (if target in Ids(t) then multiset(Ids(c)) else multiset{})
    decreases t
  {
    if t.id == target {
      var c' := c.(level := t.level + 1);
      IdsInAppend(t.children, [c']);
      IdsInCons(c', []);
    } else {
      UpdateIdsIn(t.children, target, c);
    }
  }

  lemma {:induction false} UpdateIdsIn(cs: seq<Node>, target: Id, c: Node)
    requires multiset(IdsIn(cs))[target] <= 1
    ensures multiset(IdsIn(UpdateWithNewChildIn(cs, target, c)))
            == multiset(IdsIn(cs)) + (if target in IdsIn(cs) then multiset(Ids(c)) else multiset{})
    decreases cs
  {
    if cs != [] {
      var r := UpdateWithNewChildIn(cs, target, c);
      assert r == [r[0]] + r[1..];
      IdsInCons(r[0], r[1..]);
      UpdateIds(cs[0], target, c);
      UpdateIdsIn(cs[1..], target, c);
    }
  }

  /** Adding a childless node under an id that occurs exactly once grows the
      tree by exactly one node. */
  lemma UpdateGrowsByOne(t: Node, target: Id, c: Node)
    requires multiset(Ids(t))[target] == 1 && c.children == []
    ensures |Ids(UpdateWithNewChild(t, target, c))| == |Ids(t)| + 1
  {
    UpdateIds(t, target, c);
    var r := UpdateWithNewChild(t, target, c);
    assert target in Ids(t);
    assert Ids(c) == [c.id];
    assert |multiset(Ids(r))| == |multiset(Ids(t))| + |multiset(Ids(c))|;
  }

  /** A fresh, internally unique child keeps every id unique. */
  lemma UpdatePreservesUnique(t: Node, target: Id, c: Node)
    requires Unique(t) && Unique(c)
    requires forall x :: x in Ids(c) ==> x !in Ids(t)
    ensures Unique(UpdateWithNewChild(t, target, c))
  {
    var r := UpdateWithNewChild(t, target, c);
    assert multiset(Ids(t))[target] <= 1;
    UpdateIds(t, target, c);
    forall x | x in Ids(r) ensures multiset(Ids(r))[x] == 1 {
      assert multiset(Ids(r))[x] > 0;
      if x in Ids(t) {
        assert multiset(Ids(c))[x] == 0;
      } else {
        assert multiset(Ids(t))[x] == 0;
      }
    }
  }

  /** The new child's level is the parent's + 1, so no level becomes negative. */
  lemma {:induction false} UpdatePreservesLevels(t: Node, target: Id, c: Node)
    requires NonNegativeLevels(t) && NonNegativeLevelsIn(c.children)
    ensures NonNegativeLevels(UpdateWithNewChild(t, target, c))
    decreases t
  {
    if t.id != target {
      UpdatePreservesLevelsIn(t.children, target, c);
    }
  }

  lemma {:induction false} UpdatePreservesLevelsIn(cs: seq<Node>, target: Id, c: Node)
    requires NonNegativeLevelsIn(cs) && NonNegativeLevelsIn(c.children)
    ensures NonNegativeLevelsIn(UpdateWithNewChildIn(cs, target, c))
    decreases cs
  {
    if cs != [] {
      var r := UpdateWithNewChildIn(cs, target, c);
      UpdatePreservesLevels(cs[0], target, c);
      UpdatePreservesLevelsIn(cs[1..], target, c);
      assert forall i :: 1 <= i < |r| ==> r[i] == r[1..][i - 1];
    }
  }
}
