/** `deleteSelectedNode`: rebuilds a tree without the selected node. A node
    is dropped at its parent's child-filtering step (`compactMap`), so its
    whole subtree goes with it. */
module Deletion {
  import opened MindMap

  /** `None` when `t` itself is the selected node; otherwise `t` with every
      selected node (and hence its subtree) filtered out of the child lists.
      A `None` selection never matches (Swift compares an id with `nil`). */
  function DeleteSelectedNode(t: Node, sel: Option<Id>): (r: Option<Node>)
    decreases t
    ensures r.None? <==> sel == Some(t.id)
    ensures r.Some? ==> r.value.id == t.id && r.value.title == t.title && r.value.level == t.level
  {
    if sel == Some(t.id) then None
    else Some(t.(children := DeleteSelectedIn(t.children, sel)))
  }

  function DeleteSelectedIn(cs: seq<Node>, sel: Option<Id>): (r: seq<Node>)
    decreases cs
    ensures |r| <= |cs|
  {
    if cs == [] then []
    else match DeleteSelectedNode(cs[0], sel)
      case None => DeleteSelectedIn(cs[1..], sel)
      case Some(n) => [n] + DeleteSelectedIn(cs[1..], sel)
  }

  /** Line 239: the Delete button runs the rebuild on the pressed row's own
      node and keeps that node when the rebuild returns `nil` (`?? node`). */
  function DeleteAtRow(row: Node, sel: Option<Id>): (r: Node)
    ensures r.id == row.id && r.title == row.title && r.level == row.level
    ensures sel.Some? && sel.value != row.id ==> sel.value !in Ids(r)
  {
    match DeleteSelectedNode(row, sel)
    case None => row
    case Some(n) =>
      if sel.Some? then DeleteRemovesTarget(row, sel.value); n else n
  }

  /** A row pressed while its own id is the selection gets itself back:
      the rebuild returns `nil` for it and `?? node` restores it, so a row
      can remove nodes below it but never itself. */
  lemma PressedRowComesBack(row: Node)
    ensures DeleteAtRow(row, Some(row.id)) == row
    ensures Ids(DeleteAtRow(row, Some(row.id))) == Ids(row)
  {
  }

  /** Filtering a concatenation filters each part. */
  lemma {:induction false} DeleteInAppend(a: seq<Node>, b: seq<Node>, sel: Option<Id>)
    ensures DeleteSelectedIn(a + b, sel) == DeleteSelectedIn(a, sel) + DeleteSelectedIn(b, sel)
    decreases |a|
  {
    if a == [] {
      assert a + b == b;
    } else {
      assert (a + b)[0] == a[0];
      assert (a + b)[1..] == a[1..] + b;
      DeleteInAppend(a[1..], b, sel);
    }
  }

  /** A missing selection, or one that occurs nowhere, changes nothing. */
  lemma {:induction false} DeleteAbsent(t: Node, sel: Option<Id>)
    requires sel.None? || sel.value !in Ids(t)
    ensures DeleteSelectedNode(t, sel) == Some(t)
    decreases t
  {
    DeleteAbsentIn(t.children, sel);
  }

  lemma {:induction false} DeleteAbsentIn(cs: seq<Node>, sel: Option<Id>)
    requires sel.None? || sel.value !in IdsIn(cs)
    ensures DeleteSelectedIn(cs, sel) == cs
    decreases cs
  {
    if cs != [] {
      DeleteAbsent(cs[0], sel);
      DeleteAbsentIn(cs[1..], sel);
      assert cs == [cs[0]] + cs[1..];
    }
  }

  /** No node of the result carries the selected id. */
  lemma {:induction false} DeleteRemovesTarget(t: Node, x: Id)
    requires DeleteSelectedNode(t, Some(x)).Some?
    ensures x !in Ids(DeleteSelectedNode(t, Some(x)).value)
    decreases t
  {
    DeleteRemovesTargetIn(t.children, x);
  }

  lemma {:induction false} DeleteRemovesTargetIn(cs: seq<Node>, x: Id)
    ensures x !in IdsIn(DeleteSelectedIn(cs, Some(x)))
    decreases cs
  {
    if cs != [] {
      DeleteRemovesTargetIn(cs[1..], x);
      match DeleteSelectedNode(cs[0], Some(x))
      case None =>
      case Some(n) =>
        DeleteRemovesTarget(cs[0], x);
        IdsInCons(n, DeleteSelectedIn(cs[1..], Some(x)));
    }
  }

  /** The surviving nodes keep their relative (pre-order) order. */
  lemma {:induction false} DeleteKeepsOrder(t: Node, sel: Option<Id>)
    requires DeleteSelectedNode(t, sel).Some?
    ensures Subseq(Ids(DeleteSelectedNode(t, sel).value), Ids(t))
    decreases t
  {
    var a := IdsIn(DeleteSelectedIn(t.children, sel));
    DeleteKeepsOrderIn(t.children, sel);
    assert ([t.id] + a)[1..] == a;
    assert ([t.id] + IdsIn(t.children))[1..] == IdsIn(t.children);
  }

  lemma {:induction false} DeleteKeepsOrderIn(cs: seq<Node>, sel: Option<Id>)
    ensures Subseq(IdsIn(DeleteSelectedIn(cs, sel)), IdsIn(cs))
    decreases cs
  {
    if cs != [] {
      var rest := DeleteSelectedIn(cs[1..], sel);
      DeleteKeepsOrderIn(cs[1..], sel);
      match DeleteSelectedNode(cs[0], sel)
      case None =>
        SubseqExtend(IdsIn(rest), Ids(cs[0]), IdsIn(cs[1..]));
      case Some(n) =>
        DeleteKeepsOrder(cs[0], sel);
        IdsInCons(n, rest);
        SubseqAppend(Ids(n), Ids(cs[0]), IdsIn(rest), IdsIn(cs[1..]));
    }
  }

  /** Deleting an id that occurs exactly once, below the root, removes
      exactly the ids of that node's subtree. */
  lemma {:induction false} DeleteRemovesSubtree(t: Node, x: Id)
    requires multiset(Ids(t))[x] == 1 && x != t.id
    ensures DeleteSelectedNode(t, Some(x)).Some?
    ensures multiset(Ids(t))
            == multiset(Ids(DeleteSelectedNode(t, Some(x)).value)) + multiset(Ids(Find(t, x).value))
    decreases t
  {
    DeleteRemovesSubtreeIn(t.children, x);
  }

  lemma {:induction false} DeleteRemovesSubtreeIn(cs: seq<Node>, x: Id)
    requires multiset(IdsIn(cs))[x] == 1
    ensures multiset(IdsIn(cs))
            == multiset(IdsIn(DeleteSelectedIn(cs, Some(x)))) + multiset(Ids(FindIn(cs, x).value))
    decreases cs
  {
    assert cs != [];
    var rest := cs[1..];
    var del := DeleteSelectedIn(cs, Some(x));
    assert multiset(IdsIn(cs)) == multiset(Ids(cs[0])) + multiset(IdsIn(rest));
    if cs[0].id == x {
      assert multiset(IdsIn(rest))[x] == 0;
      DeleteAbsentIn(rest, Some(x));
      assert del == rest;
      assert FindIn(cs, x) == Some(cs[0]);
    } else if x in Ids(cs[0]) {
      assert multiset(IdsIn(rest))[x] == 0;
      DeleteAbsentIn(rest, Some(x));
      DeleteRemovesSubtree(cs[0], x);
      var n := DeleteSelectedNode(cs[0], Some(x)).value;
      assert del == [n] + rest;
      IdsInCons(n, rest);
      assert FindIn(cs, x) == Find(cs[0], x);
    } else {
      DeleteAbsent(cs[0], Some(x));
      assert del == [cs[0]] + DeleteSelectedIn(rest, Some(x));
      DeleteRemovesSubtreeIn(rest, x);
      IdsInCons(cs[0], DeleteSelectedIn(rest, Some(x)));
      assert FindIn(cs, x) == FindIn(rest, x);
    }
  }

  /** In a tree of unique ids, an id survives the deletion of `x` exactly
      when it is not in the subtree rooted at `x`. */
  lemma DeleteRemovesSubtreeIds(t: Node, x: Id)
    requires Unique(t) && x in Ids(t) && x != t.id
    ensures DeleteSelectedNode(t, Some(x)).Some?
    ensures forall y :: y in Ids(DeleteSelectedNode(t, Some(x)).value)
              <==> y in Ids(t) && y !in Ids(Find(t, x).value)
  {
    DeleteRemovesSubtree(t, x);
    var r := DeleteSelectedNode(t, Some(x)).value;
    var n := Find(t, x).value;
    forall y ensures y in Ids(r) <==> y in Ids(t) && y !in Ids(n) {
      assert multiset(Ids(t))[y] == multiset(Ids(r))[y] + multiset(Ids(n))[y];
      if y in Ids(t) {
        assert multiset(Ids(t))[y] == 1;
      }
    }
  }

  /** Away from the selection deletion only prunes: for an id that occurs
      once and survives, the node found under it in the result is the node
      of `t` with the same deletion applied to it. */
  lemma {:induction false} DeleteFindSurvivor(t: Node, sel: Option<Id>, y: Id)
    requires multiset(Ids(t))[y] == 1
    requires DeleteSelectedNode(t, sel).Some? && y in Ids(DeleteSelectedNode(t, sel).value)
    ensures Find(DeleteSelectedNode(t, sel).value, y) == DeleteSelectedNode(Find(t, y).value, sel)
    decreases t
  {
    if t.id != y {
      DeleteFindSurvivorIn(t.children, sel, y);
    }
  }

  lemma {:induction false} DeleteFindSurvivorIn(cs: seq<Node>, sel: Option<Id>, y: Id)
    requires multiset(IdsIn(cs))[y] == 1 && y in IdsIn(DeleteSelectedIn(cs, sel))
    ensures FindIn(DeleteSelectedIn(cs, sel), y) == DeleteSelectedNode(FindIn(cs, y).value, sel)
    decreases cs
  {
    assert cs != [];
    var rest := cs[1..];
    assert multiset(IdsIn(cs)) == multiset(Ids(cs[0])) + multiset(IdsIn(rest));
    if y in Ids(cs[0]) {
      assert multiset(Ids(cs[0]))[y] == 1 && multiset(IdsIn(rest))[y] == 0;
      SurvivorInHead(cs, sel, y);
    } else {
      assert multiset(IdsIn(rest))[y] == 1;
      SurvivorInRest(cs, sel, y);
    }
  }

  /** `DeleteFindSurvivorIn` when the id lies in the first child's subtree. */
  lemma {:induction false} SurvivorInHead(cs: seq<Node>, sel: Option<Id>, y: Id)
    requires cs != [] && multiset(Ids(cs[0]))[y] == 1 && y !in IdsIn(cs[1..])
    requires y in IdsIn(DeleteSelectedIn(cs, sel))
    ensures FindIn(DeleteSelectedIn(cs, sel), y) == DeleteSelectedNode(FindIn(cs, y).value, sel)
    decreases cs, 0
  {
    var drest := DeleteSelectedIn(cs[1..], sel);
    DeleteKeepsOrderIn(cs[1..], sel);
    SubseqMultiset(IdsIn(drest), IdsIn(cs[1..]));
    assert multiset(IdsIn(drest))[y] == 0;
    assert FindIn(cs, y) == Find(cs[0], y);
    match DeleteSelectedNode(cs[0], sel)
    case None =>
      assert false;
    case Some(n) =>
      var d := [n] + drest;
      assert d[0] == n && d[1..] == drest;
      IdsInCons(n, drest);
      DeleteFindSurvivor(cs[0], sel, y);
  }

  /** `DeleteFindSurvivorIn` when the id lies in a later sibling's subtree. */
  lemma {:induction false} SurvivorInRest(cs: seq<Node>, sel: Option<Id>, y: Id)
    requires cs != [] && y !in Ids(cs[0]) && multiset(IdsIn(cs[1..]))[y] == 1
    requires y in IdsIn(DeleteSelectedIn(cs, sel))
    ensures FindIn(DeleteSelectedIn(cs, sel), y) == DeleteSelectedNode(FindIn(cs, y).value, sel)
    decreases cs, 0
  {
    var drest := DeleteSelectedIn(cs[1..], sel);
    assert FindIn(cs, y) == FindIn(cs[1..], y);
    match DeleteSelectedNode(cs[0], sel)
    case None =>
      DeleteFindSurvivorIn(cs[1..], sel, y);
    case Some(n) =>
      var d := [n] + drest;
      assert d[0] == n && d[1..] == drest;
      IdsInCons(n, drest);
      DeleteSelectedNodeFindNone(cs[0], sel, y);
      DeleteFindSurvivorIn(cs[1..], sel, y);
  }

  /** An id absent from a node stays absent after deletion. */
  lemma DeleteSelectedNodeFindNone(t: Node, sel: Option<Id>, y: Id)
    requires y !in Ids(t) && DeleteSelectedNode(t, sel).Some?
    ensures Find(DeleteSelectedNode(t, sel).value, y).None?
  {
    DeleteKeepsOrder(t, sel);
    SubseqMultiset(Ids(DeleteSelectedNode(t, sel).value), Ids(t));
    assert multiset(Ids(t))[y] == 0;
  }

  /** In a tree of unique ids, every node that survives a deletion keeps its
      title and level. */
  lemma DeleteKeepsSurvivors(t: Node, sel: Option<Id>)
    requires Unique(t) && DeleteSelectedNode(t, sel).Some?
    ensures forall y :: y in Ids(DeleteSelectedNode(t, sel).value) ==>
              y in Ids(t)
              && Find(DeleteSelectedNode(t, sel).value, y).value.title == Find(t, y).value.title
              && Find(DeleteSelectedNode(t, sel).value, y).value.level == Find(t, y).value.level
  {
    var r := DeleteSelectedNode(t, sel).value;
    DeleteKeepsOrder(t, sel);
    SubseqMultiset(Ids(r), Ids(t));
    forall y | y in Ids(r)
      ensures y in Ids(t) && Find(r, y).value.title == Find(t, y).value.title
              && Find(r, y).value.level == Find(t, y).value.level
    {
      assert multiset(Ids(t))[y] >= 1;
      DeleteFindSurvivor(t, sel, y);
    }
  }

  /** Deletion keeps ids unique. */
  lemma DeletePreservesUnique(t: Node, sel: Option<Id>)
    requires Unique(t) && DeleteSelectedNode(t, sel).Some?
    ensures Unique(DeleteSelectedNode(t, sel).value)
  {
    var r := DeleteSelectedNode(t, sel).value;
    DeleteKeepsOrder(t, sel);
    SubseqMultiset(Ids(r), Ids(t));
    forall x | x in Ids(r) ensures multiset(Ids(r))[x] == 1 {
      assert multiset(Ids(r))[x] >= 1;
      assert multiset(Ids(t))[x] >= 1;
    }
  }

  /** Deletion keeps every level non-negative. */
  lemma {:induction false} DeletePreservesLevels(t: Node, sel: Option<Id>)
    requires NonNegativeLevels(t) && DeleteSelectedNode(t, sel).Some?
    ensures NonNegativeLevels(DeleteSelectedNode(t, sel).value)
    decreases t
  {
    DeletePreservesLevelsIn(t.children, sel);
  }

  lemma {:induction false} DeletePreservesLevelsIn(cs: seq<Node>, sel: Option<Id>)
    requires NonNegativeLevelsIn(cs)
    ensures NonNegativeLevelsIn(DeleteSelectedIn(cs, sel))
    decreases cs
  {
    if cs != [] {
      var rest := DeleteSelectedIn(cs[1..], sel);
      DeletePreservesLevelsIn(cs[1..], sel);
      match DeleteSelectedNode(cs[0], sel)
      case None =>
      case Some(n) =>
        DeletePreservesLevels(cs[0], sel);
        assert forall i :: 1 <= i < |[n] + rest| ==> ([n] + rest)[i] == rest[i - 1];
    }
  }
}
