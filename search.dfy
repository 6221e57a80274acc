/** The search logic of `findParentNodeChildrenBinding`: the children list
    that directly contains a given id. (The `Binding` it wraps the list in
    is framework wiring and is not modelled.) */
module ParentSearch {
  import opened MindMap

  /** Some node of `cs` has id `x` (`contains(where:)`). */
  predicate HasChild(cs: seq<Node>, x: Id) {
    exists i :: 0 <= i < |cs| && cs[i].id == x
  }

  /** The children of `t` when one of them has id `nodeId`; otherwise the
      first hit of the same search in the children, in order; `None` when
      `nodeId` is `None` or nothing is found. */
  function FindParentChildren(t: Node, nodeId: Option<Id>): (r: Option<seq<Node>>)
    decreases t
    ensures nodeId.None? ==> r.None?
    ensures r.Some? ==> nodeId.Some? && HasChild(r.value, nodeId.value)
  {
    if nodeId.Some? && HasChild(t.children, nodeId.value) then Some(t.children)
    else FindParentIn(t.children, nodeId)
  }

  /** The `for index in root.children.indices` loop: the first child whose
      search succeeds. */
  function FindParentIn(cs: seq<Node>, nodeId: Option<Id>): (r: Option<seq<Node>>)
    decreases cs
    ensures nodeId.None? ==> r.None?
    ensures r.Some? ==> nodeId.Some? && HasChild(r.value, nodeId.value)
  {
    if cs == [] then None
    else match FindParentChildren(cs[0], nodeId)
      case Some(l) => Some(l)
      case None => FindParentIn(cs[1..], nodeId)
  }

  // ---- Reference definition: a linear scan of the pre-order listing ----

  /** Every subtree of `t` (every node, with its descendants), in pre-order. */
  function Subtrees(t: Node): (r: seq<Node>)
    decreases t
    ensures |r| > 0 && r[0] == t
  {
    [t] + SubtreesIn(t.children)
  }

  function SubtreesIn(cs: seq<Node>): seq<Node>
    decreases cs
  {
    if cs == [] then [] else Subtrees(cs[0]) + SubtreesIn(cs[1..])
  }

  /** The position of the first node of `ns` that has a direct child `x`. */
  function FirstParentIndex(ns: seq<Node>, x: Id): (r: Option<nat>)
    decreases |ns|
    ensures r.Some? ==> r.value < |ns| && HasChild(ns[r.value].children, x)
    ensures r.Some? ==> forall j :: 0 <= j < r.value ==> !HasChild(ns[j].children, x)
    ensures r.None? ==> forall j :: 0 <= j < |ns| ==> !HasChild(ns[j].children, x)
  {
    if ns == [] then None
    else if HasChild(ns[0].children, x) then Some(0)
    else match FirstParentIndex(ns[1..], x)
      case None => None
      case Some(k) => Some(k + 1)
  }

  /** The children of the first node of `ns` that has a direct child `x`. */
  function FirstParentIn(ns: seq<Node>, x: Id): Option<seq<Node>> {
    match FirstParentIndex(ns, x)
    case None => None
    case Some(k) => Some(ns[k].children)
  }

  lemma FirstParentAppend(a: seq<Node>, b: seq<Node>, x: Id)
    ensures FirstParentIn(a + b, x)
            == if FirstParentIn(a, x).Some? then FirstParentIn(a, x) else FirstParentIn(b, x)
  {
    var ia, ib, iab := FirstParentIndex(a, x), FirstParentIndex(b, x), FirstParentIndex(a + b, x);
    assert forall j :: 0 <= j < |a| ==> (a + b)[j] == a[j];
    assert forall j :: |a| <= j < |a| + |b| ==> (a + b)[j] == b[j - |a|];
    if ia.Some? {
      assert iab == ia;
    } else if ib.Some? {
      var k := |a| + ib.value;
      assert HasChild((a + b)[k].children, x);
      assert iab.Some? && iab.value <= k;
      assert forall j :: 0 <= j < k ==> !HasChild((a + b)[j].children, x);
      assert iab == Some(k);
    }
  }

  /** The recursive search returns the children of the first node, in
      pre-order, that has `x` as a direct child. */
  lemma {:induction false} FindParentIsFirstInPreorder(t: Node, x: Id)
    ensures FindParentChildren(t, Some(x)) == FirstParentIn(Subtrees(t), x)
    decreases t
  {
    FindParentIsFirstInPreorderIn(t.children, x);
    FirstParentAppend([t], SubtreesIn(t.children), x);
  }

  lemma {:induction false} FindParentIsFirstInPreorderIn(cs: seq<Node>, x: Id)
    ensures FindParentIn(cs, Some(x)) == FirstParentIn(SubtreesIn(cs), x)
    decreases cs
  {
    if cs != [] {
      FindParentIsFirstInPreorder(cs[0], x);
      FindParentIsFirstInPreorderIn(cs[1..], x);
      FirstParentAppend(Subtrees(cs[0]), SubtreesIn(cs[1..]), x);
    }
  }

  /** A parent list is found exactly when `x` is a strict descendant of `t`. */
  lemma {:induction false} ParentFoundIff(t: Node, x: Id)
    ensures FindParentChildren(t, Some(x)).Some? <==> x in IdsIn(t.children)
    decreases t
  {
    ParentFoundIffIn(t.children, x);
  }

  lemma {:induction false} ParentFoundIffIn(cs: seq<Node>, x: Id)
    ensures HasChild(cs, x) || FindParentIn(cs, Some(x)).Some? <==> x in IdsIn(cs)
    decreases cs
  {
    if cs != [] {
      var rest := cs[1..];
      ParentFoundIff(cs[0], x);
      ParentFoundIffIn(rest, x);
      if HasChild(cs, x) {
        var i :| 0 <= i < |cs| && cs[i].id == x;
        ChildIdIn(cs, i);
      }
      if HasChild(rest, x) {
        var i :| 0 <= i < |rest| && rest[i].id == x;
        assert cs[i + 1].id == x;
      }
    }
  }

  /** For a tree of unique ids the search never finds a parent of the root
      itself. */
  lemma RootHasNoParent(t: Node)
    requires Unique(t)
    ensures FindParentChildren(t, Some(t.id)) == None
  {
    assert multiset(Ids(t))[t.id] == 1 + multiset(IdsIn(t.children))[t.id];
    ParentFoundIff(t, t.id);
  }

  /** Every node in a found list is a strict descendant of the start node. */
  lemma {:induction false} FoundListBelow(t: Node, x: Option<Id>)
    requires FindParentChildren(t, x).Some?
    ensures forall i :: 0 <= i < |FindParentChildren(t, x).value| ==>
              FindParentChildren(t, x).value[i].id in IdsIn(t.children)
    decreases t
  {
    var l := FindParentChildren(t, x).value;
    if x.Some? && HasChild(t.children, x.value) {
      forall i | 0 <= i < |l| ensures l[i].id in IdsIn(t.children) {
        ChildIdIn(t.children, i);
      }
    } else {
      FoundListBelowIn(t.children, x);
    }
  }

  lemma {:induction false} FoundListBelowIn(cs: seq<Node>, x: Option<Id>)
    requires FindParentIn(cs, x).Some?
    ensures forall i :: 0 <= i < |FindParentIn(cs, x).value| ==>
              FindParentIn(cs, x).value[i].id in IdsIn(cs)
    decreases cs
  {
    var l := FindParentIn(cs, x).value;
    match FindParentChildren(cs[0], x)
    case Some(_) =>
      FoundListBelow(cs[0], x);
    case None =>
      FoundListBelowIn(cs[1..], x);
  }
}
