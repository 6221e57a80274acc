/** The ⬇️ / ⬆️ buttons: they change the cosmetic `level` of one node and
    nothing else (they never move it in the tree). */
module Levels {
  import opened MindMap

  /** One press: ⬇️ (`deeper`) adds 1; ⬆️ subtracts 1 only while the level
      is above 0. */
  function Step(level: int, deeper: bool): (r: int)
    ensures deeper ==> r == level + 1
    ensures !deeper && level > 0 ==> r == level - 1
    ensures !deeper && level <= 0 ==> r == level
    ensures level >= 0 ==> r >= 0
  {
    if deeper then level + 1 else if level > 0 then level - 1 else level
  }

  /** `t` with the level of the node whose id is `target` stepped once; the
      rebuild goes through the ancestors and stops at the match. */
  function Relevel(t: Node, target: Id, deeper: bool): (r: Node)
    decreases t
    ensures r.id == t.id && r.title == t.title
    ensures t.id != target ==> r.level == t.level
  {
    if t.id == target then t.(level := Step(t.level, deeper))
    else t.(children := RelevelIn(t.children, target, deeper))
  }

  function RelevelIn(cs: seq<Node>, target: Id, deeper: bool): (r: seq<Node>)
    decreases cs
    ensures |r| == |cs|
  {
    if cs == [] then [] else [Relevel(cs[0], target, deeper)] + RelevelIn(cs[1..], target, deeper)
  }

  /** An id that occurs nowhere leaves the tree exactly as it was. */
  lemma {:induction false} RelevelAbsent(t: Node, target: Id, deeper: bool)
    requires target !in Ids(t)
    ensures Relevel(t, target, deeper) == t
    decreases t
  {
    RelevelAbsentIn(t.children, target, deeper);
  }

  lemma {:induction false} RelevelAbsentIn(cs: seq<Node>, target: Id, deeper: bool)
    requires target !in IdsIn(cs)
    ensures RelevelIn(cs, target, deeper) == cs
    decreases cs
  {
    if cs != [] {
      RelevelAbsent(cs[0], target, deeper);
      RelevelAbsentIn(cs[1..], target, deeper);
    }
  }

  /** The shape of the tree is untouched: the same ids in the same order. */
  lemma {:induction false} RelevelKeepsIds(t: Node, target: Id, deeper: bool)
    ensures Ids(Relevel(t, target, deeper)) == Ids(t)
    decreases t
  {
    if t.id != target {
      RelevelKeepsIdsIn(t.children, target, deeper);
    }
  }

  lemma {:induction false} RelevelKeepsIdsIn(cs: seq<Node>, target: Id, deeper: bool)
    ensures IdsIn(RelevelIn(cs, target, deeper)) == IdsIn(cs)
    decreases cs
  {
    if cs != [] {
      var r := RelevelIn(cs, target, deeper);
      RelevelKeepsIds(cs[0], target, deeper);
      RelevelKeepsIdsIn(cs[1..], target, deeper);
      IdsInCons(r[0], r[1..]);
      assert r == [r[0]] + r[1..];
    }
  }

  /** Seen through `Find`, the target node keeps its id, title and children
      and only its level is stepped. */
  lemma {:induction false} RelevelFind(t: Node, target: Id, deeper: bool)
    requires target in Ids(t)
    ensures var n := Find(t, target).value;
            Find(Relevel(t, target, deeper), target)
              == Some(Node(n.id, n.title, Step(n.level, deeper), n.children))
    decreases t
  {
    if t.id != target {
      RelevelFindIn(t.children, target, deeper);
    }
  }

  lemma {:induction false} RelevelFindIn(cs: seq<Node>, target: Id, deeper: bool)
    requires target in IdsIn(cs)
    ensures var n := FindIn(cs, target).value;
            FindIn(RelevelIn(cs, target, deeper), target)
              == Some(Node(n.id, n.title, Step(n.level, deeper), n.children))
    decreases cs
  {
    var r := RelevelIn(cs, target, deeper);
    assert r[1..] == RelevelIn(cs[1..], target, deeper);
    if target in Ids(cs[0]) {
      RelevelFind(cs[0], target, deeper);
    } else {
      RelevelAbsent(cs[0], target, deeper);
      RelevelFindIn(cs[1..], target, deeper);
    }
  }

  /** For an id that occurs once, in a tree where the target occurs at most
      once, the node found under it after the press is the node found
      before it with the press applied: a node that is neither the target
      nor an ancestor of it comes back exactly as it was. */
  lemma {:induction false} RelevelFindOther(t: Node, target: Id, deeper: bool, y: Id)
    requires multiset(Ids(t))[y] == 1 && multiset(Ids(t))[target] <= 1
    ensures Find(Relevel(t, target, deeper), y) == Some(Relevel(Find(t, y).value, target, deeper))
    decreases t
  {
    assert multiset(Ids(t)) == multiset{t.id} + multiset(IdsIn(t.children));
    if t.id == target && t.id != y {
      var n := FindIn(t.children, y).value;
      assert multiset(IdsIn(t.children))[target] == 0;
      assert multiset(Ids(n))[target] == 0;
      RelevelAbsent(n, target, deeper);
    } else if t.id != y {
      RelevelFindOtherIn(t.children, target, deeper, y);
    }
  }

  lemma {:induction false} RelevelFindOtherIn(cs: seq<Node>, target: Id, deeper: bool, y: Id)
    requires multiset(IdsIn(cs))[y] == 1 && multiset(IdsIn(cs))[target] <= 1
    ensures FindIn(RelevelIn(cs, target, deeper), y)
            == Some(Relevel(FindIn(cs, y).value, target, deeper))
    decreases cs
  {
    assert cs != [];
    var r := RelevelIn(cs, target, deeper);
    assert r[0] == Relevel(cs[0], target, deeper) && r[1..] == RelevelIn(cs[1..], target, deeper);
    assert multiset(IdsIn(cs)) == multiset(Ids(cs[0])) + multiset(IdsIn(cs[1..]));
    RelevelKeepsIds(cs[0], target, deeper);
    if y in Ids(cs[0]) {
      RelevelFindOther(cs[0], target, deeper, y);
    } else {
      RelevelFindOtherIn(cs[1..], target, deeper, y);
    }
  }

  /** In a tree of unique ids a press changes the level of the target only:
      every other node keeps its title and its level. */
  lemma RelevelKeepsOthers(t: Node, target: Id, deeper: bool)
    requires Unique(t)
    ensures Ids(Relevel(t, target, deeper)) == Ids(t)
    ensures forall y :: y in Ids(t) && y != target ==>
              Find(Relevel(t, target, deeper), y).value.title == Find(t, y).value.title
              && Find(Relevel(t, target, deeper), y).value.level == Find(t, y).value.level
  {
    assert multiset(Ids(t))[target] <= 1 by {
      if target in Ids(t) { assert multiset(Ids(t))[target] == 1; }
    }
    RelevelKeepsIds(t, target, deeper);
    forall y | y in Ids(t) && y != target
      ensures Find(Relevel(t, target, deeper), y).value.title == Find(t, y).value.title
              && Find(Relevel(t, target, deeper), y).value.level == Find(t, y).value.level
    {
      RelevelFindOther(t, target, deeper, y);
    }
  }

  /** No press, in either direction, makes a level negative. */
  lemma {:induction false} RelevelPreservesLevels(t: Node, target: Id, deeper: bool)
    requires NonNegativeLevels(t)
    ensures NonNegativeLevels(Relevel(t, target, deeper))
    decreases t
  {
    if t.id != target {
      RelevelPreservesLevelsIn(t.children, target, deeper);
    }
  }

  lemma {:induction false} RelevelPreservesLevelsIn(cs: seq<Node>, target: Id, deeper: bool)
    requires NonNegativeLevelsIn(cs)
    ensures NonNegativeLevelsIn(RelevelIn(cs, target, deeper))
    decreases cs
  {
    if cs != [] {
      var r := RelevelIn(cs, target, deeper);
      RelevelPreservesLevels(cs[0], target, deeper);
      RelevelPreservesLevelsIn(cs[1..], target, deeper);
      assert forall i :: 1 <= i < |r| ==> r[i] == r[1..][i - 1];
    }
  }
}
