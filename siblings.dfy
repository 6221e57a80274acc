/** `moveNode`: the Move Up / Move Down swap on a parent's children. */
module SiblingMove {
  import opened MindMap
  import opened ParentSearch

  /** The first position of `s` holding id `x` (`firstIndex(where:)`). */
  function IndexOf(s: seq<Node>, x: Id): (r: Option<nat>)
    decreases |s|
    ensures r.Some? ==> r.value < |s| && s[r.value].id == x
    ensures r.Some? ==> forall k :: 0 <= k < r.value ==> s[k].id != x
    ensures r.None? <==> forall k :: 0 <= k < |s| ==> s[k].id != x
  {
    if s == [] then None
    else if s[0].id == x then Some(0)
    else match IndexOf(s[1..], x)
      case None => None
      case Some(k) => Some(k + 1)
  }

  /** The sibling list after a move: the node with id `x` trades places with
      the one `direction` positions away when that position exists. */
  function Moved(s: seq<Node>, x: Id, direction: int): (r: seq<Node>)
    ensures |r| == |s| && multiset(r) == multiset(s)
  {
    match IndexOf(s, x)
    case None => s
    case Some(i) =>
      var j := i + direction;
      if 0 <= j < |s| then SwapLemma(s, i, j); s[i := s[j]][j := s[i]] else s
  }

  lemma SwapLemma(s: seq<Node>, i: nat, j: nat)
    requires i < |s| && j < |s|
    ensures multiset(s[i := s[j]][j := s[i]]) == multiset(s)
  {
    var t := s[i := s[j]];
    assert multiset(t) == multiset(s) - multiset{s[i]} + multiset{s[j]};
    assert multiset(t[j := s[i]]) == multiset(t) - multiset{t[j]} + multiset{s[i]};
  }

  /** Sibling ids are pairwise distinct (as in any tree of unique ids). */
  predicate DistinctIds(s: seq<Node>) {
    forall i, j :: 0 <= i < j < |s| ==> s[i].id != s[j].id
  }

  /** In range, the two positions are swapped and every other one is kept. */
  lemma MovedSwaps(s: seq<Node>, x: Id, direction: int)
    requires IndexOf(s, x).Some? && 0 <= IndexOf(s, x).value + direction < |s|
    ensures var i, r := IndexOf(s, x).value, Moved(s, x, direction);
            r[i] == s[i + direction] && r[i + direction] == s[i]
            && forall k :: 0 <= k < |s| && k != i && k != i + direction ==> r[k] == s[k]
  {
  }

  /** An id not in the list, or a neighbour position out of range, leaves
      the list as it was. */
  lemma MovedOutOfRange(s: seq<Node>, x: Id, direction: int)
    requires IndexOf(s, x).None? || !(0 <= IndexOf(s, x).value + direction < |s|)
    ensures Moved(s, x, direction) == s
  {
  }

  /** Moving the first child up, or the last child down, does nothing. */
  lemma {:induction false} MoveAtEndsIsNoop(s: seq<Node>, x: Id)
    requires DistinctIds(s) && |s| > 0
    ensures s[0].id == x ==> Moved(s, x, -1) == s
    ensures s[|s| - 1].id == x ==> Moved(s, x, 1) == s
  {
    if s[|s| - 1].id == x {
      assert IndexOf(s, x) == Some(|s| - 1);
    }
  }

  /** A move that happened is undone by the opposite move. */
  lemma MoveUndo(s: seq<Node>, x: Id, direction: int)
    requires DistinctIds(s)
    requires IndexOf(s, x).Some? && 0 <= IndexOf(s, x).value + direction < |s|
    ensures Moved(Moved(s, x, direction), x, -direction) == s
  {
    var i := IndexOf(s, x).value;
    var j := i + direction;
    var m := Moved(s, x, direction);
    MovedSwaps(s, x, direction);
    assert m[j].id == x;
    assert forall k :: 0 <= k < j ==> m[k].id != x;
    assert IndexOf(m, x) == Some(j);
    MovedSwaps(m, x, -direction);
  }

  /** As written, Move Up/Down look for the parent list inside the pressed
      row's own subtree: the list found never holds the row, so the move
      changes nothing. */
  lemma MoveFromOwnSubtreeIsNoop(row: Node, sel: Option<Id>, direction: int)
    requires Unique(row) && FindParentChildren(row, sel).Some?
    ensures var l := FindParentChildren(row, sel).value;
            IndexOf(l, row.id).None? && Moved(l, row.id, direction) == l
  {
    FoundListBelow(row, sel);
    assert multiset(Ids(row))[row.id] == 1 + multiset(IdsIn(row.children))[row.id];
  }

  /** Searched for from the root, any node below the root is found in its
      parent's children, where the move can act on it. */
  lemma SearchFromRootFindsRow(root: Node, x: Id)
    requires x in IdsIn(root.children)
    ensures FindParentChildren(root, Some(x)).Some?
    ensures IndexOf(FindParentChildren(root, Some(x)).value, x).Some?
  {
    ParentFoundIff(root, x);
  }

  /** `firstIndex(where: { $0.id == x })` over the sibling array. */
  method FirstIndex(siblings: array<Node>, x: Id) returns (r: Option<nat>)
    ensures r.Some? ==> r.value < siblings.Length && siblings[r.value].id == x
    ensures r.Some? ==> forall k :: 0 <= k < r.value ==> siblings[k].id != x
    ensures r.None? ==> forall k :: 0 <= k < siblings.Length ==> siblings[k].id != x
    ensures r == IndexOf(siblings[..], x)
  {
    var i := 0;
    while i < siblings.Length
      invariant 0 <= i <= siblings.Length
      invariant forall k :: 0 <= k < i ==> siblings[k].id != x
    {
      if siblings[i].id == x {
        return Some(i);
      }
      i := i + 1;
    }
    return None;
  }

  /** `moveNode`: finds the row in its parent's children and, when the
      neighbour position is in range, swaps the two in place (`swapAt`). */
  method MoveNode(siblings: array<Node>, x: Id, direction: int)
    modifies siblings
    ensures siblings[..] == Moved(old(siblings[..]), x, direction)
  {
    var current := FirstIndex(siblings, x);
    if current.Some? {
      var newIndex := current.value + direction;
      if 0 <= newIndex < siblings.Length {
        siblings[current.value], siblings[newIndex] := siblings[newIndex], siblings[current.value];
      }
    }
  }
}
