/** The mind-map data model of Optimum: the `Node` struct, its pre-order id
    listing, and the tree-wide predicates the edit operations preserve. */
module MindMap {

  /** Stands in for Foundation's UUID: an identifier of which only equality
      is observed. Fresh identifiers are supplied by callers. */
  type Id(==)

  datatype Option<T> = None | Some(value: T)

  /** One mind-map entry. `level` is the cosmetic indent (Swift `Int`), kept
      apart from the node's real depth; `children` is ordered. */
  datatype Node = Node(id: Id, title: string, level: int, children: seq<Node>)

  /** The ids of `t` in pre-order: the node itself, then each child's
      subtree in order. */
  function Ids(t: Node): (r: seq<Id>)
    decreases t
    ensures |r| > 0 && r[0] == t.id
  {
    [t.id] + IdsIn(t.children)
  }

  /** The ids of a sibling list, subtree after subtree. */
  function IdsIn(cs: seq<Node>): (r: seq<Id>)
    decreases cs
    ensures cs == [] <==> r == []
  {
    if cs == [] then [] else Ids(cs[0]) + IdsIn(cs[1..])
  }

  /** No id occurs twice anywhere in the tree. */
  ghost predicate Unique(t: Node) {
    forall x :: x in Ids(t) ==> multiset(Ids(t))[x] == 1
  }

  /** No level in the tree is negative. */
  predicate NonNegativeLevels(t: Node)
    decreases t
  {
    t.level >= 0 && NonNegativeLevelsIn(t.children)
  }

  predicate NonNegativeLevelsIn(cs: seq<Node>)
    decreases cs
  {
    forall i :: 0 <= i < |cs| ==> NonNegativeLevels(cs[i])
  }

  /** The first node of `t`, in pre-order, whose id is `x`. */
  function Find(t: Node, x: Id): (r: Option<Node>)
    decreases t
    ensures r.Some? <==> x in Ids(t)
    ensures r.Some? ==> r.value.id == x && multiset(Ids(r.value)) <= multiset(Ids(t))
  {
    if t.id == x then Some(t) else FindIn(t.children, x)
  }

  function FindIn(cs: seq<Node>, x: Id): (r: Option<Node>)
    decreases cs
    ensures r.Some? <==> x in IdsIn(cs)
    ensures r.Some? ==> r.value.id == x && multiset(Ids(r.value)) <= multiset(IdsIn(cs))
  {
    if cs == [] then None
    else match Find(cs[0], x)
      case Some(n) => Some(n)
      case None => FindIn(cs[1..], x)
  }

  lemma {:induction false} IdsInAppend(a: seq<Node>, b: seq<Node>)
    ensures IdsIn(a + b) == IdsIn(a) + IdsIn(b)
    decreases |a|
  {
    if a == [] {
      assert a + b == b;
    } else {
      assert (a + b)[0] == a[0];
      assert (a + b)[1..] == a[1..] + b;
      IdsInAppend(a[1..], b);
    }
  }

  lemma IdsInCons(n: Node, rest: seq<Node>)
    ensures IdsIn([n] + rest) == Ids(n) + IdsIn(rest)
  {
    assert ([n] + rest)[1..] == rest;
  }

  /** Every child's id is among the ids of its sibling list. */
  lemma {:induction false} ChildIdIn(cs: seq<Node>, i: nat)
    requires i < |cs|
    ensures cs[i].id in IdsIn(cs) && multiset(Ids(cs[i])) <= multiset(IdsIn(cs))
    decreases i
  {
    if i > 0 {
      ChildIdIn(cs[1..], i - 1);
    }
  }

  /** `a` is `b` with some elements left out and the rest in their order. */
  predicate Subseq<T(==)>(a: seq<T>, b: seq<T>)
    decreases |b|
  {
    a == [] || (b != [] && ((a[0] == b[0] && Subseq(a[1..], b[1..])) || Subseq(a, b[1..])))
  }

  lemma {:induction false} SubseqRefl<T>(a: seq<T>)
    ensures Subseq(a, a)
    decreases |a|
  {
    if a != [] { SubseqRefl(a[1..]); }
  }

  lemma {:induction false} SubseqExtend<T>(a: seq<T>, b1: seq<T>, b2: seq<T>)
    requires Subseq(a, b2)
    ensures Subseq(a, b1 + b2)
    decreases |b1|
  {
    if b1 != [] {
      SubseqExtend(a, b1[1..], b2);
      assert (b1 + b2)[1..] == b1[1..] + b2;
    } else {
      assert b1 + b2 == b2;
    }
  }

  lemma {:induction false} SubseqAppend<T>(a1: seq<T>, b1: seq<T>, a2: seq<T>, b2: seq<T>)
    requires Subseq(a1, b1) && Subseq(a2, b2)
    ensures Subseq(a1 + a2, b1 + b2)
    decreases |b1|
  {
    if a1 == [] {
      assert a1 + a2 == a2;
      SubseqExtend(a2, b1, b2);
    } else {
      assert (b1 + b2)[1..] == b1[1..] + b2;
      if a1[0] == b1[0] && Subseq(a1[1..], b1[1..]) {
        SubseqAppend(a1[1..], b1[1..], a2, b2);
        assert (a1 + a2)[1..] == a1[1..] + a2;
      } else {
        SubseqAppend(a1, b1[1..], a2, b2);
      }
    }
  }

  lemma {:induction false} SubseqMultiset<T>(a: seq<T>, b: seq<T>)
    requires Subseq(a, b)
    ensures multiset(a) <= multiset(b)
    decreases |b|
  {
    if a != [] {
      assert b == [b[0]] + b[1..];
      if a[0] == b[0] && Subseq(a[1..], b[1..]) {
        SubseqMultiset(a[1..], b[1..]);
        assert a == [a[0]] + a[1..];
      } else {
        SubseqMultiset(a, b[1..]);
      }
    }
  }
}
