/** lib/list.h: the intrusive circular doubly linked list. A list is its ring of nodes, the
    sentinel head first; the operations insert into and remove from that sequence. */
module List {

  class ListHead {
    var next: ListHead
    var prev: ListHead
    const owner: int  // which record the node is embedded in: container_of; -1 for a bare head

    /** list_init / LIST_HEAD_INIT. */
    constructor (owner: int)
      ensures this.owner == owner && next == this && prev == this
      ensures Ring([this])
    {
      this.owner := owner;
      next, prev := this, this;
    }
  }

  /** The position after i, going around. */
  function Succ(n: nat, i: nat): (j: nat)
    requires i < n
    ensures j < n
  {
    if i + 1 == n then 0 else i + 1
  }

  predicate Distinct(r: seq<ListHead>) {
    forall i, j :: 0 <= i < j < |r| ==> r[i] != r[j]
  }

  /** next and prev are inverse of each other around r. */
  ghost predicate Ring(r: seq<ListHead>)
    reads r
  {
    && |r| > 0 && Distinct(r)
    && forall i :: 0 <= i < |r| ==> r[i].next == r[Succ(|r|, i)] && r[Succ(|r|, i)].prev == r[i]
  }

  /** The elements of a list: its ring without the head. */
  function Elements(r: seq<ListHead>): seq<ListHead>
    requires |r| > 0
  {
    r[1..]
  }

  /** r with a node put in after position i. */
  function InsertAfter(r: seq<ListHead>, i: nat, node: ListHead): seq<ListHead>
    requires i < |r|
  {
    r[..i + 1] + [node] + r[i + 1..]
  }

  /** r without position i. */
  function Without(r: seq<ListHead>, i: nat): seq<ListHead>
    requires i < |r|
  {
    r[..i] + r[i + 1..]
  }

  /** Where everything is in the longer ring. */
  lemma InsertPlaces(r: seq<ListHead>, i: nat, node: ListHead)
    requires i < |r| && Distinct(r) && node !in r
    ensures var q := InsertAfter(r, i, node);
      && |q| == |r| + 1 && Distinct(q) && q[i + 1] == node
      && (forall k :: 0 <= k <= i ==> q[k] == r[k])
      && (forall k :: i < k < |r| ==> q[k + 1] == r[k])
  {
  }

  /** _list_insert. */
  method Insert(node: ListHead, prev: ListHead, next: ListHead, ghost r: seq<ListHead>, ghost i: nat)
    requires Ring(r) && node !in r && i < |r| && prev == r[i] && next == r[Succ(|r|, i)]
    modifies node, prev`next, next`prev
    ensures Ring(InsertAfter(r, i, node))
  {
    ghost var q := InsertAfter(r, i, node);
    InsertPlaces(r, i, node);
    hide InsertAfter;
    next.prev := node;
    node.next := next;
    node.prev := prev;
    prev.next := node;
    forall k | 0 <= k < |q|
      ensures q[k].next == q[Succ(|q|, k)] && q[Succ(|q|, k)].prev == q[k]
    {
      if k < i {
        assert q[k] == r[k] && q[k + 1] == r[k + 1] && r[k].next == r[k + 1];
      } else if k > i + 1 {
        assert q[k] == r[k - 1] && q[Succ(|q|, k)] == r[Succ(|r|, k - 1)];
      } else {
        assert q[i] == prev && q[i + 1] == node && q[Succ(|q|, i + 1)] == next;
      }
    }
  }

  /** list_add: the new node becomes the first element. */
  method ListAdd(head: ListHead, node: ListHead, ghost r: seq<ListHead>)
    requires Ring(r) && r[0] == head && node !in r
    modifies node, head`next, head.next`prev
    ensures Ring([head, node] + Elements(r))
  {
    assert head.next == r[Succ(|r|, 0)];
    Insert(node, head, head.next, r, 0);
    assert InsertAfter(r, 0, node) == [head, node] + Elements(r);
  }

  /** list_add_tail: the new node becomes the last element. */
  method ListAddTail(head: ListHead, node: ListHead, ghost r: seq<ListHead>)
    requires Ring(r) && r[0] == head && node !in r
    modifies node, head.prev`next, head`prev
    ensures Ring(r + [node])
  {
    ghost var last := |r| - 1;
    assert Succ(|r|, last) == 0 && head.prev == r[last];
    Insert(node, head.prev, head, r, last);
    assert InsertAfter(r, last, node) == r + [node];
  }

  /** list_del: the node at position i leaves the ring. */
  method ListDel(node: ListHead, ghost r: seq<ListHead>, ghost i: nat)
    requires Ring(r) && 0 < i < |r| && node == r[i]
    modifies node.prev`next, node.next`prev
    ensures Ring(Without(r, i))
    ensures node.next == old(node.next)
  {
    assert Succ(|r|, i - 1) == i && node.prev == r[i - 1] && node.next == r[Succ(|r|, i)];
    node.prev.next := node.next;
    node.next.prev := node.prev;
    ghost var q := Without(r, i);
    forall k | 0 <= k < |q|
      ensures q[k].next == q[Succ(|q|, k)] && q[Succ(|q|, k)].prev == q[k]
    {
      if k < i - 1 {
        assert q[k] == r[k] && q[k + 1] == r[k + 1];
      } else if k == i - 1 {
        assert q[k] == r[i - 1] && q[Succ(|q|, k)] == r[Succ(|r|, i)];
      } else {
        assert q[k] == r[k + 1] && q[Succ(|q|, k)] == r[Succ(|r|, k + 1)];
      }
    }
  }

  /** list_empty. */
  method ListEmpty(head: ListHead, ghost r: seq<ListHead>) returns (empty: bool)
    requires Ring(r) && r[0] == head
    ensures empty <==> Elements(r) == []
  {
    assert head.next == r[Succ(|r|, 0)];
    empty := head.next == head;
  }

  /** The nodes of s whose record is not in `gone`. */
  ghost function Keep(s: seq<ListHead>, gone: set<int>): seq<ListHead> {
    if s == [] then [] else (if s[0].owner in gone then [] else [s[0]]) + Keep(s[1..], gone)
  }

  lemma {:induction false} KeepSnoc(s: seq<ListHead>, x: ListHead, gone: set<int>)
    ensures Keep(s + [x], gone) == Keep(s, gone) + if x.owner in gone then [] else [x]
  {
    if s == [] {
    } else {
      assert (s + [x])[1..] == s[1..] + [x];
      KeepSnoc(s[1..], x, gone);
    }
  }

  lemma {:induction false} KeepFrom(s: seq<ListHead>, gone: set<int>)
    ensures forall x :: x in Keep(s, gone) ==> x in s
  {
    if s != [] {
      KeepFrom(s[1..], gone);
    }
  }

  /** The ring once the first k - 1 elements of r have been visited. */
  ghost function Visited(r: seq<ListHead>, gone: set<int>, k: nat): seq<ListHead>
    requires 1 <= k <= |r|
  {
    [r[0]] + Keep(r[1..k], gone) + r[k..]
  }

  lemma VisitStep(r: seq<ListHead>, gone: set<int>, k: nat)
    requires 1 <= k < |r|
    ensures var q, at := Visited(r, gone, k), 1 + |Keep(r[1..k], gone)|;
      && at < |q| && q[at] == r[k]
      && Visited(r, gone, k + 1) == (if r[k].owner in gone then Without(q, at) else q)
      && q[Succ(|q|, at)] == (if k + 1 == |r| then r[0] else r[k + 1])
      && forall x :: x in q ==> x in r
  {
    assert r[1..k + 1] == r[1..k] + [r[k]];
    KeepSnoc(r[1..k], r[k], gone);
    KeepFrom(r[1..k], gone);
    var q, at := Visited(r, gone, k), 1 + |Keep(r[1..k], gone)|;
    assert Without(q, at) == [r[0]] + Keep(r[1..k], gone) + r[k + 1..];
    assert q == [r[0]] + Keep(r[1..k], gone) + [r[k]] + r[k + 1..];
  }

  lemma VisitEnds(r: seq<ListHead>, gone: set<int>)
    requires |r| > 0
    ensures Visited(r, gone, 1) == r
    ensures Visited(r, gone, |r|) == [r[0]] + Keep(Elements(r), gone)
  {
    assert r[1..|r|] == Elements(r) && r[1..1] == [];
  }

  /** The body: delete the node if its record is in `gone`. */
  method VisitOne(pos: ListHead, gone: set<int>, ghost q: seq<ListHead>, ghost at: nat)
    requires Ring(q) && 0 < at < |q| && q[at] == pos
    modifies set x | x in q
    ensures Ring(if pos.owner in gone then Without(q, at) else q)
  {
    assert pos.next == q[Succ(|q|, at)] && pos.prev == q[at - 1] by {
      assert Succ(|q|, at - 1) == at;
    }
    if pos.owner in gone {
      ListDel(pos, q, at);
    }
  }

  /** Where the iteration stands: position k of r, or back at the head. */
  function At(r: seq<ListHead>, k: nat): ListHead
    requires 0 < k <= |r|
  {
    if k == |r| then r[0] else r[k]
  }

  /** What has been visited before position k. */
  function Seen(r: seq<ListHead>, k: nat): seq<ListHead>
    requires 0 < k <= |r|
  {
    r[1..k]
  }

  lemma AtHead(r: seq<ListHead>)
    requires |r| > 0 && Distinct(r)
    ensures forall k :: 0 < k <= |r| ==> (At(r, k) == r[0] <==> k == |r|)
    ensures forall k :: 0 < k < |r| ==> Seen(r, k + 1) == Seen(r, k) + [At(r, k)]
    ensures Seen(r, 1) == [] && Seen(r, |r|) == Elements(r)
  {
  }

  /** One round of the loop: the body, then `pos = n, n = pos->next`. */
  method VisitRound(pos: ListHead, n: ListHead, gone: set<int>, ghost r: seq<ListHead>, ghost k: nat)
      returns (pos': ListHead, n': ListHead)
    requires 1 <= k < |r| && pos == At(r, k) && n == pos.next && Ring(Visited(r, gone, k))
    modifies r
    ensures pos' == At(r, k + 1)
    ensures Ring(Visited(r, gone, k + 1)) && n' == pos'.next
  {
    hide Visited, Keep, Without;
    ghost var q, at := Visited(r, gone, k), 1 + |Keep(r[1..k], gone)|;
    VisitStep(r, gone, k);
    assert n == q[Succ(|q|, at)];
    VisitOne(pos, gone, q, at);
    return n, n.next;
  }

  /** list_for_each_safe with a body that deletes the nodes of the records in `gone`: every node
      that was in the list is visited once, in order, and the others stay. */
  method ForEachSafe(head: ListHead, gone: set<int>, ghost r: seq<ListHead>) returns (ghost visited: seq<ListHead>)
    requires Ring(r) && r[0] == head
    modifies r
    ensures visited == Elements(r)
    ensures Ring([head] + Keep(Elements(r), gone))
  {
    VisitEnds(r, gone);
    AtHead(r);
    assert head.next == At(r, 1) by {
      assert head.next == r[Succ(|r|, 0)];
    }
    hide Ring, Distinct, Visited, Keep, Elements, At, Seen;
    visited := [];
    var pos := head.next;
    var n := pos.next;
    ghost var k := 1;
    while pos != head
      invariant 1 <= k <= |r| && visited == Seen(r, k) && pos == At(r, k)
      invariant Ring(Visited(r, gone, k)) && n == pos.next
      decreases |r| - k
    {
      visited := visited + [pos];
      pos, n := VisitRound(pos, n, gone, r, k);
      k := k + 1;
    }
  }
}
