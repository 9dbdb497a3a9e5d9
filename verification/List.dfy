/** The intrusive doubly linked list (source/sosal/list.c) and what its sorted
    insertion, its search and its scoring mean on the sequence of node data.
 */
module ListOrder {

  // A caller's comparator, read in the direction of the sort.
  function Towards<T>(compare: (T, T) -> int, ascending: bool, a: T, b: T): int {
    if ascending then compare(a, b) else -compare(a, b)
  }

  // Where insertion puts `x` when its cursor has come to position i; -1 if it
  // runs off the end.  A missing next node compares as 0.
  function InsertFrom<T>(compare: (T, T) -> int, ascending: bool, s: seq<T>, x: T, i: nat): int
    decreases |s| - i
  {
    if i >= |s| then -1
    else if Towards(compare, ascending, x, s[i]) < 0 then i
    else if Towards(compare, ascending, s[i], x) <= 0 && (i + 1 == |s| || Towards(compare, ascending, x, s[i + 1]) <= 0)
        then i + 1
    else InsertFrom(compare, ascending, s, x, i + 1)
  }

  function InsertPosition<T>(compare: (T, T) -> int, ascending: bool, s: seq<T>, x: T): int {
    if s == [] then 0 else InsertFrom(compare, ascending, s, x, 0)
  }

  function Splice<T>(s: seq<T>, p: int, x: T): seq<T>
    requires 0 <= p <= |s|
  {
    s[..p] + [x] + s[p..]
  }

  function Cut<T>(s: seq<T>, k: int): seq<T>
    requires 0 <= k < |s|
  {
    s[..k] + s[k + 1..]
  }

  ghost predicate TotalPreorder<T(!new)>(compare: (T, T) -> int) {
    && (forall a, b :: compare(a, b) < 0 <==> compare(b, a) > 0)
    && (forall a, b, c :: compare(a, b) <= 0 && compare(b, c) <= 0 ==> compare(a, c) <= 0)
  }

  ghost predicate Sorted<T>(compare: (T, T) -> int, ascending: bool, s: seq<T>) {
    forall i, j :: 0 <= i < j < |s| ==> Towards(compare, ascending, s[i], s[j]) <= 0
  }

  // The scan finds a place in any list, sorted or not, and the two neighbours it
  // ends up between do not contradict the order.
  lemma {:induction false} InsertAlways<T(!new)>(compare: (T, T) -> int, ascending: bool, s: seq<T>, x: T, i: nat)
    requires TotalPreorder(compare) && i < |s|
    ensures var p := InsertFrom(compare, ascending, s, x, i); i <= p <= |s|
    decreases |s| - i
  {
    assert compare(x, s[i]) < 0 <==> compare(s[i], x) > 0;
    assert compare(s[i], x) < 0 <==> compare(x, s[i]) > 0;
    if Towards(compare, ascending, x, s[i]) >= 0 && i + 1 < |s| && Towards(compare, ascending, x, s[i + 1]) > 0 {
      InsertAlways(compare, ascending, s, x, i + 1);
    }
  }

  // In a sorted list the place is right: nothing before it comes after `x` and
  // nothing behind it comes before.
  lemma {:induction false} InsertBetween<T(!new)>(compare: (T, T) -> int, ascending: bool, s: seq<T>, x: T, i: nat)
    requires TotalPreorder(compare) && Sorted(compare, ascending, s) && i < |s|
    requires forall j :: 0 <= j < i ==> Towards(compare, ascending, s[j], x) <= 0
    requires i > 0 ==> Towards(compare, ascending, x, s[i]) > 0
    ensures var p := InsertFrom(compare, ascending, s, x, i);
            && 0 <= p <= |s|
            && (forall j :: 0 <= j < p ==> Towards(compare, ascending, s[j], x) <= 0)
            && (forall j :: p <= j < |s| ==> Towards(compare, ascending, x, s[j]) <= 0)
    decreases |s| - i
  {
    assert compare(x, s[i]) < 0 <==> compare(s[i], x) > 0;
    assert compare(s[i], x) < 0 <==> compare(x, s[i]) > 0;
    var p := InsertFrom(compare, ascending, s, x, i);
    if Towards(compare, ascending, x, s[i]) < 0 {
      BehindAll(compare, ascending, s, x, i);
    } else if i + 1 == |s| {
    } else if Towards(compare, ascending, x, s[i + 1]) <= 0 {
      BehindAll(compare, ascending, s, x, i + 1);
    } else {
      InsertBetween(compare, ascending, s, x, i + 1);
    }
  }

  // The place among equals: in front of all of them, or behind the first if that is
  // the head of the list.
  lemma InsertExactly<T(!new)>(compare: (T, T) -> int, ascending: bool, s: seq<T>, x: T)
    requires TotalPreorder(compare) && Sorted(compare, ascending, s)
    ensures var p := InsertPosition(compare, ascending, s, x);
            && 0 <= p <= |s|
            && (p == 0 <==> s == [] || Towards(compare, ascending, x, s[0]) < 0)
            && (forall j :: 1 <= j < p ==> Towards(compare, ascending, s[j], x) < 0)
            && (forall j :: p <= j < |s| ==> Towards(compare, ascending, x, s[j]) <= 0)
  {
    if s != [] {
      assert compare(x, s[0]) < 0 <==> compare(s[0], x) > 0;
      assert compare(s[0], x) < 0 <==> compare(x, s[0]) > 0;
      InsertBetween(compare, ascending, s, x, 0);
      StrictlyBefore(compare, ascending, s, x, 0);
    }
  }

  lemma {:induction false} StrictlyBefore<T(!new)>(compare: (T, T) -> int, ascending: bool, s: seq<T>, x: T, i: nat)
    requires TotalPreorder(compare) && i < |s| && (i > 0 ==> Towards(compare, ascending, x, s[i]) > 0)
    ensures forall j :: i + (if i == 0 then 1 else 0) <= j < InsertFrom(compare, ascending, s, x, i) && j < |s| ==>
              Towards(compare, ascending, s[j], x) < 0
    decreases |s| - i
  {
    assert compare(x, s[i]) < 0 <==> compare(s[i], x) > 0;
    assert compare(s[i], x) < 0 <==> compare(x, s[i]) > 0;
    if i + 1 < |s| && Towards(compare, ascending, x, s[i]) >= 0 && Towards(compare, ascending, x, s[i + 1]) > 0 {
      StrictlyBefore(compare, ascending, s, x, i + 1);
    }
  }

  lemma BehindAll<T(!new)>(compare: (T, T) -> int, ascending: bool, s: seq<T>, x: T, p: nat)
    requires TotalPreorder(compare) && Sorted(compare, ascending, s) && p < |s|
    requires Towards(compare, ascending, x, s[p]) <= 0
    ensures forall j :: p <= j < |s| ==> Towards(compare, ascending, x, s[j]) <= 0
  {
    forall j | p < j < |s| ensures Towards(compare, ascending, x, s[j]) <= 0 {
      assert Towards(compare, ascending, s[p], s[j]) <= 0;
      Chain(compare, ascending, x, s[p], s[j]);
    }
  }

  lemma Chain<T(!new)>(compare: (T, T) -> int, ascending: bool, a: T, b: T, c: T)
    requires TotalPreorder(compare)
    requires Towards(compare, ascending, a, b) <= 0 && Towards(compare, ascending, b, c) <= 0
    ensures Towards(compare, ascending, a, c) <= 0
  {
    assert compare(a, b) < 0 <==> compare(b, a) > 0;
    assert compare(b, a) < 0 <==> compare(a, b) > 0;
    assert compare(b, c) < 0 <==> compare(c, b) > 0;
    assert compare(c, b) < 0 <==> compare(b, c) > 0;
    assert compare(a, c) < 0 <==> compare(c, a) > 0;
    assert compare(c, a) < 0 <==> compare(a, c) > 0;
  }

  // Insertion inserts exactly once, keeps a sorted list sorted in either
  // direction, and taking the node out again gives the list back.
  lemma InsertMeaning<T(!new)>(compare: (T, T) -> int, ascending: bool, s: seq<T>, x: T)
    requires TotalPreorder(compare)
    ensures var p := InsertPosition(compare, ascending, s, x);
            && 0 <= p <= |s|
            && multiset(Splice(s, p, x)) == multiset(s) + multiset{x}
            && Cut(Splice(s, p, x), p) == s
            && (Sorted(compare, ascending, s) ==> Sorted(compare, ascending, Splice(s, p, x)))
  {
    var p := InsertPosition(compare, ascending, s, x);
    if s != [] {
      InsertAlways(compare, ascending, s, x, 0);
    }
    SpliceFacts(s, p, x);
    hide Splice, Cut, TotalPreorder;
    if Sorted(compare, ascending, s) {
      if s != [] { InsertBetween(compare, ascending, s, x, 0); }
      hide Sorted, InsertFrom;
      SpliceSorted(compare, ascending, s, x, p);
    }
  }

  lemma SpliceFacts<T>(s: seq<T>, p: nat, x: T)
    requires p <= |s|
    ensures multiset(Splice(s, p, x)) == multiset(s) + multiset{x}
    ensures Cut(Splice(s, p, x), p) == s
  {
    assert s == s[..p] + s[p..];
  }

  lemma SpliceSorted<T>(compare: (T, T) -> int, ascending: bool, s: seq<T>, x: T, p: nat)
    requires Sorted(compare, ascending, s) && p <= |s|
    requires forall j :: 0 <= j < p ==> Towards(compare, ascending, s[j], x) <= 0
    requires forall j :: p <= j < |s| ==> Towards(compare, ascending, x, s[j]) <= 0
    ensures Sorted(compare, ascending, Splice(s, p, x))
  {
    var r := Splice(s, p, x);
    forall i, j | 0 <= i < j < |r| ensures Towards(compare, ascending, r[i], r[j]) <= 0 {
      if i < p { assert r[i] == s[i]; } else if i > p { assert r[i] == s[i - 1]; }
      if j < p { assert r[j] == s[j]; } else if j > p { assert r[j] == s[j - 1]; }
    }
  }

  lemma CutThenSplice<T>(s: seq<T>, k: nat)
    requires k < |s|
    ensures Splice(Cut(s, k), k, s[k]) == s
    ensures multiset(s) == multiset(Cut(s, k)) + multiset{s[k]}
  {
    var c := Cut(s, k);
    assert c[..k] == s[..k];
    assert c[k..] == s[k + 1..];
    assert s == s[..k] + [s[k]] + s[k + 1..];
  }

  // ---- searching and scoring --------------------------------------------------

  // The first position whose datum matches `x`; the length if there is none.
  function Match<T>(compare: (T, T) -> int, s: seq<T>, x: T, i: nat): (k: nat)
    requires i <= |s|
    ensures i <= k <= |s|
    ensures k < |s| ==> compare(s[k], x) == 0
    ensures forall j :: i <= j < k ==> compare(s[j], x) != 0
    decreases |s| - i
  {
    if i == |s| || compare(s[i], x) == 0 then i else Match(compare, s, x, i + 1)
  }

  // `k` is the first position of the highest score, if any score is positive.
  ghost predicate IsBest<T>(rate: (T, T) -> nat, s: seq<T>, x: T, k: nat) {
    if k < |s| then
      && rate(s[k], x) > 0
      && (forall j :: 0 <= j < |s| ==> rate(s[j], x) <= rate(s[k], x))
      && (forall j :: 0 <= j < k ==> rate(s[j], x) < rate(s[k], x))
    else k == |s| && forall j :: 0 <= j < |s| ==> rate(s[j], x) == 0
  }

  // The position a scan with a running maximum ends up with.
  function BestIndex<T>(rate: (T, T) -> nat, s: seq<T>, x: T): (k: nat)
    ensures IsBest(rate, s, x, k)
  {
    if s == [] then 0
    else
      var n := |s| - 1;
      assert forall j :: 0 <= j < n ==> s[..n][j] == s[j];
      var k := BestIndex(rate, s[..n], x);
      if (if k == n then 0 else rate(s[k], x)) < rate(s[n], x) then n
      else if k == n then n + 1
      else k
  }

  lemma BestIsUnique<T>(rate: (T, T) -> nat, s: seq<T>, x: T, k: nat, l: nat)
    requires IsBest(rate, s, x, k) && IsBest(rate, s, x, l)
    ensures k == l
  {
    assert k < |s| && l < |s| ==> rate(s[k], x) <= rate(s[l], x) && rate(s[l], x) <= rate(s[k], x);
  }
}

module List {
  import opened ListOrder

  class Node<T> {
    var next: Node?<T>
    var prev: Node?<T>
    var data: T

    constructor (data: T)
      ensures this.data == data && next == null && prev == null
    {
      this.data := data;
      next, prev := null, null;
    }
  }

  ghost predicate Distinct<T>(s: seq<Node<T>>) {
    forall i, j :: 0 <= i < j < |s| ==> s[i] != s[j]
  }

  ghost function At<T>(s: seq<Node<T>>, i: int): Node?<T> {
    if 0 <= i < |s| then s[i] else null
  }

  ghost predicate Linked<T>(s: seq<Node<T>>)
    reads s
  {
    && (forall i {:trigger s[i].next} | 0 <= i < |s| :: s[i].next == At(s, i + 1))
    && (forall i {:trigger s[i].prev} | 0 <= i < |s| :: s[i].prev == At(s, i - 1))
  }

  ghost function DataOf<T>(s: seq<Node<T>>): (d: seq<T>)
    reads s
    ensures |d| == |s| && forall i {:trigger d[i]} :: 0 <= i < |s| ==> d[i] == s[i].data
  {
    seq(|s|, i requires 0 <= i < |s| reads s => s[i].data)
  }

  // A list whose links already lead through `x` between p-1 and p.
  lemma LinkedSplice<T>(s: seq<Node<T>>, x: Node<T>, p: nat)
    requires p <= |s| && Distinct(s) && x !in s
    requires forall i {:trigger s[i].next} | 0 <= i < |s| :: s[i].next == (if i == p - 1 then x else At(s, i + 1))
    requires forall i {:trigger s[i].prev} | 0 <= i < |s| :: s[i].prev == (if i == p then x else At(s, i - 1))
    requires x.next == At(s, p) && x.prev == At(s, p - 1)
    ensures Distinct(Splice(s, p, x)) && Linked(Splice(s, p, x))
  {
    var r := Splice(s, p, x);
    forall i | 0 <= i < |r| ensures r[i].next == At(r, i + 1) && r[i].prev == At(r, i - 1) {
      if i < p { assert r[i] == s[i]; } else if i > p { assert r[i] == s[i - 1]; }
    }
  }

  // A list whose links already bypass the node at `k`.
  lemma LinkedCut<T>(s: seq<Node<T>>, k: nat)
    requires k < |s| && Distinct(s)
    requires forall i {:trigger s[i].next} | 0 <= i < |s| && i != k ::
             s[i].next == (if i == k - 1 then At(s, k + 1) else At(s, i + 1))
    requires forall i {:trigger s[i].prev} | 0 <= i < |s| && i != k ::
             s[i].prev == (if i == k + 1 then At(s, k - 1) else At(s, i - 1))
    ensures Distinct(Cut(s, k)) && Linked(Cut(s, k))
  {
    var r := Cut(s, k);
    forall i | 0 <= i < |r| ensures r[i].next == At(r, i + 1) && r[i].prev == At(r, i - 1) {
      assert r[i] == s[if i < k then i else i + 1];
    }
  }

  lemma DataSplice<T>(s: seq<Node<T>>, p: nat, x: Node<T>)
    requires p <= |s|
    ensures DataOf(Splice(s, p, x)) == Splice(DataOf(s), p, x.data)
  {
    var r := Splice(s, p, x);
    forall i | 0 <= i < |r| ensures DataOf(r)[i] == Splice(DataOf(s), p, x.data)[i] {
      if i < p { assert r[i] == s[i]; } else if i > p { assert r[i] == s[i - 1]; }
    }
  }

  lemma DataCut<T>(s: seq<Node<T>>, k: nat)
    requires k < |s|
    ensures DataOf(Cut(s, k)) == Cut(DataOf(s), k)
  {
    var r := Cut(s, k);
    forall i | 0 <= i < |r| ensures DataOf(r)[i] == Cut(DataOf(s), k)[i] {
      assert r[i] == s[if i < k then i else i + 1];
    }
  }

  twostate lemma DataKept<T>(s: seq<Node<T>>)
    requires forall i {:trigger s[i].data} :: 0 <= i < |s| ==> s[i].data == old(s[i].data)
    ensures DataOf(s) == old(DataOf(s))
  {
  }

  class List<T> {
    var head: Node?<T>
    var tail: Node?<T>

    ghost var Nodes: seq<Node<T>>

    ghost function Footprint(): set<Node<T>>
      reads this
    {
      set n | n in Nodes
    }

    constructor ()
      ensures Valid() && Nodes == []
    {
      head, tail, Nodes := null, null, [];
    }

    // Everything but the tail pointer.
    ghost predicate Chain()
      reads this, Footprint()
    {
      Distinct(Nodes) && Linked(Nodes) && head == At(Nodes, 0)
    }

    ghost predicate Valid()
      reads this, Footprint()
    {
      Chain() && tail == At(Nodes, |Nodes| - 1)
    }

    // The tail pointer still shows a node that has been cleared and taken out of
    // a list that is not empty.  Only heap_free leaves a list like this.
    ghost predicate Stale()
      reads this, Footprint(), tail
    {
      Chain() && Nodes != [] && tail != null && tail !in Nodes && tail.next == null && tail.prev == null
    }

    lemma Members()
      ensures forall n :: n in Nodes <==> n in Footprint()
    {
    }

    static lemma SpliceMembers(s: seq<Node<T>>, p: nat, x: Node<T>)
      requires p <= |s|
      ensures (set n | n in Splice(s, p, x)) == (set n | n in s) + {x}
    {
      assert s == s[..p] + s[p..];
    }

    static lemma CutMembers(s: seq<Node<T>>, k: nat)
      requires k < |s| && Distinct(s)
      ensures (set n | n in Cut(s, k)) == (set n | n in s) - {s[k]}
    {
      var c := Cut(s, k);
      assert s == s[..k] + [s[k]] + s[k + 1..];
      forall i | 0 <= i < |c| ensures c[i] != s[k] && c[i] in s {
        assert c[i] == s[if i < k then i else i + 1];
      }
    }

    lemma HasChain()
      ensures Valid() || Stale() ==> Chain()
    {
    }

    lemma IsDistinct()
      ensures Valid() || Stale() ==> Distinct(Nodes)
    {
    }

    lemma EmptyFacts()
      ensures Nodes == [] ==> Footprint() == {} && Data() == []
    {
    }

    lemma TailIn()
      ensures Valid() && tail != null ==> tail in Footprint()
    {
    }

    lemma StaleFacts()
      ensures !(Valid() && Stale())
      ensures Stale() ==> Nodes != [] && tail != null && tail !in Nodes
    {
      assert Stale() && Nodes != [] ==> Nodes[|Nodes| - 1] in Nodes;
    }

    ghost function Data(): seq<T>
      reads this, Footprint()
    {
      DataOf(Nodes)
    }

    // ---- the two ends ---------------------------------------------------------

    method Append(node: Node<T>)
      requires Valid() && node !in Nodes
      modifies this, Footprint()`next, node`next, node`prev
      ensures Valid() && Nodes == old(Nodes) + [node]
    {
      ghost var n := |Nodes|;
      if tail != null {
        assert tail != node;
        tail.next := node;
        node.prev := tail;
      } else {
        node.prev := null;
        head := node;
      }
      node.next := null;
      tail := node;
      Nodes := Nodes + [node];
      LinkedSplice(old(Nodes), node, n);
      assert Splice(old(Nodes), n, node) == Nodes;
    }

    method Push(node: Node<T>)
      requires Valid() && node !in Nodes
      modifies this, Footprint()`prev, node`next, node`prev
      ensures Valid() && Nodes == [node] + old(Nodes)
    {
      if head != null {
        assert head != node;
        head.prev := node;
        node.next := head;
      } else {
        node.next := null;
        tail := node;
      }
      node.prev := null;
      head := node;
      Nodes := [node] + Nodes;
      LinkedSplice(old(Nodes), node, 0);
      assert Splice(old(Nodes), 0, node) == Nodes;
    }

    // Taking the head off does not look at the tail unless the list becomes empty.
    method Pop() returns (node: Node?<T>)
      requires Valid() || Stale()
      modifies this, Footprint()`next, Footprint()`prev
      ensures node == At(old(Nodes), 0)
      ensures node != null ==> node !in Nodes && node.next == null && node.prev == null
      ensures Nodes == if old(Nodes) == [] then [] else Cut(old(Nodes), 0)
      ensures node != null ==> node in old(Footprint()) && Footprint() == old(Footprint()) - {node}
      ensures old(Valid()) ==> Valid()
      ensures old(Stale()) ==> if Nodes == [] then Valid() else Stale() && tail == old(tail)
    {
      node := null;
      if head != null {
        node := head;
        assert node != head.next;
        head := head.next;
        if head != null {
          head.prev := null;
        } else {
          tail := null;
        }
        node.next := null;
        node.prev := null;
        Nodes := Cut(Nodes, 0);
        LinkedCut(old(Nodes), 0);
        CutMembers(old(Nodes), 0);
      }
    }

    // Taking the tail off trusts the tail pointer: with a stale one it hands out
    // the cleared node and, finding nothing before it, empties the list.
    method Trim() returns (node: Node?<T>)
      requires Valid() || Stale()
      modifies this, Footprint()`next, Footprint()`prev, (if tail == null then {} else {tail})`next,
          (if tail == null then {} else {tail})`prev
      ensures node == old(tail)
      ensures node != null ==> node !in Nodes && node.next == null && node.prev == null
      ensures Valid()
      ensures Nodes == if old(Stale()) || old(Nodes) == [] then [] else Cut(old(Nodes), |old(Nodes)| - 1)
    {
      node := null;
      if tail != null {
        node := tail;
        ghost var n := |Nodes| - 1;
        assert node != tail.prev;
        tail := tail.prev;
        if tail != null {
          tail.next := null;
        } else {
          head := null;
        }
        node.prev := null;
        node.next := null;
        if node in Nodes {
          Nodes := Cut(Nodes, n);
          LinkedCut(old(Nodes), n);
        } else {
          Nodes := [];
        }
      }
    }

    // ---- sorted insertion -----------------------------------------------------

    method InsertFirst(node: Node<T>)
      requires Valid() && Nodes == []
      modifies this, node`next, node`prev
      ensures Valid() && Nodes == Splice([], 0, node) && Data() == Splice([], 0, node.data)
    {
      head := node;
      tail := node;
      node.prev := null;
      node.next := null;
      Nodes := [node];
    }

    method InsertBefore(n: Node<T>, node: Node<T>, ghost k: nat)
      requires (Valid() || Stale()) && k < |Nodes| && n == Nodes[k] && node !in Nodes && node != tail
      modifies this, Footprint()`next, Footprint()`prev, node`next, node`prev
      ensures Nodes == Splice(old(Nodes), k, node) && tail == old(tail) && Data() == Splice(old(Data()), k, node.data)
      ensures old(Valid()) ==> Valid()
      ensures old(Stale()) ==> Stale()
    {
      node.next := n;
      node.prev := n.prev;
      if n.prev != null {
        n.prev.next := node;
      }
      n.prev := node;
      if n == head {
        head := node;
      }
      Nodes := Splice(Nodes, k, node);
      LinkedSplice(old(Nodes), node, k);
      hide Splice, Distinct, Linked;
      DataSplice(old(Nodes), k, node);
      DataKept(old(Nodes));
    }

    method InsertAfter(n: Node<T>, node: Node<T>, ghost k: nat)
      requires (Valid() || Stale()) && k < |Nodes| && n == Nodes[k] && node !in Nodes && node != tail
      modifies this, Footprint()`next, Footprint()`prev, node`next, node`prev
      ensures Nodes == Splice(old(Nodes), k + 1, node) && Data() == Splice(old(Data()), k + 1, node.data)
      ensures old(Valid()) ==> Valid()
      ensures old(Stale()) ==> Stale() && tail == old(tail)
    {
      node.next := n.next;
      node.prev := n;
      if n.next != null {
        n.next.prev := node;
      }
      n.next := node;
      if n == tail {
        tail := node;
      }
      Nodes := Splice(Nodes, k + 1, node);
      LinkedSplice(old(Nodes), node, k + 1);
      hide Splice, Distinct, Linked;
      DataSplice(old(Nodes), k + 1, node);
      DataKept(old(Nodes));
    }

    method Insert(node: Node<T>, compare: (T, T) -> int, ascending: bool) returns (inserted: Node?<T>)
      requires (Valid() || Stale()) && node !in Nodes && node != tail
      modifies this, Footprint()`next, Footprint()`prev, node`next, node`prev
      ensures var p := InsertPosition(compare, ascending, old(Data()), node.data);
              p <= |old(Nodes)| &&
              if p >= 0 then inserted == node && Nodes == Splice(old(Nodes), p, node)
              else inserted == null && Nodes == old(Nodes)
      ensures inserted != null ==> Footprint() == old(Footprint()) + {node}
      ensures var p := InsertPosition(compare, ascending, old(Data()), node.data);
              p <= |old(Nodes)| && Data() == if p >= 0 then Splice(old(Data()), p, node.data) else old(Data())
      ensures old(Valid()) ==> Valid()
      ensures old(Stale()) ==> Stale() && tail == old(tail)
    {
      hide Splice, Distinct;
      if head == null {
        InsertFirst(node);
        SpliceMembers([], 0, node);
        return node;
      }
      ghost var d := Data();
      var n := head;
      ghost var k := 0;
      while n != null
        invariant 0 <= k <= |Nodes| && n == At(Nodes, k)
        invariant InsertPosition(compare, ascending, d, node.data) == InsertFrom(compare, ascending, d, node.data, k)
        invariant unchanged(this) && unchanged(Footprint()) && unchanged(node)
        decreases |Nodes| - k
      {
        if Towards(compare, ascending, node.data, n.data) < 0 {
          InsertBefore(n, node, k);
          SpliceMembers(old(Nodes), k, node);
          return node;
        } else if Towards(compare, ascending, n.data, node.data) <= 0
                  && (n.next == null || Towards(compare, ascending, node.data, n.next.data) <= 0) {
          InsertAfter(n, node, k);
          SpliceMembers(old(Nodes), k + 1, node);
          return node;
        }
        n := n.next;
        k := k + 1;
      }
      inserted := null;
    }

    // ---- taking a node out ----------------------------------------------------

    method Unlink(node: Node<T>, ghost k: nat)
      requires (Valid() || Stale()) && 0 < k < |Nodes| - 1 && node == Nodes[k]
      modifies this`Nodes, Footprint()`next, Footprint()`prev
      ensures Nodes == Cut(old(Nodes), k)
      ensures old(Valid()) ==> Valid()
      ensures old(Stale()) ==> Stale() && tail == old(tail)
      ensures node !in Nodes
    {
      node.next.prev := node.prev;
      node.prev.next := node.next;
      Nodes := Cut(Nodes, k);
      LinkedCut(old(Nodes), k);
    }

    lemma Neighbours(k: nat)
      requires Valid() || Stale()
      requires k < |Nodes|
      ensures Nodes[k].next == At(Nodes, k + 1) && Nodes[k].prev == At(Nodes, k - 1)
    {
    }

    // With a proper tail the node comes out and the rest stays.  With a stale one
    // the same holds, except for the last of several nodes: then the stale node
    // comes out instead and the list is lost.
    method Extract(node: Node<T>, ghost k: nat) returns (out: Node?<T>)
      requires (Valid() || Stale()) && k < |Nodes| && node == Nodes[k]
      modifies this, Footprint()`next, Footprint()`prev, tail`next, tail`prev
      ensures !(old(Stale()) && 0 < k == |old(Nodes)| - 1) ==>
              out == node && Nodes == Cut(old(Nodes), k) && Data() == Cut(old(Data()), k)
      ensures !(old(Stale()) && 0 < k == |old(Nodes)| - 1) ==> Footprint() == old(Footprint()) - {node}
      ensures old(Stale()) && 0 < k == |old(Nodes)| - 1 ==> out == old(tail) && Nodes == [] && Valid()
      ensures out != null && out.next == null && out.prev == null
      ensures old(Valid()) ==> Valid()
      ensures old(Stale()) ==> if Nodes == [] then Valid() else Stale() && tail == old(tail)
    {
      Neighbours(k);
      CutMembers(Nodes, k);
      hide Linked, Distinct, DataOf, Cut;
      out := node;
      if node.next == null && node.prev == null {
        out := Pop();
      } else if node.next != null && node.prev == null {
        out := Pop();
      } else if node.next == null && node.prev != null {
        out := Trim();
      } else {
        Unlink(node, k);
      }
      out.next := null;
      out.prev := null;
      DataCut(old(Nodes), k);
      DataKept(old(Nodes));
    }

    // Write the datum of one of the list's nodes.
    method SetData(n: Node<T>, data: T, ghost i: nat)
      requires Distinct(Nodes) && i < |Nodes| && n == Nodes[i]
      modifies n`data
      ensures n.data == data && Data() == old(Data())[i := data]
      ensures old(Valid()) ==> Valid()
      ensures old(Stale()) ==> Stale()
    {
      n.data := data;
    }

    // Unlink the node behind `a` without looking at the tail pointer.  The list
    // module has no such operation; heap_free does this to its free list by hand.
    method UnlinkNext(a: Node<T>, b: Node<T>, ghost i: nat)
      requires (Valid() || Stale()) && i + 1 < |Nodes| && a == Nodes[i] && b == Nodes[i + 1]
      modifies this`Nodes, Footprint()`next, Footprint()`prev
      ensures Nodes == Cut(old(Nodes), i + 1) && Footprint() == old(Footprint()) - {b}
      ensures Data() == Cut(old(Data()), i + 1)
      ensures Valid() || Stale()
      ensures Stale() <==> old(Stale()) || i + 1 == |old(Nodes)| - 1
      ensures tail == b <==> old(Valid()) && i + 1 == |old(Nodes)| - 1
    {
      a.next := b.next;
      if b.next != null {
        b.next.prev := a;
      }
      b.next := null;
      b.prev := null;
      Nodes := Cut(Nodes, i + 1);
      LinkedCut(old(Nodes), i + 1);
      CutMembers(old(Nodes), i + 1);
      DataCut(old(Nodes), i + 1);
      DataKept(old(Nodes));
    }

    // ---- looking through the list ----------------------------------------------

    method Search(x: T, compare: (T, T) -> int) returns (found: Node?<T>)
      requires Chain()
      ensures found == At(Nodes, Match(compare, Data(), x, 0))
    {
      found := head;
      ghost var k := 0;
      while found != null
        invariant 0 <= k <= |Nodes| && found == At(Nodes, k)
        invariant Match(compare, Data(), x, 0) == Match(compare, Data(), x, k)
        decreases |Nodes| - k
      {
        if compare(found.data, x) == 0 {
          break;
        }
        found := found.next;
        k := k + 1;
      }
    }

    method Score(x: T, rate: (T, T) -> nat) returns (best: Node?<T>, ghost b: nat)
      requires Chain()
      ensures b == BestIndex(rate, Data(), x) && best == At(Nodes, BestIndex(rate, Data(), x))
    {
      var temp := head;
      best := null;
      b := |Nodes|;
      var rating := 0;
      ghost var k := 0;
      while temp != null
        invariant 0 <= k <= |Nodes| && temp == At(Nodes, k)
        invariant best == At(Nodes, b) && if best == null then b == |Nodes| && rating == 0
                  else b < k && rating == rate(Data()[b], x) && rating > 0
        invariant forall j :: 0 <= j < k ==> rate(Data()[j], x) <= rating
        invariant forall j :: 0 <= j < b && j < k ==> best == null || rate(Data()[j], x) < rating
        decreases |Nodes| - k
      {
        var score := rate(temp.data, x);
        if rating < score {
          rating := score;
          best := temp;
          b := k;
        }
        assert temp != temp.next;
        temp := temp.next;
        k := k + 1;
      }
      BestIsUnique(rate, Data(), x, b, BestIndex(rate, Data(), x));
    }

    method Length() returns (len: nat)
      requires Chain()
      ensures len == |Nodes|
    {
      len := 0;
      var temp := head;
      while temp != null
        invariant len <= |Nodes| && temp == At(Nodes, len)
        decreases |Nodes| - len
      {
        len := len + 1;
        temp := temp.next;
      }
    }

    method RemoveMatch(x: T, compare: (T, T) -> int) returns (found: Node?<T>)
      requires Valid()
      modifies this, Footprint()`next, Footprint()`prev
      ensures Valid()
      ensures var k := Match(compare, old(Data()), x, 0);
              && found == At(old(Nodes), k) && Nodes == (if k < |old(Nodes)| then Cut(old(Nodes), k) else old(Nodes))
              && Data() == (if k < |old(Nodes)| then Cut(old(Data()), k) else old(Data()))
      ensures if found == null then Footprint() == old(Footprint())
              else found in old(Footprint()) && Footprint() == old(Footprint()) - {found}
      ensures found != null ==> found.next == null && found.prev == null
    {
      found := Search(x, compare);
      if found != null {
        found := Extract(found, Match(compare, Data(), x, 0));
      }
    }
  }

  // A list none of whose objects was written is the list it was.
  twostate lemma ListKept<T>(l: List<T>)
    requires unchanged(l) && unchanged(old(l.Footprint()))
    ensures l.Footprint() == old(l.Footprint())
    ensures l.Valid() == old(l.Valid()) && l.Data() == old(l.Data())
    ensures (old(l.tail) == null || unchanged(l.tail)) ==> l.Stale() == old(l.Stale())
  {
  }
}
