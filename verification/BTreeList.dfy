/** The balanced search tree threaded through a sorted doubly linked list
    (source/sosal/btreelist.c).

    Three views of one structure are kept: the list links `next`/`prev`, the
    tree links `left`/`right`, and the array of node pointers from which the
    tree is rebuilt after every change.  The ghost sequence `Nodes` is the list
    in order; every other view is stated against it.
 */
module BTreeOrder {

  // The two callbacks a caller supplies.  `sort(a, b)` is 1 when `a` comes
  // before `b`, -1 when it comes after, and 0 when they clash.  Clashing need
  // not be transitive: the address-range comparators of the repository return
  // 0 for "any overlap".
  ghost predicate LawfulSort<T(!new)>(sort: (T, T) -> int) {
    && (forall a, b :: sort(a, b) == -1 || sort(a, b) == 0 || sort(a, b) == 1)
    && (forall a, b :: sort(a, b) == -sort(b, a))
    && (forall a, b, c :: sort(a, b) == 1 && sort(b, c) == 1 ==> sort(a, c) == 1)
  }

  // `compare(a, v)` is 1 when the value lies beyond `a`, -1 when it lies before
  // `a`, and 0 when `a` answers to it.
  ghost predicate Agrees<T(!new), V(!new)>(sort: (T, T) -> int, compare: (T, V) -> int) {
    && (forall a, v :: compare(a, v) == -1 || compare(a, v) == 0 || compare(a, v) == 1)
    && (forall a, b, v :: sort(a, b) == 1 && compare(a, v) <= 0 ==> compare(b, v) == -1)
    && (forall a, b, v :: sort(a, b) == 1 && compare(b, v) >= 0 ==> compare(a, v) == 1)
  }

  ghost predicate StrictlySorted<T>(sort: (T, T) -> int, items: seq<T>) {
    forall i, j :: 0 <= i < j < |items| ==> sort(items[i], items[j]) == 1
  }

  // What adding means: walk the list from its head, step over what comes before
  // the new item, stop at the first item that does not, and give up on a clash.
  ghost function AddByScan<T>(sort: (T, T) -> int, items: seq<T>, x: T): seq<T> {
    if items == [] then [x]
    else if sort(items[0], x) == 1 then [items[0]] + AddByScan(sort, items[1..], x)
    else if sort(items[0], x) == 0 then items
    else [x] + items
  }

  // What looking up means: the first item of the list that answers to the value.
  ghost function FindByScan<T, V>(compare: (T, V) -> int, items: seq<T>, v: V): (k: nat)
    ensures k <= |items|
    ensures k < |items| ==> compare(items[k], v) == 0
    ensures forall i :: 0 <= i < k ==> compare(items[i], v) != 0
  {
    if items == [] then 0
    else if compare(items[0], v) == 0 then 0
    else
      var k := FindByScan(compare, items[1..], v);
      assert forall i :: 1 <= i <= k ==> items[i] == items[1..][i - 1];
      k + 1
  }

  // What removing means: drop the first item that answers, if there is one.
  ghost function RemoveByScan<T, V>(compare: (T, V) -> int, items: seq<T>, v: V): seq<T> {
    var k := FindByScan(compare, items, v);
    if k < |items| then items[..k] + items[k + 1..] else items
  }

  // A position splits the list exactly when the scan inserts there.
  lemma {:induction false} AddByScanAt<T>(sort: (T, T) -> int, items: seq<T>, x: T, p: nat)
    requires p <= |items|
    requires forall i :: 0 <= i < p ==> sort(items[i], x) == 1
    requires p < |items| ==> sort(items[p], x) == -1
    ensures AddByScan(sort, items, x) == items[..p] + [x] + items[p..]
  {
    if p == 0 {
      assert items[..0] + [x] + items[0..] == [x] + items;
    } else {
      AddByScanAt(sort, items[1..], x, p - 1);
      assert items[..p] + [x] + items[p..] == [items[0]] + (items[1..][..p - 1] + [x] + items[1..][p - 1..]);
    }
  }

  lemma {:induction false} AddByScanClash<T>(sort: (T, T) -> int, items: seq<T>, x: T, p: nat)
    requires p < |items|
    requires forall i :: 0 <= i < p ==> sort(items[i], x) == 1
    requires sort(items[p], x) == 0
    ensures AddByScan(sort, items, x) == items
  {
    if p != 0 {
      AddByScanClash(sort, items[1..], x, p - 1);
      assert items == [items[0]] + items[1..];
    }
  }

  // Seen from any item of a sorted list, everything earlier is before and
  // everything later is after; only strict order needs to be transitive.
  lemma Monotone<T(!new)>(sort: (T, T) -> int, items: seq<T>, x: T, m: nat)
    requires LawfulSort(sort) && StrictlySorted(sort, items) && m < |items|
    ensures sort(items[m], x) == 1 ==> forall i :: 0 <= i <= m ==> sort(items[i], x) == 1
    ensures sort(items[m], x) == -1 ==> forall i :: m <= i < |items| ==> sort(items[i], x) == -1
  {
    forall i | m <= i < |items| && sort(items[m], x) == -1 ensures sort(items[i], x) == -1 {
      assert sort(x, items[m]) == 1;
      if m < i { assert sort(x, items[i]) == 1; }
    }
  }

  // Putting an item between what is before it and what is after it.
  lemma SpliceSorted<T(!new)>(sort: (T, T) -> int, items: seq<T>, x: T, p: nat)
    requires LawfulSort(sort) && StrictlySorted(sort, items) && p <= |items|
    requires forall i :: 0 <= i < p ==> sort(items[i], x) == 1
    requires forall i :: p <= i < |items| ==> sort(items[i], x) == -1
    ensures StrictlySorted(sort, items[..p] + [x] + items[p..])
  {
    var r := items[..p] + [x] + items[p..];
    forall i, j | 0 <= i < j < |r| ensures sort(r[i], r[j]) == 1 {
      if i == p {
        assert sort(items[j - 1], x) == -1;
        assert sort(x, items[j - 1]) == -sort(items[j - 1], x);
      } else if j == p {
        assert r[i] == items[i];
      } else {
        assert r[i] == items[if i < p then i else i - 1] && r[j] == items[if j < p then j else j - 1];
      }
    }
  }

  // Set semantics: an added item is in, a clashing item keeps the list as it
  // was, nothing else comes or goes, and the result is strictly sorted again.
  lemma {:induction false} AddIsSetInsert<T(!new)>(sort: (T, T) -> int, items: seq<T>, x: T)
    requires LawfulSort(sort) && StrictlySorted(sort, items)
    ensures StrictlySorted(sort, AddByScan(sort, items, x))
    ensures multiset(AddByScan(sort, items, x)) ==
            if exists i :: 0 <= i < |items| && sort(items[i], x) == 0 then multiset(items)
                else multiset(items) + multiset{x}
  {
    var p := FirstNotBefore(sort, items, x);
    if p < |items| && sort(items[p], x) == 0 {
      AddByScanClash(sort, items, x, p);
    } else {
      if p < |items| { Monotone(sort, items, x, p); }
      AddByScanAt(sort, items, x, p);
      SpliceSorted(sort, items, x, p);
      SpliceMultiset(items, x, p);
    }
  }

  lemma SpliceMultiset<T>(items: seq<T>, x: T, p: nat)
    requires p <= |items|
    ensures multiset(items[..p] + [x] + items[p..]) == multiset(items) + multiset{x}
  {
    assert items == items[..p] + items[p..];
  }

  lemma {:induction false} FirstNotBefore<T>(sort: (T, T) -> int, items: seq<T>, x: T) returns (p: nat)
    ensures p <= |items|
    ensures forall i :: 0 <= i < p ==> sort(items[i], x) == 1
    ensures p < |items| ==> sort(items[p], x) != 1
  {
    p := 0;
    while p < |items| && sort(items[p], x) == 1
      invariant p <= |items|
      invariant forall i :: 0 <= i < p ==> sort(items[i], x) == 1
    {
      p := p + 1;
    }
  }

  // In a sorted list at most one item answers to a value, so removing by value
  // deletes exactly the items that answer to it.
  lemma {:induction false} RemoveIsSetDelete<T(!new), V(!new)>(sort: (T, T) -> int, compare: (T, V) -> int,
                                               items: seq<T>, v: V)
    requires LawfulSort(sort) && Agrees(sort, compare) && StrictlySorted(sort, items)
    ensures StrictlySorted(sort, RemoveByScan(compare, items, v))
    ensures forall x :: x in RemoveByScan(compare, items, v) <==> x in items && compare(x, v) != 0
  {
    var k := FindByScan(compare, items, v);
    var rest := RemoveByScan(compare, items, v);
    if k < |items| {
      assert forall i :: k < i < |items| ==> compare(items[i], v) == -1;
      forall x | x in items && compare(x, v) != 0 ensures x in rest {
        var i :| 0 <= i < |items| && items[i] == x;
        if i < k { assert rest[i] == x; } else { assert rest[i - 1] == x; }
      }
    }
  }

  // Adding an item that clashes with nothing and then removing by a value it
  // answers to gives the list back.
  lemma AddThenRemove<T(!new), V(!new)>(sort: (T, T) -> int, compare: (T, V) -> int, items: seq<T>, x: T, v: V)
    requires LawfulSort(sort) && Agrees(sort, compare) && StrictlySorted(sort, items)
    requires compare(x, v) == 0 && forall i :: 0 <= i < |items| ==> sort(items[i], x) != 0
    ensures RemoveByScan(compare, AddByScan(sort, items, x), v) == items
  {
    var p := FirstNotBefore(sort, items, x);
    if p < |items| { Monotone(sort, items, x, p); }
    AddByScanAt(sort, items, x, p);
    assert forall i :: 0 <= i < p ==> compare(items[i], v) == 1;
    RemoveSpliced(compare, items, x, v, p);
  }

  lemma RemoveSpliced<T, V>(compare: (T, V) -> int, items: seq<T>, x: T, v: V, p: nat)
    requires p <= |items| && compare(x, v) == 0
    requires forall i :: 0 <= i < p ==> compare(items[i], v) != 0
    ensures RemoveByScan(compare, items[..p] + [x] + items[p..], v) == items
  {
    var r := items[..p] + [x] + items[p..];
    assert forall i :: 0 <= i < p ==> r[i] == items[i];
    assert compare(r[p], v) == 0;
    assert FindByScan(compare, r, v) == p;
    assert r[..p] + r[p + 1..] == items;
  }

  // ---- whole runs, by scanning ---------------------------------------------

  datatype Op<T, V> = AddOp(item: T) | RemoveOp(value: V)

  ghost function RunByScan<T, V>(sort: (T, T) -> int, compare: (T, V) -> int, items: seq<T>,
                                 ops: seq<Op<T, V>>): seq<T> {
    if ops == [] then items
    else
      var before := RunByScan(sort, compare, items, ops[..|ops| - 1]);
      match ops[|ops| - 1]
      case AddOp(x) => AddByScan(sort, before, x)
      case RemoveOp(v) => RemoveByScan(compare, before, v)
  }

  lemma RunOne<T, V>(sort: (T, T) -> int, compare: (T, V) -> int, items: seq<T>, op: Op<T, V>)
    ensures RunByScan(sort, compare, items, [op])
         == if op.AddOp? then AddByScan(sort, items, op.item) else RemoveByScan(compare, items, op.value)
  {
    assert [op][..0] == [];
  }

  lemma RunSnoc<T, V>(sort: (T, T) -> int, compare: (T, V) -> int, items: seq<T>, ops: seq<Op<T, V>>, op: Op<T, V>)
    ensures RunByScan(sort, compare, items, ops + [op])
            == RunByScan(sort, compare, RunByScan(sort, compare, items, ops), [op])
  {
    assert (ops + [op])[..|ops|] == ops;
    assert [op][..0] == [];
  }

  lemma {:induction false} RunStaysSorted<T(!new), V(!new)>(sort: (T, T) -> int, compare: (T, V) -> int, items: seq<T>,
                                            ops: seq<Op<T, V>>)
    requires LawfulSort(sort) && Agrees(sort, compare) && StrictlySorted(sort, items)
    ensures StrictlySorted(sort, RunByScan(sort, compare, items, ops))
  {
    if ops != [] {
      var before := RunByScan(sort, compare, items, ops[..|ops| - 1]);
      RunStaysSorted(sort, compare, items, ops[..|ops| - 1]);
      match ops[|ops| - 1]
      case AddOp(x) => AddIsSetInsert(sort, before, x);
      case RemoveOp(v) => RemoveIsSetDelete(sort, compare, before, v);
    }
  }

  // ---- the comparators the repository passes in --------------------------

  // The unit test's: both keys are plain values.
  function ValueSort(node: int, obj: int): int {
    if node == obj then 0 else if node > obj then -1 else 1
  }

  function ValueCompare(node: int, value: int): int {
    if node == value then 0 else if node < value then 1 else -1
  }

  // The kernel graph's: a node is a non-empty half-open address range.
  datatype RawRange = RawRange(base: nat, end: nat)
  type Range = r: RawRange | r.base < r.end witness RawRange(0, 1)

  function RangeSort(r: Range, s: Range): int {
    if s.end <= r.base then -1 else if r.end <= s.base then 1 else 0
  }

  function RangeCompare(r: Range, value: nat): int {
    if r.base <= value < r.end then 0 else if value < r.base then -1 else 1
  }

  lemma SuppliedComparatorsAreLawful()
    ensures LawfulSort(ValueSort) && Agrees(ValueSort, ValueCompare)
    ensures LawfulSort(RangeSort) && Agrees(RangeSort, RangeCompare)
    ensures exists a, b, c :: RangeSort(a, b) == 0 && RangeSort(b, c) == 0 && RangeSort(a, c) != 0
    ensures forall r: Range, v: nat :: RangeCompare(r, v) == 0 <==> r.base <= v < r.end
    ensures forall r: Range, s: Range :: RangeSort(r, s) == 0 <==> r.base < s.end && s.base < r.end
    ensures forall r: Range, s: Range :: RangeSort(r, s) == 1 <==> r.end <= s.base
    ensures forall a, v :: ValueCompare(a, v) == 0 <==> a == v
    ensures forall a, b :: ValueSort(a, b) == 1 <==> a < b
  {
    var a: Range, b: Range, c: Range := RawRange(0, 2), RawRange(1, 4), RawRange(3, 5);
    assert RangeSort(a, b) == 0 && RangeSort(b, c) == 0 && RangeSort(a, c) == 1;
  }
}

/** Trees and their heights, as values. */
module BTreeShape {
  import opened Arithmetic

  datatype Tree<N> = Leaf | Fork(left: Tree<N>, node: N, right: Tree<N>)

  ghost function InOrder<N>(t: Tree<N>): seq<N> {
    match t
    case Leaf => []
    case Fork(l, n, r) => InOrder(l) + [n] + InOrder(r)
  }

  function Max(a: nat, b: nat): nat { if a < b then b else a }

  ghost function Height<N>(t: Tree<N>): nat {
    match t
    case Leaf => 0
    case Fork(l, _, r) => 1 + Max(Height(l), Height(r))
  }

  // The least number of bits that can write `count`: floor(log2(count)) + 1 for
  // a positive count, 0 for 0.
  function BitLength(count: nat): nat {
    if count == 0 then 0 else 1 + BitLength(count / 2)
  }

  lemma {:induction false} BitLengthIsLog(count: nat)
    requires count > 0
    ensures Pow2(BitLength(count) - 1) <= count < Pow2(BitLength(count))
  {
    if count > 1 { BitLengthIsLog(count / 2); }
  }

  lemma {:induction false} BitLengthMonotone(a: nat, b: nat)
    requires a <= b
    ensures BitLength(a) <= BitLength(b)
  {
    if a > 0 { BitLengthMonotone(a / 2, b / 2); }
  }

  // The tree the rebuild makes of a list segment: the middle node on top (the
  // left half gets the extra node), each half below it in the same way.
  ghost function Balanced<N>(s: seq<N>): Tree<N> {
    if s == [] then Leaf
    else Fork(Balanced(s[..|s| / 2]), s[|s| / 2], Balanced(s[|s| / 2 + 1..]))
  }

  lemma BalancedSegment<N>(s: seq<N>, lo: int, m: int, hi: int)
    requires 0 <= lo <= m < hi <= |s| && m == lo + (hi - lo) / 2
    ensures Balanced(s[lo..hi]) == Fork(Balanced(s[lo..m]), s[m], Balanced(s[m + 1..hi]))
  {
    var t := s[lo..hi];
    assert |t| / 2 == m - lo && t[m - lo] == s[m];
    assert t[..m - lo] == s[lo..m];
    assert t[m - lo + 1..] == s[m + 1..hi];
  }

  lemma {:induction false} BalancedInOrder<N>(s: seq<N>)
    ensures InOrder(Balanced(s)) == s
  {
    if s != [] {
      BalancedInOrder(s[..|s| / 2]);
      BalancedInOrder(s[|s| / 2 + 1..]);
      assert s == s[..|s| / 2] + [s[|s| / 2]] + s[|s| / 2 + 1..];
    }
  }

  lemma {:induction false} BalancedHeight<N>(s: seq<N>)
    ensures Height(Balanced(s)) == BitLength(|s|)
  {
    if s != [] {
      BalancedHeight(s[..|s| / 2]);
      BalancedHeight(s[|s| / 2 + 1..]);
      BitLengthMonotone(|s| - |s| / 2 - 1, |s| / 2);
    }
  }

  // At every node the left half has as many nodes as the right one, or one more.
  ghost predicate Halved<N>(t: Tree<N>) {
    t.Leaf? ||
    (|InOrder(t.right)| <= |InOrder(t.left)| <= |InOrder(t.right)| + 1 && Halved(t.left) && Halved(t.right))
  }

  lemma InOrderFork<N>(t: Tree<N>)
    requires t.Fork?
    ensures var s, m := InOrder(t), |InOrder(t.left)|;
            |s| == m + 1 + |InOrder(t.right)| && s[m] == t.node
            && s[..m] == InOrder(t.left) && s[m + 1..] == InOrder(t.right)
  {
  }

  lemma BalancedFork<N>(s: seq<N>)
    requires s != []
    ensures Balanced(s) == Fork(Balanced(s[..|s| / 2]), s[|s| / 2], Balanced(s[|s| / 2 + 1..]))
  {
  }

  lemma HalvedFork<N>(t: Tree<N>)
    requires t.Fork?
    ensures Halved(t) <==>
              |InOrder(t.right)| <= |InOrder(t.left)| <= |InOrder(t.right)| + 1 && Halved(t.left) && Halved(t.right)
  {
  }

  // There is only one such tree over a list segment, and it is the one rebuilt.
  lemma {:induction false} BalancedIff<N>(t: Tree<N>)
    ensures Halved(t) <==> t == Balanced(InOrder(t))
  {
    if t.Fork? {
      hide *;
      var s := InOrder(t);
      InOrderFork(t);
      BalancedFork(s);
      HalvedFork(t);
      BalancedIff(t.left);
      BalancedIff(t.right);
      BalancedInOrder(s[..|s| / 2]);
      BalancedInOrder(s[|s| / 2 + 1..]);
    }
  }
}

module BTreeList {
  import opened BTreeOrder
  import opened BTreeShape

  class Node<T> {
    const item: T
    var next: Node?<T>
    var prev: Node?<T>
    var left: Node?<T>
    var right: Node?<T>

    constructor (item: T)
      ensures this.item == item
    {
      this.item := item;
      next, prev, left, right := null, null, null, null;
    }
  }

  ghost predicate Distinct<T>(s: seq<Node<T>>) {
    forall i, j :: 0 <= i < j < |s| ==> s[i] != s[j]
  }

  ghost function ItemsOf<T>(s: seq<Node<T>>): (items: seq<T>)
    ensures |items| == |s| && forall i {:trigger items[i]} :: 0 <= i < |s| ==> items[i] == s[i].item
  {
    seq(|s|, i requires 0 <= i < |s| => s[i].item)
  }

  // ---- list links ---------------------------------------------------------

  ghost function At<T>(s: seq<Node<T>>, i: int): Node?<T> {
    if 0 <= i < |s| then s[i] else null
  }

  ghost predicate Linked<T>(s: seq<Node<T>>)
    reads s
  {
    && (forall i {:trigger s[i].next} | 0 <= i < |s| :: s[i].next == At(s, i + 1))
    && (forall i {:trigger s[i].prev} | 0 <= i < |s| :: s[i].prev == At(s, i - 1))
  }

  // A list whose links already lead through `obj` between p-1 and p.
  lemma SpliceLinked<T>(s: seq<Node<T>>, obj: Node<T>, p: nat)
    requires p <= |s| && Distinct(s) && obj !in s
    requires forall i {:trigger s[i].next} | 0 <= i < |s| :: s[i].next == (if i == p - 1 then obj else At(s, i + 1))
    requires forall i {:trigger s[i].prev} | 0 <= i < |s| :: s[i].prev == (if i == p then obj else At(s, i - 1))
    requires obj.next == At(s, p) && obj.prev == At(s, p - 1)
    ensures Distinct(s[..p] + [obj] + s[p..]) && Linked(s[..p] + [obj] + s[p..])
  {
    var r := s[..p] + [obj] + s[p..];
    forall i | 0 <= i < |r| ensures r[i].next == At(r, i + 1) && r[i].prev == At(r, i - 1) {
      if i < p { assert r[i] == s[i]; } else if i > p { assert r[i] == s[i - 1]; }
    }
  }

  // A list whose links already bypass the node at `k`.
  lemma CutLinked<T>(s: seq<Node<T>>, k: nat)
    requires k < |s| && Distinct(s)
    requires forall i {:trigger s[i].next} | 0 <= i < |s| && i != k ::
             s[i].next == (if i == k - 1 then At(s, k + 1) else At(s, i + 1))
    requires forall i {:trigger s[i].prev} | 0 <= i < |s| && i != k ::
             s[i].prev == (if i == k + 1 then At(s, k - 1) else At(s, i - 1))
    ensures Distinct(s[..k] + s[k + 1..]) && Linked(s[..k] + s[k + 1..])
  {
    var r := s[..k] + s[k + 1..];
    forall i | 0 <= i < |r| ensures r[i].next == At(r, i + 1) && r[i].prev == At(r, i - 1) {
      assert r[i] == s[if i < k then i else i + 1];
    }
  }

  // ---- order along the list -------------------------------------------------

  ghost predicate InListOrder<T(!new)>(sort: (T, T) -> int, s: seq<Node<T>>) {
    forall i, j :: 0 <= i < j < |s| ==> sort(s[i].item, s[j].item) == 1
  }

  ghost predicate AllBefore<T(!new)>(sort: (T, T) -> int, s: seq<Node<T>>, x: T, p: int)
    requires p <= |s|
  {
    forall i :: 0 <= i < p ==> sort(s[i].item, x) == 1
  }

  ghost predicate AllAfter<T(!new)>(sort: (T, T) -> int, s: seq<Node<T>>, x: T, p: int)
    requires 0 <= p
  {
    forall i :: p <= i < |s| ==> sort(s[i].item, x) == -1
  }

  ghost predicate Clash<T(!new)>(sort: (T, T) -> int, s: seq<Node<T>>, x: T, p: int) {
    0 <= p < |s| && sort(s[p].item, x) == 0
  }

  // ---- tree links ---------------------------------------------------------

  ghost function Middle<T>(s: seq<Node<T>>, lo: int, hi: int): Node?<T>
    requires 0 <= lo <= hi <= |s|
  {
    if lo == hi then null else s[lo + (hi - lo) / 2]
  }

  // The two children of slot `i` in the balanced tree over slots lo..hi.
  ghost function Children<T>(s: seq<Node<T>>, lo: int, hi: int, i: int): (Node?<T>, Node?<T>)
    requires 0 <= lo <= i < hi <= |s|
    decreases hi - lo
  {
    var m := lo + (hi - lo) / 2;
    if i < m then Children(s, lo, m, i)
    else if m < i then Children(s, m + 1, hi, i)
    else (Middle(s, lo, m), Middle(s, m + 1, hi))
  }

  ghost predicate Wired<T>(s: seq<Node<T>>, lo: int, hi: int)
    requires 0 <= lo <= hi <= |s|
    reads s
  {
    forall i {:trigger s[i].left} {:trigger s[i].right} | lo <= i < hi ::
      s[i].left == Children(s, lo, hi, i).0 && s[i].right == Children(s, lo, hi, i).1
  }

  lemma WiredJoin<T>(s: seq<Node<T>>, lo: int, m: int, hi: int)
    requires 0 <= lo <= m < hi <= |s| && m == lo + (hi - lo) / 2
    requires Wired(s, lo, m) && Wired(s, m + 1, hi)
    requires s[m].left == Middle(s, lo, m) && s[m].right == Middle(s, m + 1, hi)
    ensures Wired(s, lo, hi)
  {
  }

  lemma WiredLeaf<T>(s: seq<Node<T>>, i: nat)
    requires i < |s| && s[i].left == null && s[i].right == null
    ensures Wired(s, i, i + 1)
  {
  }

  lemma WiredSplit<T>(s: seq<Node<T>>, lo: int, m: int, hi: int)
    requires 0 <= lo <= m < hi <= |s| && m == lo + (hi - lo) / 2
    requires Wired(s, lo, hi)
    ensures Wired(s, lo, m) && Wired(s, m + 1, hi)
    ensures s[m].left == Middle(s, lo, m) && s[m].right == Middle(s, m + 1, hi)
  {
  }

  // Position `p` either holds a node that clashes with `obj`, and the list is as
  // it was, or separates what is before `obj` from what is after it, and `obj`
  // stands there now.
  ghost predicate Inserted<T(!new)>(sort: (T, T) -> int, s: seq<Node<T>>, obj: Node<T>, p: int, r: seq<Node<T>>) {
    && 0 <= p <= |s|
    && if Clash(sort, s, obj.item, p) then r == s
       else AllBefore(sort, s, obj.item, p) && AllAfter(sort, s, obj.item, p) && r == s[..p] + [obj] + s[p..]
  }

  lemma InsertedByScan<T(!new)>(sort: (T, T) -> int, s: seq<Node<T>>, obj: Node<T>, p: int, r: seq<Node<T>>)
    requires LawfulSort(sort) && InListOrder(sort, s) && Inserted(sort, s, obj, p, r)
    ensures InListOrder(sort, r) && ItemsOf(r) == AddByScan(sort, ItemsOf(s), obj.item)
    ensures r == s || (ItemsOf(r) != ItemsOf(s) && multiset(r) == multiset(s) + multiset{obj})
  {
    var items, x := ItemsOf(s), obj.item;
    if Clash(sort, s, x, p) {
      var q := FirstNotBefore(sort, items, x);
      Monotone(sort, items, x, q);
      AddByScanClash(sort, items, x, q);
    } else {
      AddByScanAt(sort, items, x, p);
      SpliceSorted(sort, items, x, p);
      SpliceMultiset(s, obj, p);
      assert ItemsOf(r) == items[..p] + [x] + items[p..];
    }
  }

  lemma InsertedNodes<T(!new)>(sort: (T, T) -> int, s: seq<Node<T>>, obj: Node<T>, p: int, r: seq<Node<T>>)
    requires Inserted(sort, s, obj, p, r)
    ensures forall n <- r :: n in s || n == obj
  {
  }

  lemma CutFacts<T(!new)>(sort: (T, T) -> int, s: seq<Node<T>>, k: nat)
    requires InListOrder(sort, s) && k < |s|
    ensures InListOrder(sort, s[..k] + s[k + 1..])
    ensures ItemsOf(s[..k] + s[k + 1..]) == ItemsOf(s)[..k] + ItemsOf(s)[k + 1..]
    ensures multiset(s) == multiset(s[..k] + s[k + 1..]) + multiset{s[k]}
  {
    assert s == s[..k] + [s[k]] + s[k + 1..];
  }

  // The value lies beyond everything before position p / short of everything from p on.
  ghost predicate Beyond<T, V>(compare: (T, V) -> int, s: seq<Node<T>>, v: V, p: int)
    requires p <= |s|
  {
    forall i :: 0 <= i < p ==> compare(s[i].item, v) == 1
  }

  ghost predicate Short<T, V>(compare: (T, V) -> int, s: seq<Node<T>>, v: V, p: int)
    requires 0 <= p
  {
    forall i :: p <= i < |s| ==> compare(s[i].item, v) == -1
  }

  lemma Sides<T(!new), V(!new)>(sort: (T, T) -> int, compare: (T, V) -> int, s: seq<Node<T>>, v: V, m: int)
    requires Agrees(sort, compare) && InListOrder(sort, s) && 0 <= m < |s|
    ensures compare(s[m].item, v) >= 0 ==> Beyond(compare, s, v, m)
    ensures compare(s[m].item, v) == 1 ==> Beyond(compare, s, v, m + 1)
    ensures compare(s[m].item, v) <= 0 ==> Short(compare, s, v, m + 1)
    ensures compare(s[m].item, v) == -1 ==> Short(compare, s, v, m)
    ensures compare(s[m].item, v) == -1 || compare(s[m].item, v) == 0 || compare(s[m].item, v) == 1
  {
  }

  lemma ScanMisses<T, V>(compare: (T, V) -> int, s: seq<Node<T>>, v: V, p: int)
    requires 0 <= p <= |s| && Beyond(compare, s, v, p) && Short(compare, s, v, p)
    ensures At(s, FindByScan(compare, ItemsOf(s), v)) == null
  {
    assert forall i :: 0 <= i < |s| ==> compare(ItemsOf(s)[i], v) != 0;
  }

  lemma ScanHits<T, V>(compare: (T, V) -> int, s: seq<Node<T>>, v: V, p: int)
    requires 0 <= p < |s| && Beyond(compare, s, v, p) && compare(s[p].item, v) == 0
    ensures At(s, FindByScan(compare, ItemsOf(s), v)) == s[p]
  {
    assert compare(ItemsOf(s)[p], v) == 0;
    assert forall i :: 0 <= i < p ==> compare(ItemsOf(s)[i], v) == 1;
  }

  // One comparison in the middle of a subtree decides a whole side of the list.
  lemma GoRight<T(!new)>(sort: (T, T) -> int, s: seq<Node<T>>, x: T, lo: int, m: int, hi: int)
    requires LawfulSort(sort) && InListOrder(sort, s)
    requires 0 <= lo <= m < hi <= |s| && m == lo + (hi - lo) / 2 && Wired(s, lo, hi)
    requires sort(s[m].item, x) == 1
    ensures AllBefore(sort, s, x, m + 1)
    ensures Wired(s, m + 1, hi) && s[m].right == Middle(s, m + 1, hi)
  {
    WiredSplit(s, lo, m, hi);
  }

  lemma GoLeft<T(!new)>(sort: (T, T) -> int, s: seq<Node<T>>, x: T, lo: int, m: int, hi: int)
    requires LawfulSort(sort) && InListOrder(sort, s)
    requires 0 <= lo <= m < hi <= |s| && m == lo + (hi - lo) / 2 && Wired(s, lo, hi)
    requires sort(s[m].item, x) == -1
    ensures AllAfter(sort, s, x, m)
    ensures Wired(s, lo, m) && s[m].left == Middle(s, lo, m)
  {
    WiredSplit(s, lo, m, hi);
    forall i | m < i < |s| ensures sort(s[i].item, x) == -1 {
      assert sort(x, s[m].item) == -sort(s[m].item, x);
      assert sort(x, s[i].item) == 1;
    }
  }

  // The objects a rebuild of slots lo..hi may write.
  ghost predicate Covers<T>(r: set<Node<T>>, s: seq<Node<T>>, lo: int, hi: int)
    requires 0 <= lo <= hi <= |s|
  {
    forall i | lo <= i < hi :: s[i] in r
  }

  lemma CoversAt<T>(r: set<Node<T>>, s: seq<Node<T>>, lo: int, hi: int, i: int)
    requires 0 <= lo <= i < hi <= |s| && Covers(r, s, lo, hi)
    ensures s[i] in r
  {
  }

  lemma CoversSplit<T>(s: seq<Node<T>>, lo: int, m: int, hi: int, r: set<Node<T>>)
      returns (ls: set<Node<T>>, rs: set<Node<T>>)
    requires Distinct(s) && 0 <= lo <= m < hi <= |s| && Covers(r, s, lo, hi)
    ensures Covers(ls, s, lo, m) && Covers(rs, s, m + 1, hi)
    ensures ls !! rs && s[m] !in ls && s[m] !in rs && ls <= r && rs <= r
    ensures forall i | lo <= i < m :: s[i] !in rs
  {
    ls := set i | lo <= i < m :: s[i];
    rs := set i | m < i < hi :: s[i];
  }

  class BTreeList<T(!new), V(!new)> {
    const sort: (T, T) -> int
    const compare: (T, V) -> int

    var root: Node?<T>
    var head: Node?<T>
    var tail: Node?<T>
    var slots: seq<Node<T>>
    var count: int

    ghost var Nodes: seq<Node<T>>

    constructor (compare: (T, V) -> int, sort: (T, T) -> int)
      requires LawfulSort(sort) && Agrees(sort, compare)
      ensures Valid() && Nodes == []
      ensures this.compare == compare && this.sort == sort
    {
      this.compare, this.sort := compare, sort;
      root, head, tail := null, null, null;
      slots, count, Nodes := [], 0, [];
    }

    ghost predicate Lawful() {
      LawfulSort(sort) && Agrees(sort, compare)
    }

    // The list half: what every step of add and remove relies on.
    ghost predicate ListValid()
      reads this, Nodes
    {
      && Distinct(Nodes) && Linked(Nodes)
      && head == At(Nodes, 0) && tail == At(Nodes, |Nodes| - 1)
      && count == |Nodes|
    }

    ghost predicate Valid()
      reads this, Nodes
    {
      && Lawful() && ListValid() && InListOrder(sort, Nodes)
      && root == Middle(Nodes, 0, |Nodes|) && Wired(Nodes, 0, |Nodes|)
    }

    ghost function Items(): seq<T>
      reads this
    {
      ItemsOf(Nodes)
    }

    // ---- rebuilding the tree ----------------------------------------------

    // The part of the rebuild that only its outermost call does: walk the list
    // and store every node in the array of slots.
    method Refill()
      requires ListValid()
      modifies this`slots
      ensures slots == Nodes
    {
      slots := [];
      var node := head;
      ghost var i := 0;
      while node != null
        invariant 0 <= i <= |Nodes| && node == At(Nodes, i) && slots == Nodes[..i]
        decreases |Nodes| - i
      {
        slots := slots + [node];
        node := node.next;
        i := i + 1;
      }
    }

    // The recursive part, for `count` slots around `center`; `lo` is the first
    // of them.  No centre it is given is ever negative or beyond the array.
    method Rebtree(center: int, count: int, ghost lo: int, ghost region: set<Node<T>>) returns (node: Node?<T>)
      requires Distinct(slots) && 0 <= lo && 0 < count && lo + count <= |slots|
      requires center == lo + count / 2 && Covers(region, slots, lo, lo + count)
      modifies region`left, region`right
      ensures node == slots[center] && Wired(slots, lo, lo + count)
      decreases count, 2
    {
      hide Wired, Covers, Children, Distinct;
      node := slots[center];
      CoversAt(region, slots, lo, lo + count, center);
      match count {
        case 1 =>
          node.left := null;
          node.right := null;
          WiredLeaf(slots, lo);
        case 2 =>
          ForkLeft(node, center - 1, lo, center, region);
        case 3 =>
          Fork(node, center - 1, 1, center + 1, 1, lo, center, lo + count, region);
        case 4 =>
          Fork(node, center - 1, 2, center + 1, 1, lo, center, lo + count, region);
        case _ =>
          var ll, rl;
          if count % 2 == 1 {
            ll := count / 2;
            rl := ll;
          } else {
            ll := count / 2;
            rl := ll - 1;
          }
          var lc := center - ll / 2;
          if ll % 2 == 1 {
            lc := lc - 1;
          }
          var rc := center + rl / 2 + 1;
          Fork(node, lc, ll, rc, rl, lo, center, lo + count, region);
      }
    }

    // Of two nodes the second hangs the first below itself.
    method ForkLeft(node: Node<T>, lc: int, ghost lo: int, ghost m: int, ghost region: set<Node<T>>)
      requires Distinct(slots) && 0 <= lo && m == lo + 1 < |slots| && lc == lo
      requires node == slots[m] && Covers(region, slots, lo, lo + 2)
      modifies region`left, region`right
      ensures Wired(slots, lo, lo + 2)
      decreases 2, 1
    {
      ghost var ls, _ := CoversSplit(slots, lo, m, lo + 2, region);
      hide Distinct, Covers, Children;
      node.left := Rebtree(lc, 1, lo, ls);
      node.right := null;
      WiredJoin(slots, lo, m, lo + 2);
    }

    // Hang the two rebuilt halves below a node.
    method Fork(node: Node<T>, lc: int, ll: int, rc: int, rl: int,
                ghost lo: int, ghost m: int, ghost hi: int, ghost region: set<Node<T>>)
      requires Distinct(slots) && 0 <= lo <= m < hi <= |slots| && m == lo + (hi - lo) / 2
      requires node == slots[m] && Covers(region, slots, lo, hi)
      requires ll == m - lo > 0 && rl == hi - (m + 1) > 0 && lc == lo + ll / 2 && rc == m + 1 + rl / 2
      modifies region`left, region`right
      ensures Wired(slots, lo, hi)
      decreases hi - lo, 1
    {
      ghost var ls, rs := CoversSplit(slots, lo, m, hi, region);
      hide Covers, Children, Wired;
      node.left := Rebtree(lc, ll, lo, ls);
      ForkRight(node, rc, rl, lo, m, hi, rs);
    }

    // The second half, which leaves the first as it is.
    method ForkRight(node: Node<T>, rc: int, rl: int, ghost lo: int, ghost m: int, ghost hi: int,
                     ghost rs: set<Node<T>>)
      requires Distinct(slots) && 0 <= lo <= m < hi <= |slots| && m == lo + (hi - lo) / 2
      requires node == slots[m] && Covers(rs, slots, m + 1, hi) && forall i | lo <= i <= m :: slots[i] !in rs
      requires rl == hi - (m + 1) > 0 && rc == m + 1 + rl / 2
      requires Wired(slots, lo, m) && node.left == Middle(slots, lo, m)
      modifies node`right, rs`left, rs`right
      ensures Wired(slots, lo, hi)
      decreases hi - lo, 0
    {
      hide Covers, Children;
      node.right := Rebtree(rc, rl, m + 1, rs);
      WiredJoin(slots, lo, m, hi);
    }

    // ---- inserting into the list -------------------------------------------

    // Hang `obj` behind `node` in the list.
    method LinkNext(node: Node<T>, obj: Node<T>, ghost m: nat)
      requires ListValid() && m < |Nodes| && node == Nodes[m] && obj !in Nodes
      modifies this`tail, this`count, this`Nodes, Nodes`next, Nodes`prev, obj`next, obj`prev
      ensures ListValid() && Nodes == old(Nodes)[..m + 1] + [obj] + old(Nodes)[m + 1..]
    {
      obj.next := node.next;
      if node.next == null {
        tail := obj;
      } else {
        node.next.prev := obj;
      }
      node.next := obj;
      obj.prev := node;
      count := count + 1;
      Nodes := Nodes[..m + 1] + [obj] + Nodes[m + 1..];
      SpliceLinked(old(Nodes), obj, m + 1);
    }

    // Hang `obj` before `node` in the list.
    method LinkPrev(node: Node<T>, obj: Node<T>, ghost m: nat)
      requires ListValid() && m < |Nodes| && node == Nodes[m] && obj !in Nodes
      modifies this`head, this`count, this`Nodes, Nodes`next, Nodes`prev, obj`next, obj`prev
      ensures ListValid() && Nodes == old(Nodes)[..m] + [obj] + old(Nodes)[m..]
    {
      obj.prev := node.prev;
      if node.prev == null {
        head := obj;
      } else {
        node.prev.next := obj;
      }
      node.prev := obj;
      obj.next := node;
      count := count + 1;
      Nodes := Nodes[..m] + [obj] + Nodes[m..];
      SpliceLinked(old(Nodes), obj, m);
    }

    method LinkFirst(obj: Node<T>)
      requires ListValid() && Nodes == []
      modifies this`root, this`head, this`tail, this`count, this`Nodes, obj
      ensures ListValid() && Nodes == [obj]
    {
      root, head, tail := obj, obj, obj;
      count := 1;
      obj.next, obj.prev, obj.left, obj.right := null, null, null, null;
      Nodes := [obj];
    }

    // Descend the tree below `node` (which spans list positions lo..hi) and
    // link `obj` in beside the leaf that is reached.  Nothing is compared with
    // the list itself, yet everything left of lo is before `obj` and everything
    // from hi on is after it.
    method Insert(node: Node?<T>, obj: Node<T>, ghost lo: int, ghost hi: int, ghost s: seq<Node<T>>)
        returns (ghost p: int)
      requires LawfulSort(sort) && InListOrder(sort, s)
      requires ListValid() && Nodes == s && (s == [] ==> root == null)
      requires 0 <= lo <= hi <= |s| && node == Middle(s, lo, hi) && Wired(s, lo, hi)
      requires lo == hi ==> s == []
      requires AllBefore(sort, s, obj.item, lo) && AllAfter(sort, s, obj.item, hi)
      modifies this`root, this`head, this`tail, this`count, this`Nodes, s`next, s`prev, obj
      ensures ListValid()
      ensures Inserted(sort, s, obj, p, Nodes)
      decreases hi - lo, 1
    {
      if root == null && head == null && tail == null {
        LinkFirst(obj);
        p := 0;
      } else {
        p := lo + (hi - lo) / 2;
        var ret := sort(node.item, obj.item);
        if ret == 1 {
          p := InsertRight(node, obj, lo, p, hi, s);
        } else if ret == -1 {
          p := InsertLeft(node, obj, lo, p, hi, s);
        }
      }
    }

    method InsertRight(node: Node<T>, obj: Node<T>, ghost lo: int, ghost m: int, ghost hi: int, ghost s: seq<Node<T>>)
        returns (ghost p: int)
      requires LawfulSort(sort) && InListOrder(sort, s)
      requires ListValid() && Nodes == s
      requires 0 <= lo <= m < hi <= |s| && m == lo + (hi - lo) / 2 && node == s[m] && Wired(s, lo, hi)
      requires sort(node.item, obj.item) == 1 && AllAfter(sort, s, obj.item, hi)
      modifies this`root, this`head, this`tail, this`count, this`Nodes, s`next, s`prev, obj
      ensures ListValid() && Inserted(sort, s, obj, p, Nodes)
      decreases hi - lo, 0
    {
      GoRight(sort, s, obj.item, lo, m, hi);
      if node.right != null {
        p := Insert(node.right, obj, m + 1, hi, s);
      } else {
        LinkNext(node, obj, m);
        p := m + 1;
      }
    }

    method InsertLeft(node: Node<T>, obj: Node<T>, ghost lo: int, ghost m: int, ghost hi: int, ghost s: seq<Node<T>>)
        returns (ghost p: int)
      requires LawfulSort(sort) && InListOrder(sort, s)
      requires ListValid() && Nodes == s
      requires 0 <= lo <= m < hi <= |s| && m == lo + (hi - lo) / 2 && node == s[m] && Wired(s, lo, hi)
      requires sort(node.item, obj.item) == -1 && AllBefore(sort, s, obj.item, lo)
      modifies this`root, this`head, this`tail, this`count, this`Nodes, s`next, s`prev, obj
      ensures ListValid() && Inserted(sort, s, obj, p, Nodes)
      decreases hi - lo, 0
    {
      GoLeft(sort, s, obj.item, lo, m, hi);
      if node.left != null {
        p := Insert(node.left, obj, lo, m, s);
      } else {
        LinkPrev(node, obj, m);
        p := m;
      }
    }

    // ---- the public operations ---------------------------------------------

    // The outermost rebuild: refill the slots, then grow the tree over them.
    method Rebuild()
      requires Lawful() && ListValid() && InListOrder(sort, Nodes)
      modifies this`slots, this`root, Nodes`left, Nodes`right
      ensures Valid() && slots == Nodes
    {
      hide LawfulSort, Agrees, InListOrder, Distinct;
      Refill();
      root := null;
      if count > 0 {
        root := Rebtree(count / 2, count, 0, set n | n in Nodes);
      }
    }

    method Add(obj: Node<T>)
      requires Valid()
      modifies this, Nodes, obj
      ensures Valid()
      ensures Items() == AddByScan(sort, old(Items()), obj.item)
      ensures Nodes == old(Nodes)
              || (Items() != old(Items()) && multiset(Nodes) == multiset(old(Nodes)) + multiset{obj})
      ensures forall n <- Nodes :: n in old(Nodes) || n == obj
    {
      hide LawfulSort, Agrees, InListOrder, Inserted;
      ghost var s := Nodes;
      ghost var p := Insert(root, obj, 0, |Nodes|, Nodes);
      InsertedByScan(sort, s, obj, p, Nodes);
      InsertedNodes(sort, s, obj, p, Nodes);
      Rebuild();
    }

    // Follow the comparisons down the tree that spans list positions lo..hi.
    function Lookup(node: Node?<T>, v: V, ghost s: seq<Node<T>>, ghost lo: int, ghost hi: int): Node?<T>
      requires 0 <= lo <= hi <= |s| && Wired(s, lo, hi) && node == Middle(s, lo, hi)
      reads s
      decreases hi - lo
    {
      if node == null then null
      else
        ghost var m := lo + (hi - lo) / 2;
        WiredSplit(s, lo, m, hi);
        var ret := compare(node.item, v);
        if ret == 0 then node
        else if ret == 1 then Lookup(node.right, v, s, m + 1, hi)
        else Lookup(node.left, v, s, lo, m)
    }

    // The number of comparisons that costs.
    ghost function Probes(node: Node?<T>, v: V, s: seq<Node<T>>, lo: int, hi: int): nat
      requires 0 <= lo <= hi <= |s| && Wired(s, lo, hi) && node == Middle(s, lo, hi)
      reads s
      decreases hi - lo
    {
      if node == null then 0
      else
        var m := lo + (hi - lo) / 2;
        WiredSplit(s, lo, m, hi);
        var ret := compare(node.item, v);
        if ret == 0 then 1
        else if ret == 1 then 1 + Probes(node.right, v, s, m + 1, hi)
        else 1 + Probes(node.left, v, s, lo, m)
    }

    lemma {:induction false} LookupIsScan(node: Node?<T>, v: V, s: seq<Node<T>>, lo: int, hi: int)
      requires Lawful() && InListOrder(sort, s)
      requires 0 <= lo <= hi <= |s| && Wired(s, lo, hi) && node == Middle(s, lo, hi)
      requires Beyond(compare, s, v, lo) && Short(compare, s, v, hi)
      ensures Lookup(node, v, s, lo, hi) == At(s, FindByScan(compare, ItemsOf(s), v))
      decreases hi - lo
    {
      hide LawfulSort, Agrees, InListOrder, Beyond, Short, FindByScan;
      if lo == hi {
        ScanMisses(compare, s, v, lo);
      } else {
        var m := lo + (hi - lo) / 2;
        WiredSplit(s, lo, m, hi);
        Sides(sort, compare, s, v, m);
        if compare(s[m].item, v) == 1 {
          LookupIsScan(node.right, v, s, m + 1, hi);
        } else if compare(s[m].item, v) == -1 {
          LookupIsScan(node.left, v, s, lo, m);
        } else {
          ScanHits(compare, s, v, m);
        }
      }
    }

    // A look-up compares at most once per level of the tree.
    lemma {:induction false} ProbesBound(node: Node?<T>, v: V, s: seq<Node<T>>, lo: int, hi: int)
      requires 0 <= lo <= hi <= |s| && Wired(s, lo, hi) && node == Middle(s, lo, hi)
      ensures Probes(node, v, s, lo, hi) <= BitLength(hi - lo)
      decreases hi - lo
    {
      if lo < hi {
        var m := lo + (hi - lo) / 2;
        WiredSplit(s, lo, m, hi);
        BitLengthMonotone(hi - m - 1, m - lo);
        ProbesBound(node.left, v, s, lo, m);
        ProbesBound(node.right, v, s, m + 1, hi);
      }
    }

    function Find(v: V): (node: Node?<T>)
      requires Valid()
      reads this, Nodes
      ensures node == At(Nodes, FindByScan(compare, Items(), v))
    {
      LookupIsScan(root, v, Nodes, 0, |Nodes|);
      Lookup(root, v, Nodes, 0, |Nodes|)
    }

    method Unlink(node: Node<T>, ghost k: nat)
      requires ListValid() && k < |Nodes| && node == Nodes[k]
      modifies this`head, this`tail, this`count, this`Nodes, Nodes`next, Nodes`prev, node
      ensures ListValid() && Nodes == old(Nodes)[..k] + old(Nodes)[k + 1..]
      ensures node !in Nodes && node.next == null && node.prev == null && node.left == null && node.right == null
    {
      if node.prev == null {
        head := node.next;
      } else {
        node.prev.next := node.next;
      }
      if node.next == null {
        tail := node.prev;
      } else {
        node.next.prev := node.prev;
      }
      count := count - 1;
      node.next, node.prev, node.left, node.right := null, null, null, null;
      Nodes := Nodes[..k] + Nodes[k + 1..];
      CutLinked(old(Nodes), k);
    }

    method Remove(v: V) returns (node: Node?<T>)
      requires Valid()
      modifies this, Nodes
      ensures Valid()
      ensures node == old(Find(v))
      ensures Items() == RemoveByScan(compare, old(Items()), v)
      ensures node == null ==> Nodes == old(Nodes)
      ensures node != null ==> multiset(old(Nodes)) == multiset(Nodes) + multiset{node}
      ensures forall n <- Nodes :: n in old(Nodes)
      ensures node != null ==> node.next == null && node.prev == null && node.left == null && node.right == null
    {
      hide LawfulSort, Agrees, InListOrder, Linked, Distinct, Wired, Lookup, FindByScan;
      node := Find(v);
      if node != null {
        ghost var k := FindByScan(compare, Items(), v);
        Unlink(node, k);
        CutFacts(sort, old(Nodes), k);
        Rebuild();
      }
    }
  }

  // ---- the three views ------------------------------------------------------

  // Following `next` from `n` visits s and stops.
  ghost predicate NextChain<T>(n: Node?<T>, s: seq<Node<T>>)
    reads s
  {
    if s == [] then n == null else n == s[0] && NextChain(s[0].next, s[1..])
  }

  // Following `prev` from `n` visits s backwards and stops.
  ghost predicate PrevChain<T>(n: Node?<T>, s: seq<Node<T>>)
    reads s
  {
    var last := |s| - 1;
    if s == [] then n == null else n == s[last] && PrevChain(s[last].prev, s[..last])
  }

  ghost function NodesOf<T>(t: Tree<Node<T>>): set<Node<T>> {
    match t
    case Leaf => {}
    case Fork(l, m, r) => NodesOf(l) + {m} + NodesOf(r)
  }

  // Following `left` and `right` from `n` spans the tree t.
  ghost predicate IsTree<T>(n: Node?<T>, t: Tree<Node<T>>)
    reads NodesOf(t)
  {
    match t
    case Leaf => n == null
    case Fork(l, m, r) => n == m && IsTree(m.left, l) && IsTree(m.right, r)
  }

  lemma {:induction false} NextChainFrom<T>(s: seq<Node<T>>, k: nat)
    requires Linked(s) && k <= |s|
    ensures NextChain(At(s, k), s[k..])
    decreases |s| - k
  {
    if k < |s| {
      NextChainFrom(s, k + 1);
      assert s[k..][1..] == s[k + 1..];
    }
  }

  lemma {:induction false} PrevChainTo<T>(s: seq<Node<T>>, k: nat)
    requires Linked(s) && k <= |s|
    ensures PrevChain(At(s, k - 1), s[..k])
  {
    if 0 < k {
      PrevChainTo(s, k - 1);
      assert s[..k][..k - 1] == s[..k - 1];
    }
  }

  lemma {:induction false} TreeOver<T>(s: seq<Node<T>>, lo: int, hi: int)
    requires 0 <= lo <= hi <= |s| && Wired(s, lo, hi)
    ensures IsTree(Middle(s, lo, hi), Balanced(s[lo..hi]))
    decreases hi - lo
  {
    if lo < hi {
      var m := lo + (hi - lo) / 2;
      WiredSplit(s, lo, m, hi);
      TreeOver(s, lo, m);
      TreeOver(s, m + 1, hi);
      hide Balanced;
      BalancedSegment(s, lo, m, hi);
    }
  }

  // The list read forwards, the list read backwards and the tree read in order
  // are one strictly sorted sequence of `count` nodes, and the tree is as low
  // as a tree of that many nodes can be.
  lemma ThreeViews<T(!new), V(!new)>(btl: BTreeList<T, V>)
    requires btl.Valid()
    ensures NextChain(btl.head, btl.Nodes) && PrevChain(btl.tail, btl.Nodes)
    ensures IsTree(btl.root, Balanced(btl.Nodes)) && InOrder(Balanced(btl.Nodes)) == btl.Nodes
    ensures Height(Balanced(btl.Nodes)) == BitLength(btl.count)
    ensures |btl.Nodes| == btl.count && StrictlySorted(btl.sort, btl.Items())
  {
    var s := btl.Nodes;
    NextChainFrom(s, 0);
    PrevChainTo(s, |s|);
    TreeOver(s, 0, |s|);
    assert s[0..] == s && s[..|s|] == s && s[0..|s|] == s;
    BalancedInOrder(s);
    BalancedHeight(s);
  }

  // ---- whole runs -----------------------------------------------------------

  method Step<T(!new), V(!new)>(btl: BTreeList<T, V>, op: Op<T, V>)
    requires btl.Valid()
    modifies btl, btl.Nodes
    ensures btl.Valid() && forall i :: 0 <= i < |btl.Nodes| ==> btl.Nodes[i] in old(btl.Nodes) || fresh(btl.Nodes[i])
    ensures btl.Items() == RunByScan(btl.sort, btl.compare, old(btl.Items()), [op])
  {
    hide LawfulSort, Agrees, InListOrder, Linked, Wired, Distinct, RunByScan, AddByScan, RemoveByScan;
    RunOne(btl.sort, btl.compare, btl.Items(), op);
    match op
    case AddOp(x) =>
      var node := new Node(x);
      btl.Add(node);
    case RemoveOp(v) =>
      var _ := btl.Remove(v);
  }

  // Any sequence of adds (each of a new node) and removes leaves exactly what the
  // same sequence of list scans leaves, with every view intact.
  method Run<T(!new), V(!new)>(btl: BTreeList<T, V>, ops: seq<Op<T, V>>)
    requires btl.Valid()
    modifies btl, btl.Nodes
    ensures btl.Valid() && forall i :: 0 <= i < |btl.Nodes| ==> btl.Nodes[i] in old(btl.Nodes) || fresh(btl.Nodes[i])
    ensures btl.Items() == RunByScan(btl.sort, btl.compare, old(btl.Items()), ops)
  {
    hide LawfulSort, Agrees, InListOrder, Linked, Wired, Distinct, AddByScan, RemoveByScan;
    if ops != [] {
      var last := |ops| - 1;
      assert ops == ops[..last] + [ops[last]];
      Run(btl, ops[..last]);
      RunSnoc(btl.sort, btl.compare, old(btl.Items()), ops[..last], ops[last]);
      Step(btl, ops[last]);
    }
  }
}
