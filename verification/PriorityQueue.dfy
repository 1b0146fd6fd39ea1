/** The indexed binary heap and the priority queue on top of it: a queue of items that each know
    their own place, with the least priority first. */
module PriorityQueue {

  datatype Entry<V> = Entry(obj: V, priority: int)

  // ---------- heap order on sequences ----------

  /** The parent of a place. Go's (j - 1) / 2 rounds toward zero, so place 0 is its own parent. */
  function Parent(j: nat): (i: nat)
    ensures i <= j && (i == j <==> j == 0)
  {
    if j == 0 then 0 else (j - 1) / 2
  }

  /** The element is no less than its parent. */
  ghost predicate Above<V>(s: seq<Entry<V>>, k: nat)
    requires k < |s|
  {
    s[Parent(k)].priority <= s[k].priority
  }

  /** Heap order among the first n elements. */
  ghost predicate HeapTo<V>(s: seq<Entry<V>>, n: nat)
    requires n <= |s|
  {
    forall k {:trigger Above(s, k)} :: 0 <= k < n ==> Above(s, k)
  }

  ghost predicate Heap<V>(s: seq<Entry<V>>) {
    HeapTo(s, |s|)
  }

  /** Without the element at i there would be heap order. */
  ghost predicate HeapAround<V>(s: seq<Entry<V>>, n: nat, i: nat)
    requires n <= |s| && i < |s|
  {
    && (forall k {:trigger Above(s, k)} :: 0 <= k < n && k != i && Parent(k) != i ==> Above(s, k))
    && (forall k {:trigger Grandchild(s, k, i)} :: 0 <= k < n ==> Grandchild(s, k, i))
  }

  /** If k is a child of i, it is no less than the parent of i. */
  ghost predicate Grandchild<V>(s: seq<Entry<V>>, k: nat, i: nat)
    requires k < |s| && i < |s|
  {
    k != i && Parent(k) == i && i > 0 ==> s[Parent(i)].priority <= s[k].priority
  }

  /** Heap order, but that the element at i may be less than its parent. */
  ghost predicate HeapBelow<V>(s: seq<Entry<V>>, n: nat, i: nat)
    requires n <= |s| && i < |s|
  {
    HeapAround(s, n, i) && forall k {:trigger Above(s, k)} :: 0 <= k < n && k != i ==> Above(s, k)
  }

  function Swapped<T>(s: seq<T>, i: nat, j: nat): (t: seq<T>)
    requires i < |s| && j < |s|
    ensures |t| == |s|
  {
    s[i := s[j]][j := s[i]]
  }

  lemma SwappedSame<T>(s: seq<T>, i: nat, j: nat)
    requires i < |s| && j < |s|
    ensures multiset(Swapped(s, i, j)) == multiset(s)
  {
  }

  /** The root of a heap is a least element. */
  lemma {:induction false} RootIsLeast<V>(s: seq<Entry<V>>, k: nat)
    requires Heap(s) && k < |s|
    ensures s[0].priority <= s[k].priority
  {
    assert Above(s, k);
    if k > 0 {
      RootIsLeast(s, Parent(k));
    }
  }

  /** Swapping an element with its lesser parent moves the disorder up. */
  lemma UpStep<V>(s: seq<Entry<V>>, j: nat)
    requires 0 < j < |s| && HeapBelow(s, |s|, j) && s[j].priority < s[Parent(j)].priority
    ensures HeapBelow(Swapped(s, Parent(j), j), |s|, Parent(j))
  {
    var i := Parent(j);
    var t := Swapped(s, i, j);
    forall k | 0 <= k < |s| && k != i ensures Above(t, k) {
      assert (k != j ==> Above(s, k)) && Grandchild(s, k, j);
    }
    forall k | 0 <= k < |s| ensures Grandchild(t, k, i) {
      assert Above(s, i) && (k != j ==> Above(s, k));
    }
  }

  /** Swapping an element with its least child, if that is less, moves the disorder down. */
  lemma DownStep<V>(s: seq<Entry<V>>, n: nat, i: nat, j: nat)
    requires n <= |s| && i < j < n && Parent(j) == i && HeapAround(s, n, i)
    requires s[j].priority < s[i].priority && s[j].priority <= s[2 * i + 1].priority
    requires 2 * i + 2 < n ==> s[j].priority <= s[2 * i + 2].priority
    ensures HeapAround(Swapped(s, i, j), n, j) && Above(Swapped(s, i, j), j)
  {
    var t := Swapped(s, i, j);
    forall k | 0 <= k < n && k != j && Parent(k) != j ensures Above(t, k) {
      assert k != i && Parent(k) != i ==> Above(s, k);
      assert Grandchild(s, j, i);
    }
    forall k | 0 <= k < n ensures Grandchild(t, k, j) {
      assert Parent(k) == j && k != j ==> Above(s, k);
    }
  }

  /** With the root moved to the end, the rest is a heap but for its root. */
  lemma SwapToEnd<V>(s: seq<Entry<V>>, n: nat)
    requires Heap(s) && n == |s| - 1
    ensures HeapAround(Swapped(s, 0, n), n, 0)
  {
    var t := Swapped(s, 0, n);
    forall k | 0 <= k < n && k != 0 && Parent(k) != 0 ensures Above(t, k) {
      assert Above(s, k);
    }
  }

  /** What is left of a heap whose last element is taken off. */
  lemma WithoutLast<V>(s: seq<Entry<V>>, n: nat)
    requires n == |s| - 1 && HeapTo(s, n)
    ensures Heap(s[..n]) && multiset(s[..n]) == multiset(s) - multiset{s[n]}
  {
    assert s == s[..n] + [s[n]];
    forall k | 0 <= k < n ensures Above(s[..n], k) {
      assert Above(s, k);
    }
  }

  /** An element no greater than its children is in order with all below it. */
  lemma DownDone<V>(s: seq<Entry<V>>, n: nat, i: nat)
    requires n <= |s| && i < |s| && HeapAround(s, n, i)
    requires 2 * i + 1 < n ==> s[i].priority <= s[2 * i + 1].priority
    requires 2 * i + 2 < n ==> s[i].priority <= s[2 * i + 2].priority
    ensures HeapBelow(s, n, i)
    ensures Above(s, i) ==> HeapTo(s, n)
  {
    forall k | 0 <= k < n && k != i ensures Above(s, k) {
      assert Parent(k) == i ==> k == 2 * i + 1 || k == 2 * i + 2;
    }
  }

  lemma AppendedBelow<V>(s: seq<Entry<V>>, e: Entry<V>)
    requires Heap(s)
    ensures HeapBelow(s + [e], |s| + 1, |s|)
  {
    forall k | 0 <= k < |s| ensures Above(s + [e], k) {
      assert Above(s, k);
    }
  }

  /** In a heap any one element may be replaced by another, and then put right. */
  lemma HeapWithOneChanged<V>(s: seq<Entry<V>>, i: nat, e: Entry<V>)
    requires Heap(s) && i < |s|
    ensures HeapAround(s[i := e], |s|, i)
  {
    var t := s[i := e];
    forall k | 0 <= k < |s| && k != i && Parent(k) != i ensures Above(t, k) {
      assert Above(s, k);
    }
    forall k | 0 <= k < |s| ensures Grandchild(t, k, i) {
      assert Above(s, k) && Above(s, i);
    }
  }

  // ---------- the queue ----------

  class Item<V> {
    var obj: V
    var priority: int
    var index: int

    constructor (obj: V, priority: int)
      ensures this.obj == obj && this.priority == priority
    {
      this.obj, this.priority, this.index := obj, priority, 0;
    }
  }

  class Queue<V> {
    var pq: seq<Item<V>>
    /** What the items hold, in the order of the heap. */
    ghost var view: seq<Entry<V>>
    ghost var Repr: set<Item<V>>

    ghost predicate Holds(item: Item<V>, i: nat, e: Entry<V>)
      reads item
    {
      item.obj == e.obj && item.priority == e.priority && item.index == i
    }

    ghost predicate AtItsIndex(item: Item<V>)
      reads this, item
    {
      0 <= item.index < |pq| && pq[item.index] == item
    }

    /** Every item knows its place, and no item is in two places. */
    ghost predicate Mirrored()
      reads this, Repr
    {
      && |view| == |pq|
      && (forall i :: 0 <= i < |pq| ==> pq[i] in Repr && Holds(pq[i], i, view[i]))
      && (forall item :: item in Repr ==> AtItsIndex(item))
    }

    ghost predicate Valid()
      reads this, Repr
    {
      Mirrored() && Heap(view)
    }

    constructor ()
      ensures Valid() && view == [] && Repr == {}
    {
      pq, view, Repr := [], [], {};
    }

    predicate Less(i: nat, j: nat)
      requires Mirrored() && i < |pq| && j < |pq|
      reads this, Repr
      ensures Less(i, j) <==> view[i].priority < view[j].priority
    {
      pq[i].priority < pq[j].priority
    }

    // ---------- the wrapper: places and back-pointers ----------

    method Swap(i: nat, j: nat)
      requires Mirrored() && i < |pq| && j < |pq|
      modifies this`pq, this`view, Repr`index
      ensures Mirrored() && view == Swapped(old(view), i, j) && pq == Swapped(old(pq), i, j)
    {
      view := Swapped(view, i, j);
      pq := pq[i := pq[j]][j := pq[i]];
      pq[i].index := i;
      pq[j].index := j;
    }

    method Append(item: Item<V>)
      requires Mirrored() && item !in Repr
      modifies this, item`index
      ensures Mirrored() && pq == old(pq) + [item] && Repr == old(Repr) + {item}
      ensures view == old(view) + [Entry(item.obj, item.priority)]
    {
      item.index := |pq|;
      pq, Repr := pq + [item], Repr + {item};
      view := view + [Entry(item.obj, item.priority)];
    }

    method DropLast() returns (item: Item<V>)
      requires Mirrored() && pq != []
      modifies this, Repr`index
      ensures Mirrored() && pq == old(pq[..|pq| - 1]) && view == old(view[..|pq| - 1])
      ensures item == old(pq[|pq| - 1]) && item.index == -1 && Repr == old(Repr) - {item}
      ensures item.obj == old(view[|pq| - 1].obj)
    {
      item := pq[|pq| - 1];
      item.index := -1;
      pq, view, Repr := pq[..|pq| - 1], view[..|pq| - 1], Repr - {item};
    }

    // ---------- the heap algorithms ----------

    /** Moves an element up until it is no less than its parent. */
    method Up(j0: nat)
      requires Mirrored() && j0 < |pq| && HeapBelow(view, |view|, j0)
      modifies this`pq, this`view, Repr`index
      ensures Valid() && multiset(view) == old(multiset(view))
    {
      var j := j0;
      while true
        invariant Mirrored() && multiset(view) == old(multiset(view))
        invariant 0 <= j < |pq| && HeapBelow(view, |view|, j)
        decreases j
      {
        var i := Parent(j);
        if i == j || !Less(j, i) {
          break;
        }
        UpStep(view, j);
        SwappedSame(view, i, j);
        Swap(i, j);
        j := i;
      }
    }

    /** The lesser of the children of i that are among the first n elements. */
    method LesserChild(i: nat, n: nat) returns (j: nat)
      requires Mirrored() && 2 * i + 1 < n <= |pq|
      ensures j < n && (j == 2 * i + 1 || j == 2 * i + 2)
      ensures view[j].priority <= view[2 * i + 1].priority
      ensures 2 * i + 2 < n ==> view[j].priority <= view[2 * i + 2].priority
    {
      var j1 := 2 * i + 1;
      j := j1;
      var j2 := j1 + 1;
      if j2 < n && Less(j2, j1) {
        j := j2;
      }
    }

    /** Moves an element down until it is no greater than its children; only the first n elements
        take part. */
    method Down(i0: nat, n: nat) returns (moved: bool)
      requires Mirrored() && i0 < |pq| && n <= |pq| && HeapAround(view, n, i0)
      modifies this`pq, this`view, Repr`index
      ensures Mirrored() && multiset(view) == old(multiset(view))
      ensures |view| == old(|view|) && view[n..] == old(view[n..])
      ensures moved || i0 == 0 ==> HeapTo(view, n)
      ensures !moved ==> HeapBelow(view, n, i0)
    {
      var i := i0;
      while 2 * i + 1 < n
        invariant Mirrored() && multiset(view) == old(multiset(view))
        invariant |view| == old(|view|) && view[n..] == old(view[n..])
        invariant i0 <= i < |view| && HeapAround(view, n, i)
        invariant i > i0 ==> Above(view, i)
        decreases n - i
      {
        var j := LesserChild(i, n);
        if !Less(j, i) {
          break;
        }
        DownStep(view, n, i, j);
        SwappedSame(view, i, j);
        Swap(i, j);
        i := j;
      }
      DownDone(view, n, i);
      moved := i > i0;
    }

    /** Puts one changed element right. */
    method Fix(i: nat)
      requires Mirrored() && i < |pq| && HeapAround(view, |view|, i)
      modifies this`pq, this`view, Repr`index
      ensures Valid() && multiset(view) == old(multiset(view))
    {
      var moved := Down(i, |pq|);
      if !moved {
        Up(i);
      }
    }

    // ---------- the public operations ----------

    /** Adds a value and gives its place. */
    method Push(value: V, priority: int) returns (index: int)
      requires Valid()
      modifies this, Repr
      ensures Valid() && fresh(Repr - old(Repr))
      ensures multiset(view) == old(multiset(view)) + multiset{Entry(value, priority)}
      ensures 0 <= index < |view| && view[index] == Entry(value, priority)
    {
      var ret := new Item(value, priority);
      AppendedBelow(view, Entry(value, priority));
      Append(ret);
      Up(|pq| - 1);
      assert AtItsIndex(ret);
      index := ret.index;
    }

    function Len(): nat
      requires Valid()
      reads this, Repr
      ensures Len() == |view|
    {
      |pq|
    }

    /** The value that Pop would give; the source demands a queue that is not empty. */
    function Peek(): (value: V)
      requires Valid() && pq != []
      reads this, Repr
      ensures value == view[0].obj
    {
      pq[0].obj
    }

    function PeekPriority(): (priority: int)
      requires Valid() && pq != []
      reads this, Repr
      ensures priority == view[0].priority && forall e :: e in view ==> priority <= e.priority
    {
      LeastAtRoot();
      pq[0].priority
    }

    lemma LeastAtRoot()
      requires Valid() && pq != []
      ensures forall e :: e in view ==> view[0].priority <= e.priority
    {
      forall e | e in view ensures view[0].priority <= e.priority {
        var k :| 0 <= k < |view| && view[k] == e;
        RootIsLeast(view, k);
      }
    }

    /** Takes out a value of least priority. */
    method Pop() returns (value: V)
      requires Valid() && pq != []
      modifies this, Repr
      ensures Valid() && Repr <= old(Repr) && |pq| == old(|pq|) - 1
      ensures value == old(view[0].obj)
      ensures multiset(view) == old(multiset(view) - multiset{view[0]})
      ensures forall e :: e in old(view) ==> old(view[0].priority) <= e.priority
    {
      LeastAtRoot();
      var n := |pq| - 1;
      SwapToEnd(view, n);
      SwappedSame(view, 0, n);
      Swap(0, n);
      var moved := Down(0, n);
      assert view[n..] == [old(view[0])];
      WithoutLast(view, n);
      var item := DropLast();
      value := item.obj;
    }

    /** Gives the item at a place a new value and priority, and tells where it went; -1 when there
        is no such place. */
    method Update(index: int, value: V, priority: int) returns (newIndex: int)
      requires Valid()
      modifies this, Repr
      ensures Valid() && Repr == old(Repr)
      ensures !(0 <= index < |old(view)|) ==> newIndex == -1 && view == old(view) && pq == old(pq)
      ensures 0 <= index < |old(view)| ==>
        && multiset(view) == old(multiset(view) - multiset{view[index]}) + multiset{Entry(value, priority)}
        && 0 <= newIndex < |view| && view[newIndex] == Entry(value, priority) && pq[newIndex] == old(pq[index])
    {
      if index < 0 || index >= |pq| {
        return -1;
      }
      var it := pq[index];
      HeapWithOneChanged(view, index, Entry(value, priority));
      SetItem(it, value, priority);
      Fix(it.index);
      assert AtItsIndex(it);
      newIndex := it.index;
    }

    method SetItem(it: Item<V>, value: V, priority: int)
      requires Mirrored() && it in Repr
      modifies this`view, it`obj, it`priority
      ensures Mirrored() && view == old(view)[it.index := Entry(value, priority)]
      ensures it.obj == value && it.priority == priority
    {
      assert AtItsIndex(it);
      it.obj := value;
      it.priority := priority;
      view := view[it.index := Entry(value, priority)];
    }
  }

  // ---------- draining ----------

  ghost predicate Sorted<V>(s: seq<Entry<V>>) {
    forall i, j :: 0 <= i < j < |s| ==> s[i].priority <= s[j].priority
  }

  /** Popping until the queue is empty gives everything it held, sorted by priority. */
  method Drain<V>(queue: Queue<V>) returns (entries: seq<Entry<V>>)
    requires queue.Valid()
    modifies queue, queue.Repr
    ensures queue.Valid() && queue.view == []
    ensures Sorted(entries) && multiset(entries) == old(multiset(queue.view))
  {
    entries := [];
    while queue.pq != []
      invariant queue.Valid() && queue.Repr <= old(queue.Repr)
      invariant multiset(entries) + multiset(queue.view) == old(multiset(queue.view))
      invariant SortedBefore(entries, multiset(queue.view))
      decreases |queue.pq|
    {
      ghost var before := multiset(queue.view);
      var priority := queue.PeekPriority();
      var value := queue.Pop();
      LeastNext(entries, before, Entry(value, priority));
      entries := entries + [Entry(value, priority)];
    }
  }

  ghost predicate SortedBefore<V>(s: seq<Entry<V>>, rest: multiset<Entry<V>>) {
    Sorted(s) && forall d, e :: d in s && e in rest ==> d.priority <= e.priority
  }

  lemma LeastNext<V>(s: seq<Entry<V>>, rest: multiset<Entry<V>>, least: Entry<V>)
    requires SortedBefore(s, rest) && least in rest && forall e :: e in rest ==> least.priority <= e.priority
    ensures SortedBefore(s + [least], rest - multiset{least})
  {
    var s' := s + [least];
    forall i, j | 0 <= i < j < |s'| ensures s'[i].priority <= s'[j].priority {
      assert s'[i] in s;
    }
  }
}
