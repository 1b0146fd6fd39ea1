/** The least-recently-used replacement policy of the Content Store: a linked list of indices, and
    a map from each index to its element, which keeps the elements of evicted indices too. */
module CsLru {
  import opened Names

  /** An element of the list; what matters of it besides its value is which one it is. */
  class Element {
    const value: Hash

    constructor (value: Hash)
      ensures this.value == value
    {
      this.value := value;
    }
  }

  // ---------- the order of use ----------

  /** The place of an index, or the length if it is not there. */
  function Place(order: seq<Hash>, index: Hash): (i: nat)
    ensures i <= |order|
    ensures i < |order| ==> order[i] == index
    ensures forall j :: 0 <= j < i ==> order[j] != index
  {
    if order == [] || order[0] == index then 0 else 1 + Place(order[1..], index)
  }

  function CutOut<T>(s: seq<T>, i: nat): seq<T> {
    if i < |s| then s[..i] + s[i + 1..] else s
  }

  function Without(order: seq<Hash>, index: Hash): seq<Hash> {
    CutOut(order, Place(order, index))
  }

  ghost predicate Apart(order: seq<Hash>, i: int, j: int) {
    0 <= i < j < |order| ==> order[i] != order[j]
  }

  ghost predicate Distinct(order: seq<Hash>) {
    forall i, j {:trigger Apart(order, i, j)} :: Apart(order, i, j)
  }

  ghost function Indices(order: seq<Hash>): set<Hash> {
    set h | h in order
  }

  lemma WithoutMeaning(order: seq<Hash>, index: Hash)
    requires Distinct(order)
    ensures Distinct(Without(order, index)) && Indices(Without(order, index)) == Indices(order) - {index}
    ensures |Without(order, index)| == if index in order then |order| - 1 else |order|
  {
    var i, left := Place(order, index), Without(order, index);
    forall j, k ensures Apart(left, j, k) {
      assert Apart(order, if j < i then j else j + 1, if k < i then k else k + 1);
    }
    if i < |order| {
      forall j | i < j < |order| ensures order[j] != index {
        assert Apart(order, i, j);
      }
      forall h | h in order && h != index ensures h in left {
        var j :| 0 <= j < |order| && order[j] == h;
        assert left[if j < i then j else j - 1] == h;
      }
    }
  }

  lemma WithoutFirst(order: seq<Hash>, h: Hash)
    requires Distinct(order) && order != []
    ensures Indices(order[1..]) == Indices(order) - {order[0]}
    ensures h in order[1..] <==> h in Indices(order) && h != order[0]
  {
    assert order == [order[0]] + order[1..];
    forall j | 0 < j < |order| ensures order[j] != order[0] {
      assert Apart(order, 0, j);
    }
  }

  /** Each index was last used later than the ones before it. */
  ghost predicate ByUse(order: seq<Hash>, used: map<Hash, nat>, ticks: nat) {
    && (forall i {:trigger UsedAt(order, used, ticks, i)} :: UsedAt(order, used, ticks, i))
    && (forall i, j {:trigger UsedBefore(order, used, i, j)} :: UsedBefore(order, used, i, j))
  }

  ghost predicate UsedAt(order: seq<Hash>, used: map<Hash, nat>, ticks: nat, i: int) {
    0 <= i < |order| ==> order[i] in used && used[order[i]] < ticks
  }

  ghost predicate UsedBefore(order: seq<Hash>, used: map<Hash, nat>, i: int, j: int) {
    0 <= i < j < |order| && order[i] in used && order[j] in used ==> used[order[i]] < used[order[j]]
  }

  /** Moving an index to the end, or adding it there, when it is used keeps the order of use. */
  lemma UsedLast(order: seq<Hash>, used: map<Hash, nat>, ticks: nat, index: Hash)
    requires Distinct(order) && ByUse(order, used, ticks)
    ensures ByUse(Without(order, index) + [index], used[index := ticks], ticks + 1)
    ensures Distinct(Without(order, index) + [index])
    ensures Indices(Without(order, index) + [index]) == Indices(order) + {index}
  {
    WithoutMeaning(order, index);
    var place, left := Place(order, index), Without(order, index);
    var order', used', later := left + [index], used[index := ticks], ticks + 1;
    assert index !in Indices(left);
    forall i ensures UsedAt(order', used', later, i) {
      assert UsedAt(order, used, ticks, if i < place then i else i + 1);
      assert 0 <= i < |left| ==> left[i] in Indices(left);
    }
    forall i, j ensures UsedBefore(order', used', i, j) && Apart(order', i, j) {
      var k, l := if i < place then i else i + 1, if j < place then j else j + 1;
      assert UsedBefore(order, used, k, l) && Apart(left, i, j);
      assert UsedAt(order, used, ticks, k) && UsedAt(order, used, ticks, l);
      assert 0 <= i < |left| ==> left[i] in Indices(left);
      assert 0 <= j < |left| ==> left[j] in Indices(left);
    }
    forall h ensures h in left + [index] <==> h in Indices(order) + {index} {
      assert h in left <==> h in Indices(left);
    }
  }

  /** The front is behind all others in use, and what follows it stays in order. */
  lemma FrontOut(order: seq<Hash>, used: map<Hash, nat>, ticks: nat)
    requires Distinct(order) && ByUse(order, used, ticks) && order != []
    ensures Distinct(order[1..]) && ByUse(order[1..], used, ticks)
    ensures order[0] in used && forall h :: h in order[1..] ==> h in used && used[order[0]] < used[h]
  {
    var rest := order[1..];
    assert UsedAt(order, used, ticks, 0);
    forall i ensures UsedAt(rest, used, ticks, i) {
      assert UsedAt(order, used, ticks, i + 1);
    }
    forall i, j ensures UsedBefore(rest, used, i, j) && Apart(rest, i, j) {
      assert UsedBefore(order, used, i + 1, j + 1) && Apart(order, i + 1, j + 1);
    }
    forall j | 0 < j < |order| ensures order[j] in used && used[order[0]] < used[order[j]] {
      assert UsedAt(order, used, ticks, j) && UsedBefore(order, used, 0, j);
    }
  }

  class CsLRU {
    var queue: seq<Element>
    var locations: map<Hash, Element>
    /** The indices in the list, and when each was last inserted, refreshed or used. */
    ghost var order: seq<Hash>
    ghost var used: map<Hash, nat>
    ghost var ticks: nat

    /** Each index in the list is at its location. */
    ghost predicate Located()
      reads this`queue, this`order, this`locations
    {
      && |order| == |queue|
      && (forall i {:trigger LocatedAt(i)} :: LocatedAt(i))
      && (forall h {:trigger locations[h]} :: h in locations ==> locations[h].value == h)
    }

    ghost predicate LocatedAt(i: int)
      reads this`queue, this`order, this`locations
    {
      0 <= i < |queue| == |order| ==>
        queue[i].value == order[i] && order[i] in locations && locations[order[i]] == queue[i]
    }

    /** An equation, so that it is carried over as a whole where nothing of it changes. */
    ghost predicate Valid()
      reads this
    {
      (Located() && Distinct(order) && ByUse(order, used, ticks)) == true
    }

    constructor ()
      ensures Valid() && order == []
    {
      queue, locations, order, used, ticks := [], map[], [], map[], 0;
    }

    /** Takes an element out of the list; nothing happens if it is not in the list any more, as the
        element of an evicted index. */
    method Remove(location: Element)
      requires Located() && Distinct(order) && location.value in locations && locations[location.value] == location
      modifies this`queue, this`order
      ensures order == Without(old(order), location.value)
      ensures Located() && Distinct(order)
    {
      WithoutMeaning(order, location.value);
      var i := 0;
      while i < |queue| && queue[i] != location
        invariant i <= |queue| && forall j :: 0 <= j < i ==> order[j] != location.value
      {
        assert LocatedAt(i);
        i := i + 1;
      }
      assert LocatedAt(i);
      assert i == Place(order, location.value);
      queue, order := CutOut(queue, i), CutOut(order, i);
      forall j ensures LocatedAt(j) {
        assert old(LocatedAt(j)) && old(LocatedAt(j + 1));
      }
    }

    method PushBack(index: Hash)
      requires Located() && Distinct(order) && index !in order
      modifies this`queue, this`order, this`locations
      ensures Located() && Distinct(order) && order == old(order) + [index]
    {
      var e := new Element(index);
      queue, order := queue + [e], order + [index];
      locations := locations[index := e];
      forall i ensures LocatedAt(i) {
        assert old(LocatedAt(i));
      }
      forall i, j ensures Apart(order, i, j) {
        assert Apart(old(order), i, j);
      }
    }

    /** After an insertion into the Content Store: the index comes last. A location left over from
        an earlier life of the index does no harm. */
    method AfterInsert(index: Hash)
      requires Valid() && index !in order
      modifies this
      ensures Valid() && order == old(order) + [index]
      ensures used == old(used)[index := old(ticks)] && ticks == old(ticks) + 1
    {
      UsedLast(order, used, ticks, index);
      WithoutMeaning(order, index);
      assert Without(order, index) == order;
      PushBack(index);
      Tick(index);
    }

    /** After a refresh, or before a use by an exact match: the index moves to the end. */
    method MoveToBack(index: Hash)
      requires Valid()
      modifies this
      ensures Valid() && order == Without(old(order), index) + [index]
      ensures used == old(used)[index := old(ticks)] && ticks == old(ticks) + 1
    {
      UsedLast(order, used, ticks, index);
      WithoutMeaning(order, index);
      if index in locations {
        Remove(locations[index]);
      } else {
        assert LocatedAt(Place(order, index));
        assert index !in order;
      }
      assert index !in Indices(order);
      PushBack(index);
      Tick(index);
    }

    ghost method Tick(index: Hash)
      modifies this`used, this`ticks
      ensures used == old(used)[index := old(ticks)] && ticks == old(ticks) + 1
    {
      used, ticks := used[index := ticks], ticks + 1;
    }

    /** Drops the front of the list: the index that has gone unused the longest. */
    method RemoveFront() returns (index: Hash)
      requires Valid() && queue != []
      modifies this`queue, this`order
      ensures Valid() && index == old(order[0]) && order == old(order[1..])
      ensures index in used && forall h :: h in order ==> h in used && used[index] < used[h]
    {
      assert LocatedAt(0);
      FrontOut(order, used, ticks);
      index := queue[0].value;
      queue, order := queue[1..], order[1..];
      forall i ensures LocatedAt(i) {
        assert old(LocatedAt(i + 1));
      }
    }
  }
}
