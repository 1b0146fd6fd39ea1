/** The Dead Nonce List: a set of (name, nonce) hashes, and a queue that says when each expires. */
module DeadNonceList {
  import opened Names
  import opened PriorityQueue

  type Nonce = n: int | 0 <= n < 0x1_0000_0000

  const WIDTH := 0x1_0000_0000_0000_0000

  /** The sum of the name's hash and the nonce, in 64 bits. */
  function Key(hash: Hash, nonce: Nonce): Hash {
    (hash + nonce) % WIDTH
  }

  /** Exactly which pairs the list cannot tell apart: the nonces make up for the difference of the
      name hashes. */
  lemma KeysClash(a: Hash, m: Nonce, b: Hash, n: Nonce)
    ensures Key(a, m) == Key(b, n) <==> a - b == n - m || a - b == n - m + WIDTH || a - b == n - m - WIDTH
  {
    assert Key(a, m) == a + m || Key(a, m) == a + m - WIDTH;
    assert Key(b, n) == b + n || Key(b, n) == b + n - WIDTH;
  }

  /** The queue holds each recorded hash once, with its expiration time, and nothing else. */
  ghost predicate Recorded(view: seq<Entry<Hash>>, expiry: map<Hash, int>) {
    forall e: Entry<Hash> :: multiset(view)[e] == if e.obj in expiry && expiry[e.obj] == e.priority then 1 else 0
  }

  lemma RecordMore(view: seq<Entry<Hash>>, expiry: map<Hash, int>, hash: Hash, time: int, view': seq<Entry<Hash>>)
    requires Recorded(view, expiry) && hash !in expiry
    requires multiset(view') == multiset(view) + multiset{Entry(hash, time)}
    ensures Recorded(view', expiry[hash := time])
  {
  }

  lemma RecordLess(view: seq<Entry<Hash>>, expiry: map<Hash, int>, e: Entry<Hash>, view': seq<Entry<Hash>>)
    requires Recorded(view, expiry) && e in view
    requires multiset(view') == multiset(view) - multiset{e}
    ensures e.obj in expiry && expiry[e.obj] == e.priority
    ensures Recorded(view', expiry - {e.obj})
  {
    assert multiset(view)[e] > 0;
  }

  class DeadNonceList {
    var list: set<Hash>
    const expirationQueue: Queue<Hash>
    const lifetime: int
    /** When each hash in the list expires. */
    ghost var expiry: map<Hash, int>

    ghost predicate Valid()
      reads this, expirationQueue, expirationQueue.Repr
    {
      expirationQueue.Valid() && Recorded(expirationQueue.view, expiry) && list == expiry.Keys
    }

    constructor (lifetime: int)
      ensures Valid() && fresh(expirationQueue) && fresh(expirationQueue.Repr)
      ensures list == {} && this.lifetime == lifetime
    {
      this.lifetime := lifetime;
      list, expiry := {}, map[];
      expirationQueue := new Queue();
    }

    /** Whether the name and nonce are on the list. */
    predicate Find(nameHash: Hash, nonce: Nonce)
      reads this
    {
      Key(nameHash, nonce) in list
    }

    /** Puts the name and nonce on the list, unless they are there already. `now` is the clock. */
    method Insert(nameHash: Hash, nonce: Nonce, now: int) returns (present: bool)
      requires Valid()
      modifies this, expirationQueue, expirationQueue.Repr
      ensures Valid() && fresh(expirationQueue.Repr - old(expirationQueue.Repr))
      ensures present == old(Find(nameHash, nonce))
      ensures expiry == if present then old(expiry) else old(expiry)[Key(nameHash, nonce) := now + lifetime]
    {
      var hash := Key(nameHash, nonce);
      present := hash in list;
      if !present {
        list := list + {hash};
        var _ := expirationQueue.Push(hash, now + lifetime);
        RecordMore(old(expirationQueue.view), expiry, hash, now + lifetime, expirationQueue.view);
        expiry := expiry[hash := now + lifetime];
      }
    }

    /** Removes expired hashes, the earliest first, but no more than a hundred. `clock` gives the
        readings of the clock, one for each turn of the loop. */
    method RemoveExpiredEntries(clock: nat -> int) returns (ghost removed: seq<Hash>)
      requires Valid()
      modifies this, expirationQueue, expirationQueue.Repr
      ensures Valid() && fresh(expirationQueue.Repr - old(expirationQueue.Repr))
      ensures Removed(old(expiry), removed, clock) && |removed| <= 100
      ensures expiry == Without(old(expiry), removed)
      ensures |removed| < 100 ==> forall h :: h in expiry ==> clock(|removed|) <= expiry[h]
    {
      removed := [];
      var evicted := 0;
      while expirationQueue.Len() > 0 && expirationQueue.PeekPriority() < clock(evicted)
        invariant Valid() && expirationQueue.Repr <= old(expirationQueue.Repr)
        invariant evicted == |removed| < 100
        invariant Removed(old(expiry), removed, clock) && expiry == Without(old(expiry), removed)
        decreases expirationQueue.Len()
      {
        ghost var before := expiry;
        var hash := EvictFirst();
        RemovedMore(old(expiry), removed, clock, before, hash);
        removed := removed + [hash];
        evicted := evicted + 1;
        if evicted >= 100 {
          break;
        }
      }
      if |removed| < 100 {
        NoneExpired(clock(evicted));
      }
    }

    method EvictFirst() returns (hash: Hash)
      requires Valid() && expirationQueue.Len() > 0
      modifies this, expirationQueue, expirationQueue.Repr
      ensures Valid() && expirationQueue.Repr <= old(expirationQueue.Repr)
      ensures expirationQueue.Len() == old(expirationQueue.Len()) - 1
      ensures hash in old(expiry) && old(expiry[hash]) == old(expirationQueue.PeekPriority())
      ensures forall h :: h in old(expiry) ==> old(expiry[hash]) <= old(expiry[h])
      ensures expiry == old(expiry) - {hash}
    {
      ghost var e := expirationQueue.view[0];
      hash := expirationQueue.Pop();
      RecordLess(old(expirationQueue.view), expiry, e, expirationQueue.view);
      InQueue(old(expirationQueue.view), expiry);
      list := list - {hash};
      expiry := expiry - {hash};
    }

    /** When the first hash of the queue has not expired at a time, none has. */
    lemma NoneExpired(time: int)
      requires Valid() && (expirationQueue.Len() > 0 ==> time <= expirationQueue.PeekPriority())
      ensures forall h :: h in expiry ==> time <= expiry[h]
    {
      InQueue(expirationQueue.view, expiry);
    }
  }

  lemma InQueue(view: seq<Entry<Hash>>, expiry: map<Hash, int>)
    requires Recorded(view, expiry)
    ensures forall h :: h in expiry ==> Entry(h, expiry[h]) in view
  {
    forall h | h in expiry ensures Entry(h, expiry[h]) in view {
      assert multiset(view)[Entry(h, expiry[h])] == 1;
    }
  }

  lemma RemovedMore(expiry: map<Hash, int>, removed: seq<Hash>, clock: nat -> int, rest: map<Hash, int>, hash: Hash)
    requires Removed(expiry, removed, clock) && rest == Without(expiry, removed)
    requires hash in rest && rest[hash] < clock(|removed|)
    requires forall h :: h in rest ==> rest[hash] <= rest[h]
    ensures Removed(expiry, removed + [hash], clock)
    ensures Without(expiry, removed + [hash]) == rest - {hash}
  {
    var more, without := removed + [hash], Without(expiry, removed + [hash]);
    assert forall h :: h in more <==> h in removed || h == hash;
    assert without == rest - {hash};
    forall k | 0 <= k < |more| ensures more[k] in expiry && expiry[more[k]] < clock(k) {
      assert k < |removed| ==> more[k] == removed[k];
    }
    forall j, k | 0 <= j < k < |more| ensures more[j] != more[k] && expiry[more[j]] <= expiry[more[k]] {
      assert more[j] == removed[j] && removed[j] in removed;
      assert k < |removed| ==> more[k] == removed[k];
    }
    forall k, h | 0 <= k < |more| && h in without ensures expiry[more[k]] <= expiry[h] {
      assert h in rest;
      assert k < |removed| ==> more[k] == removed[k];
    }
  }

  ghost function Without(expiry: map<Hash, int>, removed: seq<Hash>): map<Hash, int> {
    expiry - set h | h in removed
  }

  /** The removed hashes had expired, the k-th at the k-th reading, and no other hash expires
      earlier than a removed one, nor one removed later earlier than one removed sooner. */
  ghost predicate Removed(expiry: map<Hash, int>, removed: seq<Hash>, clock: nat -> int) {
    && (forall k :: 0 <= k < |removed| ==> removed[k] in expiry && expiry[removed[k]] < clock(k))
    && (forall j, k :: 0 <= j < k < |removed| ==> removed[j] != removed[k] && expiry[removed[j]] <= expiry[removed[k]])
    && (forall k, h :: 0 <= k < |removed| && h in Without(expiry, removed) ==> expiry[removed[k]] <= expiry[h])
  }

  // ---------- runs ----------

  datatype NonceOp =
    | NonceInsert(nameHash: Hash, nonce: Nonce, now: int)
    | NonceClean(clock: nat -> int)

  /** No clock reading of the operation is later than the time. */
  ghost predicate NotLater(op: NonceOp, time: int) {
    match op
    case NonceInsert(_, _, now) => now <= time
    case NonceClean(clock) => forall k: nat :: clock(k) <= time
  }

  /** The hashes that a run inserts. */
  ghost function Inserted(ops: seq<NonceOp>): set<Hash> {
    set op | op in ops && op.NonceInsert? :: Key(op.nameHash, op.nonce)
  }

  /** What had not expired by the time is as it was. */
  ghost predicate Lasting(before: map<Hash, int>, after: map<Hash, int>, time: int) {
    forall h :: h in before && time <= before[h] ==> h in after && after[h] == before[h]
  }

  method ApplyNonce(d: DeadNonceList, op: NonceOp, ghost time: int)
    requires d.Valid() && NotLater(op, time)
    modifies d, d.expirationQueue, d.expirationQueue.Repr
    ensures d.Valid() && fresh(d.expirationQueue.Repr - old(d.expirationQueue.Repr))
    ensures Lasting(old(d.expiry), d.expiry, time) && d.list <= old(d.list) + Inserted([op])
  {
    match op {
      case NonceInsert(nameHash, nonce, now) =>
        assert op in [op];
        var _ := d.Insert(nameHash, nonce, now);
      case NonceClean(clock) =>
        ghost var removed := d.RemoveExpiredEntries(clock);
        assert forall k :: 0 <= k < |removed| ==> clock(k) <= time;
    }
  }

  /** What has not expired at the latest reading of a run is still there after it, and whatever is
      there was there before or was inserted. */
  method RunNonces(d: DeadNonceList, ops: seq<NonceOp>, ghost time: int)
    requires d.Valid() && forall op :: op in ops ==> NotLater(op, time)
    modifies d, d.expirationQueue, d.expirationQueue.Repr
    ensures d.Valid() && fresh(d.expirationQueue.Repr - old(d.expirationQueue.Repr))
    ensures Lasting(old(d.expiry), d.expiry, time) && d.list <= old(d.list) + Inserted(ops)
  {
    if ops != [] {
      var init, op := ops[..|ops| - 1], ops[|ops| - 1];
      RunNonces(d, init, time);
      ApplyNonce(d, op, time);
      assert Inserted([op]) <= Inserted(ops) && Inserted(init) <= Inserted(ops);
    }
  }

  /** A nonce that was put on the list is found for as long as its lifetime lasts, whatever else
      is inserted or cleaned up in the meantime. */
  method FoundWhileItLasts(d: DeadNonceList, nameHash: Hash, nonce: Nonce, start: int, ops: seq<NonceOp>)
    returns (known: bool, found: bool)
    requires d.Valid() && forall op :: op in ops ==> NotLater(op, start + d.lifetime)
    modifies d, d.expirationQueue, d.expirationQueue.Repr
    ensures known == old(d.Find(nameHash, nonce))
    ensures !known ==> found
  {
    known := d.Insert(nameHash, nonce, start);
    RunNonces(d, ops, start + d.lifetime);
    found := d.Find(nameHash, nonce);
  }
}
