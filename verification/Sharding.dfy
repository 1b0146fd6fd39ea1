/** Dispatch to forwarding threads: each thread has a PIT of its own, Interests go to the thread of
    their name, and Data without a PIT token to the threads of all its prefixes. */
module Sharding {
  import opened Names
  import opened PitCs

  const LOCALHOST: seq<Byte> := [0x6c, 0x6f, 0x63, 0x61, 0x6c, 0x68, 0x6f, 0x73, 0x74]

  predicate IsLocalhost(name: Name) {
    Len(name) > 0 && At(name, 0).val == LOCALHOST
  }

  /** Management names are those whose first component says "localhost", whatever its type. */
  lemma IsLocalhostMeaning(name: Name)
    ensures IsLocalhost(name) <==>
              && name != Root && |At(name, 0).val| == 9
              && forall i :: 0 <= i < 9 ==> At(name, 0).val[i] == "localhost"[i] as int
  {
    assert forall i :: 0 <= i < 9 ==> LOCALHOST[i] == "localhost"[i] as int;
  }

  /** The thread for an Interest; management names go to thread 0. */
  function ThreadOf(hash: Name -> Hash, name: Name, threads: nat): (t: nat)
    requires threads > 0
    ensures t < threads
  {
    if IsLocalhost(name) then 0 else hash(name) % threads
  }

  /** The threads for Data, one for each prefix but the empty one; a thread may occur repeatedly. */
  method PrefixThreads(hash: Name -> Hash, name: Name, threads: nat) returns (threadList: seq<nat>)
    requires threads > 0
    ensures IsLocalhost(name) ==> threadList == [0]
    ensures !IsLocalhost(name) ==> |threadList| == Len(name)
                                   && forall i :: 0 <= i < Len(name) ==>
                                      threadList[i] == hash(Prefix(name, i + 1)) % threads
    ensures forall t :: t in threadList ==> t < threads
    ensures forall t :: t in threadList <==> t in ThreadsOf(hash, name, threads)
  {
    if IsLocalhost(name) {
      threadList := [0];
      FirstComponents(hash, name, threads);
      return;
    }
    threadList := [];
    var prefixHash := PrefixHash(hash, name);
    var i := 1;
    while i < |prefixHash|
      invariant 1 <= i <= |prefixHash| && |threadList| == i - 1
      invariant forall j :: 0 <= j < i - 1 ==> threadList[j] == hash(Prefix(name, j + 1)) % threads
    {
      threadList := threadList + [prefixHash[i] % threads];
      i := i + 1;
    }
    FirstComponents(hash, name, threads);
    forall t ensures t in threadList <==> t in ThreadsOf(hash, name, threads) {
      if t in threadList {
        var j :| 0 <= j < |threadList| && threadList[j] == t;
        assert IsPrefix(Prefix(name, j + 1), name);
        assert ThreadOf(hash, Prefix(name, j + 1), threads) == t;
      }
      if t in ThreadsOf(hash, name, threads) {
        var k: nat :| 1 <= k <= Len(name) && ThreadOf(hash, Prefix(name, k), threads) == t;
        assert threadList[k - 1] == t;
      }
    }
  }

  /** The threads that Interests for the non-empty prefixes of the name go to. */
  ghost function ThreadsOf(hash: Name -> Hash, name: Name, threads: nat): set<nat>
    requires threads > 0
  {
    set k: nat | 1 <= k <= Len(name) :: ThreadOf(hash, Prefix(name, k), threads)
  }

  lemma {:induction false} FirstOfPrefix(name: Name, k: nat)
    requires 1 <= k <= Len(name)
    ensures At(Prefix(name, k), 0) == At(name, 0)
  {
    if k < Len(name) {
      FirstOfPrefix(name.prefix, k);
    }
  }

  /** A name and its prefixes begin with the same component, so all or none are management names. */
  lemma FirstComponents(hash: Name -> Hash, name: Name, threads: nat)
    requires threads > 0
    ensures forall k :: 1 <= k <= Len(name) ==> IsLocalhost(Prefix(name, k)) == IsLocalhost(name)
    ensures IsLocalhost(name) ==> ThreadsOf(hash, name, threads) == {0}
  {
    forall k | 1 <= k <= Len(name) ensures IsLocalhost(Prefix(name, k)) == IsLocalhost(name) {
      FirstOfPrefix(name, k);
    }
    if IsLocalhost(name) {
      assert ThreadOf(hash, Prefix(name, 1), threads) == 0;
    }
  }

  // ---------- the PITs of the threads ----------

  /** Each pending Interest is in the PIT of the thread of its name, and no other. */
  ghost predicate Sharded(hash: Name -> Hash, pits: seq<set<PitKey>>, stored: set<PitKey>)
    requires |pits| > 0
  {
    forall t, k :: 0 <= t < |pits| ==> (k in pits[t] <==> k in stored && ThreadOf(hash, k.name, |pits|) == t)
  }

  /** What the dispatched Data matches, over all the threads that it goes to. */
  ghost function Matched(pits: seq<set<PitKey>>, threadList: seq<nat>, data: Name): set<PitKey>
    requires forall t :: t in threadList ==> t < |pits|
  {
    set t, k | t in threadList && k in pits[t] && k in Satisfied(data) :: k
  }

  /** Sharding is transparent: over all the threads that Data is dispatched to, it matches what it
      would match in one PIT, but for Interests for the empty name. */
  lemma Transparent(hash: Name -> Hash, pits: seq<set<PitKey>>, stored: set<PitKey>, data: Name, threadList: seq<nat>)
    requires |pits| > 0 && Sharded(hash, pits, stored)
    requires forall t :: t in threadList <==> t in ThreadsOf(hash, data, |pits|)
    requires forall t :: t in threadList ==> t < |pits|
    ensures forall k: PitKey :: k.name != Root ==>
              (k in Matched(pits, threadList, data) <==> k in stored && k in Satisfied(data))
  {
    forall k: PitKey | k.name != Root && k in stored && k in Satisfied(data)
      ensures k in Matched(pits, threadList, data)
    {
      var t := ThreadOf(hash, k.name, |pits|);
      assert Prefix(data, Len(k.name)) == k.name && 1 <= Len(k.name) <= Len(data);
      assert t in ThreadsOf(hash, data, |pits|);
      assert k in pits[t];
    }
  }

  /** An Interest for the empty name is found exactly if its thread happens to be one of those. */
  lemma EmptyNameFound(hash: Name -> Hash, pits: seq<set<PitKey>>, stored: set<PitKey>, data: Name,
                       threadList: seq<nat>, k: PitKey)
    requires |pits| > 0 && Sharded(hash, pits, stored)
    requires forall t :: t in threadList ==> t < |pits|
    requires k.name == Root && k in stored && k in Satisfied(data)
    ensures k in Matched(pits, threadList, data) <==> ThreadOf(hash, Root, |pits|) in threadList
  {
    var t := ThreadOf(hash, Root, |pits|);
    if t in threadList {
      assert k in pits[t];
    }
  }

  // ---------- the tables of the threads ----------

  /** The table holds this entry, and Data with the name satisfies it. */
  ghost predicate Finds(table: PitCsTree, name: Name, e: PitEntry)
    reads table
  {
    e.key in table.pit && table.pit[e.key] == e && e.key in Satisfied(name)
  }

  /** Each table holds only Interests of its thread. */
  ghost predicate InTheirThreads(hash: Name -> Hash, tables: seq<PitCsTree>)
    requires |tables| > 0
    reads tables
  {
    forall t, k :: 0 <= t < |tables| && k in tables[t].pit ==> ThreadOf(hash, k.name, |tables|) == t
  }

  /** What Data without a PIT token finds in the tables of the threads that it is dispatched to: of the
      entries with a name that is not empty just those that satisfy it in any table, and of the others
      those of the threads that happen to be among these. */
  method MatchInAll(hash: Name -> Hash, tables: seq<PitCsTree>, name: Name) returns (matched: set<PitEntry>)
    requires |tables| > 0 && InTheirThreads(hash, tables)
    requires forall t :: 0 <= t < |tables| ==> tables[t].Valid() && Spelled(tables[t].components, name)
    ensures forall e: PitEntry :: e.key.name != Root ==>
              (e in matched <==> exists t :: 0 <= t < |tables| && Finds(tables[t], name, e))
    ensures forall e: PitEntry :: e.key.name == Root ==> (e in matched <==> FoundInOwn(hash, tables, name, e))
  {
    var threadList := PrefixThreads(hash, name, |tables|);
    assert forall i :: 0 <= i < |threadList| ==> threadList[i] in threadList;
    matched := MatchInEach(tables, name, threadList);
    FoundAll(hash, tables, name, threadList);
  }

  method MatchInEach(tables: seq<PitCsTree>, name: Name, threadList: seq<nat>) returns (matched: set<PitEntry>)
    requires forall t :: 0 <= t < |tables| ==> tables[t].Valid() && Spelled(tables[t].components, name)
    requires forall i :: 0 <= i < |threadList| ==> threadList[i] < |tables|
    ensures forall e {:trigger FoundBy(tables, name, threadList, |threadList|, e)} ::
              e in matched <==> FoundBy(tables, name, threadList, |threadList|, e)
  {
    matched := {};
    var i := 0;
    while i < |threadList|
      invariant i <= |threadList|
      invariant forall e {:trigger FoundBy(tables, name, threadList, i, e)} ::
                  e in matched <==> FoundBy(tables, name, threadList, i, e)
    {
      var more := MatchIn(tables[threadList[i]], name);
      ghost var next, all := CollectedMore(tables, name, threadList, i, matched, more);
      matched := matched + more;
      i := i + 1;
    }
  }

  lemma CollectedMore(tables: seq<PitCsTree>, name: Name, threadList: seq<nat>, n: nat, matched: set<PitEntry>,
                      more: set<PitEntry>)
    returns (next: nat, all: set<PitEntry>)
    requires n < |threadList| && forall i :: 0 <= i < |threadList| ==> threadList[i] < |tables|
    requires forall e {:trigger FoundBy(tables, name, threadList, n, e)} ::
               e in matched <==> FoundBy(tables, name, threadList, n, e)
    requires forall e :: e in more <==> Finds(tables[threadList[n]], name, e)
    ensures next == n + 1 && all == matched + more
    ensures forall e {:trigger FoundBy(tables, name, threadList, next, e)} ::
              e in all <==> FoundBy(tables, name, threadList, next, e)
  {
    next, all := n + 1, matched + more;
    forall e ensures e in all <==> FoundBy(tables, name, threadList, next, e) {
      assert e in matched <==> FoundBy(tables, name, threadList, n, e);
    }
  }

  lemma FoundAll(hash: Name -> Hash, tables: seq<PitCsTree>, name: Name, threadList: seq<nat>)
    requires |tables| > 0 && InTheirThreads(hash, tables)
    requires forall i :: 0 <= i < |threadList| ==> threadList[i] < |tables|
    requires forall t :: t in threadList <==> t in ThreadsOf(hash, name, |tables|)
    ensures forall e: PitEntry ::
              FoundBy(tables, name, threadList, |threadList|, e) <==> FoundInOwn(hash, tables, name, e)
    ensures forall e: PitEntry :: e.key.name != Root ==>
              (FoundInOwn(hash, tables, name, e) <==> exists t :: 0 <= t < |tables| && Finds(tables[t], name, e))
  {
    forall e: PitEntry
      ensures FoundBy(tables, name, threadList, |threadList|, e) <==> FoundInOwn(hash, tables, name, e)
    {
      FoundThere(hash, tables, name, threadList, e);
    }
    forall e: PitEntry, t | e.key.name != Root && 0 <= t < |tables| && Finds(tables[t], name, e)
      ensures FoundInOwn(hash, tables, name, e)
    {
      OwnThread(hash, e.key, name, |tables|);
    }
  }

  method MatchIn(table: PitCsTree, name: Name) returns (matched: set<PitEntry>)
    requires table.Valid() && Spelled(table.components, name)
    ensures forall e :: e in matched <==> Finds(table, name, e)
  {
    var more := table.FindInterestPrefixMatchByData(name, None);
    matched := set e | e in more;
  }

  /** One of the first n threads of the list finds the entry. */
  ghost predicate FoundBy(tables: seq<PitCsTree>, name: Name, threadList: seq<nat>, n: nat, e: PitEntry)
    requires n <= |threadList| && forall i :: 0 <= i < |threadList| ==> threadList[i] < |tables|
    reads tables
  {
    exists j :: 0 <= j < n && Finds(tables[threadList[j]], name, e)
  }

  /** Its own thread finds it, and is one of those that the Data is dispatched to. */
  ghost predicate FoundInOwn(hash: Name -> Hash, tables: seq<PitCsTree>, name: Name, e: PitEntry)
    requires |tables| > 0
    reads tables
  {
    var t := ThreadOf(hash, e.key.name, |tables|);
    t in ThreadsOf(hash, name, |tables|) && Finds(tables[t], name, e)
  }

  /** An entry is in the table of its thread, which is one of those of the name's prefixes. */
  lemma OwnThread(hash: Name -> Hash, k: PitKey, name: Name, threads: nat)
    requires threads > 0 && k.name != Root && k in Satisfied(name)
    ensures ThreadOf(hash, k.name, threads) in ThreadsOf(hash, name, threads)
  {
    assert Prefix(name, Len(k.name)) == k.name && 1 <= Len(k.name) <= Len(name);
  }

  lemma FoundThere(hash: Name -> Hash, tables: seq<PitCsTree>, name: Name, threadList: seq<nat>, e: PitEntry)
    requires |tables| > 0 && InTheirThreads(hash, tables)
    requires forall i :: 0 <= i < |threadList| ==> threadList[i] < |tables|
    requires forall t :: t in threadList <==> t in ThreadsOf(hash, name, |tables|)
    ensures FoundBy(tables, name, threadList, |threadList|, e) <==> FoundInOwn(hash, tables, name, e)
  {
    var t := ThreadOf(hash, e.key.name, |tables|);
    if FoundBy(tables, name, threadList, |threadList|, e) {
      var j :| 0 <= j < |threadList| && Finds(tables[threadList[j]], name, e);
      assert threadList[j] == t && t in threadList;
    }
    if FoundInOwn(hash, tables, name, e) {
      var j :| 0 <= j < |threadList| && threadList[j] == t;
      assert Finds(tables[threadList[j]], name, e);
    }
  }
}
