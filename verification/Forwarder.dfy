/** A forwarding thread's pipelines, step by step over its PIT, and the balance of flow: Data goes to
    a face only against an Interest that came from it. */
module Forwarder {
  import opened Names
  import FibSpec
  import PitCs
  import Sharding

  type FaceId = nat
  type Nonce = PitCs.Nonce
  type PitKey = PitCs.PitKey

  datatype InRecord = InRecord(nonce: Nonce, pitToken: seq<Byte>)

  /** A pending entry: who asks, and whom it was sent to with which nonce. */
  datatype Entry = Entry(inRecords: map<FaceId, InRecord>, outRecords: map<FaceId, Nonce>, satisfied: bool)

  const NEW_ENTRY: Entry := Entry(map[], map[], false)

  type Pit = map<PitKey, Entry>

  /** What the pipelines know of a face. */
  datatype Face = Face(local: bool, adHoc: bool)

  type Faces = map<FaceId, Face>

  type NextHop = FibSpec.NextHop

  datatype Interest = Interest(key: PitKey, nonce: Nonce, hopLimit: Option<nat>, pitToken: seq<Byte>)

  // ---------- counting in-records ----------

  /** The entries that hold an in-record for the face. */
  ghost function Holding(pit: Pit, face: FaceId): set<PitKey> {
    set k | k in pit && face in pit[k].inRecords
  }

  /** The number of in-records of these entries. */
  ghost function Records(pit: Pit, keys: set<PitKey>): nat
    requires keys <= pit.Keys
  {
    if keys == {} then 0 else |pit[Pick(keys)].inRecords| + Records(pit, keys - {Pick(keys)})
  }

  lemma {:induction false} RecordsOf(pit: Pit, pit': Pit, keys: set<PitKey>, k: PitKey)
    requires k in keys && keys <= pit.Keys && keys <= pit'.Keys
    requires forall j :: j in keys && j != k ==> pit'[j].inRecords == pit[j].inRecords
    ensures Records(pit', keys) - |pit'[k].inRecords| == Records(pit, keys) - |pit[k].inRecords|
  {
    var p := Pick(keys);
    if p == k {
      SameRecords(pit, pit', keys - {p});
    } else {
      RecordsOf(pit, pit', keys - {p}, k);
    }
  }

  lemma {:induction false} SameRecords(pit: Pit, pit': Pit, keys: set<PitKey>)
    requires keys <= pit.Keys && keys <= pit'.Keys
    requires forall j :: j in keys ==> pit'[j].inRecords == pit[j].inRecords
    ensures Records(pit', keys) == Records(pit, keys)
  {
    if keys != {} {
      SameRecords(pit, pit', keys - {Pick(keys)});
    }
  }

  lemma {:induction false} RecordsWithout(pit: Pit, keys: set<PitKey>, k: PitKey)
    requires k in keys && keys <= pit.Keys
    ensures Records(pit, keys) == |pit[k].inRecords| + Records(pit, keys - {k})
  {
    var p := Pick(keys);
    if p != k {
      RecordsWithout(pit, keys - {p}, k);
      RecordsWithout(pit, keys - {k}, p);
      assert keys - {p} - {k} == keys - {k} - {p};
    }
  }

  function Before(pit: Pit, k: PitKey): map<FaceId, InRecord> {
    if k in pit then pit[k].inRecords else map[]
  }

  function One(b: bool): nat {
    if b then 1 else 0
  }

  /** What changing or adding one entry does to the counts. */
  lemma RecordsPut(pit: Pit, k: PitKey, e: Entry)
    ensures var pit' := pit[k := e];
            Records(pit', pit'.Keys) == Records(pit, pit.Keys) - |Before(pit, k)| + |e.inRecords|
  {
    var pit' := pit[k := e];
    if k in pit {
      assert pit'.Keys == pit.Keys;
      RecordsOf(pit, pit', pit.Keys, k);
    } else {
      RecordsWithout(pit', pit'.Keys, k);
      assert pit'.Keys - {k} == pit.Keys;
      SameRecords(pit, pit', pit.Keys);
    }
  }

  lemma HoldingPut(pit: Pit, k: PitKey, e: Entry, f: FaceId)
    ensures |Holding(pit[k := e], f)| == |Holding(pit, f)| - One(f in Before(pit, k)) + One(f in e.inRecords)
  {
    var others := Holding(pit, f) - {k};
    WithOne(others, k, Holding(pit, f), f in Before(pit, k));
    WithOne(others, k, Holding(pit[k := e], f), f in e.inRecords);
  }

  lemma WithOne<T>(others: set<T>, k: T, all: set<T>, with: bool)
    requires k !in others && (forall x :: x in all <==> x in others || (x == k && with))
    ensures |all| == |others| + One(with)
  {
    if with {
      assert all == others + {k};
    } else {
      assert all == others;
    }
  }

  /** What taking one entry out does to the counts. */
  lemma RecordsDrop(pit: Pit, k: PitKey)
    requires k in pit
    ensures var pit' := pit - {k}; Records(pit', pit'.Keys) == Records(pit, pit.Keys) - |pit[k].inRecords|
  {
    var pit' := pit - {k};
    RecordsWithout(pit, pit.Keys, k);
    assert pit'.Keys == pit.Keys - {k};
    SameRecords(pit, pit', pit'.Keys);
  }

  lemma HoldingDrop(pit: Pit, k: PitKey, f: FaceId)
    ensures |Holding(pit - {k}, f)| <= |Holding(pit, f)|
  {
    WithOne(Holding(pit - {k}, f), k, Holding(pit, f), f in Before(pit, k));
  }

  // ---------- the balance ----------

  type Counts = map<FaceId, nat>

  function Count(m: Counts, f: FaceId): nat {
    if f in m then m[f] else 0
  }

  function Bumped(m: Counts, f: FaceId): Counts {
    m[f := Count(m, f) + 1]
  }

  ghost function Sum(m: Counts): nat {
    if m == map[] then 0 else
      var f :| f in m;
      m[f] + Sum(m - {f})
  }

  lemma {:induction false} SumWithout(m: Counts, f: FaceId)
    requires f in m
    ensures Sum(m) == m[f] + Sum(m - {f})
  {
    var g :| g in m && Sum(m) == m[g] + Sum(m - {g});
    if g != f {
      SumWithout(m - {g}, f);
      SumWithout(m - {f}, g);
      assert m - {g} - {f} == m - {f} - {g};
    }
  }

  lemma SumBumped(m: Counts, f: FaceId)
    ensures Sum(Bumped(m, f)) == Sum(m) + 1
  {
    SumWithout(Bumped(m, f), f);
    assert Bumped(m, f) - {f} == m - {f};
    if f in m {
      SumWithout(m, f);
    } else {
      assert m - {f} == m;
    }
  }

  /** Of the Interests from the face, none is used up by more than one in-record or Data packet;
      `spare` are faces with one Interest to go. */
  ghost predicate BalanceAt(pit: Pit, interests: Counts, data: Counts, spare: set<FaceId>, f: FaceId) {
    Count(data, f) + |Holding(pit, f)| + (if f in spare then 1 else 0) <= Count(interests, f)
  }

  ghost predicate Balance(pit: Pit, interests: Counts, data: Counts, spare: set<FaceId>) {
    forall f {:trigger BalanceAt(pit, interests, data, spare, f)} :: BalanceAt(pit, interests, data, spare, f)
  }

  /** The same for all faces together: satisfied, unsatisfied and pending ones are no more than
      there were. */
  ghost predicate Totals(pit: Pit, nIn: nat, nSatisfied: nat, nUnsatisfied: nat, spare: set<FaceId>) {
    nSatisfied + nUnsatisfied + Records(pit, pit.Keys) + |spare| <= nIn
  }

  /** In-records that an entry has not any more give spare Interests, new ones use them up. */
  ghost predicate Pays(before: map<FaceId, InRecord>, spare: set<FaceId>, after: map<FaceId, InRecord>,
                       spare': set<FaceId>) {
    && (forall f :: One(f in spare') + One(f in after) <= One(f in spare) + One(f in before))
    && |spare'| + |after| <= |spare| + |before|
  }

  lemma BalancePut(pit: Pit, k: PitKey, e: Entry, pit': Pit, interests: Counts, data: Counts, spare: set<FaceId>,
                   spare': set<FaceId>)
    requires Balance(pit, interests, data, spare) && pit' == pit[k := e]
    requires Pays(Before(pit, k), spare, e.inRecords, spare')
    ensures Balance(pit', interests, data, spare')
  {
    forall f ensures BalanceAt(pit', interests, data, spare', f) {
      HoldingPut(pit, k, e, f);
      assert BalanceAt(pit, interests, data, spare, f);
      assert One(f in spare') + One(f in e.inRecords) <= One(f in spare) + One(f in Before(pit, k));
    }
  }

  lemma BalanceDrop(pit: Pit, k: PitKey, pit': Pit, interests: Counts, data: Counts)
    requires Balance(pit, interests, data, {}) && k in pit && pit' == pit - {k}
    ensures Balance(pit', interests, data, {})
  {
    forall f ensures BalanceAt(pit', interests, data, {}, f) {
      HoldingDrop(pit, k, f);
      assert BalanceAt(pit, interests, data, {}, f);
    }
  }

  lemma BalanceCount(pit: Pit, interests: Counts, data: Counts, f: FaceId)
    requires Balance(pit, interests, data, {})
    ensures Balance(pit, Bumped(interests, f), data, {f})
  {
    var more, spare := Bumped(interests, f), {f};
    forall g ensures BalanceAt(pit, more, data, spare, g) {
      assert BalanceAt(pit, interests, data, {}, g);
    }
  }

  lemma BalanceSend(pit: Pit, interests: Counts, data: Counts, spare: set<FaceId>, f: FaceId)
    requires Balance(pit, interests, data, spare) && f in spare
    ensures Balance(pit, interests, Bumped(data, f), spare - {f}) && Balance(pit, interests, data, spare - {f})
  {
    var more, less := Bumped(data, f), spare - {f};
    forall g ensures BalanceAt(pit, interests, more, less, g) && BalanceAt(pit, interests, data, less, g) {
      assert BalanceAt(pit, interests, data, spare, g);
    }
  }

  // ---------- the thread ----------

  /** What became of an Interest. */
  datatype Outcome =
    | Dropped | DeadNonce | Looping | FromCs | Direct(face: FaceId)
    | Sent(face: FaceId) | NoNextHop | ToAll(faces: set<FaceId>)

  datatype Strategy = BestRoute | Multicast

  /** Data with this name may go to the face. */
  predicate MayGo(faces: Faces, name: Name, f: FaceId) {
    f in faces && (faces[f].local || !Sharding.IsLocalhost(name))
  }

  class Thread {
    var pit: Pit
    var nInInterests: nat
    var nInData: nat
    var nOutInterests: nat
    var nOutData: nat
    var nSatisfiedInterests: nat
    var nUnsatisfiedInterests: nat
    /** Interests counted from each face, and Data sent to it. */
    ghost var interestsFrom: Counts
    ghost var dataTo: Counts

    ghost predicate Balanced(spare: set<FaceId>)
      reads this
    {
      // an equation, so that it is carried over as a whole where nothing of it changes
      && (Balance(pit, interestsFrom, dataTo, spare)
          && Totals(pit, nInInterests, nSatisfiedInterests, nUnsatisfiedInterests, spare)
          && nInInterests == Sum(interestsFrom) && nOutData == nSatisfiedInterests == Sum(dataTo)) == true
    }

    constructor ()
      ensures Balanced({}) && pit == map[] && interestsFrom == map[] && dataTo == map[]
    {
      pit, interestsFrom, dataTo := map[], map[], map[];
      nInInterests, nInData, nOutInterests, nOutData := 0, 0, 0, 0;
      nSatisfiedInterests, nUnsatisfiedInterests := 0, 0;
    }

    // ---------- outgoing Data ----------

    /** Sends Data on a face, if that is there and may have it. An Interest to spare pays for it. */
    method ProcessOutgoingData(faces: Faces, name: Name, nexthop: FaceId, ghost spare: set<FaceId>)
      modifies this`nOutData, this`nSatisfiedInterests, this`dataTo
      ensures old(Balanced(spare)) && nexthop in spare ==> Balanced(spare - {nexthop})
      ensures nOutData == old(nOutData) + One(MayGo(faces, name, nexthop))
      ensures nSatisfiedInterests == old(nSatisfiedInterests) + One(MayGo(faces, name, nexthop))
      ensures dataTo == if MayGo(faces, name, nexthop) then Bumped(old(dataTo), nexthop) else old(dataTo)
    {
      if Balanced(spare) && nexthop in spare {
        OneSpareLess(spare, nexthop);
      }
      if nexthop !in faces {
        return;
      }
      if !faces[nexthop].local && Sharding.IsLocalhost(name) {
        return;
      }
      CountData(nexthop, spare);
    }

    method CountData(nexthop: FaceId, ghost spare: set<FaceId>)
      modifies this`nOutData, this`nSatisfiedInterests, this`dataTo
      ensures old(Balanced(spare)) && nexthop in spare ==> Balanced(spare - {nexthop})
      ensures dataTo == Bumped(old(dataTo), nexthop)
      ensures nOutData == old(nOutData) + 1 && nSatisfiedInterests == old(nSatisfiedInterests) + 1
    {
      if Balanced(spare) && nexthop in spare {
        ghost var less := spare - {nexthop};
        assert |less| + 1 == |spare|;
        BalanceSend(pit, interestsFrom, dataTo, spare, nexthop);
        SumBumped(dataTo, nexthop);
      }
      nOutData := nOutData + 1;
      nSatisfiedInterests := nSatisfiedInterests + 1;
      dataTo := Bumped(dataTo, nexthop);
    }

    lemma OneSpareLess(spare: set<FaceId>, nexthop: FaceId)
      requires Balanced(spare) && nexthop in spare
      ensures Balanced(spare - {nexthop})
    {
      ghost var less := spare - {nexthop};
      assert |less| + 1 == |spare|;
      BalanceSend(pit, interestsFrom, dataTo, spare, nexthop);
    }

    /** The strategy's way to send Data: an in-record of the face is used up, and pays for it. */
    method SendData(faces: Faces, name: Name, k: PitKey, nexthop: FaceId)
      requires k in pit
      modifies this`pit, this`nOutData, this`nSatisfiedInterests, this`dataTo
      ensures pit == old(pit)[k := old(pit[k]).(inRecords := old(pit[k].inRecords) - {nexthop})]
      ensures old(Balanced({}) && nexthop in pit[k].inRecords) ==> Balanced({})
      ensures nOutData == old(nOutData) + One(MayGo(faces, name, nexthop))
      ensures dataTo == if MayGo(faces, name, nexthop) then Bumped(old(dataTo), nexthop) else old(dataTo)
    {
      var e := pit[k].(inRecords := pit[k].inRecords - {nexthop});
      Put(k, e, {}, {nexthop});
      ProcessOutgoingData(faces, name, nexthop, {nexthop});
    }

    /** Stores an entry. */
    method Put(k: PitKey, e: Entry, ghost spare: set<FaceId>, ghost spare': set<FaceId>)
      modifies this`pit
      ensures pit == old(pit)[k := e]
      ensures old(Balanced(spare) && Pays(Before(pit, k), spare, e.inRecords, spare')) ==> Balanced(spare')
    {
      RecordsPut(pit, k, e);
      pit := pit[k := e];
      if old(Balanced(spare) && Pays(Before(pit, k), spare, e.inRecords, spare')) {
        BalancePut(old(pit), k, e, pit, interestsFrom, dataTo, spare, spare');
      }
    }

    // ---------- incoming Data ----------

    /** The best-route strategy after Data for one entry: Data to every face with an in-record, in
        any order; the records are used up on the way. */
    method AfterReceiveData(faces: Faces, name: Name, k: PitKey)
      requires Balanced({}) && k in pit
      modifies this`pit, this`nOutData, this`nSatisfiedInterests, this`dataTo
      ensures Balanced({}) && pit == old(pit)[k := old(pit[k]).(inRecords := map[])]
      ensures Sends(old(dataTo), dataTo, faces, name, old(pit[k].inRecords.Keys))
    {
      ghost var records := pit[k].inRecords;
      var rest := pit[k].inRecords.Keys;
      while rest != {}
        invariant Balanced({}) && k in pit && rest <= records.Keys
        invariant pit == old(pit)[k := old(pit[k]).(inRecords := pit[k].inRecords)] && pit[k].inRecords.Keys == rest
        invariant Sends(old(dataTo), dataTo, faces, name, records.Keys - rest)
        decreases rest
      {
        var faceId :| faceId in rest;
        ghost var sent := dataTo;
        SendData(faces, name, k, faceId);
        SendsMore(old(dataTo), sent, dataTo, faces, name, records.Keys, rest, faceId);
        rest := rest - {faceId};
      }
      assert records.Keys - rest == records.Keys;
      assert pit[k].inRecords == map[];
    }

    /** Data for several entries: the in-records of one entry are stored and cleared, and Data goes to
        the stored faces, but not back to where it came from. */
    method Satisfy(faces: Faces, name: Name, k: PitKey, inFace: FaceId)
      requires Balanced({}) && k in pit
      modifies this`pit, this`nOutData, this`nSatisfiedInterests, this`dataTo
      ensures Balanced({}) && pit == old(pit)[k := Entry(map[], map[], true)]
      ensures Sends(old(dataTo), dataTo, faces, name, old(pit[k].inRecords.Keys) - {inFace})
    {
      var downstreams := pit[k].inRecords.Keys - {inFace};
      ghost var records := pit[k].inRecords;
      assert |records.Keys| == |records|;
      Put(k, Entry(map[], map[], true), {}, downstreams);
      SendDownstream(faces, name, records.Keys - {inFace}, downstreams);
    }

    /** Data goes to each of the faces, in any order. */
    method SendDownstream(faces: Faces, name: Name, ghost all: set<FaceId>, downstreams: set<FaceId>)
      requires Balanced(all) && downstreams == all
      modifies this`nOutData, this`nSatisfiedInterests, this`dataTo
      ensures Balanced({}) && Sends(old(dataTo), dataTo, faces, name, all)
    {
      var rest := downstreams;
      while rest != {}
        invariant Balanced(rest) && rest <= all
        invariant Sends(old(dataTo), dataTo, faces, name, all - rest)
        decreases rest
      {
        var downstreamFaceId :| downstreamFaceId in rest;
        ghost var sent := dataTo;
        ProcessOutgoingData(faces, name, downstreamFaceId, rest);
        SendsMore(old(dataTo), sent, dataTo, faces, name, all, rest, downstreamFaceId);
        rest := rest - {downstreamFaceId};
      }
      assert all - rest == all;
    }

    /** The pipeline for Data. It panics at Data with the empty name from a face that is not local:
        the test for the first component of a name looks at the name's text, which is never empty. */
    method ProcessIncomingData(faces: Faces, name: Name, inFace: Option<FaceId>, lookup: Lookup) returns (panics: bool)
      requires Balanced({})
      modifies this`pit, this`nInData, this`nOutData, this`nSatisfiedInterests, this`dataTo
      ensures Balanced({}) && nInData == old(nInData) + One(inFace.Some? && inFace.value in faces)
      ensures panics == Panics(faces, name, inFace)
      ensures panics || Ignored(faces, name, inFace) ==> pit == old(pit) && dataTo == old(dataTo)
      ensures !panics && !Ignored(faces, name, inFace) ==>
        var matches := Matches(old(pit), name, lookup);
        && pit == Cleared(old(pit), matches)
        && Answers(old(dataTo), dataTo, old(pit), matches, faces, name, if |matches| == 1 then None else inFace)
      ensures !panics && !Ignored(faces, name, inFace) && lookup.ByToken? && lookup.entry.Some? ==>
        var k := lookup.entry.value;
        k in old(pit) ==>
          && pit == old(pit)[k := Entry(map[], map[], true)]
          && Sends(old(dataTo), dataTo, faces, name, old(pit)[k].inRecords.Keys)
    {
      if inFace.None? || inFace.value !in faces {
        return false;
      }
      nInData := nInData + 1;
      if !faces[inFace.value].local && name == Root {
        return true;
      }
      if !faces[inFace.value].local && Sharding.IsLocalhost(name) {
        return false;
      }
      var pitEntries := Matches(pit, name, lookup);
      if |pitEntries| == 1 {
        var k :| k in pitEntries;
        SatisfyOne(faces, name, pitEntries, k);
        OnlyOne(pitEntries, k);
        AnswersOne(old(dataTo), dataTo, old(pit), k, faces, name);
      } else {
        SatisfyAll(faces, name, pitEntries, inFace.value);
      }
      return false;
    }

    /** The only entry is satisfied by the strategy. */
    method SatisfyOne(faces: Faces, name: Name, ghost matches: set<PitKey>, k: PitKey)
      requires Balanced({}) && |matches| == 1 && k in matches && k in pit
      modifies this`pit, this`nOutData, this`nSatisfiedInterests, this`dataTo
      ensures Balanced({}) && pit == Cleared(old(pit), matches)
      ensures Answers(old(dataTo), dataTo, old(pit), matches, faces, name, None)
    {
      OnlyOne(matches, k);
      AfterReceiveData(faces, name, k);
      Put(k, pit[k].(satisfied := true, outRecords := map[]), {}, {});
      AnswersNone(old(dataTo), old(pit), faces, name, None);
      AnswersMore(old(dataTo), old(dataTo), dataTo, old(pit), {}, faces, name, None, k, old(pit[k].inRecords.Keys));
      assert {} + {k} == {k};
      assert pit == Cleared(old(pit), {k});
    }

    /** The loop over several entries. */
    method SatisfyAll(faces: Faces, name: Name, matches: set<PitKey>, inFace: FaceId)
      requires Balanced({}) && matches <= pit.Keys
      modifies this`pit, this`nOutData, this`nSatisfiedInterests, this`dataTo
      ensures Balanced({}) && pit == Cleared(old(pit), matches)
      ensures Answers(old(dataTo), dataTo, old(pit), matches, faces, name, Some(inFace))
    {
      var rest := matches;
      assert pit == Cleared(pit, {});
      AnswersNone(dataTo, pit, faces, name, Some(inFace));
      while rest != {}
        invariant Balanced({}) && rest <= matches && pit == Cleared(old(pit), matches - rest)
        invariant Answers(old(dataTo), dataTo, old(pit), matches - rest, faces, name, Some(inFace))
        decreases rest
      {
        var pitEntry :| pitEntry in rest;
        ghost var sent, done := dataTo, matches - rest;
        Satisfy(faces, name, pitEntry, inFace);
        AnswersMore(old(dataTo), sent, dataTo, old(pit), done, faces, name, Some(inFace), pitEntry,
                    old(pit[pitEntry].inRecords.Keys) - {inFace});
        rest := rest - {pitEntry};
        assert matches - rest == done + {pitEntry};
        ClearedMore(old(pit), done, pitEntry);
      }
      assert matches - rest == matches;
    }

    // ---------- incoming Interests ----------

    /** Sends an Interest on a face, unless the face is not there, it came from there, or its hop
        limit is used up. */
    method ProcessOutgoingInterest(faces: Faces, interest: Interest, nexthop: FaceId, inFace: FaceId)
      returns (sent: bool)
      requires Balanced({}) && interest.key in pit
      modifies this`pit, this`nOutInterests
      ensures Balanced({}) && sent == Usable(faces, interest.hopLimit, inFace, nexthop)
      ensures pit == if sent then WithOutRecord(old(pit), interest, nexthop) else old(pit)
      ensures nOutInterests == old(nOutInterests) + One(sent)
    {
      if nexthop !in faces {
        return false;
      }
      if nexthop == inFace && !faces[nexthop].adHoc {
        return false;
      }
      if interest.hopLimit == Some(0) && !faces[nexthop].local {
        return false;
      }
      var e := pit[interest.key];
      Put(interest.key, e.(outRecords := e.outRecords[nexthop := interest.nonce]), {}, {});
      nOutInterests := nOutInterests + 1;
      return true;
    }

    /** The best-route strategy: the Interest goes to a usable next hop of the least cost. */
    method AfterReceiveInterest(faces: Faces, interest: Interest, inFace: FaceId, nexthops: seq<NextHop>)
      returns (outcome: Outcome)
      requires Balanced({}) && interest.key in pit
      modifies this`pit, this`nOutInterests
      ensures Balanced({}) && Routed(faces, interest.hopLimit, inFace, nexthops, outcome)
      ensures pit == if outcome.Sent? then WithOutRecord(old(pit), interest, outcome.face) else old(pit)
      ensures nOutInterests == old(nOutInterests) + One(outcome.Sent?)
    {
      var sorted := SortByCost(nexthops);
      var i := 0;
      while i < |sorted|
        invariant 0 <= i <= |sorted| && Balanced({}) && pit == old(pit) && nOutInterests == old(nOutInterests)
        invariant forall j :: 0 <= j < i ==> !Usable(faces, interest.hopLimit, inFace, sorted[j].face)
      {
        var sent := ProcessOutgoingInterest(faces, interest, sorted[i].face, inFace);
        if sent {
          FirstUsable(faces, interest.hopLimit, inFace, nexthops, sorted, i);
          return Sent(sorted[i].face);
        }
        i := i + 1;
      }
      NoneUsable(faces, interest.hopLimit, inFace, nexthops, sorted);
      return NoNextHop;
    }

    /** The multicast strategy: the Interest goes to all usable next hops. */
    method MulticastInterest(faces: Faces, interest: Interest, inFace: FaceId, nexthops: seq<NextHop>)
      returns (outcome: Outcome)
      requires Balanced({}) && interest.key in pit
      modifies this`pit, this`nOutInterests
      ensures Balanced({}) && outcome == ToAll(UsableFaces(faces, interest.hopLimit, inFace, nexthops))
      ensures pit == WithOutRecords(old(pit), interest, outcome.faces)
      ensures nOutInterests == old(nOutInterests) + UsableHops(faces, interest.hopLimit, inFace, nexthops)
    {
      ghost var before := pit;
      var sentTo: set<FaceId> := {};
      ghost var hops: nat := 0;
      var i := 0;
      NoneOut(pit, interest);
      UsableNone(faces, interest.hopLimit, inFace, nexthops);
      while i < |nexthops|
        invariant i <= |nexthops| && Balanced({}) && SentTo(before, pit, interest, sentTo) == true
        invariant UsableTo(faces, interest.hopLimit, inFace, nexthops, i, sentTo, hops) == true
        invariant nOutInterests == old(nOutInterests) + hops
      {
        sentTo, hops := SendAlso(faces, interest, inFace, nexthops, i, before, sentTo, hops);
        i := i + 1;
      }
      UsableAll(faces, interest.hopLimit, inFace, nexthops, sentTo, hops);
      return ToAll(sentTo);
    }

    /** One round of the loop. */
    method SendAlso(faces: Faces, interest: Interest, inFace: FaceId, nexthops: seq<NextHop>, i: nat,
                    ghost before: Pit, to: set<FaceId>, ghost hops: nat)
      returns (to': set<FaceId>, ghost hops': nat)
      requires Balanced({}) && SentTo(before, pit, interest, to) == true && i < |nexthops|
      requires UsableTo(faces, interest.hopLimit, inFace, nexthops, i, to, hops) == true
      modifies this`pit, this`nOutInterests
      ensures Balanced({}) && SentTo(before, pit, interest, to') == true
      ensures UsableTo(faces, interest.hopLimit, inFace, nexthops, i + 1, to', hops') == true
      ensures hops <= hops' && nOutInterests == old(nOutInterests) + (hops' - hops)
    {
      var nexthop := nexthops[i].face;
      UsableMore(faces, interest.hopLimit, inFace, nexthops, i, to, hops);
      OneMoreOut(before, interest, to, nexthop);
      var sent := ProcessOutgoingInterest(faces, interest, nexthop, inFace);
      to', hops' := if sent then to + {nexthop} else to, hops + One(sent);
    }

    /** The in-record of an Interest is inserted, or refreshed but for its PIT token. */
    method InsertInRecord(k: PitKey, nonce: Nonce, face: FaceId, incomingPitToken: seq<Byte>)
      returns (isAlreadyPending: bool)
      requires Balanced({face}) && k in pit
      modifies this`pit
      ensures isAlreadyPending == (face in old(pit[k].inRecords))
      ensures Balanced(if isAlreadyPending then {face} else {})
      ensures pit == old(pit)[k := WithInRecord(old(pit[k]), nonce, face, incomingPitToken)]
    {
      var e := pit[k];
      isAlreadyPending := face in e.inRecords;
      var e' := WithInRecord(e, nonce, face, incomingPitToken);
      RecordAdded(e, nonce, face, incomingPitToken);
      Put(k, e', {face}, if isAlreadyPending then {face} else {});
    }

    /** Counts an Interest. */
    method CountInterest(face: FaceId)
      requires Balanced({})
      modifies this`nInInterests, this`interestsFrom
      ensures Balanced({face}) && Balanced({})
      ensures nInInterests == old(nInInterests) + 1 && interestsFrom == Bumped(old(interestsFrom), face)
    {
      nInInterests := nInInterests + 1;
      BalanceCount(pit, interestsFrom, dataTo, face);
      SumBumped(interestsFrom, face);
      interestsFrom := Bumped(interestsFrom, face);
      BalanceSend(pit, interestsFrom, dataTo, {face}, face);
      assert {face} - {face} == {};
    }

    /** The pipeline for Interests. `isDead`, `csEntry` and `nexthops` are what the Dead Nonce List, the
        Content Store and the FIB answer for it, `nextHopFaceId` is the face that its sender asks for. */
    method ProcessIncomingInterest(faces: Faces, interest: Interest, incomingFace: Option<FaceId>, isDead: bool,
      csEntry: Option<Name>, nextHopFaceId: Option<FaceId>, strategy: Strategy, nexthops: seq<NextHop>)
      returns (outcome: Outcome)
      requires Balanced({})
      modifies this`pit, this`nInInterests, this`nOutInterests, this`nOutData, this`nSatisfiedInterests
      modifies this`interestsFrom, this`dataTo
      ensures Balanced({})
      ensures Refused(faces, interest, incomingFace) ==> outcome == Dropped && interestsFrom == old(interestsFrom)
      ensures !Refused(faces, interest, incomingFace) ==>
        && interestsFrom == Bumped(old(interestsFrom), incomingFace.value)
        && Decided(faces, old(pit), interest, incomingFace.value, isDead, csEntry, nextHopFaceId, strategy, nexthops,
                   outcome)
        && nOutInterests == old(nOutInterests) + SendsOf(faces, interest, incomingFace.value, nexthops, outcome)
      ensures nInInterests == old(nInInterests) + One(!Refused(faces, interest, incomingFace))
      ensures Refused(faces, interest, incomingFace) ==> nOutInterests == old(nOutInterests)
      ensures pit == if incomingFace.Some? then PitAfter(old(pit), interest, incomingFace.value, outcome) else old(pit)
      ensures dataTo == if outcome.FromCs? && MayGo(faces, csEntry.value, incomingFace.value)
                        then Bumped(old(dataTo), incomingFace.value) else old(dataTo)
    {
      if incomingFace.None? || incomingFace.value !in faces {
        return Dropped;
      }
      var inFace := incomingFace.value;
      if interest.hopLimit == Some(0) {
        return Dropped;
      }
      var passed := interest.(hopLimit := Decremented(interest.hopLimit));
      if !faces[inFace].local && Sharding.IsLocalhost(interest.key.name) {
        return Dropped;
      }
      CountInterest(inFace);
      outcome := Pursue(faces, interest, passed, inFace, isDead, csEntry, nextHopFaceId, strategy, nexthops);
    }

    /** What happens to an Interest that has been counted. */
    method Pursue(faces: Faces, interest: Interest, passed: Interest, inFace: FaceId, isDead: bool,
                  csEntry: Option<Name>,
                  nextHopFaceId: Option<FaceId>, strategy: Strategy, nexthops: seq<NextHop>) returns (outcome: Outcome)
      requires Balanced({inFace}) && Balanced({})
      requires interest.hopLimit != Some(0) && passed == interest.(hopLimit := Decremented(interest.hopLimit))
      modifies this`pit, this`nOutInterests, this`nOutData, this`nSatisfiedInterests, this`dataTo
      ensures Balanced({})
      ensures Decided(faces, old(pit), interest, inFace, isDead, csEntry, nextHopFaceId, strategy, nexthops, outcome)
      ensures nOutInterests == old(nOutInterests) + SendsOf(faces, interest, inFace, nexthops, outcome)
      ensures pit == PitAfter(old(pit), interest, inFace, outcome)
      ensures dataTo == if outcome.FromCs? && MayGo(faces, csEntry.value, inFace)
                        then Bumped(old(dataTo), inFace) else old(dataTo)
    {
      if isDead {
        return DeadNonce;
      }
      var duplicate := IsDuplicate(interest, inFace);
      if duplicate {
        return Looping;
      }
      outcome := Admit(faces, interest, passed, inFace, csEntry, nextHopFaceId, strategy, nexthops);
    }

    /** What happens to one that is no duplicate. */
    method Admit(faces: Faces, interest: Interest, passed: Interest, inFace: FaceId, csEntry: Option<Name>,
                 nextHopFaceId: Option<FaceId>, strategy: Strategy, nexthops: seq<NextHop>) returns (outcome: Outcome)
      requires Balanced({inFace}) && Balanced({})
      requires interest.hopLimit != Some(0) && passed == interest.(hopLimit := Decremented(interest.hopLimit))
      modifies this`pit, this`nOutInterests, this`nOutData, this`nSatisfiedInterests, this`dataTo
      ensures Balanced({})
      ensures Admitted(faces, old(pit), interest, inFace, csEntry, nextHopFaceId, strategy, nexthops, outcome)
      ensures nOutInterests == old(nOutInterests) + SendsOf(faces, interest, inFace, nexthops, outcome)
      ensures pit == PitAfter(old(pit), interest, inFace, outcome)
      ensures dataTo == if outcome.FromCs? && MayGo(faces, csEntry.value, inFace)
                        then Bumped(old(dataTo), inFace) else old(dataTo)
    {
      var isAlreadyPending := Record(interest, inFace);
      if !isAlreadyPending && csEntry.Some? {
        AfterContentStoreHit(faces, csEntry.value, old(pit), interest, inFace);
        return FromCs;
      }
      if nextHopFaceId.Some? {
        return if nextHopFaceId.value in faces then Direct(nextHopFaceId.value) else NoNextHop;
      }
      outcome := Forward(faces, interest, passed, inFace, strategy, nexthops);
    }

    /** Whether the nonce came in already, from another face. */
    method IsDuplicate(interest: Interest, inFace: FaceId) returns (duplicate: bool)
      ensures duplicate <==> Loops(EntryFor(pit, interest.key).inRecords, interest.nonce, inFace)
    {
      var inRecords := EntryFor(pit, interest.key).inRecords;
      var rest := inRecords.Keys;
      while rest != {}
        invariant rest <= inRecords.Keys
        invariant forall face :: face in inRecords && face !in rest ==>
                    face == inFace || inRecords[face].nonce != interest.nonce
        decreases rest
      {
        var face :| face in rest;
        if face != inFace && inRecords[face].nonce == interest.nonce {
          return true;
        }
        rest := rest - {face};
      }
      duplicate := false;
    }

    /** Hands an Interest to the strategy of its name. */
    method Forward(faces: Faces, interest: Interest, passed: Interest, inFace: FaceId, strategy: Strategy,
                   nexthops: seq<NextHop>)
      returns (outcome: Outcome)
      requires Balanced({}) && interest.key in pit
      requires interest.hopLimit != Some(0) && passed == interest.(hopLimit := Decremented(interest.hopLimit))
      modifies this`pit, this`nOutInterests
      ensures Balanced({}) && Chosen(faces, passed.hopLimit, inFace, strategy, nexthops, outcome)
      ensures pit == match outcome
                     case Sent(face) => WithOutRecord(old(pit), interest, face)
                     case ToAll(to) => WithOutRecords(old(pit), interest, to)
                     case _ => old(pit)
      ensures nOutInterests == old(nOutInterests) + SendsOf(faces, interest, inFace, nexthops, outcome)
    {
      match strategy {
        case BestRoute => outcome := AfterReceiveInterest(faces, passed, inFace, nexthops);
        case Multicast => outcome := MulticastInterest(faces, passed, inFace, nexthops);
      }
    }

    /** The best-route strategy after a hit in the Content Store: the entry is as it was before the
        Interest, but may be new. */
    method AfterContentStoreHit(faces: Faces, data: Name, ghost before: Pit, interest: Interest, inFace: FaceId)
      requires Balanced({}) && pit == Recorded(before, interest, inFace)
      requires inFace !in EntryFor(before, interest.key).inRecords
      modifies this`pit, this`nOutData, this`nSatisfiedInterests, this`dataTo
      ensures Balanced({}) && pit == PitAfter(before, interest, inFace, FromCs)
      ensures dataTo == if MayGo(faces, data, inFace) then Bumped(old(dataTo), inFace) else old(dataTo)
    {
      SendData(faces, data, interest.key, inFace);
      ghost var e := EntryFor(before, interest.key);
      assert old(pit[interest.key].inRecords) - {inFace} == e.inRecords;
      assert pit == before[interest.key := e];
    }

    /** Finds or makes the entry, and records who asks. */
    method Record(interest: Interest, inFace: FaceId) returns (isAlreadyPending: bool)
      requires Balanced({inFace})
      modifies this`pit
      ensures Balanced({}) && isAlreadyPending == (inFace in EntryFor(old(pit), interest.key).inRecords)
      ensures pit == Recorded(old(pit), interest, inFace)
    {
      if interest.key !in pit {
        Put(interest.key, NEW_ENTRY, {inFace}, {inFace});
      }
      isAlreadyPending := InsertInRecord(interest.key, interest.nonce, inFace, interest.pitToken);
      if isAlreadyPending {
        BalanceSend(pit, interestsFrom, dataTo, {inFace}, inFace);
        assert {inFace} - {inFace} == {};
      }
      assert pit == Recorded(old(pit), interest, inFace);
    }

    // ---------- the end of an entry ----------

    /** An entry expires: its in-records count as unsatisfied unless it has been satisfied. */
    method Expire(k: PitKey)
      requires Balanced({}) && k in pit
      modifies this`pit, this`nUnsatisfiedInterests
      ensures Balanced({}) && pit == old(pit) - {k}
      ensures nUnsatisfiedInterests == old(nUnsatisfiedInterests)
              + (if old(pit[k]).satisfied then 0 else |old(pit[k]).inRecords|)
    {
      RecordsDrop(pit, k);
      if !pit[k].satisfied {
        nUnsatisfiedInterests := nUnsatisfiedInterests + |pit[k].inRecords|;
      }
      pit := pit - {k};
      BalanceDrop(old(pit), k, pit, interestsFrom, dataTo);
    }
  }

  // ---------- two steps ----------

  /** An outcome that leaves the Interest pending. */
  predicate Pending(outcome: Outcome) {
    outcome.Direct? || outcome.Sent? || outcome.NoNextHop? || outcome.ToAll?
  }

  /** An Interest whose nonce is not dead. */
  method Ask(thread: Thread, faces: Faces, interest: Interest, face: FaceId, csEntry: Option<Name>,
             nextHopFaceId: Option<FaceId>, strategy: Strategy, nexthops: seq<NextHop>) returns (outcome: Outcome)
    requires thread.Balanced({})
    modifies thread
    ensures thread.Balanced({}) && thread.pit == PitAfter(old(thread.pit), interest, face, outcome)
    ensures if Refused(faces, interest, Some(face)) then outcome == Dropped
            else outcome == Looping <==> Loops(EntryFor(old(thread.pit), interest.key).inRecords, interest.nonce, face)
  {
    outcome := thread.ProcessIncomingInterest(faces, interest, Some(face), false, csEntry, nextHopFaceId, strategy,
                                              nexthops);
  }

  lemma LoopsAgain(pit: Pit, interest: Interest, face: FaceId, outcome: Outcome, pit': Pit, face': FaceId)
    requires Pending(outcome) && pit' == PitAfter(pit, interest, face, outcome)
    requires !Loops(EntryFor(pit, interest.key).inRecords, interest.nonce, face)
    ensures Loops(EntryFor(pit', interest.key).inRecords, interest.nonce, face') <==> face' != face
  {
    var before, after := EntryFor(pit, interest.key).inRecords, EntryFor(pit', interest.key).inRecords;
    RecordedMeaning(pit, interest, face);
    assert after == Recorded(pit, interest, face)[interest.key].inRecords;
    assert face in after && after[face].nonce == interest.nonce;
    forall f | f in after && f != face ensures f in before && after[f].nonce != interest.nonce {
      assert after[f] == Before(pit, interest.key)[f];
    }
  }

  /** Loop detection: an Interest that is pending, and comes again with the same nonce, loops exactly if
      it comes from another face; from the same one it is a retransmission. */
  method AskAgain(thread: Thread, faces: Faces, interest: Interest, face: FaceId, again: Interest, face': FaceId,
                  csEntry: Option<Name>, nextHopFaceId: Option<FaceId>, strategy: Strategy, nexthops: seq<NextHop>)
    returns (first: Outcome, second: Outcome)
    requires thread.Balanced({}) && again.key == interest.key && again.nonce == interest.nonce
    modifies thread
    ensures thread.Balanced({})
    ensures Pending(first) && !Refused(faces, again, Some(face')) ==> (second == Looping <==> face' != face)
  {
    first := Ask(thread, faces, interest, face, csEntry, nextHopFaceId, strategy, nexthops);
    if Pending(first) {
      LoopsAgain(old(thread.pit), interest, face, first, thread.pit, face');
    }
    second := Ask(thread, faces, again, face', csEntry, nextHopFaceId, strategy, nexthops);
  }

  lemma StaysPending(pit: Pit, interest: Interest, face: FaceId, outcome: Outcome, pit': Pit)
    requires Pending(outcome) && pit' == PitAfter(pit, interest, face, outcome)
    ensures interest.key in pit' && face in pit'[interest.key].inRecords
  {
  }

  lemma IsAnswered(pit: Pit, k: PitKey, face: FaceId, faces: Faces, data: Name, except: Option<FaceId>,
                   matches: set<PitKey>, sent: Counts, sent': Counts)
    requires k in pit && face in pit[k].inRecords && k in matches && MayGo(faces, data, face) && except != Some(face)
    requires Answers(sent, sent', pit, matches, faces, data, except)
    ensures Count(sent', face) > Count(sent, face)
    ensures matches == {k} ==> Count(sent', face) == Count(sent, face) + 1
  {
    var asking := Asking(pit, matches, face);
    assert AnswersAt(sent, sent', pit, matches, faces, data, except, face);
    assert asking == {k} + (asking - {k});
    assert matches == {k} ==> asking == {k};
  }

  /** The lookup for this Data leads to the entry: by its token, or by a name that satisfies it. */
  predicate Leads(lookup: Lookup, data: Name, k: PitKey) {
    match lookup
    case ByToken(entry) => entry == Some(k)
    case ByName => data == k.name || (k.canBePrefix && IsPrefix(k.name, data))
  }

  /** Interest and Data: a face whose Interest is pending is sent the Data for it. With the PIT token of the
      entry that is all it gets, even if the Data came from it; by name it gets Data once for each entry
      that it has asked for, and none back. Nobody asks for the entry any more. */
  method AskAndAnswer(thread: Thread, faces: Faces, interest: Interest, face: FaceId, csEntry: Option<Name>,
                      nextHopFaceId: Option<FaceId>, strategy: Strategy, nexthops: seq<NextHop>, data: Name,
                      dataFace: FaceId, lookup: Lookup)
    returns (outcome: Outcome, panics: bool)
    requires thread.Balanced({}) && dataFace in faces && data != Root
    requires face in faces && (faces[face].local || !Sharding.IsLocalhost(data))
    requires faces[dataFace].local || !Sharding.IsLocalhost(data)
    requires Leads(lookup, data, interest.key)
    modifies thread
    ensures thread.Balanced({}) && !panics
    ensures Pending(outcome) ==>
              && interest.key in thread.pit && thread.pit[interest.key].satisfied
              && thread.pit[interest.key].inRecords == map[]
    ensures Pending(outcome) && lookup.ByToken? ==>
              Count(thread.dataTo, face) == Count(old(thread.dataTo), face) + 1
    ensures Pending(outcome) && face != dataFace ==> Count(thread.dataTo, face) > Count(old(thread.dataTo), face)
  {
    outcome := thread.ProcessIncomingInterest(faces, interest, Some(face), false, csEntry, nextHopFaceId, strategy,
                                              nexthops);
    ghost var pit, sent := thread.pit, thread.dataTo;
    panics := thread.ProcessIncomingData(faces, data, Some(dataFace), lookup);
    if Pending(outcome) {
      StaysPending(old(thread.pit), interest, face, outcome, pit);
      ghost var matches := Matches(pit, data, lookup);
      ghost var except := if |matches| == 1 then None else Some(dataFace);
      if except != Some(face) {
        IsAnswered(pit, interest.key, face, faces, data, except, matches, sent, thread.dataTo);
      }
    }
  }

  // ---------- whole runs ----------

  datatype Step =
    | ReceiveInterest(faces: Faces, interest: Interest, interestFace: Option<FaceId>, isDead: bool,
                      csEntry: Option<Name>, nextHopFaceId: Option<FaceId>, strategy: Strategy, nexthops: seq<NextHop>)
    | ReceiveData(faces: Faces, name: Name, dataFace: Option<FaceId>, lookup: Lookup)
    | Expiry(key: PitKey)

  /** A step that brings an Interest from the face, and one that is not refused. */
  predicate Asks(step: Step, f: FaceId) {
    step.ReceiveInterest? && !Refused(step.faces, step.interest, step.interestFace) && step.interestFace.value == f
  }

  function AskedBy(steps: seq<Step>, f: FaceId): nat {
    if steps == [] then 0 else AskedBy(steps[..|steps| - 1], f) + One(Asks(steps[|steps| - 1], f))
  }

  /** The counts keep up with the steps. */
  ghost predicate CountsOf(interests: Counts, steps: seq<Step>) {
    forall f {:trigger AskedBy(steps, f)} :: Count(interests, f) == AskedBy(steps, f)
  }

  lemma CountsMore(interests: Counts, steps: seq<Step>, n: nat, interests': Counts)
    requires n < |steps| && CountsOf(interests, steps[..n])
    requires forall f :: Count(interests', f) == Count(interests, f) + One(Asks(steps[n], f))
    ensures CountsOf(interests', steps[..n + 1])
  {
    var init, more := steps[..n], steps[..n + 1];
    assert more[..n] == init;
    forall f ensures Count(interests', f) == AskedBy(more, f) {
      assert Count(interests, f) == AskedBy(init, f);
    }
  }

  predicate Fatal(step: Step) {
    step.ReceiveData? && Panics(step.faces, step.name, step.dataFace)
  }

  method TakeStep(thread: Thread, step: Step) returns (panics: bool)
    requires thread.Balanced({})
    modifies thread
    ensures thread.Balanced({}) && panics == Fatal(step)
    ensures forall f :: Count(thread.interestsFrom, f) == Count(old(thread.interestsFrom), f) + One(Asks(step, f))
  {
    panics := false;
    match step {
      case ReceiveInterest(faces, interest, face, isDead, csEntry, nextHopFaceId, strategy, nexthops) =>
        var _ := thread.ProcessIncomingInterest(faces, interest, face, isDead, csEntry, nextHopFaceId, strategy,
                                                nexthops);
      case ReceiveData(faces, name, face, lookup) =>
        panics := thread.ProcessIncomingData(faces, name, face, lookup);
      case Expiry(key) =>
        if key in thread.pit {
          thread.Expire(key);
        }
    }
  }

  /** Flow balance: whatever a thread receives, and whichever entries expire, no face is sent more Data
      than Interests came from it, less those still pending. A run ends with its steps, or at one that
      panics. */
  method RunThread(steps: seq<Step>) returns (thread: Thread, ran: nat)
    ensures ran <= |steps| && (forall i :: 0 <= i < ran - 1 ==> !Fatal(steps[i]))
            && (ran < |steps| ==> ran > 0 && Fatal(steps[ran - 1]))
    ensures forall f :: Count(thread.dataTo, f) + |Holding(thread.pit, f)| <= AskedBy(steps[..ran], f)
    ensures thread.nOutData + thread.nUnsatisfiedInterests + Records(thread.pit, thread.pit.Keys) <= thread.nInInterests
    ensures thread.nSatisfiedInterests == thread.nOutData
  {
    thread := new Thread();
    var panics := false;
    ran := 0;
    while ran < |steps| && !panics
      invariant ran <= |steps| && thread.Balanced({}) && fresh(thread)
      invariant CountsOf(thread.interestsFrom, steps[..ran]) == true
      invariant forall i :: 0 <= i < ran - 1 ==> !Fatal(steps[i])
      invariant if panics then ran > 0 && Fatal(steps[ran - 1]) else ran > 0 ==> !Fatal(steps[ran - 1])
    {
      panics := TakeNext(thread, steps, ran);
      ran := ran + 1;
    }
    InBalance(thread, steps[..ran]);
  }

  method TakeNext(thread: Thread, steps: seq<Step>, ran: nat) returns (panics: bool)
    requires ran < |steps| && thread.Balanced({}) && CountsOf(thread.interestsFrom, steps[..ran]) == true
    modifies thread
    ensures thread.Balanced({}) && panics == Fatal(steps[ran])
    ensures CountsOf(thread.interestsFrom, steps[..ran + 1]) == true
  {
    ghost var interests := thread.interestsFrom;
    panics := TakeStep(thread, steps[ran]);
    CountsMore(interests, steps, ran, thread.interestsFrom);
  }

  lemma InBalance(thread: Thread, steps: seq<Step>)
    requires thread.Balanced({}) && CountsOf(thread.interestsFrom, steps)
    ensures forall f :: Count(thread.dataTo, f) + |Holding(thread.pit, f)| <= AskedBy(steps, f)
  {
    forall f ensures Count(thread.dataTo, f) + |Holding(thread.pit, f)| <= AskedBy(steps, f) {
      assert BalanceAt(thread.pit, thread.interestsFrom, thread.dataTo, {}, f);
    }
  }

  // ---------- what the Data pipeline does ----------

  /** How the PIT looks for what Data satisfies: by its name, or by a PIT token, which leads to at most
      one entry whatever its name. */
  datatype Lookup = ByName | ByToken(entry: Option<PitKey>)

  function Matches(pit: Pit, name: Name, lookup: Lookup): (matches: set<PitKey>)
    ensures lookup.ByName? ==> forall k :: k in matches <==> k in pit && k in PitCs.Satisfied(name)
    ensures lookup.ByToken? ==>
              matches == if lookup.entry.Some? && lookup.entry.value in pit then {lookup.entry.value} else {}
  {
    match lookup
    case ByName => set k | k in pit && IsPrefix(k.name, name) && (k.canBePrefix || k.name == name)
    case ByToken(entry) => set k | k in pit && entry == Some(k)
  }

  predicate Panics(faces: Faces, name: Name, inFace: Option<FaceId>) {
    inFace.Some? && inFace.value in faces && !faces[inFace.value].local && name == Root
  }

  /** Data that is dropped before it meets the PIT. */
  predicate Ignored(faces: Faces, name: Name, inFace: Option<FaceId>) {
    inFace.None? || inFace.value !in faces || (!faces[inFace.value].local && Sharding.IsLocalhost(name))
  }

  /** The face is sent Data once if it is among `to` and may have it. */
  ghost predicate SendsAt(before: Counts, after: Counts, faces: Faces, name: Name, to: set<FaceId>, f: FaceId) {
    Count(after, f) == Count(before, f) + One(f in to && MayGo(faces, name, f))
  }

  ghost predicate Sends(before: Counts, after: Counts, faces: Faces, name: Name, to: set<FaceId>) {
    forall f {:trigger SendsAt(before, after, faces, name, to, f)} :: SendsAt(before, after, faces, name, to, f)
  }

  lemma SendsMore(before: Counts, sent: Counts, after: Counts, faces: Faces, name: Name, all: set<FaceId>,
                  rest: set<FaceId>, next: FaceId)
    requires Sends(before, sent, faces, name, all - rest) && next in rest && rest <= all
    requires after == if MayGo(faces, name, next) then Bumped(sent, next) else sent
    ensures Sends(before, after, faces, name, all - (rest - {next}))
  {
    var to := all - (rest - {next});
    forall f ensures SendsAt(before, after, faces, name, to, f) {
      assert SendsAt(before, sent, faces, name, all - rest, f);
    }
  }

  /** How much Data a face is due for these entries. */
  ghost function Share(pit: Pit, matches: set<PitKey>, faces: Faces, name: Name, except: Option<FaceId>,
                       f: FaceId): nat {
    if MayGo(faces, name, f) && Some(f) != except then |Asking(pit, matches, f)| else 0
  }

  ghost predicate AnswersAt(before: Counts, after: Counts, pit: Pit, matches: set<PitKey>, faces: Faces, name: Name,
                            except: Option<FaceId>, f: FaceId)
  {
    Count(after, f) == Count(before, f) + Share(pit, matches, faces, name, except, f)
  }

  /** Each face is sent Data once for each of the entries that it has asked for, if it may have it;
      one face may be left out. */
  ghost predicate Answers(before: Counts, after: Counts, pit: Pit, matches: set<PitKey>, faces: Faces, name: Name,
                          except: Option<FaceId>)
  {
    forall f {:trigger AnswersAt(before, after, pit, matches, faces, name, except, f)} ::
      AnswersAt(before, after, pit, matches, faces, name, except, f)
  }

  lemma AnswersNone(sent: Counts, pit: Pit, faces: Faces, name: Name, except: Option<FaceId>)
    ensures Answers(sent, sent, pit, {}, faces, name, except)
  {
    forall f ensures AnswersAt(sent, sent, pit, {}, faces, name, except, f) {
      assert Asking(pit, {}, f) == {};
    }
  }

  lemma AnswersMore(before: Counts, sent: Counts, after: Counts, pit: Pit, matches: set<PitKey>, faces: Faces,
                    name: Name,
                    except: Option<FaceId>, k: PitKey, to: set<FaceId>)
    requires Answers(before, sent, pit, matches, faces, name, except) && k !in matches && k in pit
    requires Sends(sent, after, faces, name, to)
    requires forall f :: f in to <==> f in pit[k].inRecords && Some(f) != except
    ensures Answers(before, after, pit, matches + {k}, faces, name, except)
  {
    var more := matches + {k};
    forall f ensures AnswersAt(before, after, pit, more, faces, name, except, f) {
      assert AnswersAt(before, sent, pit, matches, faces, name, except, f) && SendsAt(sent, after, faces, name, to, f);
      WithOne(Asking(pit, matches, f), k, Asking(pit, more, f), f in pit[k].inRecords);
    }
  }

  /** Data for one entry goes to each of its faces that may have it. */
  lemma AnswersOne(before: Counts, after: Counts, pit: Pit, k: PitKey, faces: Faces, name: Name)
    requires k in pit && Answers(before, after, pit, {k}, faces, name, None)
    ensures Sends(before, after, faces, name, pit[k].inRecords.Keys)
    ensures Cleared(pit, {k}) == pit[k := Entry(map[], map[], true)]
  {
    forall f ensures SendsAt(before, after, faces, name, pit[k].inRecords.Keys, f) {
      assert AnswersAt(before, after, pit, {k}, faces, name, None, f);
      WithOne({}, k, Asking(pit, {k}, f), f in pit[k].inRecords);
    }
  }

  /** The matched entries are satisfied, and nobody asks any more. */
  function Cleared(pit: Pit, matches: set<PitKey>): Pit {
    map k | k in pit :: if k in matches then Entry(map[], map[], true) else pit[k]
  }

  /** The matched entries that hold an in-record for the face. */
  ghost function Asking(pit: Pit, matches: set<PitKey>, f: FaceId): set<PitKey> {
    set k | k in matches && k in pit && f in pit[k].inRecords
  }

  lemma OnlyOne<T>(s: set<T>, x: T)
    requires |s| == 1 && x in s
    ensures s == {x}
  {
    assert s == {x} + (s - {x});
  }

  lemma ClearedMore(pit: Pit, matches: set<PitKey>, k: PitKey)
    requires k in pit
    ensures Cleared(pit, matches + {k}) == Cleared(pit, matches)[k := Entry(map[], map[], true)]
  {
  }

  // ---------- what the Interest pipeline does ----------

  /** An Interest that is dropped before it is counted. */
  predicate Refused(faces: Faces, interest: Interest, inFace: Option<FaceId>) {
    || inFace.None? || inFace.value !in faces || interest.hopLimit == Some(0)
    || (!faces[inFace.value].local && Sharding.IsLocalhost(interest.key.name))
  }

  function Decremented(hopLimit: Option<nat>): Option<nat>
    requires hopLimit != Some(0)
  {
    if hopLimit.Some? then Some(hopLimit.value - 1) else None
  }

  function EntryFor(pit: Pit, k: PitKey): Entry {
    if k in pit then pit[k] else NEW_ENTRY
  }

  /** The nonce is pending from another face already. */
  ghost predicate Loops(inRecords: map<FaceId, InRecord>, nonce: Nonce, inFace: FaceId) {
    exists face :: face in inRecords && face != inFace && inRecords[face].nonce == nonce
  }

  function WithInRecord(e: Entry, nonce: Nonce, face: FaceId, incomingPitToken: seq<Byte>): Entry {
    var pitToken := if face in e.inRecords then e.inRecords[face].pitToken else incomingPitToken;
    e.(inRecords := e.inRecords[face := InRecord(nonce, pitToken)])
  }

  function Recorded(pit: Pit, interest: Interest, face: FaceId): Pit {
    pit[interest.key := WithInRecord(EntryFor(pit, interest.key), interest.nonce, face, interest.pitToken)]
  }

  function WithOutRecord(pit: Pit, interest: Interest, face: FaceId): Pit
    requires interest.key in pit
  {
    var e := pit[interest.key];
    pit[interest.key := e.(outRecords := e.outRecords[face := interest.nonce])]
  }

  function WithOutRecords(pit: Pit, interest: Interest, to: set<FaceId>): Pit
    requires interest.key in pit
  {
    var e := pit[interest.key];
    var outRecords := map f | f in e.outRecords.Keys + to :: if f in to then interest.nonce else e.outRecords[f];
    pit[interest.key := e.(outRecords := outRecords)]
  }

  /** Out-records for these faces have been added. */
  ghost predicate SentTo(before: Pit, after: Pit, interest: Interest, to: set<FaceId>) {
    interest.key in before && after == WithOutRecords(before, interest, to)
  }

  lemma NoneOut(pit: Pit, interest: Interest)
    requires interest.key in pit
    ensures WithOutRecords(pit, interest, {}) == pit
  {
    assert WithOutRecords(pit, interest, {})[interest.key].outRecords == pit[interest.key].outRecords;
  }

  lemma OneMoreOut(pit: Pit, interest: Interest, to: set<FaceId>, face: FaceId)
    requires interest.key in pit
    ensures WithOutRecord(WithOutRecords(pit, interest, to), interest, face)
            == WithOutRecords(pit, interest, to + {face})
  {
    var one, more := WithOutRecord(WithOutRecords(pit, interest, to), interest, face),
        WithOutRecords(pit, interest, to + {face});
    assert one[interest.key].outRecords == more[interest.key].outRecords;
  }

  lemma RecordAdded(e: Entry, nonce: Nonce, face: FaceId, incomingPitToken: seq<Byte>)
    ensures var e' := WithInRecord(e, nonce, face, incomingPitToken);
            Pays(e.inRecords, {face}, e'.inRecords, if face in e.inRecords then {face} else {})
  {
    var after := WithInRecord(e, nonce, face, incomingPitToken).inRecords;
    WithOne(e.inRecords.Keys - {face}, face, e.inRecords.Keys, face in e.inRecords);
    WithOne(e.inRecords.Keys - {face}, face, after.Keys, true);
    assert |after.Keys| == |after| && |e.inRecords.Keys| == |e.inRecords|;
  }

  /** What happens to a counted Interest. */
  ghost predicate Decided(faces: Faces, pit: Pit, interest: Interest, inFace: FaceId, isDead: bool,
                          csEntry: Option<Name>,
                          nextHopFaceId: Option<FaceId>, strategy: Strategy, nexthops: seq<NextHop>, outcome: Outcome)
    requires interest.hopLimit != Some(0)
  {
    if isDead then outcome == DeadNonce
    else if Loops(EntryFor(pit, interest.key).inRecords, interest.nonce, inFace) then outcome == Looping
    else Admitted(faces, pit, interest, inFace, csEntry, nextHopFaceId, strategy, nexthops, outcome)
  }

  /** What happens to one that does not loop. */
  ghost predicate Admitted(faces: Faces, pit: Pit, interest: Interest, inFace: FaceId, csEntry: Option<Name>,
                           nextHopFaceId: Option<FaceId>, strategy: Strategy, nexthops: seq<NextHop>, outcome: Outcome)
    requires interest.hopLimit != Some(0)
  {
    if csEntry.Some? && inFace !in EntryFor(pit, interest.key).inRecords then outcome == FromCs
    else if nextHopFaceId.Some? then
      outcome == if nextHopFaceId.value in faces then Direct(nextHopFaceId.value) else NoNextHop
    else Chosen(faces, Decremented(interest.hopLimit), inFace, strategy, nexthops, outcome)
  }

  /** What the strategy does with an Interest. */
  ghost predicate Chosen(faces: Faces, hopLimit: Option<nat>, inFace: FaceId, strategy: Strategy,
                         nexthops: seq<NextHop>,
                         outcome: Outcome)
  {
    match strategy
    case BestRoute => Routed(faces, hopLimit, inFace, nexthops, outcome)
    case Multicast => outcome == ToAll(UsableFaces(faces, hopLimit, inFace, nexthops))
  }

  /** How many Interests went out. */
  function SendsOf(faces: Faces, interest: Interest, inFace: FaceId, nexthops: seq<NextHop>, outcome: Outcome): nat
    requires interest.hopLimit != Some(0)
  {
    match outcome
    case Sent(_) => 1
    case ToAll(_) => UsableHops(faces, Decremented(interest.hopLimit), inFace, nexthops)
    case _ => 0
  }

  /** The PIT after an Interest: untouched if that was dropped; if it found Data its entry is there,
      but with no more in-records than before; otherwise it has an in-record, and an out-record if it
      was forwarded by the strategy. */
  function PitAfter(pit: Pit, interest: Interest, inFace: FaceId, outcome: Outcome): Pit {
    match outcome
    case Dropped | DeadNonce | Looping => pit
    case FromCs => pit[interest.key := EntryFor(pit, interest.key)]
    case Direct(_) | NoNextHop => Recorded(pit, interest, inFace)
    case Sent(face) => WithOutRecord(Recorded(pit, interest, inFace), interest, face)
    case ToAll(to) => WithOutRecords(Recorded(pit, interest, inFace), interest, to)
  }

  /** The Interest has been recorded: nothing but the in-record of its face has changed, which has its
      nonce, and its PIT token unless there was one. */
  lemma RecordedMeaning(pit: Pit, interest: Interest, face: FaceId)
    ensures var k, pit' := interest.key, Recorded(pit, interest, face);
            && pit'.Keys == pit.Keys + {k} && (forall j :: j in pit && j != k ==> pit'[j] == pit[j])
            && pit'[k].inRecords.Keys == Before(pit, k).Keys + {face}
            && (forall f :: f in Before(pit, k) && f != face ==> pit'[k].inRecords[f] == Before(pit, k)[f])
            && pit'[k].inRecords[face].nonce == interest.nonce
            && pit'[k].inRecords[face].pitToken
               == (if face in Before(pit, k) then Before(pit, k)[face].pitToken else interest.pitToken)
            && pit'[k].outRecords == (if k in pit then pit[k].outRecords else map[])
            && (pit'[k].satisfied <==> k in pit && pit[k].satisfied)
  {
  }

  /** The Interest has gone to these faces: each has an out-record with its nonce now. */
  lemma WithOutRecordsMeaning(pit: Pit, interest: Interest, to: set<FaceId>)
    requires interest.key in pit
    ensures var k, pit' := interest.key, WithOutRecords(pit, interest, to);
            && pit'.Keys == pit.Keys && (forall j :: j in pit && j != k ==> pit'[j] == pit[j])
            && pit'[k].outRecords.Keys == pit[k].outRecords.Keys + to
            && (forall f :: f in to ==> pit'[k].outRecords[f] == interest.nonce)
            && (forall f :: f in pit[k].outRecords && f !in to ==> pit'[k].outRecords[f] == pit[k].outRecords[f])
            && pit'[k].inRecords == pit[k].inRecords && pit'[k].satisfied == pit[k].satisfied
  {
  }

  /** The face is there and takes an Interest that came from `inFace` with this hop limit. */
  ghost predicate Takes(faces: Faces, hopLimit: Option<nat>, inFace: FaceId, f: FaceId) {
    f in faces && (f != inFace || faces[f].adHoc) && (faces[f].local || hopLimit != Some(1))
  }

  ghost predicate NoneCheaper(faces: Faces, hopLimit: Option<nat>, inFace: FaceId, nexthops: seq<NextHop>, cost: nat) {
    forall j :: 0 <= j < |nexthops| && Takes(faces, hopLimit, inFace, nexthops[j].face) ==> cost <= nexthops[j].cost
  }

  /** Where a strategy sends an Interest that came with this hop limit: to nexthops that are there and not
      back where it came from, unless that face is ad hoc; the last hop goes to local faces only. If any
      nexthop is so, best route sends to one such that none costs less, and multicast sends to it. */
  lemma ChosenMeaning(faces: Faces, hopLimit: Option<nat>, inFace: FaceId, strategy: Strategy,
                      nexthops: seq<NextHop>, outcome: Outcome)
    requires hopLimit != Some(0) && Chosen(faces, Decremented(hopLimit), inFace, strategy, nexthops, outcome)
    ensures strategy == BestRoute ==> outcome.Sent? || outcome == NoNextHop
    ensures strategy == Multicast ==> outcome.ToAll?
    ensures forall f :: outcome == Sent(f) || (outcome.ToAll? && f in outcome.faces) ==>
              Takes(faces, hopLimit, inFace, f) && exists i :: 0 <= i < |nexthops| && nexthops[i].face == f
    ensures forall i :: 0 <= i < |nexthops| && Takes(faces, hopLimit, inFace, nexthops[i].face) ==>
              outcome.Sent? || (outcome.ToAll? && nexthops[i].face in outcome.faces)
    ensures outcome.Sent? ==> exists i :: 0 <= i < |nexthops| && nexthops[i].face == outcome.face
                                          && NoneCheaper(faces, hopLimit, inFace, nexthops, nexthops[i].cost)
  {
    if outcome.Sent? {
      var nh :| nh in nexthops && nh.face == outcome.face && Best(faces, Decremented(hopLimit), inFace, nexthops, nh);
      var i :| 0 <= i < |nexthops| && nexthops[i] == nh;
      forall j | 0 <= j < |nexthops| && nexthops[j].cost < nexthops[i].cost
        ensures !Usable(faces, Decremented(hopLimit), inFace, nexthops[j].face)
      {
        assert nexthops[j] in nexthops;
      }
    }
    forall f | outcome == Sent(f) || (outcome.ToAll? && f in outcome.faces)
      ensures exists i :: 0 <= i < |nexthops| && nexthops[i].face == f
    {
      var nh :| nh in nexthops && nh.face == f;
    }
    forall i | 0 <= i < |nexthops| && Usable(faces, Decremented(hopLimit), inFace, nexthops[i].face)
      ensures outcome.Sent? || (outcome.ToAll? && nexthops[i].face in outcome.faces)
    {
      assert nexthops[i] in nexthops;
    }
  }

  // ---------- the best route ----------

  /** The Interest can be sent to the face. */
  predicate Usable(faces: Faces, hopLimit: Option<nat>, inFace: FaceId, face: FaceId) {
    && face in faces
    && (face == inFace ==> faces[face].adHoc)
    && (hopLimit == Some(0) ==> faces[face].local)
  }

  function UsableFaces(faces: Faces, hopLimit: Option<nat>, inFace: FaceId, nexthops: seq<NextHop>): set<FaceId> {
    set nh | nh in nexthops && Usable(faces, hopLimit, inFace, nh.face) :: nh.face
  }

  /** The usable ones among the first n next hops. */
  ghost predicate UsableTo(faces: Faces, hopLimit: Option<nat>, inFace: FaceId, nexthops: seq<NextHop>, n: nat,
                           to: set<FaceId>, hops: nat)
  {
    n <= |nexthops| && to == UsableFaces(faces, hopLimit, inFace, nexthops[..n])
    && hops == UsableHops(faces, hopLimit, inFace, nexthops[..n])
  }

  lemma UsableNone(faces: Faces, hopLimit: Option<nat>, inFace: FaceId, nexthops: seq<NextHop>)
    ensures UsableTo(faces, hopLimit, inFace, nexthops, 0, {}, 0)
  {
  }

  lemma UsableAll(faces: Faces, hopLimit: Option<nat>, inFace: FaceId, nexthops: seq<NextHop>, to: set<FaceId>,
                  hops: nat)
    requires UsableTo(faces, hopLimit, inFace, nexthops, |nexthops|, to, hops)
    ensures to == UsableFaces(faces, hopLimit, inFace, nexthops)
            && hops == UsableHops(faces, hopLimit, inFace, nexthops)
  {
    assert nexthops[..|nexthops|] == nexthops;
  }

  lemma UsableMore(faces: Faces, hopLimit: Option<nat>, inFace: FaceId, nexthops: seq<NextHop>, n: nat,
                   to: set<FaceId>, hops: nat)
    requires n < |nexthops| && UsableTo(faces, hopLimit, inFace, nexthops, n, to, hops)
    ensures if Usable(faces, hopLimit, inFace, nexthops[n].face)
            then UsableTo(faces, hopLimit, inFace, nexthops, n + 1, to + {nexthops[n].face}, hops + 1)
            else UsableTo(faces, hopLimit, inFace, nexthops, n + 1, to, hops)
  {
    var init, more := nexthops[..n], nexthops[..n + 1];
    assert more == init + [nexthops[n]] && more[..n] == init;
  }

  /** The number of next hops that are usable. */
  function UsableHops(faces: Faces, hopLimit: Option<nat>, inFace: FaceId, nexthops: seq<NextHop>): nat {
    if nexthops == [] then 0
    else
      UsableHops(faces, hopLimit, inFace, nexthops[..|nexthops| - 1])
      + One(Usable(faces, hopLimit, inFace, nexthops[|nexthops| - 1].face))
  }

  /** To a usable next hop such that no usable one costs less, or there is none. */
  ghost predicate Routed(faces: Faces, hopLimit: Option<nat>, inFace: FaceId, nexthops: seq<NextHop>,
                         outcome: Outcome) {
    if exists nh :: nh in nexthops && Usable(faces, hopLimit, inFace, nh.face) then
      outcome.Sent? && exists nh ::
        nh in nexthops && nh.face == outcome.face && Best(faces, hopLimit, inFace, nexthops, nh)
    else
      outcome == NoNextHop
  }

  ghost predicate Best(faces: Faces, hopLimit: Option<nat>, inFace: FaceId, nexthops: seq<NextHop>, nh: NextHop) {
    && Usable(faces, hopLimit, inFace, nh.face)
    && forall other :: other in nexthops && Usable(faces, hopLimit, inFace, other.face) ==> nh.cost <= other.cost
  }

  predicate SortedByCost(s: seq<NextHop>) {
    forall i, j :: 0 <= i < j < |s| ==> s[i].cost <= s[j].cost
  }

  lemma Members(s: seq<NextHop>, t: seq<NextHop>)
    requires multiset(s) == multiset(t)
    ensures forall nh :: nh in s <==> nh in t
  {
    assert forall nh :: nh in s <==> nh in multiset(s);
    assert forall nh :: nh in t <==> nh in multiset(t);
  }

  lemma FirstUsable(faces: Faces, hopLimit: Option<nat>, inFace: FaceId, nexthops: seq<NextHop>, sorted: seq<NextHop>,
                    i: nat)
    requires multiset(sorted) == multiset(nexthops) && SortedByCost(sorted) && i < |sorted|
    requires Usable(faces, hopLimit, inFace, sorted[i].face)
    requires forall j :: 0 <= j < i ==> !Usable(faces, hopLimit, inFace, sorted[j].face)
    ensures Routed(faces, hopLimit, inFace, nexthops, Sent(sorted[i].face))
  {
    Members(sorted, nexthops);
    var nh := sorted[i];
    assert nh in sorted;
    forall other | other in nexthops && Usable(faces, hopLimit, inFace, other.face) ensures nh.cost <= other.cost {
      var j :| 0 <= j < |sorted| && sorted[j] == other;
      assert j >= i;
    }
    assert Best(faces, hopLimit, inFace, nexthops, nh);
  }

  lemma NoneUsable(faces: Faces, hopLimit: Option<nat>, inFace: FaceId, nexthops: seq<NextHop>, sorted: seq<NextHop>)
    requires multiset(sorted) == multiset(nexthops)
    requires forall j :: 0 <= j < |sorted| ==> !Usable(faces, hopLimit, inFace, sorted[j].face)
    ensures Routed(faces, hopLimit, inFace, nexthops, NoNextHop)
  {
    Members(sorted, nexthops);
    forall nh | nh in nexthops ensures !Usable(faces, hopLimit, inFace, nh.face) {
      var j :| 0 <= j < |sorted| && sorted[j] == nh;
    }
  }

  ghost predicate NoneAbove(s: seq<NextHop>, t: seq<NextHop>) {
    forall i, j :: 0 <= i < |s| && 0 <= j < |t| ==> s[i].cost <= t[j].cost
  }

  /** Sorts next hops by cost; which of several with the same cost comes first is left open. */
  method SortByCost(nexthops: seq<NextHop>) returns (sorted: seq<NextHop>)
    ensures multiset(sorted) == multiset(nexthops) && SortedByCost(sorted)
  {
    sorted := [];
    var rest := nexthops;
    while rest != []
      invariant multiset(sorted) + multiset(rest) == multiset(nexthops)
      invariant SortedByCost(sorted) && NoneAbove(sorted, rest)
      decreases |rest|
    {
      ghost var least := LeastIn(rest);
      var i :| 0 <= i < |rest| && IsLeast(rest, i);
      TakeLeast(sorted, rest, i);
      sorted := sorted + [rest[i]];
      rest := rest[..i] + rest[i + 1..];
    }
  }

  lemma TakeLeast(sorted: seq<NextHop>, rest: seq<NextHop>, i: nat)
    requires SortedByCost(sorted) && NoneAbove(sorted, rest) && i < |rest| && IsLeast(rest, i)
    ensures var sorted', rest' := sorted + [rest[i]], rest[..i] + rest[i + 1..];
            && SortedByCost(sorted') && NoneAbove(sorted', rest')
            && multiset(sorted') + multiset(rest') == multiset(sorted) + multiset(rest)
  {
    var sorted', rest' := sorted + [rest[i]], rest[..i] + rest[i + 1..];
    assert rest == rest[..i] + [rest[i]] + rest[i + 1..];
    forall j | 0 <= j < |rest'|
      ensures rest[i].cost <= rest'[j].cost && (forall k :: 0 <= k < |sorted| ==> sorted[k].cost <= rest'[j].cost)
    {
      var from := if j < i then j else j + 1;
      assert rest'[j] == rest[from];
    }
  }

  predicate IsLeast(s: seq<NextHop>, i: nat)
    requires i < |s|
  {
    forall j :: 0 <= j < |s| ==> s[i].cost <= s[j].cost
  }

  lemma {:induction false} LeastIn(s: seq<NextHop>) returns (least: nat)
    requires s != []
    ensures least < |s| && IsLeast(s, least)
  {
    var last := |s| - 1;
    if last == 0 {
      return 0;
    }
    least := LeastIn(s[..last]);
    assert forall j :: 0 <= j < last ==> s[j] == s[..last][j];
    if s[last].cost < s[least].cost {
      least := last;
    }
  }
}
