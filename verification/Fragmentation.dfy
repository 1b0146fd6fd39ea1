/** The NDNLPv2 link service: splitting packets into fragments, numbering them, and putting
    fragments together again in whatever order they arrive. */
module Fragmentation {
  import opened Names
  import opened VarNum

  /** A link packet; the three numbers may be absent. */
  datatype LpPacket = LpPacket(fragment: seq<Byte>, sequence: Option<UInt64>, fragIndex: Option<UInt64>,
                               fragCount: Option<UInt64>)

  function Join(parts: seq<seq<Byte>>): seq<Byte> {
    if parts == [] then [] else Join(parts[..|parts| - 1]) + parts[|parts| - 1]
  }

  lemma JoinMore(parts: seq<seq<Byte>>, part: seq<Byte>)
    ensures Join(parts + [part]) == Join(parts) + part
  {
    assert (parts + [part])[..|parts|] == parts;
  }

  /** Addition and subtraction of 64-bit unsigned integers. */
  function Plus(a: UInt64, b: UInt64): UInt64 {
    if a + b < WIDTH then a + b else a + b - WIDTH
  }

  function Minus(a: UInt64, b: UInt64): UInt64 {
    if a >= b then a - b else a - b + WIDTH
  }

  // ---------- what splitting means ----------

  /** The pieces are the bytes, in order, in as few pieces as there can be: all but the last are as
      long as permitted, and the last is not empty. */
  ghost predicate Splits(pieces: seq<seq<Byte>>, wire: seq<Byte>, mtu: nat) {
    && Join(pieces) == wire && pieces != []
    && (forall i :: 0 <= i < |pieces| - 1 ==> |pieces[i]| == mtu)
    && 0 < |pieces[|pieces| - 1]| <= mtu
  }

  lemma {:induction false} EqualPieces(pieces: seq<seq<Byte>>, mtu: nat)
    requires forall i :: 0 <= i < |pieces| ==> |pieces[i]| == mtu
    ensures |Join(pieces)| == |pieces| * mtu
  {
    if pieces != [] {
      EqualPieces(pieces[..|pieces| - 1], mtu);
    }
  }

  /** The number of pieces is the length divided by the limit, rounded up. */
  lemma SplitCount(pieces: seq<seq<Byte>>, wire: seq<Byte>, mtu: nat)
    requires Splits(pieces, wire, mtu)
    ensures (|pieces| - 1) * mtu < |wire| <= |pieces| * mtu
  {
    EqualPieces(pieces[..|pieces| - 1], mtu);
  }

  /** The frames carry the pieces, and consecutive sequence numbers if there are several. */
  ghost predicate Numbered(frames: seq<LpPacket>, pieces: seq<seq<Byte>>, first: UInt64) {
    && |frames| == |pieces|
    && forall i :: 0 <= i < |frames| ==>
         frames[i] == LpPacket(pieces[i], if |pieces| > 1 then Some(Ahead(first, i)) else None, None, None)
  }

  // ---------- sequence numbers ----------

  /** The k-th number after this one. */
  function Ahead(a: UInt64, k: nat): UInt64 {
    (a + k) % 0x1_0000_0000_0000_0000
  }

  lemma AheadMore(a: UInt64, k: nat)
    ensures Plus(Ahead(a, k), 1) == Ahead(a, k + 1) && Ahead(a, 0) == a
  {
  }

  lemma AheadBack(a: UInt64, k: UInt64)
    ensures Minus(Ahead(a, k), k) == a
  {
  }

  // ---------- reassembly, as a function ----------

  /** Nothing more to do, a packet to pass on, or an index beyond the slots. */
  datatype Outcome = Nothing | Deliver(packet: seq<Byte>) | OutOfBounds

  type Store = map<UInt64, seq<seq<Byte>>>

  function Slots(n: nat): seq<seq<Byte>> {
    seq(n, i => [])
  }

  function Received(slots: seq<seq<Byte>>): nat {
    if slots == [] then 0
    else Received(slots[..|slots| - 1]) + if |slots[|slots| - 1]| != 0 then 1 else 0
  }

  predicate Full(slots: seq<seq<Byte>>) {
    forall i :: 0 <= i < |slots| ==> |slots[i]| != 0
  }

  lemma {:induction false} CountFull(slots: seq<seq<Byte>>)
    ensures Received(slots) <= |slots| && (Received(slots) == |slots| <==> Full(slots))
  {
    if slots != [] {
      CountFull(slots[..|slots| - 1]);
      assert Full(slots) <==> Full(slots[..|slots| - 1]) && |slots[|slots| - 1]| != 0;
    }
  }

  function Reassembled(store: Store, fragment: seq<Byte>, base: UInt64, index: UInt64, count: UInt64): (Outcome, Store)
  {
    var slots := if base in store then store[base] else Slots(count);
    if index >= |slots| then (OutOfBounds, store[base := slots])
    else
      var slots' := slots[index := fragment];
      if Full(slots') then (Deliver(Join(slots')), store - {base}) else (Nothing, store[base := slots'])
  }

  function Processed(reassembly: bool, store: Store, frame: LpPacket): (Outcome, Store) {
    if frame.fragment == [] then (Nothing, store)
    else if reassembly then
      if frame.sequence.None? then (Nothing, store)
      else
        var index := if frame.fragIndex.Some? then frame.fragIndex.value else 0;
        var count := if frame.fragCount.Some? then frame.fragCount.value else 1;
        if index == 0 && count == 1 then (Deliver(frame.fragment), store)
        else Reassembled(store, frame.fragment, Minus(frame.sequence.value, index), index, count)
    else if frame.fragCount.Some? || frame.fragIndex.Some? then (Nothing, store)
    else (Deliver(frame.fragment), store)
  }

  /** Without reassembly, frames with an index or a count are dropped and others are passed on; with it,
      those without a sequence number are dropped and those said to be the only one are passed on. Empty
      ones are dropped. What waits for other messages is left as it is. */
  lemma Fates(reassembly: bool, store: Store, frame: LpPacket)
    ensures var (result, store') := Processed(reassembly, store, frame);
            var index := if frame.fragIndex.Some? then frame.fragIndex.value else 0;
            && (|frame.fragment| == 0 ==> result == Nothing && store' == store)
            && (!reassembly && |frame.fragment| > 0 ==>
                  && store' == store
                  && result == if frame.fragIndex == None && frame.fragCount == None then Deliver(frame.fragment)
                               else Nothing)
            && (reassembly && frame.sequence == None ==> result == Nothing && store' == store)
            && (reassembly && frame.sequence != None && |frame.fragment| > 0 && index == 0
                && (frame.fragCount == None || frame.fragCount == Some(1)) ==>
                  result == Deliver(frame.fragment) && store' == store)
            && (frame.sequence.Some? ==>
                  forall base: UInt64 :: (base + index) % WIDTH != frame.sequence.value ==>
                    (base in store' <==> base in store) && (base in store' ==> store'[base] == store[base]))
  {
    if frame.sequence.Some? {
      var index := if frame.fragIndex.Some? then frame.fragIndex.value else 0;
      AheadOfMinus(frame.sequence.value, index);
    }
  }

  /** Adding takes back what subtracting does. */
  lemma AheadOfMinus(a: UInt64, k: UInt64)
    ensures (Minus(a, k) + k) % WIDTH == a
  {
  }

  /** The slots that a fragment is to go into: those that wait, or as many as its count says. */
  function SlotsFor(store: Store, base: UInt64, count: UInt64): nat {
    if base in store then |store[base]| else count
  }

  /** Receiving panics exactly at a frame for reassembly whose index is not less than the number of slots,
      unless it is said to be the only one. */
  lemma ReassemblyPanics(reassembly: bool, store: Store, frame: LpPacket)
    ensures var index := if frame.fragIndex.Some? then frame.fragIndex.value else 0;
            var count := if frame.fragCount.Some? then frame.fragCount.value else 1;
            Processed(reassembly, store, frame).0 == OutOfBounds <==>
              && frame.fragment != [] && reassembly && frame.sequence.Some? && !(index == 0 && count == 1)
              && index >= SlotsFor(store, Minus(frame.sequence.value, index), count)
  {
  }

  /** Frames that panic: one whose index is its count or more; and one of three fragments of a message,
      well numbered, when an earlier frame has spoken of two. */
  lemma FramesThatPanic(fragment: seq<Byte>, base: UInt64, count: UInt64)
    requires fragment != [] && base < WIDTH - 2
    ensures count != 1 ==>
      Processed(true, map[], LpPacket(fragment, Some(base), Some(0), Some(0))).0 == OutOfBounds
      && (base + count < WIDTH ==>
          Processed(true, map[], LpPacket(fragment, Some(base + count), Some(count), Some(count))).0 == OutOfBounds)
    ensures var (r, store) := Processed(true, map[], LpPacket(fragment, Some(base), Some(0), Some(2)));
            && r == Nothing
            && Processed(true, store, LpPacket(fragment, Some(base + 2), Some(2), Some(3))).0 == OutOfBounds
  {
    var first := LpPacket(fragment, Some(base), Some(0), Some(2));
    var slots := Slots(2)[0 := fragment];
    assert slots[1] == [];
    assert Processed(true, map[], first) == (Nothing, map[base := slots]);
    ReassemblyPanics(true, map[base := slots], LpPacket(fragment, Some(base + 2), Some(2), Some(3)));
  }

  class NdnlpLinkService {
    const fragmentationEnabled: bool
    const reassemblyEnabled: bool
    var nextSequence: UInt64
    /** Fragments that wait for others, by the sequence number of the first one; an empty one has
        not arrived. */
    var partialMessageStore: map<UInt64, seq<seq<Byte>>>

    constructor (fragmentationEnabled: bool, reassemblyEnabled: bool)
      ensures this.fragmentationEnabled == fragmentationEnabled && this.reassemblyEnabled == reassemblyEnabled
      ensures nextSequence == 0 && partialMessageStore == map[]
    {
      this.fragmentationEnabled, this.reassemblyEnabled := fragmentationEnabled, reassemblyEnabled;
      nextSequence, partialMessageStore := 0, map[];
    }

    // ---------- sending ----------

    /** The pieces of a packet that is longer than the limit. */
    static method Split(wire: seq<Byte>, effectiveMtu: nat) returns (pieces: seq<seq<Byte>>)
      requires 0 < effectiveMtu < |wire|
      ensures Splits(pieces, wire, effectiveMtu) && |pieces| > 1
    {
      var nFragments := (|wire| + effectiveMtu - 1) / effectiveMtu;
      var lastFragSize := |wire| - effectiveMtu * (nFragments - 1);
      RoundUp(|wire|, effectiveMtu, nFragments);
      pieces := [];
      var pos := 0;
      var i := 0;
      while i < nFragments
        invariant 0 <= i <= nFragments == |pieces| + nFragments - i
        invariant pos == if i < nFragments then i * effectiveMtu else |wire|
        invariant pos <= |wire| && Join(pieces) == wire[..pos]
        invariant forall j :: 0 <= j < |pieces| && j < nFragments - 1 ==> |pieces[j]| == effectiveMtu
        invariant i == nFragments ==> |pieces[nFragments - 1]| == lastFragSize
      {
        var size := if i < nFragments - 1 then effectiveMtu else lastFragSize;
        Room(|wire|, effectiveMtu, nFragments, i);
        var frag := wire[pos..pos + size];
        JoinMore(pieces, frag);
        assert wire[..pos] + frag == wire[..pos + size];
        pieces := pieces + [frag];
        pos := pos + size;
        i := i + 1;
      }
      assert wire[..pos] == wire;
    }

    /** The frames that go out for a packet: none if it is too long and there is no fragmentation.
        Neither the index nor the count of a fragment is set. */
    method SendPacket(wire: seq<Byte>, effectiveMtu: nat) returns (frames: seq<LpPacket>, ghost pieces: seq<seq<Byte>>)
      requires effectiveMtu > 0
      modifies this`nextSequence
      ensures |wire| > effectiveMtu && !fragmentationEnabled ==> frames == [] && nextSequence == old(nextSequence)
      ensures |wire| > effectiveMtu && fragmentationEnabled ==>
                && Splits(pieces, wire, effectiveMtu) && |pieces| > 1 && Numbered(frames, pieces, old(nextSequence))
                && nextSequence == Ahead(old(nextSequence), |pieces|)
      ensures |wire| <= effectiveMtu ==>
                frames == [LpPacket(wire, None, None, None)] && nextSequence == old(nextSequence)
    {
      frames, pieces := [], [];
      if |wire| > effectiveMtu {
        if !fragmentationEnabled {
          return;
        }
        var fragments := Split(wire, effectiveMtu);
        pieces := fragments;
        frames := Number(fragments);
      } else {
        frames := [LpPacket(wire, None, None, None)];
      }
    }

    /** The loop that gives each fragment the next sequence number. */
    method Number(pieces: seq<seq<Byte>>) returns (frames: seq<LpPacket>)
      requires |pieces| > 1
      modifies this`nextSequence
      ensures Numbered(frames, pieces, old(nextSequence)) && nextSequence == Ahead(old(nextSequence), |pieces|)
    {
      frames := [];
      var i := 0;
      while i < |pieces|
        invariant i == |frames| <= |pieces| && nextSequence == Ahead(old(nextSequence), i)
        invariant forall j :: 0 <= j < i ==>
                    frames[j] == LpPacket(pieces[j], Some(Ahead(old(nextSequence), j)), None, None)
      {
        frames := frames + [LpPacket(pieces[i], Some(nextSequence), None, None)];
        AheadMore(old(nextSequence), i);
        nextSequence := Plus(nextSequence, 1);
        i := i + 1;
      }
    }

    // ---------- receiving ----------

    /** Takes up one fragment, and gives the message if it was the last one that was missing. */
    method ReassemblePacket(fragment: seq<Byte>, baseSequence: UInt64, fragIndex: UInt64, fragCount: UInt64)
      returns (result: Outcome)
      modifies this`partialMessageStore
      ensures (result, partialMessageStore) == Reassembled(old(partialMessageStore), fragment, baseSequence, fragIndex,
                                                           fragCount)
    {
      if baseSequence !in partialMessageStore {
        partialMessageStore := partialMessageStore[baseSequence := Slots(fragCount)];
      }
      var slots := partialMessageStore[baseSequence];
      if fragIndex >= |slots| {
        assert partialMessageStore == old(partialMessageStore)[baseSequence := slots];
        return OutOfBounds;
      }
      slots := slots[fragIndex := fragment];
      partialMessageStore := partialMessageStore[baseSequence := slots];
      var receivedCount := CountReceived(slots);
      CountFull(slots);
      if receivedCount == |slots| {
        partialMessageStore := partialMessageStore - {baseSequence};
        assert partialMessageStore == old(partialMessageStore) - {baseSequence};
        return Deliver(Join(slots));
      }
      assert partialMessageStore == old(partialMessageStore)[baseSequence := slots];
      result := Nothing;
    }

    static method CountReceived(slots: seq<seq<Byte>>) returns (receivedCount: nat)
      ensures receivedCount == Received(slots)
    {
      receivedCount := 0;
      var i := 0;
      while i < |slots|
        invariant i <= |slots| && receivedCount == Received(slots[..i])
      {
        assert slots[..i + 1][..i] == slots[..i];
        if |slots[i]| != 0 {
          receivedCount := receivedCount + 1;
        }
        i := i + 1;
      }
      assert slots[..i] == slots;
    }

    /** What becomes of an incoming frame. */
    method ProcessIncomingFrame(frame: LpPacket) returns (result: Outcome)
      modifies this`partialMessageStore
      ensures (result, partialMessageStore) == Processed(reassemblyEnabled, old(partialMessageStore), frame)
    {
      if |frame.fragment| == 0 {
        return Nothing;
      }
      if reassemblyEnabled {
        if frame.sequence.None? {
          return Nothing;
        }
        var fragIndex := if frame.fragIndex.Some? then frame.fragIndex.value else 0;
        var fragCount := if frame.fragCount.Some? then frame.fragCount.value else 1;
        var baseSequence := Minus(frame.sequence.value, fragIndex);
        if fragIndex == 0 && fragCount == 1 {
          result := Deliver(frame.fragment);
        } else {
          result := ReassemblePacket(frame.fragment, baseSequence, fragIndex, fragCount);
        }
      } else if frame.fragCount.Some? || frame.fragIndex.Some? {
        result := Nothing;
      } else {
        result := Deliver(frame.fragment);
      }
    }
  }

  lemma RoundUp(length: nat, mtu: nat, n: nat)
    requires 0 < mtu < length && n == (length + mtu - 1) / mtu
    ensures n > 1 && (n - 1) * mtu < length <= n * mtu
  {
    var r := (length + mtu - 1) % mtu;
    assert length + mtu - 1 == n * mtu + r;
    assert (n - 1) * mtu == n * mtu - mtu;
  }

  lemma Room(length: nat, mtu: nat, n: nat, i: nat)
    requires 0 < mtu && (n - 1) * mtu < length <= n * mtu && i < n
    ensures i < n - 1 ==> (i + 1) * mtu < length && (i + 1) * mtu == i * mtu + mtu
    ensures i == n - 1 ==> i * mtu + (length - mtu * (n - 1)) == length
  {
    if i < n - 1 {
      assert (i + 1) * mtu <= (n - 1) * mtu;
    }
  }

  // ---------- fragments in any order ----------

  /** Messages of several non-empty fragments, by the sequence number of the first one. */
  type Messages = map<UInt64, seq<seq<Byte>>>

  ghost predicate Proper(msgs: Messages) {
    forall b :: b in msgs ==> 2 <= |msgs[b]| < WIDTH && Full(msgs[b])
  }

  /** A fragment of a message comes in. */
  datatype Arrival = Arrival(base: UInt64, index: nat)

  predicate Valid(msgs: Messages, a: Arrival) {
    a.base in msgs && a.index < |msgs[a.base]| < WIDTH
  }

  /** Its frame, with index and count. */
  function FrameOf(msgs: Messages, a: Arrival): LpPacket
    requires Valid(msgs, a)
  {
    LpPacket(msgs[a.base][a.index], Some(Ahead(a.base, a.index)), Some(a.index), Some(|msgs[a.base]|))
  }

  ghost predicate Complete(msgs: Messages, base: UInt64, arrived: set<Arrival>)
    requires base in msgs
  {
    forall i :: 0 <= i < |msgs[base]| ==> Arrival(base, i) in arrived
  }

  ghost predicate Waiting(msgs: Messages, base: UInt64, arrived: set<Arrival>) {
    base in msgs && (exists i: nat :: i < |msgs[base]| && Arrival(base, i) in arrived) && !Complete(msgs, base, arrived)
  }

  /** The slots hold what has arrived of a message. */
  ghost predicate Holds(slots: seq<seq<Byte>>, msgs: Messages, base: UInt64, arrived: set<Arrival>) {
    && base in msgs && |slots| == |msgs[base]|
    && forall i :: 0 <= i < |slots| ==> slots[i] == if Arrival(base, i) in arrived then msgs[base][i] else []
  }

  /** The store holds the messages that are under way, and no others. */
  ghost predicate StoreIs(store: Store, msgs: Messages, arrived: set<Arrival>) {
    && (forall b :: b in store <==> Waiting(msgs, b, arrived))
    && (forall b :: b in store ==> Holds(store[b], msgs, b, arrived))
  }

  /** A new fragment is taken up, whatever came before it; the one that was missing last gives the
      message, and takes it out of the store. */
  lemma OneArrival(store: Store, msgs: Messages, arrived: set<Arrival>, a: Arrival)
    requires Proper(msgs) && StoreIs(store, msgs, arrived) && Valid(msgs, a) && a !in arrived
    ensures var (r, store') := Processed(true, store, FrameOf(msgs, a));
            && StoreIs(store', msgs, arrived + {a})
            && r == if Complete(msgs, a.base, arrived + {a}) then Deliver(Join(msgs[a.base])) else Nothing
  {
    var base, count := a.base, |msgs[a.base]|;
    AheadBack(base, a.index);
    var slots := if base in store then store[base] else Slots(count);
    assert Holds(slots, msgs, base, arrived);
    var slots' := slots[a.index := msgs[base][a.index]];
    assert Holds(slots', msgs, base, arrived + {a});
    assert Full(slots') <==> Complete(msgs, base, arrived + {a});
    if Full(slots') {
      assert slots' == msgs[base];
    }
    OthersStay(store, Processed(true, store, FrameOf(msgs, a)).1, msgs, arrived, a);
  }

  /** The rest of the store after an arrival. */
  lemma OthersStay(store: Store, store': Store, msgs: Messages, arrived: set<Arrival>, a: Arrival)
    requires StoreIs(store, msgs, arrived) && Valid(msgs, a) && a !in arrived
    requires forall b :: b != a.base ==> (b in store' <==> b in store) && (b in store ==> store'[b] == store[b])
    requires a.base in store' <==> !Complete(msgs, a.base, arrived + {a})
    requires a.base in store' ==> Holds(store'[a.base], msgs, a.base, arrived + {a})
    ensures StoreIs(store', msgs, arrived + {a})
  {
    forall b ensures b in store' <==> Waiting(msgs, b, arrived + {a}) {
      SameOthers(msgs, b, arrived, a);
    }
    forall b | b in store' && b != a.base ensures Holds(store'[b], msgs, b, arrived + {a}) {
      assert Holds(store[b], msgs, b, arrived);
    }
  }

  /** A fragment that has come in before does nothing while its message waits for others. Once the
      message is complete it starts an entry of its own, which stays until all fragments come again. */
  lemma RepeatedArrival(store: Store, msgs: Messages, arrived: set<Arrival>, a: Arrival)
    requires Proper(msgs) && StoreIs(store, msgs, arrived) && Valid(msgs, a) && a in arrived
    ensures var slots := Slots(|msgs[a.base]|)[a.index := msgs[a.base][a.index]];
            Processed(true, store, FrameOf(msgs, a))
            == (Nothing, if Complete(msgs, a.base, arrived) then store[a.base := slots] else store)
    ensures Complete(msgs, a.base, arrived) <==> a.base !in store
  {
    var base, fragment := a.base, msgs[a.base][a.index];
    AheadBack(base, a.index);
    if Complete(msgs, base, arrived) {
      var slots := Slots(|msgs[base]|)[a.index := fragment];
      assert slots[if a.index == 0 then 1 else 0] == [];
    } else {
      assert Waiting(msgs, base, arrived);
      assert store[base][a.index] == fragment && store[base][a.index := fragment] == store[base];
      assert store[base := store[base]] == store;
      var i :| 0 <= i < |msgs[base]| && Arrival(base, i) !in arrived;
      assert store[base][i] == [];
    }
  }

  lemma SameOthers(msgs: Messages, b: UInt64, arrived: set<Arrival>, a: Arrival)
    ensures b != a.base ==> (Waiting(msgs, b, arrived + {a}) <==> Waiting(msgs, b, arrived))
    ensures Valid(msgs, a) && b == a.base && !Complete(msgs, b, arrived + {a}) ==> Waiting(msgs, b, arrived + {a})
  {
    if b == a.base && Valid(msgs, a) {
      assert Arrival(b, a.index) in arrived + {a};
    }
  }

  ghost function Arrived(arrivals: seq<Arrival>): set<Arrival> {
    set a | a in arrivals
  }

  /** What is to be delivered: each message when the last of its fragments comes in. */
  ghost function Expected(msgs: Messages, arrivals: seq<Arrival>): seq<(UInt64, seq<Byte>)> {
    if arrivals == [] then []
    else
      var base := arrivals[|arrivals| - 1].base;
      Expected(msgs, arrivals[..|arrivals| - 1])
      + if base in msgs && Complete(msgs, base, Arrived(arrivals)) then [(base, Join(msgs[base]))] else []
  }

  ghost predicate EachOnce(arrivals: seq<Arrival>) {
    forall i, j :: 0 <= i < j < |arrivals| ==> arrivals[i] != arrivals[j]
  }

  /** Whatever the order, and however messages interleave: every message all of whose fragments
      come in is delivered, once, as it was; no other is. */
  lemma {:induction false} ExpectedMeaning(msgs: Messages, arrivals: seq<Arrival>)
    requires Proper(msgs) && EachOnce(arrivals) && forall a :: a in arrivals ==> Valid(msgs, a)
    ensures forall d :: d in Expected(msgs, arrivals) ==>
              d.0 in msgs && Complete(msgs, d.0, Arrived(arrivals)) && d.1 == Join(msgs[d.0])
    ensures forall b :: b in msgs && Complete(msgs, b, Arrived(arrivals)) ==>
            (b, Join(msgs[b])) in Expected(msgs, arrivals)
    ensures forall i, j :: 0 <= i < j < |Expected(msgs, arrivals)| ==>
            Expected(msgs, arrivals)[i].0 != Expected(msgs, arrivals)[j].0
  {
    if arrivals == [] {
      forall b | b in msgs ensures !Complete(msgs, b, Arrived(arrivals)) {
        assert Arrival(b, 0) !in Arrived(arrivals);
      }
    } else {
      var init, a := arrivals[..|arrivals| - 1], arrivals[|arrivals| - 1];
      ExpectedMeaning(msgs, init);
      assert arrivals == init + [a];
      assert Arrived(arrivals) == Arrived(init) + {a};
      assert a !in Arrived(init);
      forall b | b in msgs
        ensures Complete(msgs, b, Arrived(init)) ==> b != a.base && Complete(msgs, b, Arrived(arrivals))
      {
      }
      forall b | b in msgs && b != a.base && Complete(msgs, b, Arrived(arrivals))
        ensures Complete(msgs, b, Arrived(init))
      {
        assert forall i :: 0 <= i < |msgs[b]| ==> Arrival(b, i) in Arrived(arrivals);
      }
    }
  }

  /** Receives the frames of messages of which nothing has arrived yet. */
  method ReceiveAll(l: NdnlpLinkService, msgs: Messages, arrivals: seq<Arrival>)
    returns (delivered: seq<(UInt64, seq<Byte>)>)
    requires l.reassemblyEnabled && Proper(msgs) && l.partialMessageStore == map[]
    requires EachOnce(arrivals) && forall a :: a in arrivals ==> Valid(msgs, a)
    modifies l`partialMessageStore
    ensures delivered == Expected(msgs, arrivals)
    ensures StoreIs(l.partialMessageStore, msgs, Arrived(arrivals))
    ensures (forall b :: b in msgs ==> Complete(msgs, b, Arrived(arrivals))) ==> l.partialMessageStore == map[]
  {
    delivered := [];
    var i := 0;
    while i < |arrivals|
      invariant i <= |arrivals| && delivered == Expected(msgs, arrivals[..i])
      invariant StoreIs(l.partialMessageStore, msgs, Arrived(arrivals[..i]))
    {
      var a := arrivals[i];
      ghost var init, next := arrivals[..i], arrivals[..i + 1];
      assert next[..i] == init && next == init + [a];
      assert Arrived(next) == Arrived(init) + {a};
      OneArrival(l.partialMessageStore, msgs, Arrived(init), a);
      var result := l.ProcessIncomingFrame(FrameOf(msgs, a));
      if result.Deliver? {
        delivered := delivered + [(a.base, result.packet)];
      }
      i := i + 1;
    }
    assert arrivals[..i] == arrivals;
  }

  // ---------- from one link service to another ----------

  /** A frame with the index and the count of its fragment, which SendPacket leaves out. */
  function Labelled(frame: LpPacket, index: UInt64, count: UInt64): LpPacket {
    frame.(fragIndex := Some(index), fragCount := Some(count))
  }

  /** With index and count filled in, the frames of a packet, received in any order, give the packet
      back, once. */
  method SendAndReceive(sender: NdnlpLinkService, receiver: NdnlpLinkService, wire: seq<Byte>, effectiveMtu: nat,
                        order: seq<nat>)
    returns (delivered: seq<(UInt64, seq<Byte>)>)
    requires 0 < effectiveMtu < |wire| < WIDTH && sender != receiver && sender.fragmentationEnabled
    requires receiver.reassemblyEnabled && receiver.partialMessageStore == map[]
    requires forall i, j :: 0 <= i < j < |order| ==> order[i] != order[j]
    requires forall i: nat :: i in order <==> i * effectiveMtu < |wire|
    modifies sender`nextSequence, receiver`partialMessageStore
    ensures delivered == [(old(sender.nextSequence), wire)] && receiver.partialMessageStore == map[]
  {
    var first := sender.nextSequence;
    var frames, pieces := sender.SendPacket(wire, effectiveMtu);
    var parts := seq(|frames|, i requires 0 <= i < |frames| => frames[i].fragment);
    assert parts == pieces;
    var msgs: Messages := map[first := parts];
    var arrivals := seq(|order|, j requires 0 <= j < |order| => Arrival(first, order[j]));
    SplitCount(parts, wire, effectiveMtu);
    AllArrive(parts, wire, effectiveMtu, order, first, arrivals);
    assert forall i :: 0 <= i < |frames| ==> Labelled(frames[i], i, |frames|) == FrameOf(msgs, Arrival(first, i));
    delivered := ReceiveAll(receiver, msgs, arrivals);
    OneMessage(msgs, first, arrivals);
  }

  lemma AllArrive(parts: seq<seq<Byte>>, wire: seq<Byte>, mtu: nat, order: seq<nat>, first: UInt64,
                  arrivals: seq<Arrival>)
    requires 0 < mtu < |wire| < WIDTH && Splits(parts, wire, mtu) && |parts| > 1
    requires forall i, j :: 0 <= i < j < |order| ==> order[i] != order[j]
    requires forall i: nat :: i in order <==> i * mtu < |wire|
    requires |arrivals| == |order| && forall j :: 0 <= j < |order| ==> arrivals[j] == Arrival(first, order[j])
    ensures var msgs: Messages := map[first := parts];
            && Proper(msgs) && EachOnce(arrivals) && (forall a :: a in arrivals ==> Valid(msgs, a))
            && Complete(msgs, first, Arrived(arrivals))
  {
    SplitCount(parts, wire, mtu);
    FewPieces(|parts|, mtu, |wire|);
    forall i: nat ensures i in order <==> i < |parts| {
      InRange(i, |parts|, mtu, |wire|);
    }
    forall i | 0 <= i < |parts| ensures Arrival(first, i) in Arrived(arrivals) {
      assert i in order;
      var j :| 0 <= j < |order| && order[j] == i;
      assert arrivals[j] == Arrival(first, i);
    }
    forall a | a in arrivals ensures a.base == first && a.index < |parts| {
      var j :| 0 <= j < |order| && arrivals[j] == a;
      assert order[j] in order;
    }
    assert forall i :: 0 <= i < |parts| ==> |parts[i]| != 0;
  }

  lemma {:induction false} FewPieces(n: nat, mtu: nat, length: nat)
    requires mtu > 0 && (n - 1) * mtu < length
    ensures n <= length
    decreases n
  {
    if n > 1 {
      assert (n - 1) * mtu == (n - 2) * mtu + mtu;
      FewPieces(n - 1, mtu, length - mtu);
    }
  }

  lemma InRange(i: nat, n: nat, mtu: nat, length: nat)
    requires mtu > 0 && (n - 1) * mtu < length <= n * mtu
    ensures i * mtu < length <==> i < n
  {
    if i < n {
      assert i * mtu <= (n - 1) * mtu;
    } else {
      assert i * mtu >= n * mtu;
    }
  }

  lemma OneMessage(msgs: Messages, base: UInt64, arrivals: seq<Arrival>)
    requires Proper(msgs) && EachOnce(arrivals) && forall a :: a in arrivals ==> Valid(msgs, a)
    requires msgs.Keys == {base} && Complete(msgs, base, Arrived(arrivals))
    ensures Expected(msgs, arrivals) == [(base, Join(msgs[base]))]
  {
    ExpectedMeaning(msgs, arrivals);
    var e := Expected(msgs, arrivals);
    assert forall i :: 0 <= i < |e| ==> e[i] in e && e[i] == (base, Join(msgs[base]));
    assert |e| >= 2 ==> e[0].0 == e[1].0;
    assert (base, Join(msgs[base])) in e;
  }

  /** What the receiver passes on, without index and count. */
  ghost function PassedOn(reassembly: bool, store: Store, frames: seq<LpPacket>): seq<seq<Byte>>
    decreases |frames|
  {
    if frames == [] then []
    else
      var (r, store') := Processed(reassembly, store, frames[0]);
      (if r.Deliver? then [r.packet] else []) + PassedOn(reassembly, store', frames[1..])
  }

  /** As the frames are sent, a packet arrives as it was exactly when it is not empty, fits into
      one frame, and the receiver does not reassemble: frames of several are passed on one by one,
      and a single one has no sequence number. */
  lemma ArrivesIntact(wire: seq<Byte>, mtu: nat, frames: seq<LpPacket>, pieces: seq<seq<Byte>>, first: UInt64,
                      reassembly: bool, store: Store)
    requires mtu > 0
    requires |wire| > mtu ==> Splits(pieces, wire, mtu) && |pieces| > 1 && Numbered(frames, pieces, first)
    requires |wire| <= mtu ==> frames == [LpPacket(wire, None, None, None)]
    ensures PassedOn(reassembly, store, frames) == [wire] <==> 0 < |wire| <= mtu && !reassembly
  {
    if |wire| > mtu {
      PassedOnEach(reassembly, store, frames, pieces);
    }
  }

  lemma {:induction false} PassedOnEach(reassembly: bool, store: Store, frames: seq<LpPacket>, pieces: seq<seq<Byte>>)
    requires |frames| == |pieces|
    requires forall i :: 0 <= i < |frames| ==>
      frames[i].fragment == pieces[i] != [] && frames[i].sequence.Some?
          && frames[i].fragIndex == frames[i].fragCount == None
    ensures PassedOn(reassembly, store, frames) == pieces
  {
    if frames != [] {
      PassedOnEach(reassembly, store, frames[1..], pieces[1..]);
    }
  }
}
