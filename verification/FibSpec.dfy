/** The flat map that both FIB-Strategy tables implement: for each name, its nexthops
    (face to cost) and its strategy, with longest-prefix lookups over all names. */
module FibSpec {
  import opened Names

  type FaceId = nat

  datatype NextHop = NextHop(face: FaceId, cost: nat)

  type HopMap = map<FaceId, nat>

  /** `hops` holds only names that have a nexthop, `strategies` only names that have a strategy. */
  datatype Fib = Fib(hops: map<Name, HopMap>, strategies: map<Name, Name>)

  ghost predicate WellFormed(fib: Fib) {
    forall n :: n in fib.hops ==> fib.hops[n] != map[]
  }

  function HopsAt(fib: Fib, name: Name): HopMap {
    if name in fib.hops then fib.hops[name] else map[]
  }

  function StrategyAt(fib: Fib, name: Name): Option<Name> {
    if name in fib.strategies then Some(fib.strategies[name]) else None
  }

  function WithHops(fib: Fib, name: Name, h: HopMap): Fib {
    fib.(hops := if h == map[] then fib.hops - {name} else fib.hops[name := h])
  }

  function InsertNextHop(fib: Fib, name: Name, face: FaceId, cost: nat): Fib {
    WithHops(fib, name, HopsAt(fib, name)[face := cost])
  }

  function ClearNextHops(fib: Fib, name: Name): Fib {
    WithHops(fib, name, map[])
  }

  function RemoveNextHop(fib: Fib, name: Name, face: FaceId): Fib {
    WithHops(fib, name, HopsAt(fib, name) - {face})
  }

  function SetStrategy(fib: Fib, name: Name, strategy: Option<Name>): Fib {
    fib.(strategies := match strategy
                       case Some(s) => fib.strategies[name := s]
                       case None => fib.strategies - {name})
  }

  /** An operation at one name leaves the others as they are. */
  ghost predicate OnlyAt(fib: Fib, fib': Fib, name: Name) {
    && (forall n :: n != name ==> HopsAt(fib', n) == HopsAt(fib, n) && StrategyAt(fib', n) == StrategyAt(fib, n))
    && fib'.hops.Keys <= fib.hops.Keys + {name}
    && fib'.strategies.Keys <= fib.strategies.Keys + {name}
  }

  lemma WithHopsMeaning(fib: Fib, name: Name, h: HopMap)
    requires WellFormed(fib)
    ensures var fib' := WithHops(fib, name, h);
            && WellFormed(fib') && OnlyAt(fib, fib', name)
            && HopsAt(fib', name) == h && StrategyAt(fib', name) == StrategyAt(fib, name)
  {
  }

  lemma SetStrategyMeaning(fib: Fib, name: Name, strategy: Option<Name>)
    requires WellFormed(fib)
    ensures var fib' := SetStrategy(fib, name, strategy);
            && WellFormed(fib') && OnlyAt(fib, fib', name)
            && HopsAt(fib', name) == HopsAt(fib, name) && StrategyAt(fib', name) == strategy
  {
  }

  /** The longest prefix of the name that is a key. */
  function LongestMatch(keys: set<Name>, name: Name): Option<Name> {
    if name in keys then Some(name)
    else if name == Root then None
    else LongestMatch(keys, name.prefix)
  }

  /** The longest match is a key and a prefix, and every other such name is a prefix of it. */
  lemma {:induction false} LongestMatchMeaning(keys: set<Name>, name: Name, p: Name)
    ensures var r := LongestMatch(keys, name);
            && (r.Some? ==> r.value in keys && IsPrefix(r.value, name))
            && (p in keys && IsPrefix(p, name) ==> r.Some? && IsPrefix(p, r.value))
  {
    if name !in keys && name != Root {
      LongestMatchMeaning(keys, name.prefix, p);
    }
  }

  /** What a loop over prefix lengths finds, from the longest down, is the longest match. */
  lemma {:induction false} LongestMatchFound(keys: set<Name>, name: Name, k: int)
    requires -1 <= k <= Len(name)
    requires forall j :: k < j <= Len(name) ==> Prefix(name, j) !in keys
    requires k >= 0 ==> Prefix(name, k) in keys
    ensures LongestMatch(keys, name) == if k < 0 then None else Some(Prefix(name, k))
  {
    if k < Len(name) {
      assert Prefix(name, Len(name)) !in keys;
      if name != Root {
        assert forall j :: 0 <= j < Len(name) ==> Prefix(name, j) == Prefix(name.prefix, j);
        LongestMatchFound(keys, name.prefix, k);
      }
    }
  }

  function FindNextHops(fib: Fib, name: Name): HopMap {
    match LongestMatch(fib.hops.Keys, name)
    case Some(p) => HopsAt(fib, p)
    case None => map[]
  }

  function FindStrategy(fib: Fib, name: Name): Option<Name> {
    match LongestMatch(fib.strategies.Keys, name)
    case Some(p) => StrategyAt(fib, p)
    case None => None
  }

  /** Without the longest match: nexthops at a prefix answer the query if no longer prefix has any; the same
      goes for strategies. */
  lemma FindMeaning(fib: Fib, name: Name, k: nat)
    requires k <= Len(name)
    ensures Prefix(name, k) in fib.hops && (forall j :: k < j <= Len(name) ==> Prefix(name, j) !in fib.hops) ==>
              FindNextHops(fib, name) == fib.hops[Prefix(name, k)]
    ensures (forall j :: 0 <= j <= Len(name) ==> Prefix(name, j) !in fib.hops) ==> FindNextHops(fib, name) == map[]
    ensures Prefix(name, k) in fib.strategies
            && (forall j :: k < j <= Len(name) ==> Prefix(name, j) !in fib.strategies) ==>
              FindStrategy(fib, name) == Some(fib.strategies[Prefix(name, k)])
    ensures (forall j :: 0 <= j <= Len(name) ==> Prefix(name, j) !in fib.strategies) ==> FindStrategy(fib, name) == None
  {
    if Prefix(name, k) in fib.hops && (forall j :: k < j <= Len(name) ==> Prefix(name, j) !in fib.hops) {
      LongestMatchFound(fib.hops.Keys, name, k);
    }
    if forall j :: 0 <= j <= Len(name) ==> Prefix(name, j) !in fib.hops {
      LongestMatchFound(fib.hops.Keys, name, -1);
    }
    if Prefix(name, k) in fib.strategies && (forall j :: k < j <= Len(name) ==> Prefix(name, j) !in fib.strategies) {
      LongestMatchFound(fib.strategies.Keys, name, k);
    }
    if forall j :: 0 <= j <= Len(name) ==> Prefix(name, j) !in fib.strategies {
      LongestMatchFound(fib.strategies.Keys, name, -1);
    }
  }

  // ---------- a table's list of nexthops ----------

  /** The list holds each face of the map once, with the map's cost. */
  ghost predicate Lists(s: seq<NextHop>, h: HopMap) {
    if s == [] then h == map[]
    else
      var hop := s[|s| - 1];
      hop.face in h && h[hop.face] == hop.cost && Lists(s[..|s| - 1], h - {hop.face})
  }

  ghost predicate OneHopPerFace(s: seq<NextHop>) {
    forall i, j :: 0 <= i < j < |s| ==> s[i].face != s[j].face
  }

  ghost predicate HasFace(s: seq<NextHop>, face: FaceId) {
    exists i :: 0 <= i < |s| && s[i].face == face
  }

  lemma HasFaceLast(s: seq<NextHop>, f: FaceId)
    requires s != []
    ensures HasFace(s, f) <==> f == s[|s| - 1].face || HasFace(s[..|s| - 1], f)
  {
    var init := s[..|s| - 1];
    if f == s[|s| - 1].face {
      assert HasFace(s, f);
    } else if HasFace(s, f) {
      var i :| 0 <= i < |s| && s[i].face == f;
      assert init[i].face == f;
    }
  }

  /** What Lists means, element by element. */
  lemma {:induction false} ListsMeaning(s: seq<NextHop>, h: HopMap)
    ensures Lists(s, h) <==>
              && OneHopPerFace(s)
              && (forall i :: 0 <= i < |s| ==> s[i].face in h && h[s[i].face] == s[i].cost)
              && (forall f :: f in h <==> HasFace(s, f))
  {
    if s == [] {
      assert h != map[] ==> exists f :: f in h;
      assert forall f :: !HasFace(s, f);
    } else {
      var init, hop := s[..|s| - 1], s[|s| - 1];
      ListsMeaning(init, h - {hop.face});
      forall f ensures HasFace(s, f) <==> f == hop.face || HasFace(init, f) {
        HasFaceLast(s, f);
      }
      OneHopLast(s);
    }
  }

  lemma OneHopLast(s: seq<NextHop>)
    requires s != []
    ensures OneHopPerFace(s) <==> OneHopPerFace(s[..|s| - 1]) && !HasFace(s[..|s| - 1], s[|s| - 1].face)
  {
  }

  lemma ListsUpdate(s: seq<NextHop>, h: HopMap, i: nat, cost: nat)
    requires Lists(s, h) && i < |s|
    ensures Lists(s[i := NextHop(s[i].face, cost)], h[s[i].face := cost])
  {
    var s', h' := s[i := NextHop(s[i].face, cost)], h[s[i].face := cost];
    ListsMeaning(s, h);
    ListsMeaning(s', h');
    assert forall j :: 0 <= j < |s| ==> s'[j].face == s[j].face;
    assert forall f :: HasFace(s', f) <==> HasFace(s, f);
  }

  lemma ListsAppend(s: seq<NextHop>, h: HopMap, hop: NextHop)
    requires Lists(s, h)
    requires forall i :: 0 <= i < |s| ==> s[i].face != hop.face
    ensures Lists(s + [hop], h[hop.face := hop.cost])
  {
    var s', h' := s + [hop], h[hop.face := hop.cost];
    assert s'[..|s'| - 1] == s;
    ListsMeaning(s, h);
    assert hop.face !in h;
    assert h' - {hop.face} == h;
  }

  /** Removal of one element by moving the later ones down. */
  lemma {:induction false} ListsShift(s: seq<NextHop>, h: HopMap, i: nat)
    requires Lists(s, h) && i < |s|
    ensures Lists(s[..i] + s[i + 1..], h - {s[i].face})
  {
    var init, last := s[..|s| - 1], s[|s| - 1];
    var s' := s[..i] + s[i + 1..];
    if i == |s| - 1 {
      assert s' == init;
    } else {
      ListsMeaning(init, h - {last.face});
      assert init[i] == s[i];
      ListsShift(init, h - {last.face}, i);
      assert s'[..|s'| - 1] == init[..i] + init[i + 1..];
      assert h - {last.face} - {s[i].face} == h - {s[i].face} - {last.face};
    }
  }

  /** Removal of one element by moving the last one into its place. */
  lemma ListsSwap(s: seq<NextHop>, h: HopMap, i: nat)
    requires Lists(s, h) && i < |s|
    ensures Lists(s[i := s[|s| - 1]][..|s| - 1], h - {s[i].face})
  {
    var init, last := s[..|s| - 1], s[|s| - 1];
    var s' := s[i := last][..|s| - 1];
    if i == |s| - 1 {
      assert s' == init;
    } else {
      ListsMeaning(s, h);
      ListsReplace(init, h - {last.face}, i, last);
      assert s' == init[i := last];
      assert (h - {last.face} - {init[i].face})[last.face := last.cost] == h - {s[i].face};
    }
  }

  /** One element gives way to one for another face. */
  lemma ListsReplace(s: seq<NextHop>, h: HopMap, i: nat, hop: NextHop)
    requires Lists(s, h) && i < |s| && hop.face !in h
    ensures Lists(s[i := hop], (h - {s[i].face})[hop.face := hop.cost])
  {
    var s', h' := s[i := hop], (h - {s[i].face})[hop.face := hop.cost];
    ListsMeaning(s, h);
    ListsMeaning(s', h');
    forall f ensures f in h' <==> HasFace(s', f) {
      if f in h' {
        assert f == hop.face || HasFace(s, f);
        var j :| 0 <= j < |s| && (if f == hop.face then j == i else s[j].face == f);
        assert s'[j].face == f;
      }
    }
  }

  lemma ListsAbsent(s: seq<NextHop>, h: HopMap, face: FaceId)
    requires Lists(s, h)
    requires forall i :: 0 <= i < |s| ==> s[i].face != face
    ensures face !in h && h - {face} == h
  {
    ListsMeaning(s, h);
  }

  lemma ListsEmpty(s: seq<NextHop>, h: HopMap)
    requires Lists(s, h)
    ensures s == [] <==> h == map[]
  {
  }

  /** The loop of InsertNextHop: the face's cost is updated, or the face is added at the end. */
  method PutHop(hops: seq<NextHop>, face: FaceId, cost: nat, ghost h: HopMap) returns (hops': seq<NextHop>)
    requires Lists(hops, h)
    ensures Lists(hops', h[face := cost])
  {
    var i := FaceIndex(hops, face);
    if i < |hops| {
      ListsUpdate(hops, h, i, cost);
      hops' := hops[i := NextHop(face, cost)];
    } else {
      ListsAppend(hops, h, NextHop(face, cost));
      hops' := hops + [NextHop(face, cost)];
    }
  }

  /** The index of the first nexthop for the face, or the number of nexthops. */
  method FaceIndex(hops: seq<NextHop>, face: FaceId) returns (i: nat)
    ensures i <= |hops|
    ensures forall j :: 0 <= j < i ==> hops[j].face != face
    ensures i < |hops| ==> hops[i].face == face
  {
    i := 0;
    while i < |hops| && hops[i].face != face
      invariant i <= |hops|
      invariant forall j :: 0 <= j < i ==> hops[j].face != face
    {
      i := i + 1;
    }
  }

  // ---------- operations and runs ----------

  datatype Op =
    | OpInsert(name: Name, face: FaceId, cost: nat)
    | OpClear(name: Name)
    | OpRemove(name: Name, face: FaceId)
    | OpSet(name: Name, strategy: Option<Name>)
    | OpUnset(name: Name)

  function Apply(fib: Fib, op: Op): Fib {
    match op
    case OpInsert(n, f, c) => InsertNextHop(fib, n, f, c)
    case OpClear(n) => ClearNextHops(fib, n)
    case OpRemove(n, f) => RemoveNextHop(fib, n, f)
    case OpSet(n, s) => SetStrategy(fib, n, s)
    case OpUnset(n) => SetStrategy(fib, n, None)
  }

  // ---------- operations, nexthop by nexthop ----------

  /** The name has this nexthop at this cost. */
  ghost predicate HasHop(fib: Fib, n: Name, f: FaceId, c: nat) {
    n in fib.hops && f in fib.hops[n] && fib.hops[n][f] == c
  }

  ghost predicate HasStrategy(fib: Fib, n: Name, s: Name) {
    n in fib.strategies && fib.strategies[n] == s
  }

  /** The operation has done to each nexthop and each strategy of each name what it is for. The parts are
      given to those who ask with Unfold. */
  ghost predicate Did(fib: Fib, fib': Fib, op: Op) {
    forall k {:trigger Unfold(k)} :: Unfold(k) ==>
      WellFormed(fib') && DidHops(fib, fib', op) && DidStrategies(fib, fib', op)
  }

  ghost predicate DidHops(fib: Fib, fib': Fib, op: Op) {
    forall n, f, c {:trigger HasHop(fib', n, f, c)} :: HasHop(fib', n, f, c) <==>
      match op
      case OpInsert(name, face, cost) => if n == name && f == face then c == cost else HasHop(fib, n, f, c)
      case OpClear(name) => HasHop(fib, n, f, c) && n != name
      case OpRemove(name, face) => HasHop(fib, n, f, c) && !(n == name && f == face)
      case OpSet(_, _) => HasHop(fib, n, f, c)
      case OpUnset(_) => HasHop(fib, n, f, c)
  }

  ghost predicate DidStrategies(fib: Fib, fib': Fib, op: Op) {
    forall n, s {:trigger HasStrategy(fib', n, s)} :: HasStrategy(fib', n, s) <==>
      match op
      case OpSet(name, strategy) => if n == name then strategy == Some(s) else HasStrategy(fib, n, s)
      case OpUnset(name) => HasStrategy(fib, n, s) && n != name
      case _ => HasStrategy(fib, n, s)
  }

  lemma ApplyMeaning(fib: Fib, op: Op)
    requires WellFormed(fib)
    ensures Did(fib, Apply(fib, op), op)
  {
    var fib' := Apply(fib, op);
    match op {
      case OpInsert(name, face, cost) =>
        var h := HopsAt(fib, name)[face := cost];
        assert face in h && fib'.hops == fib.hops[name := h];
      case OpClear(name) => assert fib'.hops == fib.hops - {name};
      case OpRemove(name, face) =>
        var h := HopsAt(fib, name) - {face};
        assert fib'.hops == if h == map[] then fib.hops - {name} else fib.hops[name := h];
        assert forall f :: f in HopsAt(fib, name) && f != face ==> f in h;
      case OpSet(_, _) =>
      case OpUnset(_) =>
    }
  }

  lemma DidInsert(fib: Fib, fib': Fib, name: Name, face: FaceId, cost: nat)
    requires WellFormed(fib) && fib' == InsertNextHop(fib, name, face, cost)
    ensures Did(fib, fib', OpInsert(name, face, cost))
  {
    ApplyMeaning(fib, OpInsert(name, face, cost));
  }

  lemma DidSet(fib: Fib, fib': Fib, name: Name, strategy: Option<Name>)
    requires WellFormed(fib) && fib' == SetStrategy(fib, name, strategy)
    ensures Did(fib, fib', OpSet(name, strategy)) && (strategy == None ==> Did(fib, fib', OpUnset(name)))
  {
    ApplyMeaning(fib, OpSet(name, strategy));
    if strategy == None {
      ApplyMeaning(fib, OpUnset(name));
    }
  }

  function Run(fib: Fib, ops: seq<Op>): Fib {
    if ops == [] then fib else Apply(Run(fib, ops[..|ops| - 1]), ops[|ops| - 1])
  }

  /** The table a forwarder starts with: only the default strategy, at the root. */
  function Initial(defaultStrategy: Name): Fib {
    Fib(map[], map[Root := defaultStrategy])
  }
}
