/** The flat map that the RIB keeps: for each name its routes, and the nexthops they flatten to. */
module RibSpec {
  import opened Names
  import opened FibSpec

  datatype Route = Route(face: FaceId, origin: nat, cost: nat, flags: nat, expiration: Option<int>)

  /** Only names with a route are keys. */
  type Rib = map<Name, seq<Route>>

  function RoutesAt(rib: Rib, name: Name): seq<Route> {
    if name in rib then rib[name] else []
  }

  function WithRoutes(rib: Rib, name: Name, routes: seq<Route>): Rib {
    if routes == [] then rib - {name} else rib[name := routes]
  }

  lemma SameRoutes(rib: Rib, name: Name)
    requires WellFormed(rib)
    ensures WithRoutes(rib, name, RoutesAt(rib, name)) == rib
  {
  }

  predicate SameKey(r: Route, face: FaceId, origin: nat) {
    r.face == face && r.origin == origin
  }

  /** No two routes for the same face and origin. */
  ghost predicate UniqueKeys(routes: seq<Route>) {
    forall i, j :: 0 <= i < j < |routes| ==> !SameKey(routes[i], routes[j].face, routes[j].origin)
  }

  ghost predicate WellFormed(rib: Rib) {
    forall n :: n in rib ==> rib[n] != [] && UniqueKeys(rib[n])
  }

  // ---------- what the loops over routes compute ----------

  /** The index of the first route for the face and origin, or the number of routes. */
  function KeyIndex(routes: seq<Route>, face: FaceId, origin: nat): (i: nat)
    ensures i <= |routes|
    ensures forall j :: 0 <= j < i ==> !SameKey(routes[j], face, origin)
    ensures i < |routes| ==> SameKey(routes[i], face, origin)
  {
    if routes == [] || SameKey(routes[0], face, origin) then 0 else 1 + KeyIndex(routes[1..], face, origin)
  }

  /** The index of the first route on the face, or the number of routes. */
  function FaceIndex(routes: seq<Route>, face: FaceId): (i: nat)
    ensures i <= |routes|
    ensures forall j :: 0 <= j < i ==> routes[j].face != face
    ensures i < |routes| ==> routes[i].face == face
  {
    if routes == [] || routes[0].face == face then 0 else 1 + FaceIndex(routes[1..], face)
  }

  /** The first index with the property is the one these functions return. */
  lemma KeyIndexFound(routes: seq<Route>, face: FaceId, origin: nat, i: nat)
    requires i <= |routes|
    requires forall j :: 0 <= j < i ==> !SameKey(routes[j], face, origin)
    requires i < |routes| ==> SameKey(routes[i], face, origin)
    ensures KeyIndex(routes, face, origin) == i
  {
    var k := KeyIndex(routes, face, origin);
    assert k < |routes| ==> SameKey(routes[k], face, origin);
  }

  lemma FaceIndexFound(routes: seq<Route>, face: FaceId, i: nat)
    requires i <= |routes|
    requires forall j :: 0 <= j < i ==> routes[j].face != face
    requires i < |routes| ==> routes[i].face == face
    ensures FaceIndex(routes, face) == i
  {
    var k := FaceIndex(routes, face);
    assert k < |routes| ==> routes[k].face == face;
  }

  /** The routes without the one at the index. */
  function Without(routes: seq<Route>, i: nat): seq<Route>
    requires i <= |routes|
  {
    if i < |routes| then routes[..i] + routes[i + 1..] else routes
  }

  function SetRoute(routes: seq<Route>, r: Route): seq<Route> {
    var i := KeyIndex(routes, r.face, r.origin);
    if i < |routes| then routes[i := r] else routes + [r]
  }

  function DropKey(routes: seq<Route>, face: FaceId, origin: nat): seq<Route> {
    Without(routes, KeyIndex(routes, face, origin))
  }

  /** What CleanUpFace does to a prefix's routes: only the first route on the face goes. */
  function DropFirst(routes: seq<Route>, face: FaceId): seq<Route> {
    Without(routes, FaceIndex(routes, face))
  }

  lemma WithoutAt(routes: seq<Route>, i: nat)
    requires i < |routes|
    ensures |Without(routes, i)| == |routes| - 1
    ensures forall j :: 0 <= j < i ==> Without(routes, i)[j] == routes[j]
    ensures forall j :: i <= j < |routes| - 1 ==> Without(routes, i)[j] == routes[j + 1]
  {
    var rest := Without(routes, i);
    assert |routes[..i]| == i && |routes[i + 1..]| == |routes| - i - 1;
    forall j | i <= j < |routes| - 1 ensures rest[j] == routes[j + 1] {
      assert rest[j] == routes[i + 1..][j - i];
    }
  }

  lemma WithoutKeepsUnique(routes: seq<Route>, i: nat)
    requires i <= |routes| && UniqueKeys(routes)
    ensures UniqueKeys(Without(routes, i))
  {
    if i < |routes| {
      WithoutAt(routes, i);
    }
  }

  lemma SetRouteKeepsUnique(routes: seq<Route>, r: Route)
    requires UniqueKeys(routes)
    ensures UniqueKeys(SetRoute(routes, r)) && SetRoute(routes, r) != []
  {
  }

  // ---------- operations ----------

  function Add(rib: Rib, name: Name, r: Route): Rib {
    WithRoutes(rib, name, SetRoute(RoutesAt(rib, name), r))
  }

  function Remove(rib: Rib, name: Name, face: FaceId, origin: nat): Rib {
    WithRoutes(rib, name, DropKey(RoutesAt(rib, name), face, origin))
  }

  /** `cleaned` are the names where the first route on the face is gone. */
  function CleanAt(rib: Rib, cleaned: set<Name>, face: FaceId): Rib {
    map n | n in rib && (n in cleaned ==> DropFirst(rib[n], face) != []) ::
      if n in cleaned then DropFirst(rib[n], face) else rib[n]
  }

  function CleanUp(rib: Rib, face: FaceId): Rib {
    CleanAt(rib, rib.Keys, face)
  }

  /** The keys at and below a name. */
  ghost function Below(keys: set<Name>, p: Name): set<Name> {
    set n | n in keys && IsPrefix(p, n)
  }

  /** Cleaning one set of names and then another is cleaning both. */
  lemma CleanTwice(rib: Rib, s: set<Name>, t: set<Name>, face: FaceId)
    requires s !! t
    ensures CleanAt(CleanAt(rib, s, face), t * CleanAt(rib, s, face).Keys, face) == CleanAt(rib, s + t, face)
  {
  }

  lemma CleanNothing(rib: Rib, face: FaceId)
    requires WellFormed(rib)
    ensures CleanAt(rib, {}, face) == rib
  {
  }

  /** Cleaning one name is replacing its routes. */
  lemma CleanOne(rib: Rib, p: Name, face: FaceId)
    requires WellFormed(rib)
    ensures CleanAt(rib, {p}, face) == WithRoutes(rib, p, DropFirst(RoutesAt(rib, p), face))
  {
  }

  datatype RibOp =
    | RibAdd(name: Name, route: Route)
    | RibRemove(name: Name, face: FaceId, origin: nat)
    | RibCleanUp(face: FaceId)

  function ApplyOp(rib: Rib, op: RibOp): Rib {
    match op
    case RibAdd(n, r) => Add(rib, n, r)
    case RibRemove(n, f, o) => Remove(rib, n, f, o)
    case RibCleanUp(f) => CleanUp(rib, f)
  }

  // ---------- operations, route by route ----------

  /** One route has come in the place of another for its face and origin, or at the end. */
  ghost predicate RouteSet(before: seq<Route>, after: seq<Route>, r: Route) {
    || (after == before + [r] && forall i :: 0 <= i < |before| ==> !IsOf(before[i], r.face, Some(r.origin)))
    || (exists i :: 0 <= i < |before| && IsOf(before[i], r.face, Some(r.origin)) && after == before[i := r])
  }

  /** The routes are the same without the first one that the face, and the origin if one is given, are of. */
  ghost predicate RouteCut(before: seq<Route>, after: seq<Route>, face: FaceId, origin: Option<nat>) {
    || (after == before && forall i :: 0 <= i < |before| ==> !IsOf(before[i], face, origin))
    || (exists i :: 0 <= i < |before| && IsOf(before[i], face, origin) && after == before[..i] + before[i + 1..]
                    && forall j :: 0 <= j < i ==> !IsOf(before[j], face, origin))
  }

  predicate IsOf(r: Route, face: FaceId, origin: Option<nat>) {
    r.face == face && (origin == None || r.origin == origin.value)
  }

  ghost predicate DidAt(before: seq<Route>, after: seq<Route>, op: RibOp, n: Name) {
    match op
    case RibAdd(name, r) => if n == name then RouteSet(before, after, r) else after == before
    case RibRemove(name, face, origin) =>
      if n == name then RouteCut(before, after, face, Some(origin)) else after == before
    case RibCleanUp(face) => RouteCut(before, after, face, None)
  }

  /** The operation has done to the routes of each name what it is for. The parts are given to those who
      ask with Unfold. */
  ghost predicate RibDid(rib: Rib, rib': Rib, op: RibOp) {
    forall k {:trigger Unfold(k)} :: Unfold(k) ==>
      forall n {:trigger RoutesAt(rib', n)} :: DidAt(RoutesAt(rib, n), RoutesAt(rib', n), op, n)
  }

  lemma RoutesAtMeaning(rib: Rib, n: Name, r: Route)
    requires WellFormed(rib)
    ensures r in RoutesAt(rib, n) <==> n in rib && r in rib[n]
    ensures n in rib ==> RoutesAt(rib, n) == rib[n]
    ensures n !in rib ==> RoutesAt(rib, n) == []
  {
  }

  lemma SetRouteMeaning(routes: seq<Route>, r: Route)
    requires UniqueKeys(routes)
    ensures RouteSet(routes, SetRoute(routes, r), r)
    ensures r in SetRoute(routes, r)
    ensures forall o: Route :: !(o.face == r.face && o.origin == r.origin) ==>
              (o in SetRoute(routes, r) <==> o in routes)
  {
    var k, after := KeyIndex(routes, r.face, r.origin), SetRoute(routes, r);
    forall i | 0 <= i < |routes| && IsOf(routes[i], r.face, Some(r.origin)) ensures i == k {
      assert SameKey(routes[i], r.face, r.origin);
    }
    if k < |routes| {
      assert IsOf(routes[k], r.face, Some(r.origin)) && after[k] == r;
      forall o | o in routes && o != routes[k] ensures o in after {
        var i :| 0 <= i < |routes| && routes[i] == o;
        assert after[i] == o;
      }
    } else {
      assert after[|routes|] == r && after == routes + [r];
    }
  }

  lemma DropKeyMeaning(routes: seq<Route>, face: FaceId, origin: nat)
    ensures RouteCut(routes, DropKey(routes, face, origin), face, Some(origin))
  {
    var k := KeyIndex(routes, face, origin);
    forall i | 0 <= i < k ensures !IsOf(routes[i], face, Some(origin)) {
      assert !SameKey(routes[i], face, origin);
    }
    if k < |routes| {
      assert IsOf(routes[k], face, Some(origin));
    }
  }

  lemma DropFirstMeaning(routes: seq<Route>, face: FaceId)
    ensures RouteCut(routes, DropFirst(routes, face), face, None)
  {
    var k := FaceIndex(routes, face);
    if k < |routes| {
      assert IsOf(routes[k], face, None);
    }
  }

  lemma DidAdd(rib: Rib, rib': Rib, name: Name, r: Route)
    requires WellFormed(rib) && rib' == Add(rib, name, r)
    ensures RibDid(rib, rib', RibAdd(name, r)) && name in rib' && r in rib'[name]
  {
    SetRouteMeaning(RoutesAt(rib, name), r);
    forall n ensures DidAt(RoutesAt(rib, n), RoutesAt(rib', n), RibAdd(name, r), n) {
      assert n != name ==> RoutesAt(rib', n) == RoutesAt(rib, n);
    }
  }

  lemma DidRemove(rib: Rib, rib': Rib, name: Name, face: FaceId, origin: nat)
    requires WellFormed(rib) && rib' == Remove(rib, name, face, origin)
    ensures RibDid(rib, rib', RibRemove(name, face, origin))
  {
    DropKeyMeaning(RoutesAt(rib, name), face, origin);
    forall n ensures DidAt(RoutesAt(rib, n), RoutesAt(rib', n), RibRemove(name, face, origin), n) {
      assert n != name ==> RoutesAt(rib', n) == RoutesAt(rib, n);
    }
  }

  lemma DidCleanUp(rib: Rib, rib': Rib, face: FaceId)
    requires WellFormed(rib) && rib' == CleanUp(rib, face)
    ensures RibDid(rib, rib', RibCleanUp(face))
  {
    forall n ensures DidAt(RoutesAt(rib, n), RoutesAt(rib', n), RibCleanUp(face), n) {
      DropFirstMeaning(RoutesAt(rib, n), face);
    }
  }

  /** Every operation has done that. */
  lemma DidNext(h: History, h': History, op: RibOp)
    requires WellFormed(h.rib) && h' == Next(h, op)
    ensures RibDid(h.rib, h'.rib, op)
    ensures op.RibAdd? ==> op.name in h'.rib && op.route in h'.rib[op.name]
  {
    match op
    case RibAdd(n, r) => DidAdd(h.rib, h'.rib, n, r);
    case RibRemove(n, f, o) => DidRemove(h.rib, h'.rib, n, f, o);
    case RibCleanUp(f) => DidCleanUp(h.rib, h'.rib, f);
  }

  function RunRib(rib: Rib, ops: seq<RibOp>): Rib {
    if ops == [] then rib else ApplyOp(RunRib(rib, ops[..|ops| - 1]), ops[|ops| - 1])
  }

  // ---------- flattening ----------

  /** The least cost of each face: what the loop over the routes collects. */
  function MinCosts(routes: seq<Route>): HopMap {
    if routes == [] then map[]
    else
      var costs, r := MinCosts(routes[..|routes| - 1]), routes[|routes| - 1];
      if r.face !in costs || r.cost < costs[r.face] then costs[r.face := r.cost] else costs
  }

  /** The cost is the least one of the routes on the face. */
  ghost predicate IsMinCost(routes: seq<Route>, face: FaceId, cost: nat) {
    && (exists i :: 0 <= i < |routes| && routes[i].face == face && routes[i].cost == cost)
    && (forall i :: 0 <= i < |routes| && routes[i].face == face ==> cost <= routes[i].cost)
  }

  lemma {:induction false} MinCostsMeaning(routes: seq<Route>, face: FaceId)
    ensures face in MinCosts(routes) <==> exists i :: 0 <= i < |routes| && routes[i].face == face
    ensures face in MinCosts(routes) ==> IsMinCost(routes, face, MinCosts(routes)[face])
  {
    if routes != [] {
      var init, r := routes[..|routes| - 1], routes[|routes| - 1];
      MinCostsMeaning(init, face);
      if r.face == face {
        assert routes[|routes| - 1].face == face;
      } else if face in MinCosts(init) {
        var i :| 0 <= i < |init| && init[i].face == face && init[i].cost == MinCosts(init)[face];
        assert routes[i].face == face;
      }
      if r.face == face && face in MinCosts(init) && r.cost >= MinCosts(init)[face] {
        var i :| 0 <= i < |init| && init[i].face == face && init[i].cost == MinCosts(init)[face];
        assert routes[i].face == face && routes[i].cost == MinCosts(init)[face];
      }
    }
  }

  /** The nexthops that the whole RIB flattens to. */
  function Flatten(rib: Rib): map<Name, HopMap> {
    map n | n in rib :: MinCosts(rib[n])
  }

  lemma FlattenWith(rib: Rib, name: Name, routes: seq<Route>)
    ensures Flatten(WithRoutes(rib, name, routes))
            == if routes == [] then Flatten(rib) - {name} else Flatten(rib)[name := MinCosts(routes)]
  {
  }

  lemma NoMinCosts(routes: seq<Route>)
    ensures routes == [] <==> MinCosts(routes) == map[]
  {
    if routes != [] {
      MinCostsMeaning(routes, routes[0].face);
      assert routes[0].face in MinCosts(routes);
    }
  }

  // ---------- nameless entries ----------

  /** The tree has an entry for the name. */
  ghost predicate IsEntry(rib: Rib, p: Name) {
    p == Root || exists n :: n in rib && IsPrefix(p, n)
  }

  /** The RIB, the entries that have been given their name, and whether the hash table has lost the
      nexthops of the empty name: a call for a nameless entry is one for that name there. */
  datatype History = History(rib: Rib, named: set<Name>, lost: bool)

  ghost function Entries(rib: Rib, names: set<Name>): set<Name> {
    set p | p in names && IsEntry(rib, p)
  }

  ghost function Next(h: History, op: RibOp): History {
    var rib := ApplyOp(h.rib, op);
    match op
    case RibAdd(n, _) => History(rib, h.named + {n}, h.lost && n != Root)
    case RibRemove(n, _, _) =>
      History(rib, Entries(rib, h.named), if IsEntry(h.rib, n) then n !in h.named || (h.lost && n != Root) else h.lost)
    case RibCleanUp(_) => History(rib, Entries(rib, h.named), h.lost && Root !in h.named)
  }

  ghost function Follow(h: History, ops: seq<RibOp>): History {
    if ops == [] then h else Next(Follow(h, ops[..|ops| - 1]), ops[|ops| - 1])
  }

  lemma NothingToRemove(rib: Rib, n: Name, face: FaceId, origin: nat)
    requires n !in rib
    ensures Remove(rib, n, face, origin) == rib
  {
    assert KeyIndex([], face, origin) == 0;
  }

  lemma NextAdd(h: History, n: Name, r: Route, h': History)
    requires h'.rib == WithRoutes(h.rib, n, SetRoute(RoutesAt(h.rib, n), r)) && h'.named == h.named + {n}
    requires h'.lost == (h.lost && n != Root)
    ensures h' == Next(h, RibAdd(n, r))
  {
  }

  lemma NextRemove(h: History, n: Name, face: FaceId, origin: nat, h': History)
    requires h'.rib == Remove(h.rib, n, face, origin) && h'.named == Entries(h'.rib, h.named)
    requires h'.lost == if IsEntry(h.rib, n) then n !in h.named || (h.lost && n != Root) else h.lost
    ensures h' == Next(h, RibRemove(n, face, origin))
  {
  }

  lemma NextCleanUp(h: History, face: FaceId, h': History)
    requires h'.rib == CleanAt(h.rib, Below(h.rib.Keys, Root), face) && h'.named == Entries(h'.rib, h.named)
    requires h'.lost == (h.lost && Root !in h.named)
    ensures h' == Next(h, RibCleanUp(face))
  {
    assert Below(h.rib.Keys, Root) == h.rib.Keys;
  }

  const NEW_RIB: History := History(map[], {}, false)

  /** The nexthops that the hash table has. */
  function HashHops(rib: Rib, lost: bool): map<Name, HopMap> {
    if lost then Flatten(rib) - {Root} else Flatten(rib)
  }

  /** They are those of the routes exactly if nothing is lost, or there was nothing to lose. */
  lemma HashHopsRight(rib: Rib, lost: bool)
    ensures HashHops(rib, lost) == Flatten(rib) <==> !(lost && Root in rib)
  {
    assert Root in Flatten(rib) <==> Root in rib;
  }

  lemma HashHopsWith(rib: Rib, lost: bool, name: Name, routes: seq<Route>)
    ensures HashHops(WithRoutes(rib, name, routes), lost && name != Root)
            == if routes == [] then HashHops(rib, lost) - {name} else HashHops(rib, lost)[name := MinCosts(routes)]
  {
    FlattenWith(rib, name, routes);
  }

  /** How the root's nexthops get lost: withdrawing a route, even one that is not there, at a name
      that is only on the way to another one. */
  lemma RootLosesHops(face1: FaceId, face2: FaceId, a: Component, b: Component)
    ensures var between := Under(Root, a);
            var ops := [RibAdd(Root, Route(face1, 0, 0, 0, None)),
                        RibAdd(Under(between, b), Route(face2, 0, 0, 0, None)),
                        RibRemove(between, face2, 0)];
            var h := Follow(NEW_RIB, ops);
            h.lost && Root in h.rib && Root !in HashHops(h.rib, h.lost) && Root in Flatten(h.rib)
  {
    var between := Under(Root, a);
    var n := Under(between, b);
    var r1, r2 := Route(face1, 0, 0, 0, None), Route(face2, 0, 0, 0, None);
    FollowThree(NEW_RIB, RibAdd(Root, r1), RibAdd(n, r2), RibRemove(between, face2, 0));
    AddFirst(NEW_RIB, Root, r1);
    var h1 := Next(NEW_RIB, RibAdd(Root, r1));
    AddFirst(h1, n, r2);
    var h2 := Next(h1, RibAdd(n, r2));
    assert h2.rib == map[Root := [r1], n := [r2]] && between !in h2.rib && between !in h2.named;
    assert Len(n) == 2 && Len(between) == 1 && Prefix(n, 1) == Prefix(between, 1) == between;
    assert IsPrefix(between, n) && n in h2.rib && IsEntry(h2.rib, between);
    assert ApplyOp(h2.rib, RibRemove(between, face2, 0)) == h2.rib;
  }

  lemma FollowThree(h: History, a: RibOp, b: RibOp, c: RibOp)
    ensures Follow(h, [a, b, c]) == Next(Next(Next(h, a), b), c)
  {
    assert [a, b, c][..2] == [a, b] && [a, b][..1] == [a] && [a][..0] == [];
    assert Follow(h, [a]) == Next(Follow(h, []), a) == Next(h, a);
    assert Follow(h, [a, b]) == Next(Follow(h, [a]), b);
    assert Follow(h, [a, b, c]) == Next(Follow(h, [a, b]), c);
  }

  /** A first route makes an entry of its name. */
  lemma AddFirst(h: History, n: Name, r: Route)
    requires n !in h.rib
    ensures Next(h, RibAdd(n, r)) == History(h.rib[n := [r]], h.named + {n}, h.lost && n != Root)
  {
    assert KeyIndex([], r.face, r.origin) == 0 && SetRoute([], r) == [r];
  }

  // ---------- how complete CleanUpFace is ----------

  ghost predicate OnFace(routes: seq<Route>, face: FaceId) {
    exists i :: 0 <= i < |routes| && routes[i].face == face
  }

  /** At most one route is on the face, whatever the origins. */
  ghost predicate AtMostOneOn(routes: seq<Route>, face: FaceId) {
    forall i, j :: 0 <= i < j < |routes| ==> routes[i].face != face || routes[j].face != face
  }

  lemma DropFirstOn(routes: seq<Route>, face: FaceId)
    ensures OnFace(DropFirst(routes, face), face) <==> !AtMostOneOn(routes, face)
  {
    var i, left := FaceIndex(routes, face), DropFirst(routes, face);
    if i < |routes| {
      WithoutAt(routes, i);
      if !AtMostOneOn(routes, face) {
        var j, k :| 0 <= j < k < |routes| && routes[j].face == face && routes[k].face == face;
        assert left[k - 1] == routes[k];
      }
    }
  }

  /** After CleanUpFace a route on the face is left exactly when some prefix held two of them.
      Routes are kept apart by face and origin, so one face may well have several. */
  lemma CleanUpComplete(rib: Rib, face: FaceId)
    requires WellFormed(rib)
    ensures (forall n :: n in CleanUp(rib, face) ==> !OnFace(CleanUp(rib, face)[n], face))
            <==> (forall n :: n in rib ==> AtMostOneOn(rib[n], face))
  {
    var cleaned := CleanUp(rib, face);
    forall n | n in rib ensures (n in cleaned ==> !OnFace(cleaned[n], face)) <==> AtMostOneOn(rib[n], face) {
      DropFirstOn(rib[n], face);
    }
  }

  /** The same for the nexthops that are left. */
  lemma CleanUpCompleteHops(rib: Rib, face: FaceId)
    requires WellFormed(rib)
    ensures (forall n :: n in Flatten(CleanUp(rib, face)) ==> face !in Flatten(CleanUp(rib, face))[n])
            <==> (forall n :: n in rib ==> AtMostOneOn(rib[n], face))
  {
    CleanUpComplete(rib, face);
    var cleaned := CleanUp(rib, face);
    forall n | n in cleaned ensures face in Flatten(cleaned)[n] <==> OnFace(cleaned[n], face) {
      MinCostsMeaning(cleaned[n], face);
    }
  }

  /** A face registered by two origins keeps a route. */
  lemma CleanUpLeavesARoute()
    ensures var rib: Rib := map[Root := [Route(7, 0, 10, 0, None), Route(7, 255, 20, 0, None)]];
            && WellFormed(rib)
            && CleanUp(rib, 7) == map[Root := [Route(7, 255, 20, 0, None)]]
  {
    var routes := [Route(7, 0, 10, 0, None), Route(7, 255, 20, 0, None)];
    assert FaceIndex(routes, 7) == 0;
    assert DropFirst(routes, 7) == routes[1..] == [Route(7, 255, 20, 0, None)];
  }
}
