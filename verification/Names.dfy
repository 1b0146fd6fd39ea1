/** NDN names as the forwarder's tables see them: lists of typed components, looked up
    through 64-bit hashes of the name and of each of its prefixes. */
module Names {

  type Byte = b: int | 0 <= b < 256

  datatype Option<+T> = None | Some(value: T)

  datatype Component = Component(typ: nat, val: seq<Byte>)

  /** A name is the empty name, or a shorter name and one more component. */
  datatype Name = Root | Under(prefix: Name, last: Component)

  function Len(name: Name): nat {
    match name
    case Root => 0
    case Under(prefix, _) => Len(prefix) + 1
  }

  /** The first k components. */
  function Prefix(name: Name, k: nat): (p: Name)
    requires k <= Len(name)
    ensures Len(p) == k
  {
    if k == Len(name) then name else Prefix(name.prefix, k)
  }

  predicate IsPrefix(p: Name, name: Name) {
    Len(p) <= Len(name) && Prefix(name, Len(p)) == p
  }

  /** The component at an index, counted from the end if negative; empty when out of range. */
  function At(name: Name, index: int): Component {
    if Len(name) + index < 0 || index >= Len(name) then Component(0, [])
    else if index < 0 then Get(name, Len(name) + index)
    else Get(name, index)
  }

  function Get(name: Name, index: nat): Component
    requires index < Len(name)
  {
    if index == Len(name) - 1 then name.last else Get(name.prefix, index)
  }

  lemma {:induction false} NextPrefix(name: Name, k: nat)
    requires k < Len(name)
    ensures Prefix(name, k + 1) == Under(Prefix(name, k), At(name, k))
  {
    if k + 1 < Len(name) {
      NextPrefix(name.prefix, k);
    }
  }

  lemma {:induction false} PrefixOfPrefix(name: Name, j: nat, k: nat)
    requires k <= j <= Len(name)
    ensures Prefix(Prefix(name, j), k) == Prefix(name, k)
  {
    if j < Len(name) {
      PrefixOfPrefix(name.prefix, j, k);
    }
  }

  lemma PrefixStep(q: Name, p: Name)
    requires p != Root && IsPrefix(q, p.prefix)
    ensures IsPrefix(q, p)
  {
  }

  // ---------- hashes ----------

  /** A 64-bit hash value. */
  type Hash = h: int | 0 <= h < 0x1_0000_0000_0000_0000

  /** No two of the given names share a hash value. */
  ghost predicate CollisionFree(hash: Name -> Hash, names: iset<Name>)
  {
    forall a: Name, b: Name :: a in names && b in names && hash(a) == hash(b) ==> a == b
  }

  /** `unhash` takes the hash of each of the names back to the name. */
  ghost predicate Inverts(unhash: Hash -> Name, hash: Name -> Hash, names: iset<Name>)
  {
    forall n :: n in names ==> unhash(hash(n)) == n
  }

  ghost function Unhash(hash: Name -> Hash, names: iset<Name>): (unhash: Hash -> Name)
    requires CollisionFree(hash, names)
    ensures Inverts(unhash, hash, names)
  {
    h => if exists n: Name :: n in names && hash(n) == h
         then var n: Name :| n in names && hash(n) == h; n
         else Root
  }

  /** The name and all its prefixes are among `names`. */
  ghost predicate Covers(names: iset<Name>, name: Name)
  {
    forall k :: 0 <= k <= Len(name) ==> Prefix(name, k) in names
  }

  /** The hashes of all prefixes of a name, by prefix length. */
  function PrefixHash(hash: Name -> Hash, name: Name): (hs: seq<Hash>)
    ensures |hs| == Len(name) + 1
    ensures forall i :: 0 <= i <= Len(name) ==> hs[i] == hash(Prefix(name, i))
  {
    match name
    case Root => [hash(name)]
    case Under(prefix, _) => PrefixHash(hash, prefix) + [hash(name)]
  }

  function Max(a: int, b: int): int {
    if a > b then a else b
  }

  function Min(a: int, b: int): int {
    if a < b then a else b
  }

  // ---------- choices and bounds ----------

  /** Some element. */
  ghost function Pick<T>(s: set<T>): (x: T)
    requires s != {}
    ensures x in s
  {
    var x :| x in s;
    x
  }

  /** A bound on the lengths of some names. */
  ghost function Deepest(names: set<Name>): (bound: nat)
    ensures forall n :: n in names ==> Len(n) <= bound
  {
    if names == {} then 0
    else
      var n :| n in names;
      Max(Len(n), Deepest(names - {n}))
  }

  // ---------- invariants as a whole ----------

  /** True for any number. An invariant that depends on it is passed on as a whole, and its parts are
      given only to those who ask for this. */
  ghost predicate Unfold(k: int) {
    true
  }
}
