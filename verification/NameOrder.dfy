/** The canonical order of names: what the comparison loop computes, that it is a total order, and
    that it is the order of the names' encodings, byte by byte. */
module NameOrder {
  import opened Names
  import opened VarNum
  import opened UriName
  import opened TlvBlock

  // ---------- comparing ----------

  /** -1, 0 or 1. */
  function Sign(a: int, b: int): int {
    if a < b then -1 else if a > b then 1 else 0
  }

  /** The first difference decides; a proper prefix is less. */
  function Lex(s: seq<Byte>, t: seq<Byte>): int {
    if s == [] || t == [] then Sign(|s|, |t|)
    else if s[0] != t[0] then Sign(s[0], t[0])
    else Lex(s[1..], t[1..])
  }

  /** Type, then length, then bytes. */
  function CompareComponents(c: NameComponent, d: NameComponent): int {
    if TypeOf(c) != TypeOf(d) then Sign(TypeOf(c), TypeOf(d))
    else if |c.value| != |d.value| then Sign(|c.value|, |d.value|)
    else Lex(c.value, d.value)
  }

  /** The first component that differs decides; a proper prefix is less. */
  function Order(cs: seq<NameComponent>, ds: seq<NameComponent>): int {
    if cs == [] || ds == [] then Sign(|cs|, |ds|)
    else if CompareComponents(cs[0], ds[0]) != 0 then CompareComponents(cs[0], ds[0])
    else Order(cs[1..], ds[1..])
  }

  // ---------- a total order ----------

  lemma {:induction false} LexLaws(s: seq<Byte>, t: seq<Byte>, u: seq<Byte>)
    ensures -1 <= Lex(s, t) <= 1 && (Lex(s, t) == 0 <==> s == t) && Lex(t, s) == -Lex(s, t)
    ensures Lex(s, t) <= 0 && Lex(t, u) <= 0 ==> Lex(s, u) <= 0
    decreases |s| + |t| + |u|
  {
    if s != [] && t != [] && s[0] == t[0] {
      LexLaws(s[1..], t[1..], if u == [] then [] else u[1..]);
      assert s == [s[0]] + s[1..] && t == [t[0]] + t[1..];
    }
  }

  /** Less means: a byte is smaller where the strings first differ, or one is a proper beginning. */
  lemma {:induction false} LexMeaning(s: seq<Byte>, t: seq<Byte>)
    ensures Lex(s, t) == -1 <==>
              exists k: nat :: k <= |s| && k <= |t| && s[..k] == t[..k] && k < |t| && (k < |s| ==> s[k] < t[k])
  {
    assert s[..0] == t[..0];
    if s != [] && t != [] {
      LexMeaning(s[1..], t[1..]);
      if s[0] == t[0] && Lex(s, t) == -1 {
        var k: nat :| k <= |s[1..]| && k < |t[1..]| && s[1..][..k] == t[1..][..k]
                      && (k < |s[1..]| ==> s[1..][k] < t[1..][k]);
        assert s[..k + 1] == [s[0]] + s[1..][..k] && t[..k + 1] == [t[0]] + t[1..][..k];
      }
      forall k: nat | k <= |s| && k < |t| && s[..k] == t[..k] && (k < |s| ==> s[k] < t[k]) ensures Lex(s, t) == -1 {
        if k > 0 {
          assert s[0] == s[..k][0] == t[..k][0] == t[0];
          assert s[1..][..k - 1] == s[..k][1..] && t[1..][..k - 1] == t[..k][1..];
        }
      }
    }
  }

  lemma ComponentLaws(c: NameComponent, d: NameComponent, e: NameComponent)
    ensures (CompareComponents(c, d) == 0 <==> Same(c, d)) && CompareComponents(d, c) == -CompareComponents(c, d)
    ensures CompareComponents(c, d) <= 0 && CompareComponents(d, e) <= 0 ==> CompareComponents(c, e) <= 0
  {
    LexLaws(c.value, d.value, e.value);
  }

  lemma SameLaws(c: NameComponent, d: NameComponent, e: NameComponent)
    requires Same(c, d)
    ensures CompareComponents(c, e) == CompareComponents(d, e) && CompareComponents(e, c) == CompareComponents(e, d)
  {
  }

  /** Zero for equal names only; antisymmetric; transitive. */
  lemma {:induction false} TotalOrder(cs: seq<NameComponent>, ds: seq<NameComponent>, es: seq<NameComponent>)
    ensures (Order(cs, ds) == 0 <==> SameName(cs, ds)) && Order(ds, cs) == -Order(cs, ds)
    ensures Order(cs, ds) <= 0 && Order(ds, es) <= 0 ==> Order(cs, es) <= 0
    decreases |cs| + |ds| + |es|
  {
    if cs != [] && ds != [] {
      ComponentLaws(cs[0], ds[0], if es == [] then ds[0] else es[0]);
      TotalOrder(cs[1..], ds[1..], if es == [] then [] else es[1..]);
      if CompareComponents(cs[0], ds[0]) == 0 {
        assert SameName(cs, ds) <==> SameName(cs[1..], ds[1..]);
        if es != [] {
          SameLaws(cs[0], ds[0], es[0]);
        }
      } else if es != [] {
        ComponentLaws(ds[0], es[0], cs[0]);
        ComponentLaws(cs[0], es[0], ds[0]);
        if Same(ds[0], es[0]) {
          SameLaws(ds[0], es[0], cs[0]);
        } else if Same(cs[0], es[0]) {
          SameLaws(cs[0], es[0], ds[0]);
        }
      }
    }
  }

  ghost predicate IsPrefixOf(cs: seq<NameComponent>, ds: seq<NameComponent>) {
    |cs| <= |ds| && forall i :: 0 <= i < |cs| ==> Same(cs[i], ds[i])
  }

  /** A name comes before all names that it is a proper prefix of. */
  lemma {:induction false} PrefixFirst(cs: seq<NameComponent>, ds: seq<NameComponent>)
    requires IsPrefixOf(cs, ds)
    ensures Order(cs, ds) == if |cs| < |ds| then -1 else 0
  {
    if cs != [] {
      ComponentLaws(cs[0], ds[0], ds[0]);
      PrefixFirst(cs[1..], ds[1..]);
    }
  }

  // ---------- the comparison loops ----------

  method Equals(cs: seq<NameComponent>, ds: seq<NameComponent>) returns (equal: bool)
    ensures equal <==> SameName(cs, ds)
  {
    if |cs| != |ds| {
      return false;
    }
    var i := 0;
    while i < |cs|
      invariant i <= |cs| && forall j :: 0 <= j < i ==> Same(cs[j], ds[j])
    {
      if TypeOf(cs[i]) != TypeOf(ds[i]) || cs[i].value != ds[i].value {
        return false;
      }
      i := i + 1;
    }
    equal := true;
  }

  method PrefixOf(cs: seq<NameComponent>, ds: seq<NameComponent>) returns (prefix: bool)
    ensures prefix <==> IsPrefixOf(cs, ds)
  {
    if |cs| > |ds| {
      return false;
    }
    var i := 0;
    while i < |cs|
      invariant i <= |cs| && forall j :: 0 <= j < i ==> Same(cs[j], ds[j])
    {
      if TypeOf(cs[i]) != TypeOf(ds[i]) || cs[i].value != ds[i].value {
        return false;
      }
      i := i + 1;
    }
    prefix := true;
  }

  /** Equal names, prefixes, and then the loop over components and bytes. */
  method Compare(cs: seq<NameComponent>, ds: seq<NameComponent>) returns (r: int)
    ensures r == Order(cs, ds)
  {
    var equal := Equals(cs, ds);
    if equal {
      TotalOrder(cs, ds, ds);
      return 0;
    }
    var prefix := PrefixOf(cs, ds);
    if prefix {
      PrefixFirst(cs, ds);
      return -1;
    }
    var extended := PrefixOf(ds, cs);
    if extended {
      PrefixFirst(ds, cs);
      TotalOrder(cs, ds, ds);
      return 1;
    }
    var i := 0;
    var n := Min(|cs|, |ds|);
    assert cs[0..] == cs && ds[0..] == ds;
    while i < n
      invariant i <= n && (forall j :: 0 <= j < i ==> Same(cs[j], ds[j])) && Order(cs[i..], ds[i..]) == Order(cs, ds)
    {
      ComponentLaws(cs[i], ds[i], ds[i]);
      assert cs[i..][1..] == cs[i + 1..] && ds[i..][1..] == ds[i + 1..];
      if TypeOf(cs[i]) < TypeOf(ds[i]) {
        return -1;
      } else if TypeOf(cs[i]) > TypeOf(ds[i]) {
        return 1;
      } else if |cs[i].value| < |ds[i].value| {
        return -1;
      } else if |cs[i].value| > |ds[i].value| {
        return 1;
      } else if cs[i].value != ds[i].value {
        r := CompareBytes(cs[i].value, ds[i].value);
        return;
      }
      i := i + 1;
    }
    assert false;
    r := 0;
  }

  /** The byte-by-byte comparison of two different values of the same length. */
  method CompareBytes(s: seq<Byte>, t: seq<Byte>) returns (r: int)
    requires |s| == |t| && s != t
    ensures r == Lex(s, t)
  {
    var j := 0;
    assert s[0..] == s && t[0..] == t;
    while true
      invariant j <= |s| && s[j..] != t[j..] && Lex(s[j..], t[j..]) == Lex(s, t)
      decreases |s| - j
    {
      LastBytes(s, t, j);
      if s[j] < t[j] {
        return -1;
      } else if s[j] > t[j] {
        return 1;
      }
      j := j + 1;
    }
  }

  lemma LastBytes(s: seq<Byte>, t: seq<Byte>, j: nat)
    requires |s| == |t| && j <= |s| && s[j..] != t[j..]
    ensures j < |s| && s[j..][1..] == s[j + 1..] && t[j..][1..] == t[j + 1..]
    ensures s[j] == t[j] ==> s[j + 1..] != t[j + 1..]
  {
    assert s[|s|..] == t[|t|..];
    if j < |s| {
      assert s[j..] == [s[j]] + s[j + 1..] && t[j..] == [t[j]] + t[j + 1..];
    }
  }

  // ---------- the order of encodings ----------

  /** The components' encodings, one after the other: the value of the encoded name. */
  function NameValue(cs: seq<NameComponent>): seq<Byte> {
    if cs == [] then [] else Framed(TypeOf(cs[0]), cs[0].value) + NameValue(cs[1..])
  }

  /** The two differ before either ends. */
  ghost predicate Differ(s: seq<Byte>, t: seq<Byte>) {
    exists k :: 0 <= k < |s| && k < |t| && s[k] != t[k]
  }

  /** What differs decides, whatever follows. */
  lemma {:induction false} LexDecided(s: seq<Byte>, t: seq<Byte>, x: seq<Byte>, y: seq<Byte>)
    requires Differ(s, t)
    ensures Lex(s + x, t + y) == Lex(s, t) && Differ(s + x, t + y)
    decreases |s|
  {
    var k :| 0 <= k < |s| && k < |t| && s[k] != t[k];
    assert (s + x)[k] != (t + y)[k];
    if s[0] == t[0] {
      assert (s + x)[1..] == s[1..] + x && (t + y)[1..] == t[1..] + y;
      assert s[1..][k - 1] != t[1..][k - 1];
      LexDecided(s[1..], t[1..], x, y);
    }
  }

  lemma {:induction false} LexCommon(p: seq<Byte>, s: seq<Byte>, t: seq<Byte>)
    ensures Lex(p + s, p + t) == Lex(s, t)
    ensures Differ(s, t) ==> Differ(p + s, p + t)
  {
    if Differ(s, t) {
      var k :| 0 <= k < |s| && k < |t| && s[k] != t[k];
      assert (p + s)[|p| + k] != (p + t)[|p| + k];
    }
    if p == [] {
      assert p + s == s && p + t == t;
    } else {
      assert (p + s)[1..] == p[1..] + s && (p + t)[1..] == p[1..] + t;
      LexCommon(p[1..], s, t);
    }
  }

  lemma {:induction false} SameLength(s: seq<Byte>, t: seq<Byte>)
    requires |s| == |t| && s != t
    ensures Differ(s, t)
  {
    var k :| 0 <= k < |s| && s[k] != t[k];
  }

  /** Big-endian numbers of the same length are in the order of their bytes. */
  lemma {:induction false} BytesOrder(v: nat, w: nat, n: nat)
    requires v < w < Pow256(n)
    ensures Differ(Bytes(v, n), Bytes(w, n)) && Lex(Bytes(v, n), Bytes(w, n)) == -1
    decreases n
  {
    var s, t := Bytes(v / 256, n - 1), Bytes(w / 256, n - 1);
    if v / 256 == w / 256 {
      LexCommon(s, [v % 256], [w % 256]);
      assert [v % 256][0] != [w % 256][0];
    } else {
      BytesOrder(v / 256, w / 256, n - 1);
      LexDecided(s, t, [v % 256], [w % 256]);
    }
  }

  /** Type and length numbers are in the order of their encodings. */
  lemma VarNumOrder(v: UInt64, w: UInt64)
    requires v < w
    ensures Differ(EncodeVarNum(v), EncodeVarNum(w)) && Lex(EncodeVarNum(v), EncodeVarNum(w)) == -1
  {
    Pows();
    if EncodeVarNum(v)[0] != EncodeVarNum(w)[0] {
    } else if w <= 0xFFFF {
      BytesOrder(v, w, 2);
      LexCommon([0xFD], Bytes(v, 2), Bytes(w, 2));
    } else if w <= 0xFFFF_FFFF {
      BytesOrder(v, w, 4);
      LexCommon([0xFE], Bytes(v, 4), Bytes(w, 4));
    } else {
      BytesOrder(v, w, 8);
      LexCommon([0xFF], Bytes(v, 8), Bytes(w, 8));
    }
  }

  lemma VarNumsOrder(v: UInt64, w: UInt64, x: seq<Byte>, y: seq<Byte>)
    requires v != w
    ensures Differ(EncodeVarNum(v) + x, EncodeVarNum(w) + y)
    ensures Lex(EncodeVarNum(v) + x, EncodeVarNum(w) + y) == Sign(v, w)
  {
    if v < w {
      VarNumOrder(v, w);
      LexDecided(EncodeVarNum(v), EncodeVarNum(w), x, y);
    } else {
      VarNumOrder(w, v);
      LexDecided(EncodeVarNum(w), EncodeVarNum(v), y, x);
      LexLaws(EncodeVarNum(w) + y, EncodeVarNum(v) + x, []);
    }
  }

  /** Components that differ are in the order of their encodings. */
  lemma FramedOrder(c: NameComponent, d: NameComponent)
    requires |c.value| < WIDTH && |d.value| < WIDTH && CompareComponents(c, d) != 0
    ensures var s, t := Framed(TypeOf(c), c.value), Framed(TypeOf(d), d.value);
            Differ(s, t) && Lex(s, t) == CompareComponents(c, d)
  {
    var m, n := EncodeVarNum(|c.value|), EncodeVarNum(|d.value|);
    FramedParts(TypeOf(c), c.value);
    FramedParts(TypeOf(d), d.value);
    if TypeOf(c) != TypeOf(d) {
      VarNumsOrder(TypeOf(c), TypeOf(d), m + c.value, n + d.value);
    } else {
      LexCommon(EncodeVarNum(TypeOf(c)), m + c.value, n + d.value);
      LexLaws(c.value, d.value, []);
      LengthsOrder(c.value, d.value);
    }
  }

  lemma FramedParts(typ: TlvType, value: seq<Byte>)
    ensures Framed(typ, value) == EncodeVarNum(typ) + (EncodeVarNum(|value|) + value)
  {
  }

  /** Values behind their lengths are ordered by length, then by bytes. */
  lemma LengthsOrder(x: seq<Byte>, y: seq<Byte>)
    requires |x| < WIDTH && |y| < WIDTH && x != y
    ensures var s, t := EncodeVarNum(|x|) + x, EncodeVarNum(|y|) + y;
            Differ(s, t) && Lex(s, t) == if |x| < |y| then -1 else if |x| > |y| then 1 else Lex(x, y)
  {
    if |x| != |y| {
      VarNumsOrder(|x|, |y|, x, y);
    } else {
      LexCommon(EncodeVarNum(|x|), x, y);
      LexLaws(x, y, []);
      SameLength(x, y);
    }
  }

  /** The canonical order of names is the order of their encodings. */
  lemma {:induction false} CanonicalOrder(cs: seq<NameComponent>, ds: seq<NameComponent>)
    requires forall c :: c in cs || c in ds ==> |c.value| < WIDTH
    ensures Order(cs, ds) == Lex(NameValue(cs), NameValue(ds))
  {
    if cs != [] && ds != [] {
      var s, t := Framed(TypeOf(cs[0]), cs[0].value), Framed(TypeOf(ds[0]), ds[0].value);
      ComponentLaws(cs[0], ds[0], ds[0]);
      if CompareComponents(cs[0], ds[0]) != 0 {
        FramedOrder(cs[0], ds[0]);
        LexDecided(s, t, NameValue(cs[1..]), NameValue(ds[1..]));
      } else {
        LexCommon(s, NameValue(cs[1..]), NameValue(ds[1..]));
        CanonicalOrder(cs[1..], ds[1..]);
      }
    }
  }
}
