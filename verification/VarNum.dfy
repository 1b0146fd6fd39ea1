/** TLV numbers: the variable-size encoding of types and lengths, non-negative integers, and the
    decoding of a block's header. Bytes are big-endian, integers 64 bits wide. */
module VarNum {
  import opened Names

  const WIDTH: int := 0x1_0000_0000_0000_0000
  const HALF: int := 0x8000_0000_0000_0000

  type UInt64 = v: int | 0 <= v < 0x1_0000_0000_0000_0000

  /** Errors; a crash is a slice that ends before it starts. */
  datatype Error = TooShort | TooLong | OutOfRange | MissingLength | BufferTooShort | Crash

  datatype Result<+T> = Ok(value: T) | Err(error: Error)

  // ---------- big-endian numbers ----------

  function Pow256(n: nat): (p: nat)
    ensures p > 0
  {
    if n == 0 then 1 else 256 * Pow256(n - 1)
  }

  function BigEndian(s: seq<Byte>): nat {
    if s == [] then 0 else 256 * BigEndian(s[..|s| - 1]) + s[|s| - 1]
  }

  /** The last n bytes of the number. */
  function Bytes(v: nat, n: nat): (s: seq<Byte>)
    ensures |s| == n
    decreases v + n
  {
    if n == 0 then [] else Bytes(v / 256, n - 1) + [v % 256]
  }

  lemma {:induction false} BytesBack(v: nat, n: nat)
    requires v < Pow256(n)
    ensures BigEndian(Bytes(v, n)) == v
  {
    if n > 0 {
      BytesBack(v / 256, n - 1);
      assert Bytes(v, n)[..n - 1] == Bytes(v / 256, n - 1);
    }
  }

  lemma {:induction false} BigEndianBack(s: seq<Byte>)
    ensures BigEndian(s) < Pow256(|s|) && Bytes(BigEndian(s), |s|) == s
  {
    if s != [] {
      BigEndianBack(s[..|s| - 1]);
      assert s == s[..|s| - 1] + [s[|s| - 1]];
    }
  }

  lemma Pows()
    ensures Pow256(1) == 0x100 && Pow256(2) == 0x1_0000 && Pow256(3) == 0x100_0000 && Pow256(4) == 0x1_0000_0000
    ensures Pow256(8) == WIDTH
  {
    assert Pow256(5) == 256 * Pow256(4) && Pow256(6) == 256 * Pow256(5) && Pow256(7) == 256 * Pow256(6);
  }

  // ---------- type and length numbers ----------

  /** For numbers of 64 bits. */
  function EncodeVarNum(v: nat): seq<Byte> {
    if v <= 0xFC then [v]
    else if v <= 0xFFFF then [0xFD] + Bytes(v, 2)
    else if v <= 0xFFFF_FFFF then [0xFE] + Bytes(v, 4)
    else [0xFF] + Bytes(v, 8)
  }

  function VarSize(v: UInt64): nat {
    if v <= 0xFC then 1 else if v <= 0xFFFF then 3 else if v <= 0xFFFF_FFFF then 5 else 9
  }

  /** How many bytes a number takes whose first byte this is. */
  function SizeByFirst(first: Byte): nat {
    if first <= 0xFC then 1 else if first == 0xFD then 3 else if first == 0xFE then 5 else 9
  }

  /** The value, and the number of bytes it takes. */
  function DecodeVarNum(s: seq<Byte>): (r: Result<(UInt64, nat)>)
    ensures r.Ok? <==> |s| >= 1 && |s| >= SizeByFirst(s[0])
    ensures r.Ok? ==> r.value.1 == SizeByFirst(s[0])
  {
    if |s| < 1 then Err(TooShort)
    else if s[0] <= 0xFC then Ok((s[0], 1))
    else if s[0] == 0xFD then
      if |s| < 3 then Err(TooShort) else BigEndianBack(s[1..3]); Pows(); Ok((BigEndian(s[1..3]), 3))
    else if s[0] == 0xFE then
      if |s| < 5 then Err(TooShort) else BigEndianBack(s[1..5]); Pows(); Ok((BigEndian(s[1..5]), 5))
    else
      if |s| < 9 then Err(TooShort) else BigEndianBack(s[1..9]); Pows(); Ok((BigEndian(s[1..9]), 9))
  }

  /** Decoding looks at no byte behind the number. */
  lemma DecodeVarNumReads(s: seq<Byte>, t: seq<Byte>)
    requires DecodeVarNum(s).Ok? && |t| >= DecodeVarNum(s).value.1
    requires t[..DecodeVarNum(s).value.1] == s[..DecodeVarNum(s).value.1]
    ensures DecodeVarNum(t) == DecodeVarNum(s)
  {
    var n := DecodeVarNum(s).value.1;
    assert t[0] == t[..n][0] == s[..n][0] == s[0];
    assert t[1..n] == t[..n][1..] == s[..n][1..] == s[1..n];
  }

  /** Every number comes back from its encoding, whatever follows, with the bytes that it takes. */
  lemma VarNumBack(v: UInt64, rest: seq<Byte>)
    ensures |EncodeVarNum(v)| == VarSize(v)
    ensures DecodeVarNum(EncodeVarNum(v) + rest) == Ok((v, VarSize(v)))
  {
    var s := EncodeVarNum(v) + rest;
    Pows();
    if v <= 0xFC {
    } else if v <= 0xFFFF {
      BytesBack(v, 2);
      assert s[1..3] == Bytes(v, 2);
    } else if v <= 0xFFFF_FFFF {
      BytesBack(v, 4);
      assert s[1..5] == Bytes(v, 4);
    } else {
      BytesBack(v, 8);
      assert s[1..9] == Bytes(v, 8);
    }
  }

  /** The encoding is a prefix code: two encodings with something behind are the same only for the
      same number and the same rest. */
  lemma PrefixCode(v: UInt64, rest: seq<Byte>, w: UInt64, rest': seq<Byte>)
    requires EncodeVarNum(v) + rest == EncodeVarNum(w) + rest'
    ensures v == w && rest == rest'
  {
    VarNumBack(v, rest);
    VarNumBack(w, rest');
    assert rest == (EncodeVarNum(v) + rest)[VarSize(v)..] == (EncodeVarNum(w) + rest')[VarSize(w)..] == rest';
  }

  /** Of all byte strings that decode to a number, its encoding is the shortest, and the only one
      of its length. */
  lemma ShortestVarNum(s: seq<Byte>)
    requires DecodeVarNum(s).Ok?
    ensures var (v, n) := DecodeVarNum(s).value;
            VarSize(v) <= n && (VarSize(v) == n ==> s[..n] == EncodeVarNum(v))
  {
    var (v, n) := DecodeVarNum(s).value;
    if n == 1 {
      assert s[..1] == [s[0]];
    } else {
      Payload(s, v, n);
    }
  }

  /** The bytes behind the first one are those of the value. */
  lemma Payload(s: seq<Byte>, v: UInt64, n: nat)
    requires DecodeVarNum(s) == Ok((v, n)) && n > 1
    ensures s[..n] == [s[0]] + Bytes(v, n - 1)
    ensures (n == 3 ==> v <= 0xFFFF) && (n == 5 ==> v <= 0xFFFF_FFFF)
  {
    var behind := s[1..n];
    BigEndianBack(behind);
    Pows();
    assert v == BigEndian(behind) && |behind| == n - 1;
    assert s[..n] == [s[0]] + behind;
  }

  // ---------- non-negative integers ----------

  function NniSize(v: UInt64): nat {
    if v <= 0xFF then 1 else if v <= 0xFFFF then 2 else if v <= 0xFFFF_FFFF then 4 else 8
  }

  /** The last 1, 2, 4 or 8 bytes, as few as hold the number. */
  function EncodeNNI(v: UInt64): seq<Byte> {
    Bytes(v, NniSize(v))
  }

  function Zeros(n: nat): seq<Byte> {
    seq(n, i => 0)
  }

  /** The bytes with zeros in front to make eight. */
  function DecodeNNI(s: seq<Byte>): Result<UInt64> {
    if |s| > 8 then Err(TooLong)
    else if |s| == 0 then Err(TooShort)
    else
      var buf := Zeros(8 - |s|) + s;
      BigEndianBack(buf); Pows();
      Ok(BigEndian(buf))
  }

  lemma {:induction false} ZerosInFront(n: nat, s: seq<Byte>)
    ensures BigEndian(Zeros(n) + s) == BigEndian(s)
    decreases |s|, n
  {
    var t := Zeros(n) + s;
    if s != [] {
      assert t[..|t| - 1] == Zeros(n) + s[..|s| - 1];
      ZerosInFront(n, s[..|s| - 1]);
    } else if n > 0 {
      assert t[..n - 1] == Zeros(n - 1) + s;
      ZerosInFront(n - 1, s);
    }
  }

  lemma DecodeNNIMeaning(s: seq<Byte>)
    requires 1 <= |s| <= 8
    ensures DecodeNNI(s) == Ok(BigEndian(s))
  {
    ZerosInFront(8 - |s|, s);
  }

  lemma NniBack(v: UInt64)
    ensures DecodeNNI(EncodeNNI(v)) == Ok(v)
  {
    Pows();
    BytesBack(v, NniSize(v));
    DecodeNNIMeaning(EncodeNNI(v));
  }

  /** Bytes that decode are the encoding of their number exactly when they have its length: longer
      forms, and the lengths 3, 5, 6 and 7, are accepted too. */
  lemma NniAccepts(s: seq<Byte>)
    requires DecodeNNI(s).Ok?
    ensures EncodeNNI(DecodeNNI(s).value) == s <==> |s| == NniSize(DecodeNNI(s).value)
  {
    DecodeNNIMeaning(s);
    BigEndianBack(s);
  }

  // ---------- bytes on the wire ----------

  /** The most significant byte comes first. */
  lemma NetworkOrder(a: Byte, b: Byte, c: Byte, d: Byte)
    ensures BigEndian([a]) == a && BigEndian([a, b]) == 0x100 * (a as int) + b
    ensures BigEndian([a, b, c, d]) == 0x100_0000 * (a as int) + 0x1_0000 * (b as int) + 0x100 * (c as int) + d
  {
    assert [a][..0] == [] && [a, b][..1] == [a] && [a, b, c][..2] == [a, b] && [a, b, c, d][..3] == [a, b, c];
  }

  lemma NetworkOrderEight(s: seq<Byte>, t: seq<Byte>)
    requires |s| == 4 && |t| == 4
    ensures BigEndian(s + t) == 0x1_0000_0000 * BigEndian(s) + BigEndian(t)
  {
    var w := s + t;
    assert t == [t[0], t[1], t[2], t[3]];
    NetworkOrder(t[0], t[1], t[2], t[3]);
    assert w[..7][..6] == w[..6] && w[..6][..5] == w[..5] && w[..5][..4] == s && w[..8] == w;
    assert BigEndian(w[..5]) == 256 * BigEndian(s) + t[0];
    assert BigEndian(w[..6]) == 256 * BigEndian(w[..5]) + t[1];
    assert BigEndian(w[..7]) == 256 * BigEndian(w[..6]) + t[2];
    assert BigEndian(w) == 256 * BigEndian(w[..7]) + t[3];
  }

  /** The number that four bytes are, and eight. */
  function FourBytes(s: seq<Byte>): nat
    requires |s| == 4
  {
    var a: nat, b: nat, c: nat := s[0], s[1], s[2];
    0x100_0000 * a + 0x1_0000 * b + 0x100 * c + s[3]
  }

  /** What these bytes are decoded to, whatever follows them. */
  lemma NumbersOnTheWire(a: Byte, b: Byte, s: seq<Byte>, t: seq<Byte>, rest: seq<Byte>)
    requires |s| == 4 && |t| == 4
    ensures a <= 252 ==> DecodeVarNum([a] + rest) == Ok((a, 1))
    ensures DecodeVarNum([253, a, b] + rest) == Ok((0x100 * (a as int) + b, 3))
    ensures DecodeVarNum([254] + s + rest) == Ok((FourBytes(s), 5))
    ensures DecodeVarNum([255] + (s + t) + rest) == Ok((0x1_0000_0000 * FourBytes(s) + FourBytes(t), 9))
  {
    BytesAreNumbers(a, b, s, t);
    assert ([253, a, b] + rest)[1..3] == [a, b] && ([254] + s + rest)[1..5] == s;
    assert ([255] + (s + t) + rest)[1..9] == s + t;
  }

  lemma NnisOnTheWire(a: Byte, b: Byte, s: seq<Byte>, t: seq<Byte>)
    requires |s| == 4 && |t| == 4
    ensures DecodeNNI([a]) == Ok(a) && DecodeNNI([a, b]) == Ok(0x100 * (a as int) + b)
    ensures DecodeNNI(s) == Ok(FourBytes(s)) && DecodeNNI(s + t) == Ok(0x1_0000_0000 * FourBytes(s) + FourBytes(t))
  {
    BytesAreNumbers(a, b, s, t);
    DecodeNNIMeaning([a]);
    DecodeNNIMeaning([a, b]);
    DecodeNNIMeaning(s);
    DecodeNNIMeaning(s + t);
  }

  lemma BytesAreNumbers(a: Byte, b: Byte, s: seq<Byte>, t: seq<Byte>)
    requires |s| == 4 && |t| == 4
    ensures BigEndian([a]) == a && BigEndian([a, b]) == 0x100 * (a as int) + b
    ensures BigEndian(s) == FourBytes(s) && BigEndian(s + t) == 0x1_0000_0000 * FourBytes(s) + FourBytes(t)
  {
    NetworkOrder(a, b, 0, 0);
    NetworkOrder(s[0], s[1], s[2], s[3]);
    NetworkOrder(t[0], t[1], t[2], t[3]);
    assert s == [s[0], s[1], s[2], s[3]] && t == [t[0], t[1], t[2], t[3]];
    NetworkOrderEight(s, t);
  }

  // ---------- the header of a block ----------

  /** A number from -2^63 to 2^64 + 2^63 - 1 as a 64-bit signed integer: beyond 2^63 - 1 it wraps. */
  function Int64(v: int): int {
    if v < HALF then v else v - WIDTH
  }

  /** Type, length as a signed integer, and size of the whole block, which may wrap around. */
  datatype Header = Header(typ: nat, length: int, size: int)

  function DecodeTypeLength(s: seq<Byte>): Result<Header> {
    match DecodeVarNum(s)
    case Err(e) => Err(e)
    case Ok((typ, typeSize)) =>
      if typ > 0xFFFF_FFFF then Err(OutOfRange)
      else
        match DecodeVarNum(s[typeSize..])
        case Err(e) => Err(e)
        case Ok((length, lengthSize)) => Ok(Header(typ, Int64(length), Int64(typeSize + lengthSize + Int64(length))))
  }

  /** A header comes back, whatever follows: types of more than 32 bits are refused, and lengths from 2^63
      on are read as negative. */
  lemma HeaderBack(typ: UInt64, length: UInt64, rest: seq<Byte>)
    ensures var signed := if length < 0x8000_0000_0000_0000 then length else length - 0x1_0000_0000_0000_0000;
            var r := DecodeTypeLength(EncodeVarNum(typ) + EncodeVarNum(length) + rest);
            if typ > 0xFFFF_FFFF then r == Err(OutOfRange)
            else r.Ok? && r.value.typ == typ && r.value.length == signed
                 && (0 <= signed < HALF - 18 ==> r.value.size == VarSize(typ) + VarSize(length) + signed)
  {
    var t, l := EncodeVarNum(typ), EncodeVarNum(length);
    VarNumBack(typ, l + rest);
    VarNumBack(length, rest);
    assert t + l + rest == t + (l + rest) && (t + (l + rest))[|t|..] == l + rest;
  }
}
