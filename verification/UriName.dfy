/** Names and their URIs: how components are printed and parsed, and which names come back from
    their URI. Text is made of bytes, as Go strings are. */
module UriName {
  import opened Names
  import opened VarNum

  type Text = seq<Byte>

  function Ascii(s: string): (t: Text)
    requires forall i :: 0 <= i < |s| ==> s[i] as int < 256
    ensures |t| == |s| && forall i :: 0 <= i < |s| ==> t[i] == s[i] as int
  {
    seq(|s|, i requires 0 <= i < |s| => s[i] as int)
  }

  const PERCENT: Byte := '%' as int
  const PERIOD: Byte := '.' as int
  const SLASH: Byte := '/' as int
  const EQUALS: Byte := '=' as int

  // ---------- splitting ----------

  /** The pieces between separators. */
  function Split(s: Text, sep: Byte): (parts: seq<Text>)
    ensures |parts| >= 1
  {
    if s == [] then [[]]
    else
      var rest := Split(s[1..], sep);
      if s[0] == sep then [[]] + rest else [[s[0]] + rest[0]] + rest[1..]
  }

  /** Up to the first separator there is one piece. */
  lemma {:induction false} SplitAt(a: Text, sep: Byte, b: Text)
    requires sep !in a
    ensures Split(a + [sep] + b, sep) == [a] + Split(b, sep)
  {
    var s := a + [sep] + b;
    if a == [] {
      assert s[1..] == b;
    } else {
      assert s[1..] == a[1..] + [sep] + b;
      SplitAt(a[1..], sep, b);
      assert [a[0]] + a[1..] == a;
    }
  }

  lemma {:induction false} SplitNone(a: Text, sep: Byte)
    requires sep !in a
    ensures Split(a, sep) == [a]
  {
    if a != [] {
      SplitNone(a[1..], sep);
      assert [a[0]] + a[1..] == a;
    }
  }

  // ---------- decimal numbers ----------

  function Digit(d: nat): Byte
    requires d < 10
  {
    '0' as int + d
  }

  predicate IsDigit(b: Byte) {
    '0' as int <= b <= '9' as int
  }

  function Decimal(v: nat): (s: Text)
    ensures s != [] && forall b :: b in s ==> IsDigit(b)
  {
    if v < 10 then [Digit(v)] else Decimal(v / 10) + [Digit(v % 10)]
  }

  function DigitValue(b: Byte): nat {
    if IsDigit(b) then b - '0' as int else 0
  }

  function Number(s: Text): nat {
    if s == [] then 0 else 10 * Number(s[..|s| - 1]) + DigitValue(s[|s| - 1])
  }

  /** A decimal number up to the limit; leading zeros do no harm. */
  function ParseUint(s: Text, limit: nat): (r: Option<nat>)
    ensures r.Some? ==> r.value <= limit
  {
    if s == [] || exists b :: b in s && !IsDigit(b) then None
    else if Number(s) > limit then None
    else Some(Number(s))
  }

  lemma {:induction false} DecimalBack(v: nat)
    ensures Number(Decimal(v)) == v
  {
    if v >= 10 {
      DecimalBack(v / 10);
      assert Decimal(v)[..|Decimal(v)| - 1] == Decimal(v / 10);
    }
  }

  // ---------- hexadecimal bytes ----------

  function HexDigit(d: nat): Byte
    requires d < 16
  {
    if d < 10 then '0' as int + d else 'a' as int + (d - 10)
  }

  function HexValue(b: Byte): Option<nat> {
    if '0' as int <= b <= '9' as int then Some(b - '0' as int)
    else if 'a' as int <= b <= 'f' as int then Some(b - 'a' as int + 10)
    else if 'A' as int <= b <= 'F' as int then Some(b - 'A' as int + 10)
    else None
  }

  function HexByte(b: Byte): Text {
    [HexDigit(b / 16), HexDigit(b % 16)]
  }

  function HexEncode(s: seq<Byte>): Text {
    if s == [] then [] else HexByte(s[0]) + HexEncode(s[1..])
  }

  function HexDecode(s: Text): Option<seq<Byte>> {
    if s == [] then Some([])
    else if |s| == 1 then None
    else
      match (HexValue(s[0]), HexValue(s[1]), HexDecode(s[2..]))
      case (Some(hi), Some(lo), Some(rest)) => Some([HexPair(hi, lo)] + rest)
      case _ => None
  }

  function HexPair(hi: nat, lo: nat): Byte {
    if hi < 16 && lo < 16 then 16 * hi + lo else 0
  }

  lemma HexByteBack(b: Byte)
    ensures HexValue(HexByte(b)[0]) == Some(b / 16) && HexValue(HexByte(b)[1]) == Some(b % 16)
    ensures HexPair(b / 16, b % 16) == b
    ensures forall c :: c in HexByte(b) ==> c != PERCENT && c != SLASH && c != EQUALS
  {
  }

  lemma HexOne(b: Byte)
    ensures HexEncode([b]) == HexByte(b)
  {
    assert [b][1..] == [] && HexByte(b) + [] == HexByte(b);
  }

  lemma HexTwo(s: Text)
    requires |s| == 2
    ensures HexDecode(s) == if HexValue(s[0]).Some? && HexValue(s[1]).Some?
                            then Some([HexPair(HexValue(s[0]).value, HexValue(s[1]).value)]) else None
  {
    assert s[2..] == [] && HexDecode([]) == Some([]);
    if HexValue(s[0]).Some? && HexValue(s[1]).Some? {
      var b := HexPair(HexValue(s[0]).value, HexValue(s[1]).value);
      assert [b] + [] == [b];
    }
  }

  lemma {:induction false} HexBack(s: seq<Byte>)
    ensures HexDecode(HexEncode(s)) == Some(s)
    ensures forall c :: c in HexEncode(s) ==> c != PERCENT && c != SLASH && c != EQUALS
  {
    if s != [] {
      HexByteBack(s[0]);
      HexBack(s[1..]);
      assert HexEncode(s)[2..] == HexEncode(s[1..]);
      assert [s[0]] + s[1..] == s;
    }
  }

  // ---------- escaping ----------

  predicate Unreserved(b: Byte) {
    || 'A' as int <= b <= 'Z' as int || 'a' as int <= b <= 'z' as int || '0' as int <= b <= '9' as int
    || b == PERIOD || b == '-' as int || b == '_' as int || b == '~' as int
  }

  function EscapeByte(b: Byte): Text {
    if Unreserved(b) then [b] else [PERCENT] + HexByte(b)
  }

  function EscapeAll(s: seq<Byte>): Text {
    if s == [] then [] else EscapeAll(s[..|s| - 1]) + EscapeByte(s[|s| - 1])
  }

  predicate AllPeriods(s: seq<Byte>) {
    forall b :: b in s ==> b == PERIOD
  }

  /** The escaped bytes, and three more periods if there is nothing but periods. */
  function Escaped(s: seq<Byte>): Text {
    EscapeAll(s) + if AllPeriods(s) then [PERIOD, PERIOD, PERIOD] else []
  }

  /** The byte at the front, and the number of characters that it takes. */
  function FirstByte(s: Text): (r: Option<(Byte, nat)>)
    requires s != []
    ensures r.Some? ==> 1 <= r.value.1 <= |s|
  {
    if s[0] != PERCENT then Some((s[0], 1))
    else if |s| < 3 then None
    else
      match (HexValue(s[1]), HexValue(s[2]))
      case (Some(hi), Some(lo)) => Some((HexPair(hi, lo), 3))
      case _ => None
  }

  function Unescaped(s: Text): Option<seq<Byte>> {
    if s == [] then Some([])
    else
      match FirstByte(s)
      case None => None
      case Some((b, n)) => Prepend([b], Unescaped(s[n..]))
  }

  function Prepend(s: seq<Byte>, r: Option<seq<Byte>>): Option<seq<Byte>> {
    if r.Some? then Some(s + r.value) else None
  }

  lemma PrependTwice(s: seq<Byte>, t: seq<Byte>, r: Option<seq<Byte>>)
    ensures Prepend(s, Prepend(t, r)) == Prepend(s + t, r) && Prepend([], r) == r
  {
    if r.Some? {
      assert s + (t + r.value) == (s + t) + r.value && [] + r.value == r.value;
    }
  }

  lemma {:induction false} UnescapeMore(a: Text, b: Text)
    requires Unescaped(a).Some?
    ensures Unescaped(a + b) == Prepend(Unescaped(a).value, Unescaped(b))
    decreases |a|
  {
    if a == [] {
      assert [] + b == b;
      PrependTwice([], [], Unescaped(b));
    } else {
      var (c, n) := FirstByte(a).value;
      assert (a + b)[n..] == a[n..] + b;
      UnescapeMore(a[n..], b);
      PrependTwice([c], Unescaped(a[n..]).value, Unescaped(b));
    }
  }

  lemma UnescapeByte(b: Byte)
    ensures Unescaped(EscapeByte(b)) == Some([b])
    ensures SLASH !in EscapeByte(b) && EQUALS !in EscapeByte(b)
  {
    HexByteBack(b);
    LastByte(EscapeByte(b), b);
  }

  lemma LastByte(s: Text, b: Byte)
    requires s != [] && FirstByte(s) == Some((b, |s|))
    ensures Unescaped(s) == Some([b])
  {
    assert s[|s|..] == [] && [b] + [] == [b];
  }

  lemma {:induction false} UnescapeAll(s: seq<Byte>)
    ensures Unescaped(EscapeAll(s)) == Some(s)
    ensures SLASH !in EscapeAll(s) && EQUALS !in EscapeAll(s)
  {
    if s != [] {
      var init, b := s[..|s| - 1], s[|s| - 1];
      UnescapeAll(init);
      UnescapeByte(b);
      UnescapeMore(EscapeAll(init), EscapeByte(b));
      assert init + [b] == s;
    }
  }

  lemma Dots()
    ensures Unescaped([PERIOD, PERIOD, PERIOD]) == Some([PERIOD, PERIOD, PERIOD])
  {
    LastByte([PERIOD], PERIOD);
    UnescapeMore([PERIOD], [PERIOD]);
    UnescapeMore([PERIOD], [PERIOD] + [PERIOD]);
    assert [PERIOD] + ([PERIOD] + [PERIOD]) == [PERIOD, PERIOD, PERIOD];
  }

  /** What unescaping an escaped value gives: the value, or with three periods more if it has no
      byte but periods, so that it comes back exactly if it has one. */
  lemma EscapeBack(s: seq<Byte>)
    ensures Unescaped(Escaped(s)) == Some(if AllPeriods(s) then s + [PERIOD, PERIOD, PERIOD] else s)
    ensures Unescaped(Escaped(s)) == Some(s) <==> !AllPeriods(s)
    ensures Escaped(s) != [] && SLASH !in Escaped(s) && EQUALS !in Escaped(s)
  {
    UnescapeAll(s);
    var dots: Text := [PERIOD, PERIOD, PERIOD];
    Dots();
    UnescapeMore(EscapeAll(s), dots);
    assert EscapeAll(s) + [] == EscapeAll(s);
    assert |s + dots| != |s|;
    if EscapeAll(s) == [] {
      assert Unescaped(EscapeAll(s)) == Some([]);
    }
  }

  /** The loop over the bytes of a value. */
  method EscapeComponent(value: seq<Byte>) returns (out: Text)
    ensures out == Escaped(value)
  {
    out := [];
    var nPeriods := 0;
    var i := 0;
    while i < |value|
      invariant i <= |value| && out == EscapeAll(value[..i]) && nPeriods <= i
      invariant nPeriods == i <==> AllPeriods(value[..i])
    {
      var b := value[i];
      AllPeriodsMore(value, i);
      assert value[..i + 1][..i] == value[..i];
      if b == PERIOD {
        nPeriods := nPeriods + 1;
      }
      if Unreserved(b) {
        out := out + [b];
      } else {
        var hex := HexEncode([b]);
        HexOne(b);
        out := out + ([PERCENT] + hex);
      }
      i := i + 1;
    }
    assert value[..i] == value;
    if nPeriods == |value| {
      out := out + [PERIOD, PERIOD, PERIOD];
    } else {
      assert out + [] == out;
    }
  }

  lemma AllPeriodsMore(s: seq<Byte>, i: nat)
    requires i < |s|
    ensures AllPeriods(s[..i + 1]) <==> AllPeriods(s[..i]) && s[i] == PERIOD
  {
    assert s[..i + 1] == s[..i] + [s[i]];
    assert s[i] in s[..i + 1] && forall b :: b in s[..i] ==> b in s[..i + 1];
  }

  /** The loop over the characters of a component. */
  method UnescapeComponent(text: Text) returns (out: Option<seq<Byte>>)
    ensures out == Unescaped(text)
  {
    var bytes: seq<Byte> := [];
    var i := 0;
    assert text[0..] == text;
    PrependTwice([], [], Unescaped(text));
    while i < |text|
      invariant i <= |text| && Unescaped(text) == Prepend(bytes, Unescaped(text[i..]))
      decreases |text| - i
    {
      var b, n := text[i], 1;
      if text[i] == PERCENT {
        if |text| <= i + 2 {
          return None;
        }
        var digits := text[i + 1..i + 3];
        var unescaped := HexDecode(digits);
        HexTwo(digits);
        assert digits[0] == text[i..][1] && digits[1] == text[i..][2];
        if unescaped.None? {
          return None;
        }
        b, n := unescaped.value[0], 3;
      }
      assert FirstByte(text[i..]) == Some((b, n)) && text[i..][n..] == text[i + n..];
      PrependTwice(bytes, [b], Unescaped(text[i + n..]));
      bytes := bytes + [b];
      i := i + n;
    }
    assert bytes + [] == bytes;
    out := Some(bytes);
  }

  // ---------- components ----------

  type Type16 = t: int | 0 <= t < 0x1_0000

  datatype NumKind = Segment | ByteOffset | Version | Timestamp | SequenceNum

  /** Numeric components hold their number beside its bytes. */
  datatype NameComponent =
    | Generic(value: seq<Byte>)
    | Keyword(value: seq<Byte>)
    | ImplicitDigest(value: seq<Byte>)
    | ParamsDigest(value: seq<Byte>)
    | Numeric(kind: NumKind, value: seq<Byte>, raw: UInt64)
    | Base(typ: Type16, value: seq<Byte>)

  function KindType(kind: NumKind): Type16 {
    match kind
    case Segment => 0x32
    case ByteOffset => 0x34
    case Version => 0x36
    case Timestamp => 0x38
    case SequenceNum => 0x3A
  }

  function TypeOf(c: NameComponent): Type16 {
    match c
    case ImplicitDigest(_) => 1
    case ParamsDigest(_) => 2
    case Generic(_) => 8
    case Keyword(_) => 0x20
    case Numeric(kind, _, _) => KindType(kind)
    case Base(typ, _) => typ
  }

  function Same(c: NameComponent, d: NameComponent): bool {
    TypeOf(c) == TypeOf(d) && c.value == d.value
  }

  /** What the constructors and the decoders make sure of. */
  ghost predicate Made(c: NameComponent) {
    && (c.ImplicitDigest? || c.ParamsDigest? ==> |c.value| == 32)
    && (c.Numeric? ==> DecodeNNI(c.value) == Ok(c.raw))
  }

  function NewNumeric(kind: NumKind, raw: UInt64): NameComponent {
    Numeric(kind, EncodeNNI(raw), raw)
  }

  // ---------- printing and parsing components ----------

  const SHA256DIGEST: Text := Ascii("sha256digest")
  const PARAMS_SHA256: Text := Ascii("params-sha256")

  function Label(kind: NumKind): Text {
    match kind
    case Segment => Ascii("seg")
    case ByteOffset => Ascii("off")
    case Version => Ascii("v")
    case Timestamp => Ascii("t")
    case SequenceNum => Ascii("seq")
  }

  function KindOf(key: Text): Option<NumKind> {
    if key == Label(Segment) then Some(Segment)
    else if key == Label(ByteOffset) then Some(ByteOffset)
    else if key == Label(Version) then Some(Version)
    else if key == Label(Timestamp) then Some(Timestamp)
    else if key == Label(SequenceNum) then Some(SequenceNum)
    else None
  }

  function Print(c: NameComponent): Text {
    match c
    case Generic(v) => Escaped(v)
    case Keyword(v) => Escaped(v)
    case ImplicitDigest(v) => SHA256DIGEST + [EQUALS] + HexEncode(v)
    case ParamsDigest(v) => PARAMS_SHA256 + [EQUALS] + HexEncode(v)
    case Numeric(kind, _, raw) => Label(kind) + [EQUALS] + Decimal(raw)
    case Base(typ, v) => Decimal(typ) + [EQUALS] + Escaped(v)
  }

  /** A result, an error, or a nil pointer (a digest of the wrong length) or index that is used. */
  datatype Parsed<+T> = Good(value: T) | Bad | Panic

  function ParseTyped(key: Text, value: seq<Byte>): Parsed<NameComponent> {
    if key == SHA256DIGEST then
      match HexDecode(value)
      case None => Bad
      case Some(digest) => if |digest| != 32 then Panic else Good(ImplicitDigest(digest))
    else if key == PARAMS_SHA256 then
      match HexDecode(value)
      case None => Bad
      case Some(digest) => if |digest| != 32 then Panic else Good(ParamsDigest(digest))
    else if key == ['8' as int] then Good(Generic(value))
    else
      match KindOf(key)
      case Some(kind) => (match ParseUint(value, 0xFFFF_FFFF_FFFF_FFFF)
                          case None => Bad
                          case Some(n) => Good(NewNumeric(kind, n)))
      case None => (match ParseUint(key, 0xFFFF)
                    case None => Bad
                    case Some(t) => Good(Base(t, value)))
  }

  function ParseComponent(text: Text): Parsed<NameComponent> {
    if EQUALS in text then
      var parts := Split(text, EQUALS);
      if |parts| != 2 then Bad
      else
        match Unescaped(parts[1])
        case None => Bad
        case Some(value) => ParseTyped(parts[0], value)
    else
      match Unescaped(text)
      case None => Bad
      case Some(value) => Good(Generic(value))
  }

  /** Exactly the components that come back from their text: not keywords, no values made of nothing
      but periods (or nothing), and no numbers whose bytes are not the shortest ones. */
  ghost predicate ComesBack(c: NameComponent) {
    match c
    case Generic(v) => !AllPeriods(v)
    case Base(_, v) => !AllPeriods(v)
    case Keyword(_) => false
    case ImplicitDigest(_) => true
    case ParamsDigest(_) => true
    case Numeric(_, v, _) => v == EncodeNNI(c.raw)
  }

  /** Text without escapes stands for itself. */
  lemma {:induction false} PlainText(s: Text)
    requires PERCENT !in s
    ensures Unescaped(s) == Some(s)
  {
    if s != [] {
      PlainText(s[1..]);
      assert [s[0]] + s[1..] == s;
    }
  }

  lemma LabelsTell(kind: NumKind)
    ensures KindOf(Label(kind)) == Some(kind) && Label(kind) != SHA256DIGEST && Label(kind) != PARAMS_SHA256
    ensures Label(kind) != ['8' as int] && EQUALS !in Label(kind) && SLASH !in Label(kind)
  {
    assert Label(Segment)[2] != Label(SequenceNum)[2] && Label(Segment)[0] != Label(ByteOffset)[0];
    assert Label(SequenceNum)[0] != Label(ByteOffset)[0] && Label(Version)[0] != Label(Timestamp)[0];
    assert Label(Version)[0] != '8' as int && Label(Timestamp)[0] != '8' as int;
  }

  /** Parsing a key, a separator and a value. */
  lemma ParseKeyed(key: Text, value: Text)
    requires EQUALS !in key && EQUALS !in value
    ensures ParseComponent(key + [EQUALS] + value) == match Unescaped(value)
                                                      case None => Bad
                                                      case Some(v) => ParseTyped(key, v)
  {
    SplitAt(key, EQUALS, value);
    SplitNone(value, EQUALS);
    assert (key + [EQUALS] + value)[|key|] == EQUALS;
  }

  lemma DecimalKey(t: Type16)
    ensures var key := Decimal(t);
            && EQUALS !in key && SLASH !in key && PERCENT !in key
            && key != SHA256DIGEST && key != PARAMS_SHA256 && KindOf(key) == None
            && ParseUint(key, 0xFFFF) == Some(t) && (key == ['8' as int] ==> t == 8)
  {
    var key := Decimal(t);
    DecimalBack(t);
    assert key[0] in key;
    assert !IsDigit(SHA256DIGEST[0]) && !IsDigit(PARAMS_SHA256[0]);
    assert forall kind :: !IsDigit(Label(kind)[0]);
    if key == ['8' as int] {
      assert Number(['8' as int]) == 8 by {
        assert ['8' as int][..0] == [];
      }
    }
  }

  lemma DigestBack(key: Text, v: seq<Byte>)
    requires |v| == 32 && (key == SHA256DIGEST || key == PARAMS_SHA256)
    ensures ParseComponent(key + [EQUALS] + HexEncode(v))
            == Good(if key == SHA256DIGEST then ImplicitDigest(v) else ParamsDigest(v))
    ensures SLASH !in key + [EQUALS] + HexEncode(v)
  {
    assert EQUALS !in SHA256DIGEST && EQUALS !in PARAMS_SHA256 && SLASH !in SHA256DIGEST && SLASH !in PARAMS_SHA256;
    HexBack(v);
    PlainText(HexEncode(v));
    ParseKeyed(key, HexEncode(v));
  }

  lemma NumericBack(kind: NumKind, raw: UInt64)
    ensures ParseComponent(Label(kind) + [EQUALS] + Decimal(raw)) == Good(NewNumeric(kind, raw))
    ensures SLASH !in Label(kind) + [EQUALS] + Decimal(raw)
  {
    LabelsTell(kind);
    DecimalBack(raw);
    PlainText(Decimal(raw));
    ParseKeyed(Label(kind), Decimal(raw));
  }

  lemma BaseBack(typ: Type16, v: seq<Byte>)
    ensures var r := ParseComponent(Decimal(typ) + [EQUALS] + Escaped(v));
            r.Good? && TypeOf(r.value) == typ && Some(r.value.value) == Unescaped(Escaped(v))
    ensures SLASH !in Decimal(typ) + [EQUALS] + Escaped(v)
  {
    EscapeBack(v);
    DecimalKey(typ);
    ParseKeyed(Decimal(typ), Escaped(v));
  }

  /** A component comes back from its text exactly if it is one of those. */
  lemma ComponentBack(c: NameComponent)
    requires Made(c)
    ensures ParseComponent(Print(c)).Good?
    ensures Same(ParseComponent(Print(c)).value, c) <==> ComesBack(c)
    ensures Print(c) != [] && SLASH !in Print(c)
  {
    match c
    case Generic(v) => EscapeBack(v);
    case Keyword(v) => EscapeBack(v);
    case ImplicitDigest(v) => DigestBack(SHA256DIGEST, v);
    case ParamsDigest(v) => DigestBack(PARAMS_SHA256, v);
    case Numeric(kind, v, raw) => NumericBack(kind, raw);
    case Base(typ, v) =>
      EscapeBack(v);
      BaseBack(typ, v);
  }

  // ---------- names ----------

  function PrintAll(cs: seq<NameComponent>): Text {
    if cs == [] then [] else PrintAll(cs[..|cs| - 1]) + ([SLASH] + Print(cs[|cs| - 1]))
  }

  function PrintName(cs: seq<NameComponent>): Text {
    if cs == [] then [SLASH] else PrintAll(cs)
  }

  function ParseAll(texts: seq<Text>): Parsed<seq<NameComponent>> {
    if texts == [] then Good([])
    else
      match ParseAll(texts[..|texts| - 1])
      case Bad => Bad
      case Panic => Panic
      case Good(cs) =>
        match ParseComponent(texts[|texts| - 1])
        case Bad => Bad
        case Panic => Panic
        case Good(c) => Good(cs + [c])
  }

  /** What is before the first slash is skipped; a text without slash is an index out of range. */
  function ParseName(text: Text): Parsed<seq<NameComponent>> {
    if text == [] then Good([])
    else
      var texts := Split(text, SLASH)[1..];
      if texts == [] then Panic
      else if texts[0] == [] then Good([])
      else ParseAll(texts)
  }

  function Prints(cs: seq<NameComponent>): (ts: seq<Text>)
    ensures |ts| == |cs|
  {
    seq(|cs|, i requires 0 <= i < |cs| => Print(cs[i]))
  }

  /** All prints, each behind a slash, from the front. */
  function Slashed(ts: seq<Text>): Text {
    if ts == [] then [] else [SLASH] + ts[0] + Slashed(ts[1..])
  }

  lemma {:induction false} SlashedLast(ts: seq<Text>, t: Text)
    ensures Slashed(ts + [t]) == Slashed(ts) + ([SLASH] + t)
  {
    if ts == [] {
      assert (ts + [t])[1..] == [] && [SLASH] + t + [] == [SLASH] + t;
    } else {
      assert (ts + [t])[1..] == ts[1..] + [t];
      SlashedLast(ts[1..], t);
    }
  }

  lemma {:induction false} PrintedSlashed(cs: seq<NameComponent>)
    ensures PrintAll(cs) == Slashed(Prints(cs))
  {
    if cs != [] {
      var init, last := cs[..|cs| - 1], Print(cs[|cs| - 1]);
      PrintedSlashed(init);
      SlashedLast(Prints(init), last);
      PrintsLast(cs);
    }
  }

  lemma PrintsLast(cs: seq<NameComponent>)
    requires cs != []
    ensures Prints(cs) == Prints(cs[..|cs| - 1]) + [Print(cs[|cs| - 1])]
  {
    var init, ts := Prints(cs[..|cs| - 1]), Prints(cs);
    forall i | 0 <= i < |init| ensures ts[i] == init[i] {
      assert cs[..|cs| - 1][i] == cs[i];
    }
  }

  lemma {:induction false} SplitSlashed(ts: seq<Text>)
    requires forall t :: t in ts ==> SLASH !in t
    ensures Split(Slashed(ts), SLASH) == [[]] + ts
  {
    if ts != [] {
      var t, rest := ts[0], Slashed(ts[1..]);
      SplitSlashed(ts[1..]);
      SplitAt([], SLASH, t + rest);
      assert [] + [SLASH] + (t + rest) == Slashed(ts);
      if rest == [] {
        assert ts[1..] == [] && t + rest == t;
        SplitNone(t, SLASH);
      } else {
        var behind := rest[1..];
        SplitAt(t, SLASH, behind);
        SplitAt([], SLASH, behind);
        assert rest == [] + [SLASH] + behind && t + rest == t + [SLASH] + behind;
        assert Split(behind, SLASH) == Split(rest, SLASH)[1..] == ts[1..];
      }
      assert [t] + ts[1..] == ts;
    }
  }

  ghost predicate SameName(cs: seq<NameComponent>, ds: seq<NameComponent>) {
    |cs| == |ds| && forall i :: 0 <= i < |cs| ==> Same(cs[i], ds[i])
  }

  lemma ParsePrints(cs: seq<NameComponent>)
    requires forall c :: c in cs ==> Made(c)
    ensures var r := ParseAll(Prints(cs));
            r.Good? && |r.value| == |cs| && forall i :: 0 <= i < |cs| ==>
                ParseComponent(Print(cs[i])) == Good(r.value[i])
  {
    var ts := Prints(cs);
    forall i | 0 <= i < |ts| ensures ParseComponent(ts[i]).Good? {
      ComponentBack(cs[i]);
    }
    ParseEach(ts);
  }

  lemma {:induction false} ParseEach(ts: seq<Text>)
    requires forall i :: 0 <= i < |ts| ==> ParseComponent(ts[i]).Good?
    ensures var r := ParseAll(ts);
            r.Good? && |r.value| == |ts| && forall i :: 0 <= i < |ts| ==> ParseComponent(ts[i]) == Good(r.value[i])
  {
    if ts != [] {
      ParseEach(ts[..|ts| - 1]);
    }
  }

  /** A name's URI always parses, and gives the name back exactly if all its components come back. */
  lemma NameBack(cs: seq<NameComponent>)
    requires forall c :: c in cs ==> Made(c)
    ensures ParseName(PrintName(cs)).Good?
    ensures SameName(ParseName(PrintName(cs)).value, cs) <==> forall c :: c in cs ==> ComesBack(c)
  {
    if cs == [] {
      SplitAt([], SLASH, []);
      assert [] + [SLASH] + [] == [SLASH];
    } else {
      PrintedSlashed(cs);
      var ts := Prints(cs);
      forall i | 0 <= i < |cs| ensures SLASH !in ts[i] && ts[i] != [] {
        ComponentBack(cs[i]);
      }
      SplitSlashed(ts);
      assert ([[]] + ts)[1..] == ts;
      ParsePrints(cs);
      forall i | 0 <= i < |cs| ensures Same(ParseAll(ts).value[i], cs[i]) <==> ComesBack(cs[i]) {
        ComponentBack(cs[i]);
      }
    }
  }

  // ---------- what texts stand for ----------

  /** Numeric components: the texts, the types and the values of all five kinds. */
  lemma NumericTexts(n: nat)
    ensures IsNumeric(Ascii("seg="), 50, n) && IsNumeric(Ascii("off="), 52, n) && IsNumeric(Ascii("v="), 54, n)
    ensures IsNumeric(Ascii("t="), 56, n) && IsNumeric(Ascii("seq="), 58, n)
  {
    assert Ascii("seg=") == Label(Segment) + [EQUALS] && Ascii("off=") == Label(ByteOffset) + [EQUALS];
    assert Ascii("v=") == Label(Version) + [EQUALS] && Ascii("t=") == Label(Timestamp) + [EQUALS];
    assert Ascii("seq=") == Label(SequenceNum) + [EQUALS];
    NumericText(Segment, n);
    NumericText(ByteOffset, n);
    NumericText(Version, n);
    NumericText(Timestamp, n);
    NumericText(SequenceNum, n);
  }

  /** This text and the number are a component of the type with the bytes of the number, and are how that
      is printed; or an error if the number does not fit 64 bits. */
  ghost predicate IsNumeric(text: Text, typ: nat, n: nat) {
    var r := ParseComponent(text + Decimal(n));
    if n > 0xFFFF_FFFF_FFFF_FFFF then r == Bad
    else r.Good? && TypeOf(r.value) == typ && r.value.value == EncodeNNI(n) && Print(r.value) == text + Decimal(n)
  }

  lemma NumericText(kind: NumKind, n: nat)
    ensures IsNumeric(Label(kind) + [EQUALS], KindType(kind), n)
  {
    LabelsTell(kind);
    DecimalBack(n);
    PlainText(Decimal(n));
    ParseKeyed(Label(kind), Decimal(n));
  }

  lemma DecimalText()
    ensures Decimal(65535) == Ascii("65535")
  {
    assert Decimal(6) == Ascii("6");
    assert Decimal(65) == Decimal(6) + [Digit(5)] == Ascii("65");
    assert Decimal(655) == Decimal(65) + [Digit(5)] == Ascii("655");
    assert Decimal(6553) == Decimal(655) + [Digit(3)] == Ascii("6553");
    assert Decimal(65535) == Decimal(6553) + [Digit(5)] == Ascii("65535");
  }

  /** Other types are written as decimal numbers, which have to be below 65536. */
  lemma TypeTexts(typ: nat, v: seq<Byte>)
    requires !AllPeriods(v)
    ensures var r := ParseComponent(Decimal(typ) + [EQUALS] + Escaped(v));
            if typ > 0xFFFF then r == Bad else r.Good? && TypeOf(r.value) == typ && r.value.value == v
  {
    EscapeBack(v);
    if typ <= 0xFFFF {
      BaseBack(typ, v);
    } else {
      BigKey(Decimal(typ), typ, v);
      DecimalBack(typ);
      ParseKeyed(Decimal(typ), Escaped(v));
    }
  }

  lemma BigKey(key: Text, typ: nat, v: seq<Byte>)
    requires key == Decimal(typ) && typ > 0xFFFF
    ensures EQUALS !in key && ParseTyped(key, v) == Bad
  {
    DecimalBack(typ);
    assert key[0] in key && !IsDigit(SHA256DIGEST[0]) && !IsDigit(PARAMS_SHA256[0]);
    assert forall kind :: !IsDigit(Label(kind)[0]);
    assert Number(['8' as int]) == 8 by {
      assert ['8' as int][..0] == [];
    }
  }

  /** A digest of 32 bytes is written in hexadecimal behind its keyword. */
  lemma DigestTexts(v: seq<Byte>)
    requires |v| == 32
    ensures var r := ParseComponent(Ascii("sha256digest=") + HexEncode(v));
            r.Good? && TypeOf(r.value) == 1 && r.value.value == v
    ensures var r := ParseComponent(Ascii("params-sha256=") + HexEncode(v));
            r.Good? && TypeOf(r.value) == 2 && r.value.value == v
  {
    assert Ascii("sha256digest=") == SHA256DIGEST + [EQUALS] && Ascii("params-sha256=") == PARAMS_SHA256 + [EQUALS];
    assert SHA256DIGEST[0] != PARAMS_SHA256[0];
    DigestBack(SHA256DIGEST, v);
    DigestBack(PARAMS_SHA256, v);
  }

  /** Letters, digits and four marks stand for themselves; other bytes are written as a percent sign and
      two hexadecimal digits, and may be read with capital letters as well. */
  lemma EscapeTexts(b: Byte)
    ensures var lower, upper := Ascii("0123456789abcdef"), Ascii("0123456789ABCDEF");
            && (EscapeByte(b) == [b] <==>
                  || 'a' as int <= b <= 'z' as int || 'A' as int <= b <= 'Z' as int || '0' as int <= b <= '9' as int
                  || b in Ascii("-._~"))
            && (EscapeByte(b) != [b] ==> EscapeByte(b) == ['%' as int, lower[b / 16], lower[b % 16]])
            && Unescaped(['%' as int, upper[b / 16], upper[b % 16]]) == Some([b])
            && Unescaped(['%' as int, lower[b / 16], lower[b % 16]]) == Some([b])
  {
    assert Ascii("-._~") == [45, 46, 95, 126];
    HexTexts(b / 16);
    HexTexts(b % 16);
    TwoDigits(Ascii("0123456789abcdef")[b / 16], Ascii("0123456789abcdef")[b % 16], b);
    TwoDigits(Ascii("0123456789ABCDEF")[b / 16], Ascii("0123456789ABCDEF")[b % 16], b);
  }

  lemma TwoDigits(hi: Byte, lo: Byte, b: Byte)
    requires HexValue(hi) == Some(b / 16) && HexValue(lo) == Some(b % 16)
    ensures Unescaped(['%' as int, hi, lo]) == Some([b])
  {
    LastByte(['%' as int, hi, lo], b);
  }

  lemma HexTexts(d: nat)
    requires d < 16
    ensures HexDigit(d) == Ascii("0123456789abcdef")[d]
    ensures HexValue(Ascii("0123456789abcdef")[d]) == Some(d) == HexValue(Ascii("0123456789ABCDEF")[d])
  {
  }

  /** Texts that are errors: with two separators; with a key that is none; and with an escape that is cut
      short or has other digits. */
  lemma TwoSeparators(a: Text, b: Text, c: Text)
    requires EQUALS !in a && EQUALS !in b
    ensures ParseComponent(a + [EQUALS] + (b + [EQUALS] + c)) == Bad
  {
    SplitAt(a, EQUALS, b + [EQUALS] + c);
    SplitAt(b, EQUALS, c);
    assert (a + [EQUALS] + (b + [EQUALS] + c))[|a|] == EQUALS;
  }

  lemma NoKey(a: Text, b: Text)
    requires EQUALS !in a && EQUALS !in b && IsNoKey(a)
    ensures ParseComponent(a + [EQUALS] + b) == Bad
  {
    assert a != ['8' as int];
    ParseKeyed(a, b);
  }

  lemma BadEscapes(key: Text, a: Text, b: Text)
    requires Unescaped(a).Some? && BadEscape(b) && EQUALS !in key && EQUALS !in a + b
    ensures ParseComponent(a + b) == Bad && ParseComponent(key + [EQUALS] + (a + b)) == Bad
  {
    UnescapeMore(a, b);
    ParseKeyed(key, a + b);
  }

  /** It begins with a percent sign that no two hexadecimal digits follow. */
  predicate BadEscape(s: Text) {
    |s| > 0 && s[0] == '%' as int && (|s| < 3 || !IsHex(s[1]) || !IsHex(s[2]))
  }

  predicate IsHex(b: Byte) {
    '0' as int <= b <= '9' as int || 'a' as int <= b <= 'f' as int || 'A' as int <= b <= 'F' as int
  }

  /** It is none of the keywords and no decimal number. */
  predicate IsNoKey(s: Text) {
    && s != Ascii("sha256digest") && s != Ascii("params-sha256")
    && s != Ascii("seg") && s != Ascii("off") && s != Ascii("v") && s != Ascii("t") && s != Ascii("seq")
    && (s == [] || exists b :: b in s && !('0' as int <= b <= '9' as int))
  }

  /** Whatever is in front of the first slash is skipped, and two slashes there make the empty name. */
  lemma NameTexts(a: Text, rest: Text)
    requires SLASH !in a
    ensures ParseName(a + [SLASH] + rest) == ParseName([SLASH] + rest)
    ensures ParseName([SLASH, SLASH] + rest) == Good([]) == ParseName([])
    ensures a != [] ==> ParseName(a) == Panic
  {
    SplitAt(a, SLASH, rest);
    SplitAt([], SLASH, rest);
    SplitAt([], SLASH, [SLASH] + rest);
    assert [] + [SLASH] + rest == [SLASH] + rest && [] + [SLASH] + ([SLASH] + rest) == [SLASH, SLASH] + rest;
    if a != [] {
      SplitNone(a, SLASH);
    }
  }

  // ---------- texts that make the parser panic ----------

  /** The place of the first separator, or the length. */
  function FirstPlace(s: Text, sep: Byte): (k: nat)
    ensures k <= |s| && sep !in s[..k] && (k < |s| ==> s[k] == sep)
  {
    if s == [] || s[0] == sep then 0
    else
      var k := FirstPlace(s[1..], sep);
      assert s[..1 + k] == [s[0]] + s[1..][..k];
      1 + k
  }

  /** The first piece, and the text behind the separator that ends it. */
  lemma SplitFirst(s: Text, sep: Byte)
    ensures var parts := Split(s, sep);
            && sep !in parts[0] && (|parts| == 1 ==> s == parts[0])
            && (|parts| > 1 ==>
                |parts[0]| < |s| && var rest := s[|parts[0]| + 1..];
                s == parts[0] + [sep] + rest && Split(rest, sep) == parts[1..])
  {
    var k := FirstPlace(s, sep);
    if k < |s| {
      assert s == s[..k] + [sep] + s[k + 1..];
      SplitAt(s[..k], sep, s[k + 1..]);
    } else {
      assert s[..k] == s;
      SplitNone(s, sep);
    }
  }

  /** Hexadecimal text: two digits for each byte. */
  lemma {:induction false} HexDecodes(s: Text)
    ensures HexDecode(s).Some? <==> |s| % 2 == 0 && forall b :: b in s ==> HexValue(b).Some?
    ensures HexDecode(s).Some? ==> |HexDecode(s).value| == |s| / 2
  {
    if |s| >= 2 {
      HexDecodes(s[2..]);
      assert s == [s[0], s[1]] + s[2..];
    } else if |s| == 1 {
      assert s[0] in s;
    }
  }

  /** A digest component whose value is hexadecimal, but not of 32 bytes. */
  ghost predicate BadDigest(text: Text) {
    exists value: Text ::
      && (text == SHA256DIGEST + [EQUALS] + value || text == PARAMS_SHA256 + [EQUALS] + value)
      && EQUALS !in value && WrongDigest(Unescaped(value))
  }

  predicate WrongDigest(v: Option<seq<Byte>>) {
    v.Some? && |v.value| % 2 == 0 && |v.value| != 64 && forall b :: b in v.value ==> HexValue(b).Some?
  }

  lemma ComponentPanics(text: Text)
    ensures ParseComponent(text) == Panic <==> BadDigest(text)
  {
    if ParseComponent(text) == Panic {
      var parts := Split(text, EQUALS);
      SplitFirst(text, EQUALS);
      SplitFirst(text[|parts[0]| + 1..], EQUALS);
      HexDecodes(Unescaped(parts[1]).value);
      assert text == parts[0] + [EQUALS] + parts[1];
    }
    if BadDigest(text) {
      var value: Text :|
        && (text == SHA256DIGEST + [EQUALS] + value || text == PARAMS_SHA256 + [EQUALS] + value)
        && EQUALS !in value && WrongDigest(Unescaped(value));
      NoEquals();
      ParseKeyed(SHA256DIGEST, value);
      ParseKeyed(PARAMS_SHA256, value);
      HexDecodes(Unescaped(value).value);
    }
  }

  lemma NoEquals()
    ensures EQUALS !in SHA256DIGEST && EQUALS !in PARAMS_SHA256 && SLASH !in SHA256DIGEST
  {
  }

  /** What the loop over components makes of their results. */
  function Combined(rs: seq<Parsed<NameComponent>>): Parsed<seq<NameComponent>> {
    if rs == [] then Good([])
    else
      match Combined(rs[..|rs| - 1])
      case Bad => Bad
      case Panic => Panic
      case Good(cs) =>
        match rs[|rs| - 1]
        case Bad => Bad
        case Panic => Panic
        case Good(c) => Good(cs + [c])
  }

  ghost predicate FirstAt(rs: seq<Parsed<NameComponent>>, i: nat) {
    i < |rs| && rs[i] == Panic && forall j :: 0 <= j < i ==> rs[j].Good?
  }

  /** The first component that is not good decides. */
  lemma {:induction false} CombinedPanics(rs: seq<Parsed<NameComponent>>)
    ensures Combined(rs) == Panic <==> exists i :: FirstAt(rs, i)
    ensures Combined(rs).Good? <==> forall i :: 0 <= i < |rs| ==> rs[i].Good?
  {
    if rs != [] {
      var init := rs[..|rs| - 1];
      CombinedPanics(init);
      forall i: nat | i < |init| ensures FirstAt(rs, i) <==> FirstAt(init, i) {
        assert forall j :: 0 <= j <= i ==> rs[j] == init[j];
      }
      if Combined(rs) == Panic && Combined(init) != Panic {
        assert FirstAt(rs, |init|);
      }
    }
  }

  lemma {:induction false} ParseAllCombines(texts: seq<Text>, rs: seq<Parsed<NameComponent>>)
    requires |rs| == |texts| && forall i :: 0 <= i < |texts| ==> rs[i] == ParseComponent(texts[i])
    ensures ParseAll(texts) == Combined(rs)
  {
    if texts != [] {
      ParseAllCombines(texts[..|texts| - 1], rs[..|rs| - 1]);
    }
  }

  /** There is a wrong digest, and no component before it is an error. */
  ghost predicate PanicsAt(texts: seq<Text>, i: nat) {
    i < |texts| && BadDigest(texts[i]) && forall j :: 0 <= j < i ==> ParseComponent(texts[j]).Good?
  }

  lemma AllPanics(texts: seq<Text>)
    ensures ParseAll(texts) == Panic <==> exists i :: PanicsAt(texts, i)
  {
    var rs := seq(|texts|, i requires 0 <= i < |texts| => ParseComponent(texts[i]));
    ParseAllCombines(texts, rs);
    CombinedPanics(rs);
    forall i: nat ensures PanicsAt(texts, i) <==> FirstAt(rs, i) {
      if i < |texts| {
        ComponentPanics(texts[i]);
      }
    }
  }

  /** NameFromString panics exactly at text that is not empty and has no slash, or with a wrong digest
      where all components before it are good. */
  lemma NamePanics(text: Text)
    ensures ParseName(text) == Panic <==>
              text != [] && (SLASH !in text || (var texts := Split(text, SLASH)[1..];
                                                |texts| > 0 && texts[0] != [] && exists i :: PanicsAt(texts, i)))
  {
    SplitFirst(text, SLASH);
    if SLASH in text {
      AllPanics(Split(text, SLASH)[1..]);
    } else {
      SplitNone(text, SLASH);
    }
  }

  /** Two such texts: one without a slash, and one with a digest of one byte. */
  lemma TextsThatPanic(text: Text, hi: Byte, lo: Byte)
    requires text != [] && SLASH !in text
    requires HexValue(hi).Some? && HexValue(lo).Some?
    ensures ParseName(text) == Panic
    ensures ParseName([SLASH] + (SHA256DIGEST + [EQUALS] + [hi, lo])) == Panic
  {
    NamePanics(text);
    var component := SHA256DIGEST + [EQUALS] + [hi, lo];
    ShortDigest(component, [hi, lo]);
    NoEquals();
    SplitAt([], SLASH, component);
    SplitNone(component, SLASH);
    assert [] + [SLASH] + component == [SLASH] + component;
    assert PanicsAt([component], 0);
    NamePanics([SLASH] + component);
  }

  lemma ShortDigest(component: Text, value: Text)
    requires component == SHA256DIGEST + [EQUALS] + value && |value| == 2
             && forall b :: b in value ==> HexValue(b).Some?
    ensures BadDigest(component)
  {
    assert HexValue(PERCENT) == None && HexValue(EQUALS) == None;
    PlainText(value);
    assert EQUALS !in value && WrongDigest(Unescaped(value));
  }

  // ---------- name objects ----------

  /** A name that caches its URI. */
  class Name {
    var components: seq<NameComponent>
    var cachedString: Text

    /** The cached URI, if there is one, is the right one. */
    ghost predicate CacheOk()
      reads this
    {
      cachedString == [] || cachedString == PrintAll(components)
    }

    constructor ()
      ensures components == [] && cachedString == [] && CacheOk()
    {
      components, cachedString := [], [];
    }

    method String() returns (s: Text)
      modifies this`cachedString
      ensures old(cachedString) != [] ==> s == old(cachedString)
      ensures old(cachedString) == [] ==> s == PrintName(components)
      ensures old(CacheOk()) ==> s == PrintName(components) && CacheOk()
    {
      if |cachedString| > 0 {
        assert CacheOk() && components == [] ==> cachedString == [];
        return cachedString;
      }
      if |components| == 0 {
        return [SLASH];
      }
      s := [];
      var i := 0;
      while i < |components|
        invariant i <= |components| && s == PrintAll(components[..i])
      {
        assert components[..i + 1][..i] == components[..i];
        s := s + ([SLASH] + Print(components[i]));
        i := i + 1;
      }
      assert components[..i] == components;
      cachedString := s;
    }

    /** Adds a component, and its text to the cached URI, even if there is none: that is right
        exactly if the URI of the components was cached, or there were no components. */
    method Append(c: NameComponent)
      modifies this
      ensures components == old(components) + [c]
      ensures cachedString == old(cachedString) + ([SLASH] + Print(c)) != []
      ensures old(CacheOk()) ==> (CacheOk() <==> old(cachedString != [] || components == []))
    {
      PrintOneMore(components, c);
      assert old(CacheOk() && cachedString == []) && PrintAll(components) == [] ==> components == [];
      components := components + [c];
      cachedString := cachedString + ([SLASH] + Print(c));
    }

    /** Replaces, inserts or erases a component; false if the index is out of range. */
    method Set(index: int, c: NameComponent) returns (ok: bool)
      modifies this
      ensures ok == (0 <= index < |old(components)|)
      ensures ok ==> components == old(components)[index := c] && cachedString == []
      ensures !ok ==> components == old(components) && cachedString == old(cachedString)
    {
      if index < 0 || index >= |components| {
        return false;
      }
      components := components[index := c];
      cachedString := [];
      ok := true;
    }

    method Insert(index: int, c: NameComponent) returns (ok: bool)
      modifies this
      ensures ok == (0 <= index < |old(components)|)
      ensures ok ==> components == old(components)[..index] + [c] + old(components)[index..] && cachedString == []
      ensures !ok ==> components == old(components) && cachedString == old(cachedString)
    {
      if index < 0 || index >= |components| {
        return false;
      }
      components := components[..index] + [c] + components[index..];
      cachedString := [];
      ok := true;
    }

    method Erase(index: int) returns (ok: bool)
      modifies this
      ensures ok == (0 <= index < |old(components)|)
      ensures ok ==> components == old(components)[..index] + old(components)[index + 1..] && cachedString == []
      ensures !ok ==> components == old(components) && cachedString == old(cachedString)
    {
      if index < 0 || index >= |components| {
        return false;
      }
      components := components[..index] + components[index + 1..];
      cachedString := [];
      ok := true;
    }

    /** The name that a text stands for. */
    static method FromString(str: Text) returns (r: Parsed<Name>)
      ensures match ParseName(str)
              case Bad => r == Bad
              case Panic => r == Panic
              case Good(cs) => r.Good? && fresh(r.value) && r.value.components == cs && r.value.CacheOk()
    {
      var n := new Name();
      if |str| == 0 {
        return Good(n);
      }
      var components := Split(str, SLASH)[1..];
      if |components| == 0 {
        return Panic;
      }
      if |components[0]| == 0 {
        return Good(n);
      }
      var i := 0;
      while i < |components|
        invariant i <= |components| && fresh(n)
        invariant ParseAll(components[..i]) == Good(n.components) && n.cachedString == PrintAll(n.components)
      {
        assert components[..i + 1][..i] == components[..i];
        var c := ParseComponent(components[i]);
        if !c.Good? {
          ParseAllStops(components, i + 1);
          return if c.Bad? then Bad else Panic;
        }
        PrintOneMore(n.components, c.value);
        n.Append(c.value);
        i := i + 1;
      }
      assert components[..i] == components;
      r := Good(n);
    }
  }

  lemma PrintOneMore(cs: seq<NameComponent>, c: NameComponent)
    ensures PrintAll(cs + [c]) == PrintAll(cs) + ([SLASH] + Print(c))
    ensures PrintAll(cs) == [] <==> cs == []
  {
    assert (cs + [c])[..|cs|] == cs;
  }

  /** The first error decides. */
  lemma {:induction false} ParseAllStops(texts: seq<Text>, i: nat)
    requires i <= |texts| && !ParseAll(texts[..i]).Good?
    ensures ParseAll(texts) == ParseAll(texts[..i])
    decreases |texts|
  {
    if i < |texts| {
      assert texts[..|texts| - 1][..i] == texts[..i];
      ParseAllStops(texts[..|texts| - 1], i);
    } else {
      assert texts[..i] == texts;
    }
  }

  /** After Set, Insert or Erase nothing is cached, and Append then caches the text of the new component
      alone: the URI is right again exactly if that is the only component. */
  method StringAfterAppend(n: Name, c: NameComponent) returns (s: Text)
    requires n.cachedString == []
    modifies n
    ensures s == [SLASH] + Print(c) && n.components == old(n.components) + [c]
    ensures s == PrintName(n.components) <==> old(n.components) == []
  {
    ghost var before := n.components;
    n.Append(c);
    s := n.String();
    PrintOneMore(before, c);
    assert [] + ([SLASH] + Print(c)) == [SLASH] + Print(c);
    if PrintAll(before) != [] {
      assert |PrintAll(before) + ([SLASH] + Print(c))| > |[SLASH] + Print(c)|;
    }
  }

  /** The URI of /x/b/c, built by way of /a/b, is that of /c. */
  method StaleUri(a: NameComponent, b: NameComponent, x: NameComponent, c: NameComponent) returns (n: Name, s: Text)
    ensures n.components == [x, b, c] && s == [SLASH] + Print(c) != PrintName(n.components)
  {
    n := new Name();
    n.Append(a);
    n.Append(b);
    assert n.components == [a, b];
    var _ := n.Set(0, x);
    assert n.components == [x, b];
    s := StringAfterAppend(n, c);
    assert n.components == [x, b, c];
  }

  /** Through objects: a name is made, printed, and read again. */
  method PrintAndParse(n: Name) returns (r: Parsed<Name>)
    requires n.CacheOk() && forall c :: c in n.components ==> Made(c)
    modifies n`cachedString
    ensures r.Good? && (SameName(r.value.components, n.components) <==> forall c :: c in n.components ==> ComesBack(c))
  {
    NameBack(n.components);
    var s := n.String();
    r := Name.FromString(s);
  }
}
