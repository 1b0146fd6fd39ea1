/** TLV blocks as trees of values: their encoding and decoding. */
module TlvBlock {
  import opened Names
  import opened VarNum

  type TlvType = t: int | 0 <= t < 0x1_0000_0000

  // ---------- trees and their encoding ----------

  /** A block with a value, or one with subelements. */
  datatype Tree =
    | Leaf(typ: TlvType, value: seq<Byte>)
    | Node(typ: TlvType, subs: seq<Tree>)

  /** Type, length and content. */
  function Framed(typ: TlvType, content: seq<Byte>): (w: seq<Byte>)
    ensures |w| >= 2
  {
    EncodeVarNum(typ) + EncodeVarNum(|content|) + content
  }

  function Content(t: Tree): seq<Byte>
    decreases t, 0
  {
    match t
    case Leaf(_, value) => value
    case Node(_, subs) => Wires(subs)
  }

  function WireOf(t: Tree): seq<Byte>
    decreases t, 1
  {
    Framed(t.typ, Content(t))
  }

  function Wires(subs: seq<Tree>): seq<Byte>
    decreases subs, 2
  {
    if subs == [] then [] else WireOf(subs[0]) + Wires(subs[1..])
  }

  /** No content in the tree is too long for a length of 64 bits, and every node has subelements. */
  ghost predicate Encodable(t: Tree) {
    && |Content(t)| < WIDTH - 18
    && (t.Node? ==> t.subs != [] && forall i :: 0 <= i < |t.subs| ==> Encodable(t.subs[i]))
  }

  // ---------- decoding ----------

  /** A decoded block: its value, and the bytes it was decoded from. */
  datatype Decoded = Decoded(typ: TlvType, value: seq<Byte>, wire: seq<Byte>)

  /** The block at the front of the bytes. The sum of the sizes is one of 64 bits: when it wraps
      around, the end of the value lies before its start. */
  function DecodeBlock(w: seq<Byte>): Result<Decoded> {
    match DecodeVarNum(w)
    case Err(e) => Err(e)
    case Ok((typ, typeSize)) =>
      if typ > 0xFFFF_FFFF then Err(OutOfRange)
      else if typeSize == |w| then Err(MissingLength)
      else
        match DecodeVarNum(w[typeSize..])
        case Err(e) => Err(e)
        case Ok((length, lengthSize)) =>
          var header := typeSize + lengthSize;
          var size := if header + length < WIDTH then header + length else header + length - WIDTH;
          if |w| < size then Err(BufferTooShort)
          else if size < header then Err(Crash)
          else Ok(Decoded(typ, w[header..size], w[..size]))
  }

  datatype Parsed = Parsed(blocks: seq<Decoded>, error: Option<Error>)

  /** The blocks that a value consists of, one behind the other, up to an error. */
  function ParseAll(value: seq<Byte>): Parsed
    decreases |value|
  {
    if value == [] then Parsed([], None)
    else
      match DecodeBlock(value)
      case Err(e) => Parsed([], Some(e))
      case Ok(d) => InFront([d], ParseAll(value[|d.wire|..]))
  }

  function InFront(ds: seq<Decoded>, rest: Parsed): Parsed {
    Parsed(ds + rest.blocks, rest.error)
  }

  /** Decoding cuts off the bytes it used, and looks at no others. */
  lemma DecodedWire(w: seq<Byte>)
    requires DecodeBlock(w).Ok?
    ensures var d := DecodeBlock(w).value;
            2 <= |d.wire| <= |w| && d.wire == w[..|d.wire|] && |d.value| < |d.wire|
  {
  }

  /** A block comes back from its encoding, whatever follows. */
  lemma FrameBack(typ: TlvType, content: seq<Byte>, rest: seq<Byte>)
    requires |content| < WIDTH - 18
    ensures DecodeBlock(Framed(typ, content) + rest) == Ok(Decoded(typ, content, Framed(typ, content)))
  {
    var t, l := EncodeVarNum(typ), EncodeVarNum(|content|);
    var w := Framed(typ, content) + rest;
    VarNumBack(typ, l + (content + rest));
    VarNumBack(|content|, content + rest);
    Cuts(t, l, content, rest);
    DecodeFramed(w, typ, VarSize(typ), |content|, VarSize(|content|));
  }

  /** The header decoder finds the same: type, length of the content, and size of the whole. */
  lemma FrameHeader(typ: TlvType, content: seq<Byte>, rest: seq<Byte>)
    requires |content| < HALF - 18
    ensures DecodeTypeLength(Framed(typ, content) + rest) == Ok(Header(typ, |content|, |Framed(typ, content)|))
  {
    var t, l := EncodeVarNum(typ), EncodeVarNum(|content|);
    VarNumBack(typ, l + (content + rest));
    VarNumBack(|content|, content + rest);
    Cuts(t, l, content, rest);
  }

  /** The Name /a on the wire: 07 03 08 01 61. */
  lemma NameOnTheWire()
    ensures WireOf(Node(7, [Leaf(8, [0x61])])) == [0x07, 0x03, 0x08, 0x01, 0x61]
  {
    var sub := Leaf(8, [0x61]);
    assert WireOf(sub) == [0x08, 0x01, 0x61];
    assert [sub][1..] == [] && Wires([sub]) == WireOf(sub) + [];
  }

  /** Four parts, and how they are cut out of the whole. */
  lemma Cuts(t: seq<Byte>, l: seq<Byte>, content: seq<Byte>, rest: seq<Byte>)
    ensures var w, n := t + l + content + rest, |t| + |l|;
            && w == t + (l + (content + rest)) && w[|t|..] == l + (content + rest)
            && w[n..n + |content|] == content && w[..n + |content|] == t + l + content
  {
  }

  /** Decoding by the sizes of type and length. */
  lemma DecodeFramed(w: seq<Byte>, typ: TlvType, typeSize: nat, length: nat, lengthSize: nat)
    requires DecodeVarNum(w) == Ok((typ, typeSize)) && typeSize < |w|
    requires DecodeVarNum(w[typeSize..]) == Ok((length, lengthSize))
    requires typeSize + lengthSize + length < WIDTH && typeSize + lengthSize + length <= |w|
    ensures var header := typeSize + lengthSize;
            DecodeBlock(w) == Ok(Decoded(typ, w[header..header + length], w[..header + length]))
  {
  }

  // ---------- round trips ----------

  lemma WireBack(t: Tree, rest: seq<Byte>)
    requires Encodable(t)
    ensures DecodeBlock(WireOf(t) + rest) == Ok(Decoded(t.typ, Content(t), WireOf(t)))
  {
    FrameBack(t.typ, Content(t), rest);
  }

  function Blocks(subs: seq<Tree>): (ds: seq<Decoded>)
    ensures |ds| == |subs|
    ensures forall i :: 0 <= i < |subs| ==> ds[i] == Decoded(subs[i].typ, Content(subs[i]), WireOf(subs[i]))
  {
    if subs == [] then [] else [Decoded(subs[0].typ, Content(subs[0]), WireOf(subs[0]))] + Blocks(subs[1..])
  }

  /** The value of a node parses into its subelements. */
  lemma {:induction false} ParseBack(subs: seq<Tree>)
    requires forall i :: 0 <= i < |subs| ==> Encodable(subs[i])
    ensures ParseAll(Wires(subs)) == Parsed(Blocks(subs), None)
  {
    if subs != [] {
      WireBack(subs[0], Wires(subs[1..]));
      assert Wires(subs)[|WireOf(subs[0])|..] == Wires(subs[1..]);
      ParseBack(subs[1..]);
    }
  }

  /** Decoding, and parsing wherever the tree has subelements. */
  function Rebuild(shape: Tree, w: seq<Byte>): Result<Tree>
    decreases shape, 0
  {
    match DecodeBlock(w)
    case Err(e) => Err(e)
    case Ok(d) =>
      match shape
      case Leaf(_, _) => Ok(Leaf(d.typ, d.value))
      case Node(_, subs) =>
        var parsed := ParseAll(d.value);
        if parsed.error.Some? then Err(parsed.error.value)
        else if |parsed.blocks| != |subs| then Err(BufferTooShort)
        else
          match RebuildAll(subs, parsed.blocks)
          case Err(e) => Err(e)
          case Ok(ts) => Ok(Node(d.typ, ts))
  }

  function RebuildAll(shapes: seq<Tree>, ds: seq<Decoded>): Result<seq<Tree>>
    requires |shapes| == |ds|
    decreases shapes, 1
  {
    if shapes == [] then Ok([])
    else
      match Rebuild(shapes[0], ds[0].wire)
      case Err(e) => Err(e)
      case Ok(t) =>
        match RebuildAll(shapes[1..], ds[1..])
        case Err(e) => Err(e)
        case Ok(ts) => Ok([t] + ts)
  }

  /** The nested round trip: encoding a whole tree and decoding it, level by level, gives the tree
      back, whatever follows it on the wire. */
  lemma {:induction false} TreeBack(t: Tree, rest: seq<Byte>)
    requires Encodable(t)
    ensures Rebuild(t, WireOf(t) + rest) == Ok(t)
    decreases t, 0
  {
    WireBack(t, rest);
    if t.Node? {
      ParseBack(t.subs);
      TreesBack(t.subs);
    }
  }

  lemma {:induction false} TreesBack(subs: seq<Tree>)
    requires forall i :: 0 <= i < |subs| ==> Encodable(subs[i])
    ensures RebuildAll(subs, Blocks(subs)) == Ok(subs)
    decreases subs, 1
  {
    if subs != [] {
      TreeBack(subs[0], []);
      assert WireOf(subs[0]) + [] == WireOf(subs[0]);
      TreesBack(subs[1..]);
      assert Blocks(subs)[1..] == Blocks(subs[1..]);
      assert [subs[0]] + subs[1..] == subs;
    }
  }

  /** Trees with the same encoding, whatever follows it, have the same type and content, and the same
      follows. */
  lemma WireTells(t: Tree, rest: seq<Byte>, t': Tree, rest': seq<Byte>)
    requires Encodable(t) && Encodable(t') && WireOf(t) + rest == WireOf(t') + rest'
    ensures t.typ == t'.typ && Content(t) == Content(t') && rest == rest'
  {
    WireBack(t, rest);
    WireBack(t', rest');
    assert rest == (WireOf(t) + rest)[|WireOf(t)|..];
    assert rest' == (WireOf(t') + rest')[|WireOf(t')|..];
  }

  // ---------- parsing without loss ----------

  function Joined(ds: seq<Decoded>): seq<Byte> {
    if ds == [] then [] else ds[0].wire + Joined(ds[1..])
  }

  /** However numbers are encoded in it, a value that parses is its subelements' bytes, one after
      the other, and each of these decodes, on its own, to the subelement. With an error, the bytes
      from there on are missing, and there are some. */
  lemma {:induction false} ParseKeeps(value: seq<Byte>)
    ensures var parsed := ParseAll(value);
            && Joined(parsed.blocks) <= value && (parsed.error == None <==> Joined(parsed.blocks) == value)
            && forall d :: d in parsed.blocks ==> DecodeBlock(d.wire) == Ok(d)
    decreases |value|
  {
    if value != [] && DecodeBlock(value).Ok? {
      var d := DecodeBlock(value).value;
      var rest := value[|d.wire|..];
      var more := ParseAll(rest).blocks;
      ParseKeeps(rest);
      DecodeItself(value);
      assert ([d] + more)[1..] == more;
      assert value == d.wire + rest;
      assert (d.wire + Joined(more))[|d.wire|..] == Joined(more);
    }
  }

  /** A block decodes from its own bytes as it did from a longer input. */
  lemma DecodeItself(w: seq<Byte>)
    requires DecodeBlock(w).Ok?
    ensures DecodeBlock(DecodeBlock(w).value.wire) == DecodeBlock(w)
  {
    var d := DecodeBlock(w).value;
    var (typ, n) := DecodeVarNum(w).value;
    var (length, m) := DecodeVarNum(w[n..]).value;
    CutsOfFront(w, n, m, |d.wire|);
    DecodeVarNumReads(w, d.wire);
    DecodeVarNumReads(w[n..], d.wire[n..]);
    DecodeFramed(d.wire, typ, n, length, m);
  }

  lemma CutsOfFront(w: seq<Byte>, n: nat, m: nat, size: nat)
    requires n + m <= size <= |w|
    ensures var front := w[..size];
            && front[..n] == w[..n] && front[n..][..m] == w[n..][..m]
            && front[n + m..size] == w[n + m..size] && front[..size] == front
  {
  }

  /** What has been parsed, and what parsing the rest gives, make up the whole. */
  ghost predicate ParsedSoFar(value: seq<Byte>, pos: nat, done: seq<Decoded>) {
    pos <= |value| && ParseAll(value) == InFront(done, ParseAll(value[pos..]))
  }

  lemma ParsedNone(value: seq<Byte>)
    ensures ParsedSoFar(value, 0, [])
  {
    assert value[0..] == value;
    assert [] + ParseAll(value).blocks == ParseAll(value).blocks;
  }

  lemma ParsedMore(value: seq<Byte>, pos: nat, done: seq<Decoded>)
    requires ParsedSoFar(value, pos, done) && pos < |value| && DecodeBlock(value[pos..]).Ok?
    ensures var d := DecodeBlock(value[pos..]).value;
            d.wire != [] && ParsedSoFar(value, pos + |d.wire|, done + [d])
  {
    var d := DecodeBlock(value[pos..]).value;
    DecodedWire(value[pos..]);
    assert value[pos..][|d.wire|..] == value[pos + |d.wire|..];
    var more := ParseAll(value[pos + |d.wire|..]).blocks;
    assert done + ([d] + more) == (done + [d]) + more;
  }

  lemma ParsedEnd(value: seq<Byte>, pos: nat, done: seq<Decoded>)
    requires ParsedSoFar(value, pos, done) && (pos == |value| || DecodeBlock(value[pos..]).Err?)
    ensures ParseAll(value) == Parsed(done, if pos == |value| then None else Some(DecodeBlock(value[pos..]).error))
  {
    assert done + [] == done;
  }

  // ---------- the size of a number's block ----------

  /** What GetNNIBlockSize computes. */
  function NniBlockSize(t: TlvType, v: UInt64): nat {
    VarSize(t) + NniSize(v)
  }

  /** It is always one less than the size that a number's block takes: the length is not counted. */
  lemma NniBlockSizeShort(t: TlvType, v: UInt64)
    ensures |Framed(t, EncodeNNI(v))| == NniBlockSize(t, v) + 1
  {
    VarNumBack(t, []);
  }
}
