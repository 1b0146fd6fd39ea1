/** The receive loop of a stream transport: a fixed buffer that cuts what comes in, read by read,
    into TLV blocks. Decoding a header looks beyond the received bytes, into what earlier reads
    have left in the buffer. */
module StreamReceiver {
  import opened Names
  import opened VarNum

  const MAX_PACKET_SIZE: nat := 8800

  // ---------- cutting, on sequences ----------

  /** What becomes of the bytes behind the last whole block: there are none, or they are kept from
      this place on, or they are dropped, or the loop breaks down (a slice with its end before its
      start, or no progress). */
  datatype Rest = Nothing | Keep(pos: nat) | Drop | Broken

  datatype Cut = Cut(frames: seq<seq<Byte>>, rest: Rest)

  function Before(frame: seq<Byte>, cut: Cut): Cut {
    cut.(frames := [frame] + cut.frames)
  }

  /** Where the block ends whose header is at a place of the buffer. */
  function BlockEnd(buf: seq<Byte>, pos: nat): Result<int>
    requires pos <= |buf|
  {
    match DecodeTypeLength(buf[pos..])
    case Err(e) => Err(e)
    case Ok(h) => Ok(Int64(pos + h.size))
  }

  /** The same for all places. */
  function Ends(buf: seq<Byte>): nat -> Result<int> {
    (pos: nat) => if pos <= |buf| then BlockEnd(buf, pos) else Err(TooShort)
  }

  /** Cuts the first `end` bytes of the buffer, from a place on; `ends` says where a block ends. */
  function CutWith(ends: nat -> Result<int>, buf: seq<Byte>, pos: nat, end: nat): Cut
    requires end <= |buf|
    decreases end - pos
  {
    if pos >= end then Cut([], Nothing)
    else
      match ends(pos)
      case Err(_) => Cut([], Drop)
      case Ok(next) =>
        if next > end then Cut([], Keep(pos))
        else if next <= pos then Cut([], Broken)
        else Before(buf[pos..next], CutWith(ends, buf, next, end))
  }

  function CutFrom(buf: seq<Byte>, pos: nat, end: nat): Cut
    requires end <= |buf|
  {
    CutWith(Ends(buf), buf, pos, end)
  }

  // ---------- blocks and streams ----------

  /** The number of bytes of a block's type and length. */
  function HeaderSize(w: seq<Byte>): nat
    requires DecodeTypeLength(w).Ok?
  {
    var typeSize := DecodeVarNum(w).value.1;
    typeSize + DecodeVarNum(w[typeSize..]).value.1
  }

  /** The bytes are one whole block of a permitted size. */
  ghost predicate IsBlock(w: seq<Byte>) {
    DecodeTypeLength(w).Ok? && DecodeTypeLength(w).value.size == |w| <= MAX_PACKET_SIZE
  }

  ghost predicate AllBlocks(blocks: seq<seq<Byte>>) {
    forall w :: w in blocks ==> IsBlock(w)
  }

  function Joined(blocks: seq<seq<Byte>>): seq<Byte> {
    if blocks == [] then [] else blocks[0] + Joined(blocks[1..])
  }

  lemma HeaderFits(w: seq<Byte>)
    requires DecodeTypeLength(w).Ok?
    ensures 2 <= HeaderSize(w) <= |w|
  {
  }

  /** A header is decoded from its own bytes alone. */
  lemma HeaderReads(w: seq<Byte>, t: seq<Byte>)
    requires DecodeTypeLength(w).Ok? && |t| >= HeaderSize(w) && t[..HeaderSize(w)] == w[..HeaderSize(w)]
    ensures DecodeTypeLength(t) == DecodeTypeLength(w)
  {
    var n, m := DecodeVarNum(w).value.1, HeaderSize(w);
    assert t[..n] == t[..m][..n] == w[..m][..n] == w[..n];
    DecodeVarNumReads(w, t);
    assert t[n..][..m - n] == t[..m][n..] == w[..m][n..] == w[n..][..m - n];
    DecodeVarNumReads(w[n..], t[n..]);
  }

  // ---------- one read ----------

  /** The bytes are the beginning of a block that is not there as a whole; there may be none. */
  ghost predicate Begins(part: seq<Byte>, w: seq<Byte>) {
    part == [] || (IsBlock(w) && |part| < |w| && w[..|part|] == part)
  }

  /** Where the bytes behind the last whole block are kept: the header that is decoded there, from
      received and from older bytes, tells of a block that ends behind the received bytes. */
  predicate Waits(buf: seq<Byte>, pos: nat, end: nat)
    requires pos <= end <= |buf|
  {
    BlockEnd(buf, pos).Ok? && BlockEnd(buf, pos).value > end
  }

  lemma EndOfOne(buf: seq<Byte>, pos: nat, w: seq<Byte>)
    requires |buf| == MAX_PACKET_SIZE && IsBlock(w) && pos + |w| <= |buf| && buf[pos..pos + |w|] == w
    ensures Ends(buf)(pos) == Ok(pos + |w|)
  {
    HeaderFits(w);
    assert buf[pos..][..HeaderSize(w)] == buf[pos..pos + |w|][..HeaderSize(w)];
    HeaderReads(w, buf[pos..]);
  }

  /** The blocks end, one after the other, where `ends` says. */
  ghost predicate Meets(ends: nat -> Result<int>, pos: nat, blocks: seq<seq<Byte>>)
    decreases |blocks|
  {
    blocks == [] ||
    (blocks[0] != [] && ends(pos) == Ok(pos + |blocks[0]|) && Meets(ends, pos + |blocks[0]|, blocks[1..]))
  }

  lemma FirstBlock(buf: seq<Byte>, pos: nat, n: nat, blocks: seq<seq<Byte>>)
    requires pos <= n <= |buf| && blocks != [] && buf[pos..n] == Joined(blocks)
    ensures var next := pos + |blocks[0]|;
            && next <= n && buf[pos..next] == blocks[0]
            && buf[next..n] == Joined(blocks[1..]) && n == next + |Joined(blocks[1..])|
  {
    var w := blocks[0];
    assert buf[pos..pos + |w|] == buf[pos..n][..|w|];
    assert buf[pos + |w|..n] == buf[pos..n][|w|..];
  }

  lemma FirstIsBlock(blocks: seq<seq<Byte>>)
    requires AllBlocks(blocks) && blocks != []
    ensures IsBlock(blocks[0]) && blocks[0] != [] && AllBlocks(blocks[1..])
  {
    assert blocks[0] in blocks;
    HeaderFits(blocks[0]);
  }

  lemma {:induction false} EndsMeet(buf: seq<Byte>, pos: nat, blocks: seq<seq<Byte>>)
    requires |buf| == MAX_PACKET_SIZE && pos + |Joined(blocks)| <= |buf|
    requires AllBlocks(blocks) && buf[pos..pos + |Joined(blocks)|] == Joined(blocks)
    ensures Meets(Ends(buf), pos, blocks)
    decreases |blocks|
  {
    if blocks != [] {
      FirstIsBlock(blocks);
      FirstBlock(buf, pos, pos + |Joined(blocks)|, blocks);
      EndOfOne(buf, pos, blocks[0]);
      EndsMeet(buf, pos + |blocks[0]|, blocks[1..]);
    }
  }

  /** Whole blocks at the front are cut off one by one. */
  lemma {:induction false} CutBlocks(ends: nat -> Result<int>, buf: seq<Byte>, pos: nat, end: nat,
                                     blocks: seq<seq<Byte>>)
    requires end <= |buf| && pos + |Joined(blocks)| <= end && Meets(ends, pos, blocks)
    requires buf[pos..pos + |Joined(blocks)|] == Joined(blocks)
    ensures var rest := CutWith(ends, buf, pos + |Joined(blocks)|, end);
            CutWith(ends, buf, pos, end) == Cut(blocks + rest.frames, rest.rest)
    decreases |blocks|
  {
    var n := pos + |Joined(blocks)|;
    var rest := CutWith(ends, buf, n, end);
    if blocks == [] {
      assert blocks + rest.frames == rest.frames;
    } else {
      FirstBlock(buf, pos, n, blocks);
      CutBlocks(ends, buf, pos + |blocks[0]|, end, blocks[1..]);
      assert [blocks[0]] + (blocks[1..] + rest.frames) == blocks + rest.frames;
    }
  }

  /** Exactly when a read does what it should: all whole blocks are cut off, and the beginning of
      the next one is kept. */
  lemma ReadExact(buf: seq<Byte>, end: nat, blocks: seq<seq<Byte>>, part: seq<Byte>, w: seq<Byte>)
    requires end <= |buf| == MAX_PACKET_SIZE && buf[..end] == Joined(blocks) + part
    requires AllBlocks(blocks) && Begins(part, w)
    ensures CutFrom(buf, 0, end) == Cut(blocks, if part == [] then Nothing else Keep(end - |part|))
            <==> part == [] || Waits(buf, end - |part|, end)
  {
    var q := end - |part|;
    assert buf[0..q] == buf[..end][..q] == Joined(blocks);
    EndsMeet(buf, 0, blocks);
    CutBlocks(Ends(buf), buf, 0, end, blocks);
    CutTail(buf, q, end);
    ExactTail(blocks, CutFrom(buf, q, end), if part == [] then Nothing else Keep(q));
  }

  lemma CutTail(buf: seq<Byte>, pos: nat, end: nat)
    requires pos <= end <= |buf|
    ensures CutFrom(buf, pos, end) == Cut([], if pos == end then Nothing else Keep(pos))
            <==> pos == end || Waits(buf, pos, end)
  {
  }

  lemma ExactTail(blocks: seq<seq<Byte>>, tail: Cut, rest: Rest)
    ensures Cut(blocks + tail.frames, tail.rest) == Cut(blocks, rest) <==> tail == Cut([], rest)
  {
    if blocks + tail.frames == blocks {
      assert |tail.frames| == 0;
    }
  }

  /** A beginning that has the whole header is always kept. */
  lemma HeaderWaits(buf: seq<Byte>, end: nat, part: seq<Byte>, w: seq<Byte>)
    requires |part| <= end <= |buf| == MAX_PACKET_SIZE && buf[end - |part|..end] == part
    requires part != [] && Begins(part, w) && |part| >= HeaderSize(w)
    ensures Waits(buf, end - |part|, end)
  {
    var q := end - |part|;
    assert buf[q..][..HeaderSize(w)] == buf[q..end][..HeaderSize(w)] == w[..HeaderSize(w)];
    HeaderReads(w, buf[q..]);
  }

  /** In a full buffer a beginning without the whole header is always dropped. */
  lemma FullBufferDrops(buf: seq<Byte>, part: seq<Byte>, w: seq<Byte>)
    requires |part| <= |buf| == MAX_PACKET_SIZE && buf[|buf| - |part|..] == part
    requires part != [] && Begins(part, w) && |part| < HeaderSize(w)
    ensures CutFrom(buf, |buf| - |part|, |buf|) == Cut([], Drop)
  {
    var n := DecodeVarNum(w).value.1;
    assert part[0] == w[0];
    if |part| > n {
      DecodeVarNumReads(w, part) by {
        assert part[..n] == w[..|part|][..n] == w[..n];
      }
      assert part[n..][0] == w[n..][0];
    }
  }

  /** A stream that loses a block this way: the first read brings one block of 8799 bytes and the
      first byte of another. */
  lemma SecondBlockDropped()
    ensures var first := [5, 0xFD, 0x22, 0x5B] + Zeros(8795);
            && AllBlocks([first, [6, 1, 0]])
            && CutFrom(first + [6], 0, MAX_PACKET_SIZE) == Cut([first], Drop)
  {
    var first, second: seq<Byte> := [5, 0xFD, 0x22, 0x5B] + Zeros(8795), [6, 1, 0];
    var buf, part := first + [6], second[..1];
    FirstHeader(first);
    assert DecodeVarNum(second) == Ok((6, 1)) && second[1..] == [1, 0] && DecodeVarNum([1, 0]) == Ok((1, 1));
    assert IsBlock(second) && HeaderSize(second) == 2;
    assert buf[|buf| - 1..] == part == [6];
    FullBufferDrops(buf, part, second);
    assert buf[0..|first|] == first;
    EndOfOne(buf, 0, first);
    assert CutFrom(buf, 0, |buf|) == Before(first, CutFrom(buf, |first|, |buf|));
  }

  lemma FirstHeader(w: seq<Byte>)
    requires w == [5, 0xFD, 0x22, 0x5B] + Zeros(8795)
    ensures IsBlock(w) && |w| == 8799
  {
    var behind := w[1..];
    assert DecodeVarNum(w) == Ok((5, 1));
    var two := behind[1..3];
    assert w[1] == 0xFD && w[2] == 0x22 && w[3] == 0x5B;
    assert behind[0] == 0xFD && |two| == 2 && two[0] == 0x22 && two[1] == 0x5B;
    TwoBytes(two);
    assert DecodeVarNum(behind) == Ok((8795, 3));
  }

  lemma TwoBytes(s: seq<Byte>)
    requires |s| == 2
    ensures BigEndian(s) == (s[0] as int) * 256 + s[1] as int
  {
    var t := s[..1];
    assert t[..0] == [] && BigEndian(t[..0]) == 0 && BigEndian(t) == s[0];
  }

  /** The header that is decoded here tells of an end that is not behind the start: with the size of the
      header the length is at most 2^64, and the end would be at 2^63 or beyond. */
  predicate BreaksAt(buf: seq<Byte>, pos: nat)
    requires pos <= |buf|
  {
    DecodeTypeLength(buf[pos..]).Ok? &&
    var h := HeaderSize(buf[pos..]);
    HALF <= pos + h + LengthOf(buf[pos..]) && h + LengthOf(buf[pos..]) <= WIDTH
  }

  /** The length in a header, before it becomes a signed integer. */
  function LengthOf(w: seq<Byte>): UInt64
    requires DecodeTypeLength(w).Ok?
  {
    DecodeVarNum(w[DecodeVarNum(w).value.1..]).value.0
  }

  lemma EndNotBehind(buf: seq<Byte>, pos: nat)
    requires pos <= |buf| == MAX_PACKET_SIZE
    ensures BlockEnd(buf, pos).Ok? && BlockEnd(buf, pos).value <= pos <==> BreaksAt(buf, pos)
  {
    if DecodeTypeLength(buf[pos..]).Ok? {
      HeaderFits(buf[pos..]);
      SizeNotPositive(HeaderSize(buf[pos..]), LengthOf(buf[pos..]), pos);
    }
  }

  lemma SizeNotPositive(h: nat, length: UInt64, pos: nat)
    requires 2 <= h <= MAX_PACKET_SIZE && pos <= MAX_PACKET_SIZE
    ensures Int64(pos + Int64(h + Int64(length))) <= pos <==> HALF <= pos + h + length && h + length <= WIDTH
  {
  }

  /** Exactly when the loop breaks down (a slice with its end before its start, or no progress) behind
      some whole blocks. */
  lemma ReadBreaks(buf: seq<Byte>, end: nat, blocks: seq<seq<Byte>>, part: seq<Byte>)
    requires end <= |buf| == MAX_PACKET_SIZE && buf[..end] == Joined(blocks) + part && AllBlocks(blocks)
    ensures CutFrom(buf, 0, end) == Cut(blocks, Broken) <==> part != [] && BreaksAt(buf, end - |part|)
  {
    var q := end - |part|;
    assert buf[0..q] == buf[..end][..q] == Joined(blocks);
    EndsMeet(buf, 0, blocks);
    CutBlocks(Ends(buf), buf, 0, end, blocks);
    BrokenTail(buf, q, end);
    ExactTail(blocks, CutFrom(buf, q, end), Broken);
  }

  lemma BrokenTail(buf: seq<Byte>, pos: nat, end: nat)
    requires pos <= end <= |buf| == MAX_PACKET_SIZE
    ensures CutFrom(buf, pos, end) == Cut([], Broken) <==> pos < end && BreaksAt(buf, pos)
  {
    EndNotBehind(buf, pos);
  }

  /** Ten bytes that break the loop down: a length of 2^64 - 10, which makes the block of no size. */
  lemma BytesThatBreak(buf: seq<Byte>)
    requires |buf| == MAX_PACKET_SIZE && buf[..10] == [5, 0xFF, 0xFF, 0xFF, 0xFF, 0xFF, 0xFF, 0xFF, 0xFF, 0xF6]
    ensures CutFrom(buf, 0, 10) == Cut([], Broken)
  {
    var w := [5, 0xFF, 0xFF, 0xFF, 0xFF, 0xFF, 0xFF, 0xFF, 0xFF, 0xF6];
    LengthOfBytes(w);
    assert buf[0..] == buf && buf[..HeaderSize(w)] == w[..HeaderSize(w)];
    HeaderReads(w, buf);
    assert BlockEnd(buf, 0) == Ok(0);
    assert CutFrom(buf, 0, 10) == Cut([], Broken);
  }

  lemma {:induction false} Ones(s: seq<Byte>)
    requires forall i :: 0 <= i < |s| ==> s[i] == 0xFF
    ensures BigEndian(s) == Pow256(|s|) - 1
  {
    if s != [] {
      Ones(s[..|s| - 1]);
    }
  }

  lemma LengthOfBytes(w: seq<Byte>)
    requires w == [5, 0xFF, 0xFF, 0xFF, 0xFF, 0xFF, 0xFF, 0xFF, 0xFF, 0xF6]
    ensures DecodeTypeLength(w) == Ok(Header(5, -10, 0)) && HeaderSize(w) == 10
  {
    var behind := w[1..];
    assert DecodeVarNum(w) == Ok((5, 1)) && behind[0] == 0xFF && |behind| == 9;
    var eight := behind[1..9];
    Pows();
    Ones(eight[..7]);
    assert BigEndian(eight) == 256 * BigEndian(eight[..7]) + 0xF6;
    assert DecodeVarNum(behind) == Ok((WIDTH - 10, 9));
  }

  // ---------- runs of reads ----------

  /** How many blocks are whole within the first n bytes, and how many bytes are left behind them. */
  function Taken(blocks: seq<seq<Byte>>, n: nat): (k: nat)
    ensures k <= |blocks|
  {
    if blocks == [] || n < |blocks[0]| then 0 else 1 + Taken(blocks[1..], n - |blocks[0]|)
  }

  function Left(blocks: seq<seq<Byte>>, n: nat): (r: nat)
    ensures r <= n
  {
    if blocks == [] || n < |blocks[0]| then n else Left(blocks[1..], n - |blocks[0]|)
  }

  /** The first n bytes are the blocks that are whole, and the beginning of the next one. */
  lemma TakenAndLeft(blocks: seq<seq<Byte>>, n: nat)
    requires n <= |Joined(blocks)| && AllBlocks(blocks)
    ensures var k, r := Taken(blocks, n), Left(blocks, n);
            && r <= |Joined(blocks[k..])|
            && Joined(blocks)[..n] == Joined(blocks[..k]) + Joined(blocks[k..])[..r]
            && (r > 0 ==> k < |blocks| && Begins(Joined(blocks[k..])[..r], blocks[k]))
  {
    var k, r := Taken(blocks, n), Left(blocks, n);
    TakenBytes(blocks, n);
    JoinSplit(blocks, k);
    if r > 0 {
      assert blocks[k] in blocks && blocks[k..][0] == blocks[k];
      assert Joined(blocks[k..])[..r] == blocks[k][..r];
    }
  }

  lemma {:induction false} TakenBytes(blocks: seq<seq<Byte>>, n: nat)
    requires n <= |Joined(blocks)|
    ensures var k, r := Taken(blocks, n), Left(blocks, n);
            |Joined(blocks[..k])| + r == n && (r > 0 ==> k < |blocks| && r < |blocks[k]|)
    decreases |blocks|
  {
    if blocks == [] || n < |blocks[0]| {
      assert blocks[..0] == [];
    } else {
      TakenBytes(blocks[1..], n - |blocks[0]|);
      var k := Taken(blocks, n);
      assert blocks[..k][1..] == blocks[1..][..k - 1];
      assert k < |blocks| ==> blocks[k] == blocks[1..][k - 1];
    }
  }

  /** Taking n bytes and then m more is taking n + m. */
  lemma {:induction false} TakenMore(blocks: seq<seq<Byte>>, n: nat, m: nat)
    ensures var k, r := Taken(blocks, n), Left(blocks, n);
            && Taken(blocks, n + m) == k + Taken(blocks[k..], r + m)
            && Left(blocks, n + m) == Left(blocks[k..], r + m)
    decreases |blocks|
  {
    var k := Taken(blocks, n);
    if blocks == [] || n < |blocks[0]| {
      assert blocks[0..] == blocks;
    } else {
      TakenMore(blocks[1..], n - |blocks[0]|, m);
      assert blocks[k..] == blocks[1..][k - 1..];
    }
  }

  // ---------- the receive loop ----------

  /** The buffer after the bytes from pos to end have been moved to its front. */
  function Moved(buf: seq<Byte>, pos: nat, end: nat): (s: seq<Byte>)
    requires pos <= end <= |buf|
    ensures |s| == |buf|
  {
    buf[pos..end] + buf[end - pos..]
  }

  /** The frames cut off so far, and what cutting the rest gives, make up the whole. */
  ghost predicate CutSoFar(ends: nat -> Result<int>, buf: seq<Byte>, pos: nat, end: nat, done: seq<seq<Byte>>)
    requires end <= |buf|
  {
    CutWith(ends, buf, 0, end) == Cut(done + CutWith(ends, buf, pos, end).frames, CutWith(ends, buf, pos, end).rest)
  }

  lemma CutGoesOn(ends: nat -> Result<int>, buf: seq<Byte>, pos: nat, end: nat, done: seq<seq<Byte>>, next: int)
    requires pos < end <= |buf| && CutSoFar(ends, buf, pos, end, done) && ends(pos) == Ok(next) && pos < next <= end
    ensures CutSoFar(ends, buf, next, end, done + [buf[pos..next]])
  {
    AppendThenPrepend(done, buf[pos..next], CutWith(ends, buf, next, end).frames);
  }

  lemma AppendThenPrepend<T>(s: seq<T>, x: T, t: seq<T>)
    ensures s + ([x] + t) == (s + [x]) + t
  {
  }

  lemma CutStarts(ends: nat -> Result<int>, buf: seq<Byte>, end: nat)
    requires end <= |buf|
    ensures CutSoFar(ends, buf, 0, end, [])
  {
    assert [] + CutWith(ends, buf, 0, end).frames == CutWith(ends, buf, 0, end).frames;
  }

  /** Where the cutting ends, the frames so far are all. */
  lemma CutEnds(ends: nat -> Result<int>, buf: seq<Byte>, pos: nat, end: nat, done: seq<seq<Byte>>, rest: Rest)
    requires pos <= end <= |buf| && CutSoFar(ends, buf, pos, end, done) && CutWith(ends, buf, pos, end) == Cut([], rest)
    ensures CutWith(ends, buf, 0, end) == Cut(done, rest)
  {
    assert done + [] == done;
  }

  /** `ends` is right for the buffer. */
  ghost predicate EndsOf(ends: nat -> Result<int>, buf: seq<Byte>) {
    forall pos: nat {:trigger BlockEnd(buf, pos)} :: pos <= |buf| ==> ends(pos) == BlockEnd(buf, pos)
  }

  /** The frames that were cut off have gone up; what is kept has moved to the front of the buffer. */
  ghost predicate Received(buf: seq<Byte>, end: nat, cut: Cut, before: seq<seq<Byte>>, frames: seq<seq<Byte>>,
                           start: nat, after: seq<Byte>, ok: bool)
  {
    && frames == before + cut.frames && ok == !cut.rest.Broken?
    && (cut.rest.Keep? ==>
          cut.rest.pos <= end <= |buf| && start == end - cut.rest.pos && after == Moved(buf, cut.rest.pos, end))
    && (cut.rest.Nothing? || cut.rest.Drop? ==> start == 0 && after == buf)
  }

  class UnixStreamTransport {
    const recvBuf: array<Byte>
    var startPos: nat
    /** The frames that went up to the link service. */
    var frames: seq<seq<Byte>>

    ghost predicate Valid()
      reads this
    {
      recvBuf.Length == MAX_PACKET_SIZE && startPos <= MAX_PACKET_SIZE
    }

    constructor ()
      ensures Valid() && fresh(recvBuf) && startPos == 0 && frames == []
    {
      recvBuf := new Byte[MAX_PACKET_SIZE](_ => 0);
      startPos, frames := 0, [];
    }

    /** One read from the socket, which gives no more bytes than the buffer has room for, and the
        cutting of the buffer. Gives false when the loop breaks down. */
    method Receive(chunk: seq<Byte>) returns (ok: bool)
      requires Valid() && startPos + |chunk| <= MAX_PACKET_SIZE
      modifies this`startPos, this`frames, recvBuf
      ensures Valid()
      ensures var buf := old(recvBuf[..startPos]) + chunk + old(recvBuf[startPos + |chunk|..]);
              var end := old(startPos) + |chunk|;
              Received(buf, end, CutFrom(buf, 0, end), old(frames), frames, startPos, recvBuf[..], ok)
    {
      ReadInto(chunk);
      ok := CutBuffer(Ends(recvBuf[..]));
    }

    /** The read itself, behind the bytes that are there. */
    method ReadInto(chunk: seq<Byte>)
      requires Valid() && startPos + |chunk| <= MAX_PACKET_SIZE
      modifies this`startPos, recvBuf
      ensures Valid() && startPos == old(startPos) + |chunk|
      ensures recvBuf[..] == old(recvBuf[..startPos]) + chunk + old(recvBuf[startPos + |chunk|..])
    {
      forall i | 0 <= i < |chunk| {
        recvBuf[startPos + i] := chunk[i];
      }
      startPos := startPos + |chunk|;
    }

    /** The loop over the blocks in the buffer. */
    method CutBuffer(ghost ends: nat -> Result<int>) returns (ok: bool)
      requires Valid() && EndsOf(ends, recvBuf[..])
      modifies this`startPos, this`frames, recvBuf
      ensures Valid()
      ensures Received(old(recvBuf[..]), old(startPos), CutWith(ends, old(recvBuf[..]), 0, old(startPos)),
                       old(frames), frames, startPos, recvBuf[..], ok)
    {
      var tlvPos: nat := 0;
      ghost var buf, end, done: seq<seq<Byte>> := recvBuf[..], startPos, [];
      CutStarts(ends, buf, end);
      while tlvPos < startPos
        invariant tlvPos <= startPos == end && recvBuf[..] == buf
        invariant frames == old(frames) + done && CutSoFar(ends, buf, tlvPos, end, done) == true
        decreases startPos - tlvPos
      {
        var next := NextEnd(tlvPos, buf, ends);
        if next.Err? {
          CutEnds(ends, buf, tlvPos, end, done, Drop);
          startPos := 0;
          return true;
        } else if startPos < next.value {
          CutEnds(ends, buf, tlvPos, end, done, Keep(tlvPos));
          MoveToFront(tlvPos);
          return true;
        } else if next.value <= tlvPos {
          CutEnds(ends, buf, tlvPos, end, done, Broken);
          return false;
        }
        CutGoesOn(ends, buf, tlvPos, end, done, next.value);
        done := done + [buf[tlvPos..next.value]];
        frames := frames + [recvBuf[tlvPos..next.value]];
        assert recvBuf[tlvPos..next.value] == buf[tlvPos..next.value] && frames == old(frames) + done;
        tlvPos := next.value;
      }
      CutEnds(ends, buf, tlvPos, end, done, Nothing);
      startPos := 0;
      ok := true;
    }

    /** Decodes the header at a place of the buffer. */
    method NextEnd(tlvPos: nat, ghost buf: seq<Byte>, ghost ends: nat -> Result<int>) returns (next: Result<int>)
      requires tlvPos <= recvBuf.Length && recvBuf[..] == buf && EndsOf(ends, buf)
      ensures next == ends(tlvPos)
    {
      next := BlockEnd(recvBuf[..], tlvPos);
    }

    method MoveToFront(tlvPos: nat)
      requires Valid() && tlvPos <= startPos
      modifies this`startPos, recvBuf
      ensures Valid() && startPos == old(startPos) - tlvPos
      ensures recvBuf[..] == Moved(old(recvBuf[..]), tlvPos, old(startPos))
    {
      if tlvPos > 0 {
        if startPos > tlvPos {
          var i: nat := 0;
          while i < startPos - tlvPos
            invariant tlvPos <= startPos == old(startPos) <= recvBuf.Length && i <= startPos - tlvPos
            invariant forall j :: 0 <= j < i ==> recvBuf[j] == old(recvBuf[tlvPos + j])
            invariant forall j :: i <= j < recvBuf.Length ==> recvBuf[j] == old(recvBuf[j])
          {
            recvBuf[i] := recvBuf[tlvPos + i];
            i := i + 1;
          }
        }
        assert recvBuf[..] == Moved(old(recvBuf[..]), tlvPos, startPos);
        startPos := startPos - tlvPos;
      } else {
        assert recvBuf[..] == Moved(recvBuf[..], 0, startPos);
      }
    }
  }

  // ---------- whole streams ----------

  /** Every read fits into the buffer behind what is left from before, and none ends within the
      type and length of a block. */
  ghost predicate ReadsWell(blocks: seq<seq<Byte>>, r: nat, chunks: seq<seq<Byte>>)
    decreases |chunks|
  {
    chunks == [] ||
    (var n := r + |chunks[0]|;
     var k, left := Taken(blocks, n), Left(blocks, n);
     n <= MAX_PACKET_SIZE && EndsWell(blocks, n) && ReadsWell(blocks[k..], left, chunks[1..]))
  }

  /** The n-th byte is not within the type and length of a block. */
  ghost predicate EndsWell(blocks: seq<seq<Byte>>, n: nat) {
    var k, left := Taken(blocks, n), Left(blocks, n);
    left > 0 ==> k < |blocks| && DecodeTypeLength(blocks[k]).Ok? && left >= HeaderSize(blocks[k])
  }

  /** After n bytes of the stream: the whole blocks have gone up, and the rest is at the front. It is an
      equation so that proofs take it over as a whole. */
  ghost predicate Arrived(frames: seq<seq<Byte>>, front: seq<Byte>, before: seq<seq<Byte>>, blocks: seq<seq<Byte>>,
                          n: nat)
  {
    ArrivedAt(frames, front, before, blocks, Taken(blocks, n), Left(blocks, n)) == true
  }

  ghost predicate ArrivedAt(frames: seq<seq<Byte>>, front: seq<Byte>, before: seq<seq<Byte>>, blocks: seq<seq<Byte>>,
                            k: nat, left: nat)
  {
    k <= |blocks| && frames == before + blocks[..k] && left <= |Joined(blocks[k..])|
        && front == Joined(blocks[k..])[..left]
  }

  /** What is at the front of the buffer and what is still to be read make up the beginning of the
      blocks, and the reads end well. */
  ghost predicate Expecting(front: seq<Byte>, chunks: seq<seq<Byte>>, blocks: seq<seq<Byte>>) {
    && AllBlocks(blocks) && Taken(blocks, |front|) == 0 && ReadsWell(blocks, |front|, chunks)
    && |front| + |Joined(chunks)| <= |Joined(blocks)|
    && front + Joined(chunks) == Joined(blocks)[..|front| + |Joined(chunks)|]
  }

  /** The same for one read. */
  ghost predicate ReadOk(front: seq<Byte>, chunk: seq<Byte>, blocks: seq<seq<Byte>>) {
    var n := |front| + |chunk|;
    AllBlocks(blocks) && n <= MAX_PACKET_SIZE && n <= |Joined(blocks)| && front + chunk == Joined(blocks)[..n]
        && EndsWell(blocks, n)
  }

  /** For a stream of blocks, however it is cut into reads, as long as no read ends within the type
      and length of a block: each block goes up, once, in order, as soon as it is whole, and the
      beginning of the next one stays at the front of the buffer. */
  method ReceiveStream(t: UnixStreamTransport, chunks: seq<seq<Byte>>, ghost blocks: seq<seq<Byte>>)
    requires t.Valid() && Expecting(t.recvBuf[..t.startPos], chunks, blocks)
    modifies t`startPos, t`frames, t.recvBuf
    ensures t.Valid()
    ensures Arrived(t.frames, t.recvBuf[..t.startPos], old(t.frames), blocks, old(t.startPos) + |Joined(chunks)|)
  {
    ReceiveChunks(t, chunks, blocks, t.recvBuf[..t.startPos], t.frames, t.startPos + |Joined(chunks)|);
  }

  /** The reads, one after the other; `front` and `before` are what was there, `total` is the number
      of bytes then. */
  method ReceiveChunks(t: UnixStreamTransport, chunks: seq<seq<Byte>>, ghost blocks: seq<seq<Byte>>,
                       ghost front: seq<Byte>, ghost before: seq<seq<Byte>>, ghost total: nat)
    requires t.Valid() && front == t.recvBuf[..t.startPos] && before == t.frames && total == |front| + |Joined(chunks)|
    requires Expecting(front, chunks, blocks)
    modifies t`startPos, t`frames, t.recvBuf
    ensures t.Valid() && Arrived(t.frames, t.recvBuf[..t.startPos], before, blocks, total)
    decreases |chunks|
  {
    if chunks == [] {
      NothingArrived(before, front, blocks, total);
    } else {
      ghost var n := |front| + |chunks[0]|;
      NextRead(front, chunks, blocks);
      ReceiveOne(t, chunks[0], blocks, front, before, n);
      ghost var front', frames' := t.recvBuf[..t.startPos], t.frames;
      ghost var later, left := AfterRead(front, chunks, blocks, before, frames', front', n);
      ReceiveChunks(t, chunks[1..], later, front', frames', left + |Joined(chunks[1..])|);
      ArrivedBoth(t.frames, t.recvBuf[..t.startPos], before, frames', blocks, n, |Joined(chunks[1..])|, later, left,
                  total);
    }
  }

  lemma NothingArrived(before: seq<seq<Byte>>, front: seq<Byte>, blocks: seq<seq<Byte>>, total: nat)
    requires Expecting(front, [], blocks) && total == |front|
    ensures Arrived(before, front, before, blocks, total)
  {
    NothingTaken(blocks, |front|);
    assert front + [] == front;
  }

  lemma NextRead(front: seq<Byte>, chunks: seq<seq<Byte>>, blocks: seq<seq<Byte>>)
    requires Expecting(front, chunks, blocks) && chunks != []
    ensures ReadOk(front, chunks[0], blocks)
  {
    assert |front + Joined(chunks)| == |front| + |Joined(chunks)| && |front + chunks[0]| == |front| + |chunks[0]|;
    FirstOfChunks(front, chunks, blocks);
  }

  lemma AfterRead(front: seq<Byte>, chunks: seq<seq<Byte>>, blocks: seq<seq<Byte>>, before: seq<seq<Byte>>,
                  frames: seq<seq<Byte>>, front': seq<Byte>, n: nat)
    returns (later: seq<seq<Byte>>, left: nat)
    requires Expecting(front, chunks, blocks) && chunks != [] && n == |front| + |chunks[0]|
    requires Arrived(frames, front', before, blocks, n)
    ensures later == blocks[Taken(blocks, n)..] && left == Left(blocks, n) == |front'|
    ensures frames == before + blocks[..Taken(blocks, n)]
    ensures Expecting(front', chunks[1..], later)
    ensures |Joined(chunks)| == |chunks[0]| + |Joined(chunks[1..])|
  {
    later, left := blocks[Taken(blocks, n)..], Left(blocks, n);
    assert |front + Joined(chunks)| == |front| + |Joined(chunks)| && |front + chunks[0]| == n;
    FirstOfChunks(front, chunks, blocks);
    OtherChunks(front, chunks[0], Joined(chunks[1..]), blocks, later, left);
  }

  lemma ArrivedBoth(frames: seq<seq<Byte>>, front: seq<Byte>, before: seq<seq<Byte>>, between: seq<seq<Byte>>,
                    blocks: seq<seq<Byte>>, n: nat, m: nat, later: seq<seq<Byte>>, left: nat, total: nat)
    requires later == blocks[Taken(blocks, n)..] && left == Left(blocks, n) && total == n + m
    requires between == before + blocks[..Taken(blocks, n)] && Arrived(frames, front, between, later, left + m)
    ensures Arrived(frames, front, before, blocks, total)
  {
    var k, j, l := TakenTotal(blocks, n, m, later, left, total);
    ArrivedIs(frames, front, between, later, left + m, j, l);
    ArrivedInTwo(frames, front, before, blocks, k, j, l);
    ArrivedIs(frames, front, before, blocks, total, k + j, l);
  }

  lemma TakenTotal(blocks: seq<seq<Byte>>, n: nat, m: nat, later: seq<seq<Byte>>, left: nat, total: nat)
    returns (k: nat, j: nat, l: nat)
    requires later == blocks[Taken(blocks, n)..] && left == Left(blocks, n) && total == n + m
    ensures k == Taken(blocks, n) && j == Taken(later, left + m) && l == Left(later, left + m)
    ensures Taken(blocks, total) == k + j && Left(blocks, total) == l
  {
    TakenMore(blocks, n, m);
    k, j, l := Taken(blocks, n), Taken(later, left + m), Left(later, left + m);
  }

  lemma ArrivedIs(frames: seq<seq<Byte>>, front: seq<Byte>, before: seq<seq<Byte>>, blocks: seq<seq<Byte>>,
                  n: nat, k: nat, left: nat)
    requires k == Taken(blocks, n) && left == Left(blocks, n)
    ensures Arrived(frames, front, before, blocks, n) == ArrivedAt(frames, front, before, blocks, k, left)
  {
  }

  lemma ArrivedInTwo(frames: seq<seq<Byte>>, front: seq<Byte>, before: seq<seq<Byte>>, blocks: seq<seq<Byte>>, k: nat,
                     j: nat, left: nat)
    requires k <= |blocks| && ArrivedAt(frames, front, before + blocks[..k], blocks[k..], j, left)
    ensures ArrivedAt(frames, front, before, blocks, k + j, left)
  {
    TakenInTwo(before, blocks, k, j);
  }

  lemma NothingTaken(blocks: seq<seq<Byte>>, n: nat)
    requires Taken(blocks, n) == 0
    ensures Left(blocks, n) == n && blocks[..0] == [] && blocks[0..] == blocks
  {
  }

  lemma TakenInTwo<T>(before: seq<T>, blocks: seq<T>, k: nat, j: nat)
    requires k + j <= |blocks|
    ensures (before + blocks[..k]) + blocks[k..][..j] == before + blocks[..k + j]
    ensures blocks[k..][j..] == blocks[k + j..]
  {
  }

  /** One read that ends well. */
  method ReceiveOne(t: UnixStreamTransport, chunk: seq<Byte>, ghost blocks: seq<seq<Byte>>,
                    ghost front: seq<Byte>, ghost before: seq<seq<Byte>>, ghost n: nat)
    requires t.Valid() && front == t.recvBuf[..t.startPos] && before == t.frames && n == |front| + |chunk|
    requires ReadOk(front, chunk, blocks)
    modifies t`startPos, t`frames, t.recvBuf
    ensures t.Valid() && Arrived(t.frames, t.recvBuf[..t.startPos], before, blocks, n)
  {
    ghost var buf := front + chunk + t.recvBuf[n..];
    assert buf[..n] == front + chunk;
    var ok := t.Receive(chunk);
    ReadArrives(buf, n, blocks, before, t.frames, t.startPos, t.recvBuf[..], ok);
    assert t.recvBuf[..t.startPos] == t.recvBuf[..][..t.startPos];
  }

  lemma ReadArrives(buf: seq<Byte>, n: nat, blocks: seq<seq<Byte>>, before: seq<seq<Byte>>, frames: seq<seq<Byte>>,
                    start: nat, after: seq<Byte>, ok: bool)
    requires n <= |buf| == MAX_PACKET_SIZE && n <= |Joined(blocks)| && buf[..n] == Joined(blocks)[..n]
    requires AllBlocks(blocks) && EndsWell(blocks, n)
    requires Received(buf, n, CutFrom(buf, 0, n), before, frames, start, after, ok)
    ensures start <= |after| && Arrived(frames, after[..start], before, blocks, n)
  {
    OneRead(buf, n, blocks);
    var left := Left(blocks, n);
    assert left > 0 ==> after[..left] == buf[n - left..n];
  }

  lemma {:induction false} JoinSplit(blocks: seq<seq<Byte>>, k: nat)
    requires k <= |blocks|
    ensures Joined(blocks) == Joined(blocks[..k]) + Joined(blocks[k..])
  {
    if k > 0 {
      JoinSplit(blocks[1..], k - 1);
      assert blocks[..k][1..] == blocks[1..][..k - 1] && blocks[k..] == blocks[1..][k - 1..];
    } else {
      assert blocks[..0] == [] && blocks[0..] == blocks;
    }
  }

  lemma FirstOfChunks(front: seq<Byte>, chunks: seq<seq<Byte>>, blocks: seq<seq<Byte>>)
    requires chunks != [] && |front + Joined(chunks)| <= |Joined(blocks)|
    requires front + Joined(chunks) == Joined(blocks)[..|front + Joined(chunks)|]
    ensures front + chunks[0] == Joined(blocks)[..|front + chunks[0]|]
    ensures Joined(chunks) == chunks[0] + Joined(chunks[1..])
    ensures front + Joined(chunks) == (front + chunks[0]) + Joined(chunks[1..])
  {
    assert front + chunks[0] == (front + Joined(chunks))[..|front + chunks[0]|];
  }

  /** After a read, what is left of it and the chunks that follow are the beginning of the blocks
      that are still to come. */
  lemma OtherChunks(front: seq<Byte>, chunk: seq<Byte>, more: seq<Byte>, blocks: seq<seq<Byte>>,
                    later: seq<seq<Byte>>, left: nat)
    requires |front + chunk| + |more| <= |Joined(blocks)| && AllBlocks(blocks)
    requires (front + chunk) + more == Joined(blocks)[..|front + chunk| + |more|]
    requires later == blocks[Taken(blocks, |front + chunk|)..] && left == Left(blocks, |front + chunk|)
    ensures left + |more| <= |Joined(later)| && Taken(later, left) == 0 && AllBlocks(later)
    ensures Joined(later)[..left] + more == Joined(later)[..left + |more|]
  {
    TailOfBlocks(blocks, |front + chunk|);
    BehindEnd(Joined(blocks), front + chunk, more, left, Joined(later));
  }

  /** Behind the blocks that are whole in the first bytes come the others. */
  lemma TailOfBlocks(blocks: seq<seq<Byte>>, end: nat)
    requires end <= |Joined(blocks)| && AllBlocks(blocks)
    ensures var k, left := Taken(blocks, end), Left(blocks, end);
            Joined(blocks)[end - left..] == Joined(blocks[k..]) && Taken(blocks[k..], left) == 0
  {
    var k := Taken(blocks, end);
    TakenAndLeft(blocks, end);
    JoinSplit(blocks, k);
    TakenMore(blocks, end, 0);
    assert |Joined(blocks[..k])| == end - Left(blocks, end);
  }

  lemma BehindEnd(all: seq<Byte>, s: seq<Byte>, more: seq<Byte>, left: nat, tail: seq<Byte>)
    requires left <= |s| && |s + more| <= |all| && s + more == all[..|s + more|] && tail == all[|s| - left..]
    ensures left + |more| <= |tail| && tail[..left] + more == tail[..left + |more|]
  {
    assert more == (s + more)[|s|..] == all[|s|..|s + more|];
    assert tail[left..left + |more|] == all[|s|..|s + more|];
  }

  /** What one read does that ends well: `end` bytes of the stream are in the buffer. */
  lemma OneRead(buf: seq<Byte>, end: nat, blocks: seq<seq<Byte>>)
    requires end <= |buf| == MAX_PACKET_SIZE && end <= |Joined(blocks)| && buf[..end] == Joined(blocks)[..end]
    requires AllBlocks(blocks) && EndsWell(blocks, end)
    ensures var k, left := Taken(blocks, end), Left(blocks, end);
            && CutFrom(buf, 0, end) == Cut(blocks[..k], if left == 0 then Nothing else Keep(end - left))
            && left <= |Joined(blocks[k..])| && buf[end - left..end] == Joined(blocks[k..])[..left]
  {
    var k, left := Taken(blocks, end), Left(blocks, end);
    TakenAndLeft(blocks, end);
    var part := Joined(blocks[k..])[..left];
    var w := if left == 0 then [] else blocks[k];
    assert buf[end - left..end] == buf[..end][end - left..] == part;
    ReadExact(buf, end, blocks[..k], part, w);
    if left > 0 {
      HeaderWaits(buf, end, part, w);
    }
  }
}
