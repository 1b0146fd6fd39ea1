/** TLV block objects: a type, a value or subelements, and a cached encoding. Blocks may share
    subelements, and know nothing of the blocks that they are inside of. */
module BlockObjects {
  import opened Names
  import opened VarNum
  import opened TlvBlock

  // ---------- graphs of blocks ----------

  datatype State = State(typ: TlvType, value: seq<Byte>, subs: seq<Block>, wire: seq<Byte>)

  /** What some blocks hold. */
  type Graph = map<Block, State>

  ghost predicate SubsOk(g: Graph, rank: Block -> nat, b: Block)
    requires b in g
  {
    forall c :: c in g[b].subs ==> c in g && rank(c) < rank(b)
  }

  /** Subelements are in the graph too, and rank below: no block is inside itself. */
  ghost predicate Ranked(g: Graph, rank: Block -> nat) {
    forall b {:trigger SubsOk(g, rank, b)} :: b in g ==> SubsOk(g, rank, b)
  }

  /** All parts, one behind the other. */
  function Front(parts: seq<seq<Byte>>): seq<Byte> {
    if parts == [] then [] else parts[0] + Front(parts[1..])
  }

  lemma {:induction false} FrontMore(parts: seq<seq<Byte>>, part: seq<Byte>)
    ensures Front(parts + [part]) == Front(parts) + part
  {
    if parts == [] {
      assert (parts + [part])[1..] == [] && part + [] == part;
    } else {
      assert (parts + [part])[1..] == parts[1..] + [part];
      FrontMore(parts[1..], part);
    }
  }

  /** The encoding of a block: from its cache and those below it, or regardless of all caches. */
  ghost function Enc(g: Graph, rank: Block -> nat, b: Block, cached: bool): (w: seq<Byte>)
    requires Ranked(g, rank) && b in g
    ensures w != []
    decreases rank(b), 2
  {
    if cached && g[b].wire != [] then g[b].wire else Framed(g[b].typ, Inner(g, rank, b, cached))
  }

  ghost function Parts(g: Graph, rank: Block -> nat, b: Block, cached: bool): (parts: seq<seq<Byte>>)
    requires Ranked(g, rank) && b in g
    ensures |parts| == |g[b].subs|
    decreases rank(b), 0
  {
    assert SubsOk(g, rank, b);
    seq(|g[b].subs|, i requires 0 <= i < |g[b].subs| => Enc(g, rank, g[b].subs[i], cached))
  }

  /** What goes behind type and length. */
  ghost function Inner(g: Graph, rank: Block -> nat, b: Block, cached: bool): seq<Byte>
    requires Ranked(g, rank) && b in g
    decreases rank(b), 1
  {
    if g[b].subs == [] then g[b].value else Front(Parts(g, rank, b, cached))
  }

  /** The tree that a block stands for. */
  ghost function TreeOf(g: Graph, rank: Block -> nat, b: Block): (t: Tree)
    requires Ranked(g, rank) && b in g
    decreases rank(b), 2
  {
    if g[b].subs == [] then Leaf(g[b].typ, g[b].value) else Node(g[b].typ, Trees(g, rank, b))
  }

  ghost function Trees(g: Graph, rank: Block -> nat, b: Block): (ts: seq<Tree>)
    requires Ranked(g, rank) && b in g
    ensures |ts| == |g[b].subs|
    decreases rank(b), 0
  {
    assert SubsOk(g, rank, b);
    seq(|g[b].subs|, i requires 0 <= i < |g[b].subs| => TreeOf(g, rank, g[b].subs[i]))
  }

  lemma {:induction false} FrontWires(parts: seq<seq<Byte>>, subs: seq<Tree>)
    requires |parts| == |subs| && forall i :: 0 <= i < |subs| ==> parts[i] == WireOf(subs[i])
    ensures Front(parts) == Wires(subs)
  {
    if subs != [] {
      FrontWires(parts[1..], subs[1..]);
    }
  }

  /** Regardless of caches, the encoding is that of the tree. */
  lemma {:induction false} BareIsTree(g: Graph, rank: Block -> nat, b: Block)
    requires Ranked(g, rank) && b in g
    ensures Enc(g, rank, b, false) == WireOf(TreeOf(g, rank, b))
    decreases rank(b)
  {
    assert SubsOk(g, rank, b);
    if g[b].subs != [] {
      var parts, ts := Parts(g, rank, b, false), Trees(g, rank, b);
      forall i | 0 <= i < |ts| ensures parts[i] == WireOf(ts[i]) {
        BareIsTree(g, rank, g[b].subs[i]);
      }
      FrontWires(parts, ts);
    }
  }

  /** Caches hold what encoding would give without them. */
  ghost predicate Coherent(g: Graph, rank: Block -> nat)
    requires Ranked(g, rank)
  {
    forall b :: b in g ==> Enc(g, rank, b, true) == Enc(g, rank, b, false)
  }

  // ---------- filling caches ----------

  ghost predicate RefilledAt(g: Graph, g': Graph, rank: Block -> nat, b: Block)
    requires Ranked(g, rank) && b in g && b in g'
  {
    g'[b] == g[b] || (g[b].wire == [] && g'[b] == g[b].(wire := Enc(g, rank, b, true)))
  }

  /** Some blocks without a cached encoding have it now; nothing else is different. */
  ghost predicate Refilled(g: Graph, g': Graph, rank: Block -> nat)
    requires Ranked(g, rank)
  {
    g'.Keys == g.Keys && forall b {:trigger RefilledAt(g, g', rank, b)} :: b in g ==> RefilledAt(g, g', rank, b)
  }

  lemma RefilledRanked(g: Graph, g': Graph, rank: Block -> nat)
    requires Ranked(g, rank) && Refilled(g, g', rank)
    ensures Ranked(g', rank)
  {
    forall b | b in g ensures SubsOk(g', rank, b) {
      assert SubsOk(g, rank, b);
      assert RefilledAt(g, g', rank, b);
    }
  }

  lemma {:induction false} RefilledSame(g: Graph, g': Graph, rank: Block -> nat, b: Block, cached: bool)
    requires Ranked(g, rank) && Refilled(g, g', rank) && Ranked(g', rank) && b in g
    ensures Enc(g', rank, b, cached) == Enc(g, rank, b, cached)
    decreases rank(b)
  {
    assert RefilledAt(g, g', rank, b) && SubsOk(g, rank, b);
    var parts, parts' := Parts(g, rank, b, cached), Parts(g', rank, b, cached);
    forall i | 0 <= i < |parts| ensures parts'[i] == parts[i] {
      RefilledSame(g, g', rank, g[b].subs[i], cached);
    }
    assert parts' == parts;
  }

  lemma RefilledTwice(g: Graph, g': Graph, g'': Graph, rank: Block -> nat)
    requires Ranked(g, rank) && Refilled(g, g', rank) && Ranked(g', rank) && Refilled(g', g'', rank)
    ensures Refilled(g, g'', rank)
  {
    forall b | b in g ensures RefilledAt(g, g'', rank, b) {
      assert RefilledAt(g, g', rank, b) && RefilledAt(g', g'', rank, b);
      RefilledSame(g, g', rank, b, true);
    }
  }

  // ---------- changes and stale caches ----------

  /** The block is the other one, or outside of it. */
  ghost predicate Reaches(g: Graph, rank: Block -> nat, b: Block, c: Block)
    requires Ranked(g, rank) && b in g
    decreases rank(b)
  {
    assert SubsOk(g, rank, b);
    b == c || exists i :: 0 <= i < |g[b].subs| && Reaches(g, rank, g[b].subs[i], c)
  }

  /** On some way from the block down to the other one there is a cached encoding, before that one. */
  ghost predicate CachedOnWay(g: Graph, rank: Block -> nat, b: Block, c: Block)
    requires Ranked(g, rank) && b in g
    decreases rank(b)
  {
    assert SubsOk(g, rank, b);
    && b != c && Reaches(g, rank, b, c)
    && (g[b].wire != [] || exists i :: 0 <= i < |g[b].subs| && CachedOnWay(g, rank, g[b].subs[i], c))
  }

  /** One block has changed. */
  ghost predicate Changed(g: Graph, g': Graph, c: Block) {
    c in g && c in g' && g' == g[c := g'[c]]
  }

  lemma {:induction false} Outside(g: Graph, g': Graph, rank: Block -> nat, c: Block, b: Block, cached: bool)
    requires Ranked(g, rank) && Ranked(g', rank) && Changed(g, g', c)
    requires b in g && !Reaches(g', rank, b, c)
    ensures Enc(g', rank, b, cached) == Enc(g, rank, b, cached)
    decreases rank(b)
  {
    assert SubsOk(g', rank, b) && g'[b] == g[b];
    var parts, parts' := Parts(g, rank, b, cached), Parts(g', rank, b, cached);
    forall i | 0 <= i < |parts| ensures parts'[i] == parts[i] {
      Outside(g, g', rank, c, g[b].subs[i], cached);
    }
    assert parts' == parts;
  }

  /** A longer content makes a longer block, and blocks are the same only for the same content. */
  lemma FramedSame(typ: TlvType, x: seq<Byte>, y: seq<Byte>)
    requires Framed(typ, x) == Framed(typ, y)
    ensures x == y
  {
    var n, m := |EncodeVarNum(typ)| + |EncodeVarNum(|x|)|, |EncodeVarNum(typ)| + |EncodeVarNum(|y|)|;
    assert n + |x| == m + |y| && n == m;
    assert x == Framed(typ, x)[n..] && y == Framed(typ, y)[m..];
  }

  ghost predicate IsBlock(w: seq<Byte>) {
    exists typ: TlvType, content: seq<Byte> :: w == Framed(typ, content)
  }

  /** Blocks one behind the other are told apart. */
  lemma {:induction false} FrontTells(ps: seq<seq<Byte>>, qs: seq<seq<Byte>>)
    requires |ps| == |qs| && Front(ps) == Front(qs) && |Front(ps)| < WIDTH - 18
    requires forall i :: 0 <= i < |ps| ==> IsBlock(ps[i]) && IsBlock(qs[i])
    ensures ps == qs
  {
    if ps != [] {
      var p, q := ps[0], qs[0];
      FirstTells(p, Front(ps[1..]), q, Front(qs[1..]));
      FrontTells(ps[1..], qs[1..]);
      assert ps == [p] + ps[1..] && qs == [q] + qs[1..];
    }
  }

  lemma FirstTells(p: seq<Byte>, x: seq<Byte>, q: seq<Byte>, y: seq<Byte>)
    requires IsBlock(p) && IsBlock(q) && p + x == q + y && |p + x| < WIDTH - 18
    ensures p == q && x == y
  {
    var typ: TlvType, content: seq<Byte> :| p == Framed(typ, content);
    var typ': TlvType, content': seq<Byte> :| q == Framed(typ', content');
    FrameBack(typ, content, x);
    FrameBack(typ', content', y);
    assert x == (p + x)[|p|..] && y == (q + y)[|q|..];
  }

  /** No content is too long for a length of 64 bits. */
  ghost predicate Fits(g: Graph, rank: Block -> nat)
    requires Ranked(g, rank)
  {
    forall b :: b in g ==> |Inner(g, rank, b, false)| < WIDTH - 18
  }

  /** If one of the subelements is encoded differently, so is the block. */
  lemma PartsTell(typ: TlvType, ps: seq<seq<Byte>>, qs: seq<seq<Byte>>, i: nat)
    requires i < |ps| == |qs| && ps[i] != qs[i] && |Front(ps)| < WIDTH - 18
    requires forall j :: 0 <= j < |ps| ==> IsBlock(ps[j]) && IsBlock(qs[j])
    ensures Framed(typ, Front(ps)) != Framed(typ, Front(qs))
  {
    if Framed(typ, Front(ps)) == Framed(typ, Front(qs)) {
      FramedSame(typ, Front(ps), Front(qs));
      FrontTells(ps, qs);
      assert false;
    }
  }

  lemma BareBlocks(g: Graph, rank: Block -> nat, b: Block)
    requires Ranked(g, rank) && b in g
    ensures forall i :: 0 <= i < |g[b].subs| ==> IsBlock(Parts(g, rank, b, false)[i])
  {
    assert SubsOk(g, rank, b);
  }

  /** A block is encoded differently if one inside it is. */
  lemma {:induction false} ChangesOutside(g: Graph, g': Graph, rank: Block -> nat, c: Block, b: Block)
    requires Ranked(g, rank) && Ranked(g', rank) && Fits(g', rank) && Changed(g, g', c)
    requires Enc(g', rank, c, false) != Enc(g, rank, c, false)
    requires b in g && Reaches(g', rank, b, c)
    ensures Enc(g', rank, b, false) != Enc(g, rank, b, false)
    decreases rank(b)
  {
    assert SubsOk(g', rank, b);
    if b != c {
      assert g'[b] == g[b];
      var i :| 0 <= i < |g[b].subs| && Reaches(g', rank, g[b].subs[i], c);
      ChangesOutside(g, g', rank, c, g[b].subs[i]);
      BareBlocks(g, rank, b);
      BareBlocks(g', rank, b);
      PartsTell(g[b].typ, Parts(g', rank, b, false), Parts(g, rank, b, false), i);
    }
  }

  /** The block itself has no cached encoding after a change, and those inside it are as they were. */
  lemma ItselfFresh(g: Graph, g': Graph, rank: Block -> nat, c: Block)
    requires Ranked(g, rank) && Coherent(g, rank) && Ranked(g', rank)
    requires Changed(g, g', c) && g'[c].wire == []
    ensures Enc(g', rank, c, true) == Enc(g', rank, c, false)
  {
    var ps, qs := Parts(g', rank, c, true), Parts(g', rank, c, false);
    forall i | 0 <= i < |ps| ensures ps[i] == qs[i] {
      var d := g'[c].subs[i];
      assert SubsOk(g', rank, c);
      BelowReaches(g', rank, d, c);
      Outside(g, g', rank, c, d, true);
      Outside(g, g', rank, c, d, false);
    }
    assert ps == qs;
  }

  lemma {:induction false} BelowReaches(g: Graph, rank: Block -> nat, b: Block, c: Block)
    requires Ranked(g, rank) && b in g && rank(b) < rank(c)
    ensures !Reaches(g, rank, b, c)
    decreases rank(b)
  {
    assert SubsOk(g, rank, b);
    forall i | 0 <= i < |g[b].subs| ensures !Reaches(g, rank, g[b].subs[i], c) {
      BelowReaches(g, rank, g[b].subs[i], c);
    }
  }

  /** Where stale encodings come from. A block changes in such a way that its encoding is another
      one, and gives up its own cache. Then any block gets the encoding of its tree exactly if no
      block on the way from it down to the changed one has kept a cache. */
  lemma {:induction false} Stale(g: Graph, g': Graph, rank: Block -> nat, c: Block, b: Block)
    requires Ranked(g, rank) && Coherent(g, rank) && Ranked(g', rank) && Fits(g', rank)
    requires Changed(g, g', c) && g'[c].wire == []
    requires Enc(g', rank, c, false) != Enc(g, rank, c, false)
    requires b in g
    ensures Enc(g', rank, b, true) == WireOf(TreeOf(g', rank, b)) <==> !CachedOnWay(g', rank, b, c)
    decreases rank(b)
  {
    BareIsTree(g', rank, b);
    assert SubsOk(g', rank, b);
    if b == c {
      ItselfFresh(g, g', rank, c);
    } else if !Reaches(g', rank, b, c) {
      Outside(g, g', rank, c, b, true);
      Outside(g, g', rank, c, b, false);
    } else if g[b].wire != [] {
      ChangesOutside(g, g', rank, c, b);
      assert Enc(g, rank, b, true) == Enc(g, rank, b, false);
    } else {
      StaleParts(g, g', rank, c, b);
    }
  }

  lemma {:induction false} StaleParts(g: Graph, g': Graph, rank: Block -> nat, c: Block, b: Block)
    requires Ranked(g, rank) && Coherent(g, rank) && Ranked(g', rank) && Fits(g', rank)
    requires Changed(g, g', c) && g'[c].wire == []
    requires Enc(g', rank, c, false) != Enc(g, rank, c, false)
    requires b in g && b != c && g[b].wire == [] && Reaches(g', rank, b, c)
    ensures Enc(g', rank, b, true) == Enc(g', rank, b, false) <==> !CachedOnWay(g', rank, b, c)
    decreases rank(b), 0
  {
    assert SubsOk(g', rank, b) && g'[b] == g[b];
    var ps, qs := Parts(g', rank, b, true), Parts(g', rank, b, false);
    forall i | 0 <= i < |ps| ensures (ps[i] == qs[i] <==> !CachedOnWay(g', rank, g[b].subs[i], c)) && IsBlock(ps[i]) {
      var d := g[b].subs[i];
      Stale(g, g', rank, c, d);
      BareIsTree(g', rank, d);
      assert d != c ==> Enc(g, rank, d, true) == Enc(g, rank, d, false);
    }
    if i :| 0 <= i < |ps| && ps[i] != qs[i] {
      BareBlocks(g', rank, b);
      PartsTell(g[b].typ, qs, ps, i);
    } else {
      assert ps == qs;
    }
  }

  /** Where nothing is cached, nothing is stale. */
  lemma NothingCached(g: Graph, rank: Block -> nat)
    requires Ranked(g, rank) && forall b :: b in g ==> g[b].wire == []
    ensures Coherent(g, rank)
  {
    forall b | b in g ensures Enc(g, rank, b, true) == Enc(g, rank, b, false) {
      NoCache(g, rank, b);
    }
  }

  lemma {:induction false} NoCache(g: Graph, rank: Block -> nat, b: Block)
    requires Ranked(g, rank) && b in g && forall c :: c in g ==> g[c].wire == []
    ensures Enc(g, rank, b, true) == Enc(g, rank, b, false)
    decreases rank(b)
  {
    assert SubsOk(g, rank, b);
    var ps, qs := Parts(g, rank, b, true), Parts(g, rank, b, false);
    forall i | 0 <= i < |ps| ensures ps[i] == qs[i] {
      NoCache(g, rank, g[b].subs[i]);
    }
    assert ps == qs;
  }

  // ---------- block objects ----------

  class Block {
    var tlvType: TlvType
    var value: seq<Byte>
    var subelements: seq<Block>
    /** The cached encoding, or nothing. */
    var wire: seq<Byte>

    ghost function Holds(): State
      reads this
    {
      State(tlvType, value, subelements, wire)
    }

    constructor (tlvType: TlvType, value: seq<Byte>)
      ensures Holds() == State(tlvType, value, [], [])
    {
      this.tlvType, this.value, subelements, wire := tlvType, value, [], [];
    }

    constructor Decoding(d: Decoded)
      ensures Holds() == StateOf(d)
    {
      tlvType, value, subelements, wire := d.typ, d.value, [], d.wire;
    }

    // ---------- encoding ----------

    /** The encoding of the block: the cached one if there is one, else that of the type, the
        length and the value, or the encodings of the subelements. Caches on the way down are
        filled; nothing else changes. */
    method Wire(ghost blocks: set<Block>, ghost rank: Block -> nat) returns (w: seq<Byte>)
      requires Ranked(Snap(blocks), rank) && this in blocks
      modifies blocks`wire
      ensures w == wire == Enc(old(Snap(blocks)), rank, this, true) && w != []
      ensures Refilled(old(Snap(blocks)), Snap(blocks), rank)
      ensures OthersKept(blocks, rank, rank(this) + 1, old(Snap(blocks)))
      decreases rank(this), 1
    {
      ghost var g := Snap(blocks);
      RefilledNone(g, rank);
      if |wire| == 0 {
        var l, content: seq<Byte>;
        if |subelements| > 0 {
          l := WireAll(blocks, rank);
          content := JoinWires(Parts(g, rank, this, true));
        } else {
          l, content := |value|, value;
        }
        ghost var g' := Snap(blocks);
        assert RefilledAt(g, g', rank, this);
        wire := EncodeVarNum(tlvType) + EncodeVarNum(l) + content;
        assert Snap(blocks) == g'[this := Holds()];
        RefilledMore(g, g', Snap(blocks), rank, this);
      }
      w := wire;
    }

    /** The loop over the subelements, which fills their caches and adds up the lengths. */
    method WireAll(ghost blocks: set<Block>, ghost rank: Block -> nat) returns (l: nat)
      requires Ranked(Snap(blocks), rank) && this in blocks
      modifies blocks`wire
      ensures OthersKept(blocks, rank, rank(this), old(Snap(blocks)))
      ensures Refilled(old(Snap(blocks)), Snap(blocks), rank)
      ensures var parts := Parts(old(Snap(blocks)), rank, this, true);
              l == |Front(parts)| && forall i :: 0 <= i < |subelements| ==> subelements[i].wire == parts[i]
      decreases rank(this), 0, 1
    {
      ghost var g := Snap(blocks);
      ghost var parts := Parts(g, rank, this, true);
      assert SubsOk(g, rank, this);
      RefilledNone(g, rank);
      l := 0;
      var i := 0;
      while i < |subelements|
        invariant i <= |subelements| && OthersKept(blocks, rank, rank(this), g) && Refilled(g, Snap(blocks), rank)
        invariant l == |Front(parts[..i])|
        invariant forall j :: 0 <= j < i ==> subelements[j].wire == parts[j]
      {
        var elemWire := WireNext(blocks, rank, i, g, parts);
        FrontTo(parts, i);
        l := l + |elemWire|;
        i := i + 1;
      }
      assert parts[..i] == parts;
    }

    /** One round of the loop; `g` is what was there before it. */
    method WireNext(ghost blocks: set<Block>, ghost rank: Block -> nat, i: nat, ghost g: Graph,
                    ghost parts: seq<seq<Byte>>)
      returns (elemWire: seq<Byte>)
      requires this in blocks && Ranked(g, rank) && this in g && g[this].subs == subelements && i < |subelements|
      requires OthersKept(blocks, rank, rank(this), g) && Refilled(g, Snap(blocks), rank)
      requires parts == Parts(g, rank, this, true) && forall j :: 0 <= j < i ==> subelements[j].wire == parts[j]
      modifies blocks`wire
      ensures OthersKept(blocks, rank, rank(this), g) && Refilled(g, Snap(blocks), rank)
      ensures elemWire == parts[i] && forall j :: 0 <= j <= i ==> subelements[j].wire == parts[j]
      decreases rank(this), 0, 0
    {
      ghost var g' := Snap(blocks);
      assert SubsOk(g, rank, this);
      RefilledRanked(g, g', rank);
      elemWire := subelements[i].Wire(blocks, rank);
      RefilledSame(g, g', rank, subelements[i], true);
      RefilledTwice(g, g', Snap(blocks), rank);
      forall j | 0 <= j < i ensures subelements[j].wire == parts[j] {
        assert RefilledAt(g', Snap(blocks), rank, subelements[j]);
      }
    }

    method JoinWires(ghost parts: seq<seq<Byte>>) returns (bytes: seq<Byte>)
      requires |parts| == |subelements| && forall i :: 0 <= i < |subelements| ==> subelements[i].wire == parts[i]
      ensures bytes == Front(parts)
    {
      bytes := [];
      var i := 0;
      while i < |subelements|
        invariant i <= |subelements| && bytes == Front(parts[..i])
      {
        FrontTo(parts, i);
        bytes := bytes + subelements[i].wire;
        i := i + 1;
      }
      assert parts[..i] == parts;
    }

    // ---------- changing a block ----------

    method SetType(tlvType: TlvType)
      modifies this`tlvType, this`wire
      ensures Holds() == if old(this.tlvType) == tlvType then old(Holds()) else State(tlvType, value, subelements, [])
    {
      if this.tlvType != tlvType {
        this.tlvType := tlvType;
        wire := [];
      }
    }

    method SetValue(value: seq<Byte>)
      modifies this`value, this`wire
      ensures Holds() == if old(this.value) == value then old(Holds()) else State(tlvType, value, subelements, [])
    {
      if this.value != value {
        this.value := value;
        wire := [];
      }
    }

    method Append(block: Block)
      modifies this`subelements, this`wire
      ensures Holds() == old(State(tlvType, value, subelements + [block], []))
    {
      subelements := subelements + [block];
      wire := [];
    }

    method Clear()
      modifies this`subelements, this`wire
      ensures Holds() == if old(subelements) == [] then old(Holds()) else old(State(tlvType, value, [], []))
    {
      if |subelements| > 0 {
        subelements := [];
        wire := [];
      }
    }

    /** Turns the subelements into the value that they encode to. The block's encoding stays what it
        was. */
    method Encode(ghost blocks: set<Block>, ghost rank: Block -> nat)
      requires Ranked(Snap(blocks), rank) && this in blocks
      modifies this`value, this`subelements, blocks`wire
      ensures subelements == [] && value == old(Inner(Snap(blocks), rank, this, true)) && wire == old(wire)
      ensures forall b :: b in blocks && b != this ==> b.Holds().(wire := []) == old(b.Holds()).(wire := [])
      ensures Ranked(Snap(blocks), rank) && Enc(Snap(blocks), rank, this, true)
              == old(Enc(Snap(blocks), rank, this, true))
    {
      if |subelements| > 0 {
        ghost var g := Snap(blocks);
        var _ := WireAll(blocks, rank);
        ghost var g' := Snap(blocks);
        value := JoinWires(Parts(g, rank, this, true));
        subelements := [];
        assert Snap(blocks) == g'[this := Holds()];
        Flattened(g, g', Snap(blocks), rank, this);
      }
    }

    /** Parses the value into new subelements, each with its own bytes as cached encoding, up to an
        error. */
    method Parse() returns (error: Option<Error>)
      modifies this`subelements
      ensures error == ParseAll(value).error && ParsedInto(ParseAll(value).blocks)
      ensures forall b :: b in subelements ==> fresh(b)
    {
      var startPos := 0;
      subelements := [];
      ghost var done: seq<Decoded> := [];
      ParsedNone(value);
      while startPos < |value|
        invariant startPos <= |value| && value == old(value) && ParsedSoFar(value, startPos, done) == true
                  && ParsedInto(done)
        invariant forall b :: b in subelements ==> fresh(b)
        decreases |value| - startPos
      {
        error, startPos, done := ParseNext(startPos, value, done);
        if error.Some? {
          return;
        }
      }
      ParsedEnd(value, startPos, done);
      error := None;
    }

    /** One round of the loop. */
    method ParseNext(startPos: nat, value: seq<Byte>, ghost done: seq<Decoded>)
      returns (error: Option<Error>, next: nat, ghost done': seq<Decoded>)
      requires startPos < |value| && ParsedSoFar(value, startPos, done) == true && ParsedInto(done)
      modifies this`subelements
      ensures ParsedInto(done') && forall b :: b in subelements ==> b in old(subelements) || fresh(b)
      ensures error.Some? ==> ParseAll(value) == Parsed(done', error)
      ensures error.None? ==> startPos < next <= |value| && ParsedSoFar(value, next, done') == true
    {
      var block := DecodeBlock(value[startPos..]);
      if block.Err? {
        ParsedEnd(value, startPos, done);
        return Some(block.error), startPos, done;
      }
      ParsedMore(value, startPos, done);
      AddDecoded(block.value, done);
      return None, startPos + |block.value.wire|, done + [block.value];
    }

    method AddDecoded(d: Decoded, ghost done: seq<Decoded>)
      requires ParsedInto(done)
      modifies this`subelements
      ensures ParsedInto(done + [d]) && forall b :: b in subelements ==> b in old(subelements) || fresh(b)
    {
      var block := new Block.Decoding(d);
      subelements := subelements + [block];
    }

    ghost predicate ParsedInto(ds: seq<Decoded>)
      reads this, subelements
    {
      |subelements| == |ds| && forall i :: 0 <= i < |ds| ==> subelements[i].Holds() == StateOf(ds[i])
    }
  }

  lemma FrontTo(parts: seq<seq<Byte>>, i: nat)
    requires i < |parts|
    ensures Front(parts[..i + 1]) == Front(parts[..i]) + parts[i]
  {
    assert parts[..i + 1] == parts[..i] + [parts[i]];
    FrontMore(parts[..i], parts[i]);
  }

  lemma RefilledNone(g: Graph, rank: Block -> nat)
    requires Ranked(g, rank)
    ensures Refilled(g, g, rank)
  {
    assert forall b {:trigger RefilledAt(g, g, rank, b)} :: b in g ==> RefilledAt(g, g, rank, b);
  }

  lemma RefilledMore(g: Graph, g': Graph, g'': Graph, rank: Block -> nat, b: Block)
    requires Ranked(g, rank) && Refilled(g, g', rank) && b in g && g[b].wire == g'[b].wire == []
    requires g'' == g'[b := g'[b].(wire := Enc(g, rank, b, true))]
    ensures Refilled(g, g'', rank)
  {
    forall c | c in g ensures RefilledAt(g, g'', rank, c) {
      assert RefilledAt(g, g', rank, c);
    }
  }

  /** No block of this rank or a higher one has changed. */
  ghost predicate OthersKept(blocks: set<Block>, rank: Block -> nat, least: nat, g: Graph)
    reads blocks
  {
    forall b :: b in blocks && rank(b) >= least ==> b in g && b.Holds() == g[b]
  }

  ghost function StateOf(d: Decoded): State {
    State(d.typ, d.value, [], d.wire)
  }

  ghost function Snap(blocks: set<Block>): Graph
    reads blocks
  {
    map b | b in blocks :: b.Holds()
  }

  /** A block whose subelements have become its value is encoded as before. */
  lemma Flattened(g: Graph, g': Graph, g'': Graph, rank: Block -> nat, b: Block)
    requires Ranked(g, rank) && Refilled(g, g', rank) && b in g && g'[b] == g[b] && g[b].subs != []
    requires g'' == g'[b := State(g[b].typ, Inner(g, rank, b, true), [], g[b].wire)]
    ensures Ranked(g'', rank) && Enc(g'', rank, b, true) == Enc(g, rank, b, true)
    ensures forall c :: c in g && c != b ==> g''[c].(wire := []) == g[c].(wire := [])
  {
    RefilledRanked(g, g', rank);
    forall c | c in g'' ensures SubsOk(g'', rank, c) && (c != b ==> g''[c].(wire := []) == g[c].(wire := [])) {
      assert SubsOk(g', rank, c) && RefilledAt(g, g', rank, c);
    }
  }

  // ---------- parsed blocks ----------

  lemma {:induction false} JoinedFront(ds: seq<Decoded>, parts: seq<seq<Byte>>)
    requires |parts| == |ds| && forall i :: 0 <= i < |ds| ==> parts[i] == ds[i].wire
    ensures Front(parts) == Joined(ds)
  {
    if ds != [] {
      JoinedFront(ds[1..], parts[1..]);
    }
  }

  ghost predicate SubsHold(g: Graph, b: Block, ds: seq<Decoded>)
    requires b in g
  {
    |g[b].subs| == |ds| && forall i :: 0 <= i < |ds| ==> g[b].subs[i] in g && g[g[b].subs[i]] == StateOf(ds[i])
  }

  /** A block that has been parsed has the same content as before, in whatever forms its subelements
      encode their numbers, exactly if there was no error, or nothing in front of the error. Otherwise
      encoding it anew, without a cache, loses the end of its value. */
  lemma ParsedInner(g: Graph, rank: Block -> nat, b: Block)
    requires Ranked(g, rank) && b in g
    requires SubsHold(g, b, ParseAll(g[b].value).blocks)
    ensures var parsed := ParseAll(g[b].value);
            Inner(g, rank, b, true) == g[b].value <==> parsed.error == None || parsed.blocks == []
  {
    var value, ds := g[b].value, ParseAll(g[b].value).blocks;
    ParseKeeps(value);
    assert SubsOk(g, rank, b);
    var parts := Parts(g, rank, b, true);
    forall i | 0 <= i < |ds| ensures parts[i] == ds[i].wire {
      var d, sub := ds[i], g[b].subs[i];
      assert d in ds && DecodeBlock(d.wire) == Ok(d);
      DecodedWire(d.wire);
      assert Enc(g, rank, sub, true) == d.wire;
    }
    JoinedFront(ds, parts);
  }

  // ---------- round trip, and a stale encoding ----------

  /** Encoding a block and decoding the bytes gives its tree. */
  method EncodeAndDecode(b: Block, ghost blocks: set<Block>, ghost rank: Block -> nat) returns (w: seq<Byte>)
    requires Ranked(Snap(blocks), rank) && Coherent(Snap(blocks), rank) && b in blocks
    requires Encodable(TreeOf(Snap(blocks), rank, b))
    modifies blocks`wire
    ensures w == WireOf(old(TreeOf(Snap(blocks), rank, b)))
    ensures Rebuild(old(TreeOf(Snap(blocks), rank, b)), w) == Ok(old(TreeOf(Snap(blocks), rank, b)))
  {
    ghost var t := TreeOf(Snap(blocks), rank, b);
    BareIsTree(Snap(blocks), rank, b);
    w := b.Wire(blocks, rank);
    TreeBack(t, []);
    assert w + [] == w;
  }

  /** The same for blocks of which none has been encoded yet, in whatever order they were built. */
  method EncodeNewAndDecode(b: Block, ghost blocks: set<Block>, ghost rank: Block -> nat) returns (w: seq<Byte>)
    requires Ranked(Snap(blocks), rank) && b in blocks && forall x :: x in blocks ==> x.wire == []
    requires Encodable(TreeOf(Snap(blocks), rank, b))
    modifies blocks`wire
    ensures w == WireOf(old(TreeOf(Snap(blocks), rank, b)))
    ensures Rebuild(old(TreeOf(Snap(blocks), rank, b)), w) == Ok(old(TreeOf(Snap(blocks), rank, b)))
  {
    NothingCached(Snap(blocks), rank);
    w := EncodeAndDecode(b, blocks, rank);
  }

  lemma OneSub(g: Graph, rank: Block -> nat, b: Block, c: Block, cached: bool)
    requires Ranked(g, rank) && b in g && c in g && g[b].subs == [c]
    ensures Inner(g, rank, b, cached) == Enc(g, rank, c, cached)
  {
    var parts := Parts(g, rank, b, cached);
    assert SubsOk(g, rank, b) && g[b].subs[0] == c;
    assert parts[0] == Enc(g, rank, c, cached) && parts[1..] == [] && Front(parts[1..]) == [];
  }

  /** A block inside another, and one that is to go inside it. */
  ghost predicate Chain(g: Graph, p: Block, c: Block, d: Block) {
    && p in g && c in g && d in g && p != c && c != d && d != p
    && g[p].(wire := []) == State(1, [], [c], []) && g[c].(wire := []) == State(2, [], [], [])
       && g[d].(wire := []) == State(3, [], [], [])
  }

  /** Once the outer block is cached, an addition inside it does not get through. */
  lemma StaleChain(g: Graph, rank: Block -> nat, p: Block, c: Block, d: Block)
    requires Ranked(g, rank) && Chain(g, p, c, d) && g[p].wire == Framed(1, Framed(2, []))
    requires rank(p) > rank(c) > rank(d)
    ensures var g' := g[c := State(2, [], [d], [])];
            Ranked(g', rank) && Enc(g', rank, p, true) == g[p].wire != WireOf(TreeOf(g', rank, p))
  {
    var g' := g[c := State(2, [], [d], [])];
    forall b | b in g' ensures SubsOk(g', rank, b) {
      assert SubsOk(g, rank, b);
    }
    BareIsTree(g', rank, p);
    OneSub(g', rank, p, c, false);
    OneSub(g', rank, c, d, false);
    assert |Framed(3, [])| == 2 && |Framed(2, Framed(3, []))| == 4 && |Framed(2, [])| == 2;
  }

  lemma FreshChain(g: Graph, rank: Block -> nat, p: Block, c: Block, d: Block)
    requires Ranked(g, rank) && Chain(g, p, c, d) && g[p].wire == g[c].wire == []
    ensures Enc(g, rank, p, true) == Framed(1, Framed(2, []))
  {
    OneSub(g, rank, p, c, true);
  }

  lemma NestedWire()
    ensures WireOf(Node(1, [Node(2, [Leaf(3, [])])])) == Framed(1, Framed(2, Framed(3, []))) != Framed(1, Framed(2, []))
  {
    var inner := Leaf(3, []);
    var middle := Node(2, [inner]);
    assert Wires([inner]) == WireOf(inner) + Wires([]) == Framed(3, []);
    assert Wires([middle]) == WireOf(middle) + Wires([]) == Framed(2, Framed(3, []));
    assert |Framed(3, [])| == 2 && |Framed(2, Framed(3, []))| == 4 && |Framed(2, [])| == 2;
  }

  method BuildChain() returns (p: Block, c: Block, d: Block, ghost rank: Block -> nat)
    ensures fresh({p, c, d}) && Ranked(Snap({p, c, d}), rank) && rank(p) > rank(c) > rank(d)
    ensures Chain(Snap({p, c, d}), p, c, d) && p.wire == c.wire == []
  {
    p := new Block(1, []);
    c := new Block(2, []);
    d := new Block(3, []);
    var outer, inner := p, c;
    rank := x => if x == outer then 2 else if x == inner then 1 else 0;
    p.Append(c);
    ghost var g := Snap({p, c, d});
    forall b | b in g ensures SubsOk(g, rank, b) {}
  }

  /** A stale encoding: a block inside another one changes after that has been encoded, and the outer
      one goes on to give its old bytes. */
  method StaleOuter() returns (w: seq<Byte>, ghost g: Graph, ghost rank: Block -> nat, ghost outer: Block)
    ensures w == Framed(1, Framed(2, [])) != WireOf(Node(1, [Node(2, [Leaf(3, [])])]))
    ensures Ranked(g, rank) && outer in g && w == Enc(g, rank, outer, true) != WireOf(TreeOf(g, rank, outer))
  {
    var p, c, d, r := BuildChain();
    ghost var blocks, built := {p, c, d}, Snap({p, c, d});
    FreshChain(built, r, p, c, d);
    var first := p.Wire(blocks, r);
    ghost var encoded := Snap(blocks);
    ChainFilled(built, encoded, r, p, c, d);
    assert encoded[c].subs + [d] == [d] && c.Holds() == encoded[c];
    c.Append(d);
    g, rank, outer := Snap(blocks), r, p;
    assert c.Holds() == State(2, [], [d], []);
    assert g == encoded[c := State(2, [], [d], [])];
    StaleChain(encoded, r, p, c, d);
    NestedWire();
    w := p.Wire(blocks, r);
  }

  lemma ChainFilled(g: Graph, g': Graph, rank: Block -> nat, p: Block, c: Block, d: Block)
    requires Ranked(g, rank) && Chain(g, p, c, d) && Refilled(g, g', rank)
    ensures Ranked(g', rank) && Chain(g', p, c, d)
  {
    RefilledRanked(g, g', rank);
    assert RefilledAt(g, g', rank, p) && RefilledAt(g, g', rank, c) && RefilledAt(g, g', rank, d);
  }
}
