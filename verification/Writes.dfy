/** What a write makes of the block list, and what that means for the bytes held. */
module Writes {
  import opened Blocks

  // ---- What a write makes of the block list ----

  /** bs with the blocks i up to j replaced by b. */
  function Splice(bs: seq<Block>, i: nat, j: nat, b: Block): seq<Block>
    requires i <= j <= |bs|
  {
    bs[..i] + [b] + bs[j..]
  }

  /** The bytes of block j - 1 that lie at or after x, if x is inside it. */
  function TailFrom(bs: seq<Block>, j: nat, x: nat): seq<Byte>
    requires j <= |bs|
  {
    if 0 < j && bs[j - 1].fpos <= x < bs[j - 1].End() then bs[j - 1].data[x - bs[j - 1].fpos..] else []
  }

  /** The write starts inside or right after a block, which then takes the new bytes. */
  predicate HasBase(bs: seq<Block>, fpos: nat) {
    var u := UpperBound(bs, fpos);
    0 < u && fpos <= bs[u - 1].End()
  }

  /** The write starts strictly inside a gap and reaches the block after the gap, which the
      code does not look at. */
  predicate Misrouted(bs: seq<Block>, fpos: nat, len: nat) {
    var u := UpperBound(bs, fpos);
    0 < u < |bs| && bs[u - 1].End() < fpos && bs[u].fpos <= fpos + len
  }

  /** A misrouted write that does not stop at the start of the next block. */
  predicate Overlaps(bs: seq<Block>, fpos: nat, len: nat) {
    Misrouted(bs, fpos, len) && bs[UpperBound(bs, fpos)].fpos < fpos + len
  }

  /** Where appending to a block stops absorbing: after the last block that starts at or before
      position e, unless its predecessor already ends at e. */
  function ReachFromBase(bs: seq<Block>, e: nat): (j: nat)
    ensures j <= |bs|
  {
    var j := UpperBound(bs, e);
    if 2 <= j && bs[j - 2].End() == e then j - 1 else j
  }

  /** The block that appending data to block i makes. */
  function Appended(bs: seq<Block>, i: nat, j: nat, fpos: nat, data: seq<Byte>, touch: nat): Block
    requires i < |bs| && j <= |bs| && fpos <= bs[i].End() <= fpos + |data|
  {
    Block(bs[i].fpos, bs[i].data + data[bs[i].End() - fpos..] + TailFrom(bs, j, fpos + |data|), touch)
  }

  /** The block that putting data in front of absorbed blocks makes. */
  function Prepended(bs: seq<Block>, j: nat, fpos: nat, data: seq<Byte>, touch: nat): Block
    requires j <= |bs|
  {
    Block(fpos, data + TailFrom(bs, j, fpos + |data|), touch)
  }

  /** The first block that a write at fpos replaces. */
  function ReplacedFrom(bs: seq<Block>, fpos: nat): (i: nat)
    ensures i <= UpperBound(bs, fpos)
  {
    if HasBase(bs, fpos) then UpperBound(bs, fpos) - 1 else UpperBound(bs, fpos)
  }

  /** The write starts before the first block and reaches it. */
  predicate ReachesFirst(bs: seq<Block>, fpos: nat, len: nat) {
    UpperBound(bs, fpos) == 0 && bs != [] && bs[0].fpos <= fpos + len
  }

  /** The first block that a write of len bytes at fpos leaves alone again. */
  function ReplacedTo(bs: seq<Block>, fpos: nat, len: nat): (j: nat)
    requires Keyed(bs)
    ensures ReplacedFrom(bs, fpos) <= j <= |bs|
  {
    var u, e := UpperBound(bs, fpos), fpos + len;
    if HasBase(bs, fpos) then
      if e <= bs[u - 1].End() then u else ReachFromBase(bs, e)
    else if ReachesFirst(bs, fpos, len) then UpperBound(bs, e)
    else u
  }

  /** The block that a write leaves behind. */
  function NewBlock(bs: seq<Block>, fpos: nat, data: seq<Byte>, touch: nat): (b: Block)
    requires Keyed(bs)
    ensures b.touch == touch && b.fpos <= fpos && fpos + |data| <= b.End()
  {
    var u, j := UpperBound(bs, fpos), ReplacedTo(bs, fpos, |data|);
    if HasBase(bs, fpos) then
      if fpos + |data| <= bs[u - 1].End() then bs[u - 1].(touch := touch)
      else Appended(bs, u - 1, j, fpos, data, touch)
    else if ReachesFirst(bs, fpos, |data|) then Prepended(bs, j, fpos, data, touch)
    else Block(fpos, data, touch)
  }

  /** The block list after writing data at fpos. */
  function Written(bs: seq<Block>, fpos: nat, data: seq<Byte>, touch: nat): seq<Block>
    requires Keyed(bs)
  {
    Splice(bs, ReplacedFrom(bs, fpos), ReplacedTo(bs, fpos, |data|), NewBlock(bs, fpos, data, touch))
  }

  /** Where the bytes of the base block end and new ones begin. */
  function KeptUpTo(bs: seq<Block>, fpos: nat): nat {
    if HasBase(bs, fpos) then bs[UpperBound(bs, fpos) - 1].End() else 0
  }

  /** Block b covers the write and the blocks i up to j, and meets none of the others. */
  ghost predicate Fits(bs: seq<Block>, i: nat, j: nat, b: Block, fpos: nat, e: nat) {
    && i <= j <= |bs|
    && b.fpos <= fpos < e <= b.End()
    && (forall k :: 0 <= k < i ==> bs[k].End() <= b.fpos)
    && (forall k :: i <= k < j ==> b.fpos <= bs[k].fpos && bs[k].End() <= b.End())
    && (forall k :: j <= k < |bs| ==> b.End() <= bs[k].fpos)
  }

  /** The byte of b at p is the one written, or else (outside the write, and below keep) the one
      that one of the blocks i up to j had. */
  ghost predicate HasByte(bs: seq<Block>, i: nat, j: nat, b: Block, fpos: nat, data: seq<Byte>, keep: nat, p: int)
    requires j <= |bs| && b.Contains(p)
  {
    if fpos <= p < fpos + |data| && keep <= p then b.At(p) == data[p - fpos]
    else exists k :: i <= k < j && bs[k].Contains(p) && b.At(p) == bs[k].At(p)
  }

  /** What is known of the block b that a write of data at fpos puts in the place of the
      blocks i up to j. */
  ghost predicate Coalesces(bs: seq<Block>, i: nat, j: nat, b: Block, fpos: nat, data: seq<Byte>, keep: nat) {
    && Fits(bs, i, j, b, fpos, fpos + |data|)
    && forall p :: b.Contains(p) ==> HasByte(bs, i, j, b, fpos, data, keep, p)
  }

  /** Nothing that stays touches the new block. */
  ghost predicate StaysApart(bs: seq<Block>, i: nat, j: nat, b: Block) {
    && (forall k :: 0 <= k < i && k < |bs| ==> bs[k].End() < b.fpos)
    && (forall k :: j <= k < |bs| ==> b.End() < bs[k].fpos)
  }

  /** The tail carries the new block to the end of the last block absorbed. */
  lemma {:induction false} TailReaches(bs: seq<Block>, j: nat, e: nat)
    requires Disjoint(bs) && j <= |bs|
    requires j == UpperBound(bs, e) || j == ReachFromBase(bs, e)
    ensures var x := e + |TailFrom(bs, j, e)|;
            && (forall k :: 0 <= k < j ==> bs[k].End() <= x)
            && (forall k :: j <= k < |bs| ==> x <= bs[k].fpos)
            && (Canonical(bs) ==> forall k :: j <= k < |bs| ==> x < bs[k].fpos)
  {
    hide UpperBound;
    var u := UpperBound(bs, e);
    assert forall k :: j <= k < u ==> k == u - 1 && bs[k].fpos == e;
    assert 0 < j ==> bs[j - 1].fpos <= e;
  }

  lemma {:induction false} AppendFits(bs: seq<Block>, i: nat, j: nat, b: Block, fpos: nat, e: nat)
    requires Disjoint(bs) && i < |bs| && bs[i].fpos <= fpos <= bs[i].End() < e
    requires j == ReachFromBase(bs, e)
    requires b.fpos == bs[i].fpos && b.End() == e + |TailFrom(bs, j, e)|
    ensures i < j && Fits(bs, i, j, b, fpos, e)
    ensures Canonical(bs) ==> StaysApart(bs, i, j, b)
  {
    TailReaches(bs, j, e);
  }

  lemma {:induction false} AppendByte(bs: seq<Block>, i: nat, j: nat, b: Block, fpos: nat, data: seq<Byte>, p: int)
    requires i < j <= |bs| && bs[i].fpos <= fpos <= bs[i].End() < fpos + |data|
    requires b.fpos == bs[i].fpos
    requires b.data == bs[i].data + data[bs[i].End() - fpos..] + TailFrom(bs, j, fpos + |data|)
    requires b.Contains(p)
    ensures HasByte(bs, i, j, b, fpos, data, bs[i].End(), p)
  {
    if p < bs[i].End() {
      assert bs[i].Contains(p) && b.At(p) == bs[i].At(p);
    } else if fpos + |data| <= p {
      assert bs[j - 1].Contains(p) && b.At(p) == bs[j - 1].At(p);
    }
  }

  lemma {:induction false} AppendCoalesces(bs: seq<Block>, i: nat, j: nat, fpos: nat, data: seq<Byte>, touch: nat)
    requires Disjoint(bs) && i < |bs| && bs[i].fpos <= fpos <= bs[i].End() < fpos + |data|
    requires j == ReachFromBase(bs, fpos + |data|)
    ensures Coalesces(bs, i, j, Appended(bs, i, j, fpos, data, touch), fpos, data, bs[i].End())
    ensures Canonical(bs) ==> StaysApart(bs, i, j, Appended(bs, i, j, fpos, data, touch))
  {
    var b := Appended(bs, i, j, fpos, data, touch);
    AppendFits(bs, i, j, b, fpos, fpos + |data|);
    forall p | b.Contains(p)
      ensures HasByte(bs, i, j, b, fpos, data, bs[i].End(), p)
    {
      AppendByte(bs, i, j, b, fpos, data, p);
    }
  }

  lemma {:induction false} PrependFits(bs: seq<Block>, i: nat, j: nat, b: Block, fpos: nat, e: nat)
    requires Disjoint(bs) && i < |bs| && fpos < bs[i].fpos <= e && j == UpperBound(bs, e)
    requires forall k :: 0 <= k < i ==> bs[k].End() <= fpos
    requires b.fpos == fpos && b.End() == e + |TailFrom(bs, j, e)|
    ensures i < j && Fits(bs, i, j, b, fpos, e)
  {
    TailReaches(bs, j, e);
    assert forall k :: i <= k < j ==> bs[i].fpos <= bs[k].fpos;
  }

  lemma {:induction false} PrependStaysApart(bs: seq<Block>, i: nat, j: nat, b: Block, e: nat)
    requires Canonical(bs) && i < |bs| && j == UpperBound(bs, e)
    requires forall k :: 0 <= k < i ==> bs[k].End() < b.fpos
    requires b.End() == e + |TailFrom(bs, j, e)|
    ensures StaysApart(bs, i, j, b)
  {
    TailReaches(bs, j, e);
  }

  lemma {:induction false} PrependByte(bs: seq<Block>, i: nat, j: nat, b: Block, fpos: nat, data: seq<Byte>, p: int)
    requires i < j <= |bs|
    requires b.fpos == fpos && b.data == data + TailFrom(bs, j, fpos + |data|)
    requires b.Contains(p)
    ensures HasByte(bs, i, j, b, fpos, data, 0, p)
  {
    if fpos + |data| <= p {
      assert bs[j - 1].Contains(p) && b.At(p) == bs[j - 1].At(p);
    }
  }

  /** For any block i whose predecessors end no later than the write starts. */
  lemma {:induction false} PrependCoalesces(bs: seq<Block>, i: nat, j: nat, fpos: nat, data: seq<Byte>, touch: nat)
    requires Disjoint(bs) && i < |bs| && fpos < bs[i].fpos <= fpos + |data|
    requires j == UpperBound(bs, fpos + |data|)
    requires forall k :: 0 <= k < i ==> bs[k].End() <= fpos
    ensures i < j && Coalesces(bs, i, j, Prepended(bs, j, fpos, data, touch), fpos, data, 0)
    ensures Canonical(bs) && (forall k :: 0 <= k < i ==> bs[k].End() < fpos) ==>
              StaysApart(bs, i, j, Prepended(bs, j, fpos, data, touch))
  {
    hide UpperBound, TailFrom;
    var b := Prepended(bs, j, fpos, data, touch);
    PrependFits(bs, i, j, b, fpos, fpos + |data|);
    if Canonical(bs) && (forall k :: 0 <= k < i ==> bs[k].End() < fpos) {
      PrependStaysApart(bs, i, j, b, fpos + |data|);
    }
    forall p | b.Contains(p)
      ensures HasByte(bs, i, j, b, fpos, data, 0, p)
    {
      PrependByte(bs, i, j, b, fpos, data, p);
    }
  }

  lemma {:induction false} InsideCoalesces(bs: seq<Block>, i: nat, fpos: nat, data: seq<Byte>, touch: nat)
    requires Disjoint(bs) && i < |bs| && bs[i].fpos <= fpos && fpos + |data| <= bs[i].End() && data != []
    ensures Coalesces(bs, i, i + 1, bs[i].(touch := touch), fpos, data, bs[i].End())
    ensures Canonical(bs) ==> StaysApart(bs, i, i + 1, bs[i].(touch := touch))
  {
    var b := bs[i].(touch := touch);
    forall p | b.Contains(p)
      ensures HasByte(bs, i, i + 1, b, fpos, data, bs[i].End(), p)
    {
      assert bs[i].Contains(p) && b.At(p) == bs[i].At(p);
    }
  }

  lemma {:induction false} FreshCoalesces(bs: seq<Block>, u: nat, fpos: nat, data: seq<Byte>, touch: nat)
    requires Disjoint(bs) && data != [] && u == UpperBound(bs, fpos)
    requires u > 0 ==> bs[u - 1].End() < fpos
    requires u < |bs| ==> fpos + |data| <= bs[u].fpos
    ensures Coalesces(bs, u, u, Block(fpos, data, touch), fpos, data, 0)
    ensures Canonical(bs) && (u < |bs| ==> fpos + |data| < bs[u].fpos) ==>
              StaysApart(bs, u, u, Block(fpos, data, touch))
  {
    UpperBoundSplits(bs, fpos, u);
    hide Disjoint, UpperBound, Canonical;
    InsertCoalesces(bs, u, fpos, data, touch);
  }

  /** A block put between its neighbours. */
  lemma {:induction false} InsertCoalesces(bs: seq<Block>, u: nat, fpos: nat, data: seq<Byte>, touch: nat)
    requires data != [] && u <= |bs|
    requires forall k :: 0 <= k < u ==> bs[k].End() <= fpos
    requires forall k :: u <= k < |bs| ==> fpos + |data| <= bs[k].fpos
    ensures Coalesces(bs, u, u, Block(fpos, data, touch), fpos, data, 0)
    ensures (forall k :: 0 <= k < u ==> bs[k].End() < fpos) &&
            (forall k :: u <= k < |bs| ==> fpos + |data| < bs[k].fpos) ==>
              StaysApart(bs, u, u, Block(fpos, data, touch))
  {
    var b := Block(fpos, data, touch);
    assert Fits(bs, u, u, b, fpos, fpos + |data|);
    hide Fits;
    forall p | b.Contains(p)
      ensures HasByte(bs, u, u, b, fpos, data, 0, p)
    {
    }
  }

  lemma {:induction false} UpperBoundSplits(bs: seq<Block>, p: int, u: nat)
    requires Disjoint(bs) && u == UpperBound(bs, p)
    ensures forall k :: 0 <= k < u ==> bs[k].fpos <= p && bs[k].End() <= bs[u - 1].End()
    ensures forall k :: u <= k < |bs| ==> p < bs[u].fpos <= bs[k].fpos
  {
    hide UpperBound;
    assert Keyed(bs);
    assert forall k :: 0 <= k < u - 1 ==> bs[k].End() <= bs[u - 1].fpos;
    assert forall k :: u < k < |bs| ==> bs[u].End() <= bs[k].fpos;
  }

  lemma {:induction false} BaseCoalesces(bs: seq<Block>, fpos: nat, data: seq<Byte>, touch: nat)
    requires Disjoint(bs) && Keyed(bs) && data != [] && HasBase(bs, fpos)
    ensures var i, j, b := ReplacedFrom(bs, fpos), ReplacedTo(bs, fpos, |data|), NewBlock(bs, fpos, data, touch);
            Coalesces(bs, i, j, b, fpos, data, bs[i].End()) && (Canonical(bs) ==> StaysApart(bs, i, j, b))
  {
    var i := ReplacedFrom(bs, fpos);
    if fpos + |data| <= bs[i].End() {
      InsideCoalesces(bs, i, fpos, data, touch);
    } else {
      AppendCoalesces(bs, i, ReplacedTo(bs, fpos, |data|), fpos, data, touch);
    }
  }

  lemma {:induction false} WrittenCoalesces(bs: seq<Block>, fpos: nat, data: seq<Byte>, touch: nat)
    returns (i: nat, j: nat, b: Block)
    requires Disjoint(bs) && data != [] && !Overlaps(bs, fpos, |data|)
    ensures i <= j <= |bs| && Coalesces(bs, i, j, b, fpos, data, KeptUpTo(bs, fpos)) && b.touch == touch
    ensures Keyed(bs) && Written(bs, fpos, data, touch) == Splice(bs, i, j, b)
    ensures Canonical(bs) && !Misrouted(bs, fpos, |data|) ==> StaysApart(bs, i, j, b)
  {
    i, j, b := ReplacedFrom(bs, fpos), ReplacedTo(bs, fpos, |data|), NewBlock(bs, fpos, data, touch);
    if HasBase(bs, fpos) {
      BaseCoalesces(bs, fpos, data, touch);
    } else if ReachesFirst(bs, fpos, |data|) {
      PrependCoalesces(bs, 0, j, fpos, data, touch);
    } else {
      FreshCoalesces(bs, i, fpos, data, touch);
    }
  }

  // ---- What a write means ----

  lemma {:induction false} SpliceAt(bs: seq<Block>, i: nat, j: nat, b: Block)
    requires i <= j <= |bs|
    ensures forall k :: 0 <= k < i ==> Splice(bs, i, j, b)[k] == bs[k]
    ensures Splice(bs, i, j, b)[i] == b
    ensures forall k :: j <= k < |bs| ==> Splice(bs, i, j, b)[k - j + i + 1] == bs[k]
    ensures forall k :: i < k < |Splice(bs, i, j, b)| ==> Splice(bs, i, j, b)[k] == bs[k - i - 1 + j]
  {
  }

  lemma {:induction false} SpliceDisjoint(bs: seq<Block>, i: nat, j: nat, b: Block, fpos: nat, e: nat)
    requires Disjoint(bs) && Fits(bs, i, j, b, fpos, e)
    ensures Disjoint(Splice(bs, i, j, b))
  {
    var ns := Splice(bs, i, j, b);
    SpliceAt(bs, i, j, b);
    forall m, n | 0 <= m < n < |ns|
      ensures ns[m].End() <= ns[n].fpos
    {
    }
  }

  lemma {:induction false} SpliceCanonical(bs: seq<Block>, i: nat, j: nat, b: Block)
    requires Canonical(bs) && i <= j <= |bs| && StaysApart(bs, i, j, b) && b.data != []
    ensures Canonical(Splice(bs, i, j, b))
  {
    var ns := Splice(bs, i, j, b);
    SpliceAt(bs, i, j, b);
    forall m, n | 0 <= m < n < |ns|
      ensures ns[m].End() < ns[n].fpos
    {
    }
  }

  lemma {:induction false} SpliceHolds(bs: seq<Block>, i: nat, j: nat, b: Block, fpos: nat, data: seq<Byte>,
                                       keep: nat, p: int)
    requires Coalesces(bs, i, j, b, fpos, data, keep)
    ensures InSome(Splice(bs, i, j, b), p) <==> InSome(bs, p) || fpos <= p < fpos + |data|
  {
    var ns := Splice(bs, i, j, b);
    SpliceAt(bs, i, j, b);
    if InSome(ns, p) {
      var k :| 0 <= k < |ns| && ns[k].Contains(p);
      if k == i {
        assert HasByte(bs, i, j, b, fpos, data, keep, p);
      } else {
        assert bs[if k < i then k else k - i - 1 + j].Contains(p);
      }
    }
    if InSome(bs, p) {
      var k :| 0 <= k < |bs| && bs[k].Contains(p);
      assert ns[if k < i then k else if k < j then i else k - j + i + 1].Contains(p);
    }
    if fpos <= p < fpos + |data| {
      assert ns[i].Contains(p);
    }
  }

  /** The byte at p changes from map c to map nc as a write of data that respects keep has it. */
  ghost predicate TakesByte(c: map<nat, Byte>, nc: map<nat, Byte>, fpos: nat, data: seq<Byte>, keep: nat, p: nat)
    requires p in nc
  {
    if fpos <= p < fpos + |data| && keep <= p then nc[p] == data[p - fpos] else p in c && nc[p] == c[p]
  }

  lemma {:induction false} SpliceByte(bs: seq<Block>, i: nat, j: nat, b: Block, fpos: nat, data: seq<Byte>, keep: nat,
                                      p: nat, c: map<nat, Byte>, nc: map<nat, Byte>)
    requires Disjoint(bs) && Coalesces(bs, i, j, b, fpos, data, keep)
    requires c == Content(bs) && nc == Content(Splice(bs, i, j, b)) && p in nc
    ensures TakesByte(c, nc, fpos, data, keep, p)
  {
    hide Content, Held, Interval;
    var ns := Splice(bs, i, j, b);
    SpliceAt(bs, i, j, b);
    SpliceDisjoint(bs, i, j, b, fpos, fpos + |data|);
    HeldIsInSome(ns, p);
    var k :| 0 <= k < |ns| && ns[k].Contains(p);
    ContentAt(ns, k, p, nc);
    if k == i {
      assert HasByte(bs, i, j, b, fpos, data, keep, p);
      if !(fpos <= p < fpos + |data| && keep <= p) {
        var m :| i <= m < j && bs[m].Contains(p) && b.At(p) == bs[m].At(p);
        ContentAt(bs, m, p, c);
      }
    } else {
      var m := if k < i then k else k - i - 1 + j;
      ContentAt(bs, m, p, c);
    }
  }

  /** Writing leaves no position in two blocks exactly when it does not run into the block behind
      the gap that it starts in. */
  lemma {:induction false} WrittenIsDisjoint(bs: seq<Block>, fpos: nat, data: seq<Byte>, touch: nat)
    requires Disjoint(bs) && data != []
    ensures Keyed(bs)
    ensures Disjoint(Written(bs, fpos, data, touch)) <==> !Overlaps(bs, fpos, |data|)
  {
    if Overlaps(bs, fpos, |data|) {
      MisroutedNeighbours(bs, fpos, data, touch);
    } else {
      var i, j, b := WrittenCoalesces(bs, fpos, data, touch);
      SpliceDisjoint(bs, i, j, b, fpos, fpos + |data|);
    }
  }

  /** Writing keeps the blocks maximal runs exactly when the write is well routed. */
  lemma {:induction false} WrittenIsCanonical(bs: seq<Block>, fpos: nat, data: seq<Byte>, touch: nat)
    requires Canonical(bs) && data != []
    ensures Keyed(bs)
    ensures Canonical(Written(bs, fpos, data, touch)) <==> !Misrouted(bs, fpos, |data|)
  {
    if Misrouted(bs, fpos, |data|) {
      MisroutedNeighbours(bs, fpos, data, touch);
    } else {
      var i, j, b := WrittenCoalesces(bs, fpos, data, touch);
      SpliceCanonical(bs, i, j, b);
    }
  }

  /** A write of two bytes at 3 between blocks at 0 and 5 leaves adjacent blocks. */
  lemma {:induction false} MisroutedExample(x: Byte)
    ensures var bs := [Block(0, [x], 0), Block(5, [x], 1)];
            Canonical(bs) && Keyed(bs) && !Canonical(Written(bs, 3, [x, x], 2))
  {
    var bs := [Block(0, [x], 0), Block(5, [x], 1)];
    UpperBoundIs(bs, 3, 1);
    WrittenIsCanonical(bs, 3, [x, x], 2);
  }

  lemma {:induction false} OverlapIsMisrouted(bs: seq<Block>, fpos: nat, len: nat)
    ensures Overlaps(bs, fpos, len) ==> Misrouted(bs, fpos, len)
  {
  }

  /** A misrouted write is put, as it is, between its neighbours. */
  lemma {:induction false} MisroutedNeighbours(bs: seq<Block>, fpos: nat, data: seq<Byte>, touch: nat)
    requires Disjoint(bs) && Misrouted(bs, fpos, |data|)
    ensures Keyed(bs)
    ensures var u, ns := UpperBound(bs, fpos), Written(bs, fpos, data, touch);
            && |ns| == |bs| + 1 && ns[u] == Block(fpos, data, touch) && ns[u + 1] == bs[u]
  {
  }

  /** A write that runs into the block behind the gap is not compared with it: the position where
      that block starts is then in two blocks, with the new byte in one and the old in the other. */
  lemma {:induction false} OverlapKeepsBothBytes(bs: seq<Block>, fpos: nat, data: seq<Byte>, touch: nat)
    requires Disjoint(bs) && Overlaps(bs, fpos, |data|)
    ensures Keyed(bs)
    ensures var u, ns := UpperBound(bs, fpos), Written(bs, fpos, data, touch);
            var p := bs[u].fpos;
            && ns[u].Contains(p) && ns[u].At(p) == data[p - fpos]
            && ns[u + 1].Contains(p) && ns[u + 1].At(p) == bs[u].At(p)
  {
    MisroutedNeighbours(bs, fpos, data, touch);
  }

  /** A write of four bytes at 3 between bytes held at 0 and 5 swallows the block at 5 without absorbing it:
      that block then ends in front of the end of the one before. */
  lemma {:induction false} OverlapSwallows(x: Byte)
    ensures var bs := [Block(0, [x], 0), Block(5, [x], 1)];
            && Canonical(bs) && Keyed(bs) && Overlaps(bs, 3, 4)
            && var ns := Written(bs, 3, [x, x, x, x], 2);
               |ns| == 3 && ns[2].End() < ns[1].End()
  {
    var bs := [Block(0, [x], 0), Block(5, [x], 1)];
    UpperBoundIs(bs, 3, 1);
    MisroutedNeighbours(bs, 3, [x, x, x, x], 2);
  }

  lemma {:induction false} WrittenIsKeyed(bs: seq<Block>, fpos: nat, data: seq<Byte>, touch: nat)
    requires Disjoint(bs) && data != []
    ensures Keyed(bs) && Keyed(Written(bs, fpos, data, touch))
  {
    if Misrouted(bs, fpos, |data|) {
      InsertIsKeyed(bs, UpperBound(bs, fpos), Block(fpos, data, touch));
    } else {
      WrittenIsDisjoint(bs, fpos, data, touch);
    }
  }

  lemma {:induction false} InsertIsKeyed(bs: seq<Block>, u: nat, b: Block)
    requires Keyed(bs) && b.data != [] && u <= |bs|
    requires u > 0 ==> bs[u - 1].fpos < b.fpos
    requires u < |bs| ==> b.fpos < bs[u].fpos
    ensures Keyed(Splice(bs, u, u, b))
  {
    var ns := Splice(bs, u, u, b);
    forall m, n | 0 <= m < n < |ns|
      ensures ns[m].fpos < ns[n].fpos
    {
      if m < u {
        assert ns[m] == bs[m] && bs[m].fpos <= bs[u - 1].fpos;
      } else if u < m {
        assert ns[m] == bs[m - 1];
      }
      assert u < n ==> ns[n] == bs[n - 1] && bs[u].fpos <= bs[n - 1].fpos;
    }
  }

  lemma {:induction false} SpliceHeld(bs: seq<Block>, i: nat, j: nat, b: Block, fpos: nat, data: seq<Byte>, keep: nat)
    requires i <= j <= |bs| && Coalesces(bs, i, j, b, fpos, data, keep)
    ensures Held(Splice(bs, i, j, b)) == Held(bs) + Interval(fpos, |data|)
  {
    forall p: nat
      ensures p in Held(Splice(bs, i, j, b)) <==> p in Held(bs) || p in Interval(fpos, |data|)
    {
      hide Held, Splice, Coalesces, InSome;
      SpliceHolds(bs, i, j, b, fpos, data, keep, p);
      HeldIsInSome(Splice(bs, i, j, b), p);
      HeldIsInSome(bs, p);
    }
  }

  /** The positions held grow by exactly those written. */
  lemma {:induction false} WrittenHolds(bs: seq<Block>, fpos: nat, data: seq<Byte>, touch: nat)
    requires Disjoint(bs) && data != [] && !Overlaps(bs, fpos, |data|)
    ensures Keyed(bs)
    ensures Held(Written(bs, fpos, data, touch)) == Held(bs) + Interval(fpos, |data|)
  {
    hide *;
    var i, j, b := WrittenCoalesces(bs, fpos, data, touch);
    SpliceHeld(bs, i, j, b, fpos, data, KeptUpTo(bs, fpos));
  }

  /** c with data laid over it, except that bytes held below keep stay. */
  ghost function Overlay(c: map<nat, Byte>, fpos: nat, data: seq<Byte>, keep: nat): map<nat, Byte> {
    map p | p in c.Keys + Interval(fpos, |data|) ::
      if p in Interval(fpos, |data|) && (p !in c || keep <= p) then data[p - fpos] else c[p]
  }

  /** Which byte wins: in the original extent of the block that the write is appended to the old
      ones, elsewhere in the write the new ones; nothing outside the write changes. */
  lemma {:induction false} WrittenContent(bs: seq<Block>, fpos: nat, data: seq<Byte>, touch: nat)
    requires Disjoint(bs) && data != [] && !Overlaps(bs, fpos, |data|)
    ensures Keyed(bs)
    ensures Content(Written(bs, fpos, data, touch)) == Overlay(Content(bs), fpos, data, KeptUpTo(bs, fpos))
  {
    hide *;
    var i, j, b := WrittenCoalesces(bs, fpos, data, touch);
    SpliceContent(bs, i, j, b, fpos, data, KeptUpTo(bs, fpos));
  }

  lemma {:induction false} SpliceContent(bs: seq<Block>, i: nat, j: nat, b: Block, fpos: nat, data: seq<Byte>,
                                         keep: nat)
    requires i <= j <= |bs| && Disjoint(bs) && Coalesces(bs, i, j, b, fpos, data, keep)
    ensures Content(Splice(bs, i, j, b)) == Overlay(Content(bs), fpos, data, keep)
  {
    hide Disjoint, Coalesces, Splice, Overlay, TakesByte;
    var c, nc := Content(bs), Content(Splice(bs, i, j, b));
    SpliceHeld(bs, i, j, b, fpos, data, keep);
    forall p | p in nc
      ensures TakesByte(c, nc, fpos, data, keep, p)
    {
      SpliceByte(bs, i, j, b, fpos, data, keep, p, c, nc);
    }
    OverlayFromBytes(c, nc, fpos, data, keep);
  }

  lemma {:induction false} OverlayFromBytes(c: map<nat, Byte>, nc: map<nat, Byte>, fpos: nat, data: seq<Byte>,
                                            keep: nat)
    requires nc.Keys == c.Keys + Interval(fpos, |data|)
    requires forall p :: p in nc ==> TakesByte(c, nc, fpos, data, keep, p)
    ensures nc == Overlay(c, fpos, data, keep)
  {
    hide Interval;
  }

  /** No byte held differs from the one to be written at its position. */
  ghost predicate Agrees(bs: seq<Block>, fpos: nat, data: seq<Byte>) {
    forall k, p :: 0 <= k < |bs| && bs[k].Contains(p) && fpos <= p < fpos + |data| ==>
      bs[k].At(p) == data[p - fpos]
  }

  lemma {:induction false} AgreeingByte(bs: seq<Block>, fpos: nat, data: seq<Byte>, c: map<nat, Byte>, p: nat)
    requires Disjoint(bs) && Agrees(bs, fpos, data) && c == Content(bs)
    requires p in c && p in Interval(fpos, |data|)
    ensures c[p] == data[p - fpos]
  {
    HeldIsInSome(bs, p);
    var k :| 0 <= k < |bs| && bs[k].Contains(p);
    ContentAt(bs, k, p, c);
  }

  lemma {:induction false} AgreeingBytes(bs: seq<Block>, fpos: nat, data: seq<Byte>, c: map<nat, Byte>, keep: nat)
    requires Disjoint(bs) && Agrees(bs, fpos, data) && c == Content(bs)
    ensures Overlay(c, fpos, data, keep) == c + BytesFrom(fpos, data)
    ensures forall p :: p in c ==> (c + BytesFrom(fpos, data))[p] == c[p]
  {
    forall p | p in c && p in Interval(fpos, |data|)
      ensures c[p] == data[p - fpos]
    {
      AgreeingByte(bs, fpos, data, c, p);
    }
    OverlayOfAgreeing(c, fpos, data, keep);
  }

  lemma {:induction false} OverlayOfAgreeing(c: map<nat, Byte>, fpos: nat, data: seq<Byte>, keep: nat)
    requires forall p :: p in c && p in Interval(fpos, |data|) ==> c[p] == data[p - fpos]
    ensures Overlay(c, fpos, data, keep) == c + BytesFrom(fpos, data)
    ensures forall p :: p in c ==> (c + BytesFrom(fpos, data))[p] == c[p]
  {
    hide Overlay;
    forall p | p in c + BytesFrom(fpos, data)
      ensures p in c ==> (c + BytesFrom(fpos, data))[p] == c[p]
      ensures p in Overlay(c, fpos, data, keep) && Overlay(c, fpos, data, keep)[p] == (c + BytesFrom(fpos, data))[p]
    {
      OverlayByte(c, fpos, data, keep, p);
    }
    OverlayKeys(c, fpos, data, keep);
  }

  lemma {:induction false} OverlayKeys(c: map<nat, Byte>, fpos: nat, data: seq<Byte>, keep: nat)
    ensures Overlay(c, fpos, data, keep).Keys == (c + BytesFrom(fpos, data)).Keys
  {
    hide Interval;
  }

  lemma {:induction false} OverlayByte(c: map<nat, Byte>, fpos: nat, data: seq<Byte>, keep: nat, p: nat)
    requires p in c && p in Interval(fpos, |data|) ==> c[p] == data[p - fpos]
    requires p in c + BytesFrom(fpos, data)
    ensures p in Overlay(c, fpos, data, keep)
    ensures Overlay(c, fpos, data, keep)[p] == (c + BytesFrom(fpos, data))[p]
    ensures p in c ==> (c + BytesFrom(fpos, data))[p] == c[p]
  {
    hide Interval;
  }

  /** An agreeing write adds its bytes and changes none. */
  lemma {:induction false} AgreeingContent(bs: seq<Block>, fpos: nat, data: seq<Byte>, touch: nat)
    requires Disjoint(bs) && data != [] && !Overlaps(bs, fpos, |data|) && Agrees(bs, fpos, data)
    ensures Keyed(bs)
    ensures Content(Written(bs, fpos, data, touch)) == Content(bs) + BytesFrom(fpos, data)
    ensures forall p :: p in Content(bs) ==> Content(Written(bs, fpos, data, touch))[p] == Content(bs)[p]
  {
    WrittenContent(bs, fpos, data, touch);
    AgreeingBytes(bs, fpos, data, Content(bs), KeptUpTo(bs, fpos));
  }

  /** The byte count grows by the number of positions that were not held. */
  lemma {:induction false} WrittenSum(bs: seq<Block>, fpos: nat, data: seq<Byte>, touch: nat)
    requires Disjoint(bs) && data != [] && !Overlaps(bs, fpos, |data|)
    ensures Keyed(bs)
    ensures Sum(Written(bs, fpos, data, touch)) == Sum(bs) + |Interval(fpos, |data|) - Held(bs)|
  {
    WrittenIsDisjoint(bs, fpos, data, touch);
    WrittenHolds(bs, fpos, data, touch);
    hide *;
    SumIsHeld(bs);
    SumIsHeld(Written(bs, fpos, data, touch));
    UnionSize(Held(bs), Interval(fpos, |data|));
  }

  lemma {:induction false} UnionSize(a: set<nat>, b: set<nat>)
    ensures |a + b| == |a| + |b - a| <= |a| + |b|
  {
    assert a + b == a + (b - a);
    assert b == (b - a) + (b * a);
  }

  /** Where the blocks lie after a well-routed write does not depend on the bytes written. */
  lemma {:induction false} WrittenExtentsIgnoreData(bs: seq<Block>, fpos: nat, data: seq<Byte>, other: seq<Byte>,
                                                    touch: nat)
    requires Canonical(bs) && |data| == |other| > 0 && !Misrouted(bs, fpos, |data|)
    ensures Keyed(bs)
    ensures Extents(Written(bs, fpos, data, touch)) == Extents(Written(bs, fpos, other, touch))
  {
    WrittenIsCanonical(bs, fpos, data, touch);
    WrittenIsCanonical(bs, fpos, other, touch);
    WrittenHolds(bs, fpos, data, touch);
    WrittenHolds(bs, fpos, other, touch);
    ExtentsFollowHeld(Written(bs, fpos, data, touch), Written(bs, fpos, other, touch));
  }

  /** The block at index k was touched last and covers the len bytes from fpos. */
  ghost predicate NewestCovers(bs: seq<Block>, k: nat, touch: nat, fpos: nat, len: nat) {
    k < |bs| && bs[k].touch == touch && bs[k].fpos <= fpos && fpos + len <= bs[k].End()
  }

  /** Touches stay distinct, the newest one goes to the block that covers the write, and there is
      at most one block more than before. */
  lemma {:induction false} WrittenTouches(bs: seq<Block>, fpos: nat, data: seq<Byte>, touch: nat)
    requires Keyed(bs) && Touched(bs, touch)
    ensures var ns := Written(bs, fpos, data, touch);
            && Touched(ns, touch + 1)
            && |ns| <= |bs| + 1
            && exists k :: NewestCovers(ns, k, touch, fpos, |data|)
  {
    var i, j, b := ReplacedFrom(bs, fpos), ReplacedTo(bs, fpos, |data|), NewBlock(bs, fpos, data, touch);
    SpliceTouches(bs, i, j, b, touch);
    assert NewestCovers(Splice(bs, i, j, b), i, touch, fpos, |data|);
  }

  lemma {:induction false} SpliceTouches(bs: seq<Block>, i: nat, j: nat, b: Block, touch: nat)
    requires i <= j <= |bs| && Touched(bs, touch) && b.touch == touch
    ensures Touched(Splice(bs, i, j, b), touch + 1)
    ensures |Splice(bs, i, j, b)| == |bs| - (j - i) + 1 && Splice(bs, i, j, b)[i] == b
  {
    SpliceAt(bs, i, j, b);
  }

  // ---- Canonical lists, one block more at a time ----

  lemma {:induction false} CanonicalPrefix(bs: seq<Block>, n: nat)
    requires n < |bs|
    ensures Canonical(bs[..n + 1]) <==>
            Canonical(bs[..n]) && bs[n].data != [] && (n > 0 ==> bs[n - 1].End() < bs[n].fpos)
    ensures Sum(bs[..n + 1]) == Sum(bs[..n]) + |bs[n].data|
  {
    var before, upTo := bs[..n], bs[..n + 1];
    assert upTo == before + [bs[n]];
    SumConcat(before, [bs[n]]);
    hide Sum;
    if Canonical(upTo) {
      assert upTo[n] == bs[n] && (n > 0 ==> upTo[n - 1] == bs[n - 1]);
      CanonicalPrefixes(upTo, n);
      assert upTo[..n] == before;
    }
    if Canonical(before) && bs[n].data != [] && (n > 0 ==> bs[n - 1].End() < bs[n].fpos) {
      CanonicalExtended(before, bs[n]);
    }
  }

  lemma {:induction false} CanonicalExtended(bs: seq<Block>, b: Block)
    requires Canonical(bs) && b.data != [] && (bs != [] ==> bs[|bs| - 1].End() < b.fpos)
    ensures Canonical(bs + [b])
  {
    assert forall i :: 0 <= i < |bs| ==> bs[i].End() <= bs[|bs| - 1].End();
    SpliceCanonical(bs, |bs|, |bs|, b);
    assert Splice(bs, |bs|, |bs|, b) == bs + [b];
  }

  lemma {:induction false} CanonicalPrefixes(bs: seq<Block>, n: nat)
    requires n <= |bs| && Canonical(bs)
    ensures Canonical(bs[..n])
  {
  }
}
