/** Pickling: the blocks are read out in file order and written back into a fresh file. */
module Pickle {
  import opened SeekReads
  import opened Blocks
  import opened Writes
  import opened Differences
  import opened Eviction
  import opened SparseVirtualFiles

  /** The pickled dictionary, without its version. */
  datatype State = State(id: string, fileModTime: real, blocks: seq<(nat, seq<Byte>)>)

  /** The blocks of a shape, touched one after the other from t on. */
  function TouchedInOrder(shape: seq<(nat, seq<Byte>)>, t: nat): seq<Block> {
    seq(|shape|, i requires 0 <= i < |shape| => Block(shape[i].0, shape[i].1, t + i))
  }

  /** After reading out n blocks in order they are the newest. */
  ghost predicate ReadOut(was: seq<Block>, now: seq<Block>, n: nat, t: nat) {
    && n <= |was| == |now| && Shape(now) == Shape(was)
    && forall i :: 0 <= i < n ==> now[i].touch == t + i
  }

  /** Reads out every block in turn, touching it. */
  method GetState(svf: SparseVirtualFile) returns (state: State)
    requires svf.Inv()
    modifies svf`blocks, svf`blockTouch, svf`bytesRead, svf`countRead
    ensures svf.Inv()
    ensures state == State(svf.id, svf.fileModTime, old(Shape(svf.blocks)))
    ensures svf.blocks == TouchedInOrder(old(Shape(svf.blocks)), old(svf.blockTouch))
    ensures svf.blockTouch == old(svf.blockTouch) + |svf.blocks|
    ensures svf.countRead == old(svf.countRead) + |svf.blocks| && svf.bytesRead == old(svf.bytesRead) + svf.bytesTotal
    ensures old(svf.Valid()) ==> svf.Valid() && Content(svf.blocks) == old(Content(svf.blocks))
  {
    hide Keyed, Disjoint, Content, Sum, Touched, IsSlice, ReadOut, Shape, Extents, TouchedInOrder, UpperBound;
    ghost var was, t, count, bytes := svf.blocks, svf.blockTouch, svf.countRead, svf.bytesRead;
    var blockList := svf.BlockList();
    var tuple: seq<(nat, seq<Byte>)> := [];
    ReadOutStarts(was, t);
    for n := 0 to |blockList|
      invariant svf.Inv() && svf.blockTouch == t + n && svf.countRead == count + n
      invariant svf.bytesRead == bytes + Sum(was[..n])
      invariant ReadOut(was, svf.blocks, n, t)
      invariant tuple == Shape(was)[..n]
      invariant old(svf.Valid()) ==> svf.Valid() && Content(svf.blocks) == old(Content(svf.blocks))
    {
      ReadOutTurn(was, svf.blocks, n, t);
      var r := svf.Read(blockList[n].fpos, blockList[n].len);
      tuple := tuple + [(blockList[n].fpos, r.value)];
    }
    ReadOutAll(was, svf.blocks, t);
    state := State(svf.id, svf.fileModTime, tuple);
  }

  /** Reading a whole block finds that block. */
  lemma {:induction false} BlockIsFound(was: seq<Block>, now: seq<Block>, n: nat)
    requires Keyed(now) && Shape(now) == Shape(was) && n < |was|
    ensures |now| == |was| && UpperBound(now, was[n].fpos) == n + 1
    ensures now[n].fpos == was[n].fpos && now[n].data == was[n].data
    ensures Extents(was)[n] == SeekRead(was[n].fpos, |was[n].data|)
    ensures was[n].data[0..][..|was[n].data|] == was[n].data
    ensures Shape(was)[n] == (was[n].fpos, was[n].data)
  {
    assert |now| == |Shape(now)| == |was|;
    assert Shape(now)[n] == Shape(was)[n];
    UpperBoundIs(now, now[n].fpos, n + 1);
  }

  lemma {:induction false} ReadOutStarts(was: seq<Block>, t: nat)
    ensures ReadOut(was, was, 0, t) && |Shape(was)| == |Extents(was)| == |was|
    ensures Shape(was)[..0] == [] && Sum(was[..0]) == 0
  {
  }

  /** One turn of reading out. */
  lemma {:induction false} ReadOutTurn(was: seq<Block>, now: seq<Block>, n: nat, t: nat)
    requires Keyed(now) && ReadOut(was, now, n, t) && n < |was|
    ensures |now| == |was| && UpperBound(now, was[n].fpos) == n + 1
    ensures now[n].fpos == was[n].fpos && now[n].data == was[n].data
    ensures Extents(was)[n] == SeekRead(was[n].fpos, |was[n].data|)
    ensures was[n].data[0..][..|was[n].data|] == was[n].data
    ensures ReadOut(was, now[n := now[n].(touch := t + n)], n + 1, t)
    ensures |Shape(was)| == |was| && Shape(was)[..n + 1] == Shape(was)[..n] + [(was[n].fpos, was[n].data)]
    ensures Sum(was[..n + 1]) == Sum(was[..n]) + |was[n].data|
  {
    BlockIsFound(was, now, n);
    assert was[..n + 1] == was[..n] + [was[n]];
    SumConcat(was[..n], [was[n]]);
    var next := now[n := now[n].(touch := t + n)];
    hide UpperBound, Keyed, Sum;
    assert Shape(next) == Shape(now);
  }

  lemma {:induction false} ReadOutAll(was: seq<Block>, now: seq<Block>, t: nat)
    requires ReadOut(was, now, |was|, t)
    ensures now == TouchedInOrder(Shape(was), t) && Sum(now) == Sum(was) && |now| == |was|
    ensures was[..|was|] == was && Shape(was)[..|was|] == Shape(was)
  {
    forall i | 0 <= i < |now|
      ensures now[i] == TouchedInOrder(Shape(was), t)[i] && now[i].data == was[i].data
    {
      assert Shape(now)[i] == Shape(was)[i];
    }
    SameShapeSum(was, now);
  }

  /** The shape of a block list: non-empty blocks, none of which overlaps the next. */
  ghost predicate IsShape(shape: seq<(nat, seq<Byte>)>) {
    Disjoint(TouchedInOrder(shape, 0))
  }

  /** Replays the blocks into a fresh file with the default configuration. Blocks that overlap may differ;
      where that is noticed the replay stops. */
  method SetState(state: State) returns (svf: SparseVirtualFile, r: WriteResult)
    requires Keyed(TouchedInOrder(state.blocks, 0))
    ensures fresh(svf) && svf.id == state.id && svf.fileModTime == state.fileModTime
    ensures r.DataDiffers? <==> exists n :: StopsAt(state.blocks, n)
    ensures r.Completed? ==>
              && svf.Valid() && Canonical(svf.blocks)
              && svf.blockTouch == svf.countWrite == |state.blocks| && svf.countRead == 0
              && Held(svf.blocks) == Held(TouchedInOrder(state.blocks, 0))
              && FirstWins(state.blocks, Content(svf.blocks), |state.blocks|)
              && (Canonical(TouchedInOrder(state.blocks, 0)) <==> Shape(svf.blocks) == state.blocks)
    ensures IsShape(state.blocks) ==>
              && r.Completed?
              && Content(svf.blocks) == Content(TouchedInOrder(state.blocks, 0))
              && (Canonical(TouchedInOrder(state.blocks, 0)) ==> svf.blocks == TouchedInOrder(state.blocks, 0))
  {
    hide Keyed, Disjoint, Canonical, Content, Sum, Touched, Written, Stops, StopsAt, IsShape, ReplayedSoFar, Held,
         FirstWins, TouchedInOrder, Shape;
    svf := new SparseVirtualFile.Default(state.id, state.fileModTime);
    r := Completed;
    ReplayStarts(state.blocks);
    for n := 0 to |state.blocks|
      invariant fresh(svf) && svf.Valid() && svf.compareForDiff && r.Completed?
      invariant svf.id == state.id && svf.fileModTime == state.fileModTime
      invariant svf.blockTouch == svf.countWrite == n && svf.countRead == 0
      invariant ReplayedSoFar(state.blocks, svf.blocks, n)
    {
      ReplayTurn(state.blocks, svf.blocks, n);
      r := svf.Write(state.blocks[n].0, state.blocks[n].1);
      if r.DataDiffers? {
        return;
      }
    }
    ReplayEnds(state.blocks, svf.blocks);
  }

  predicate Within(entry: (nat, seq<Byte>), p: int) {
    entry.0 <= p < entry.0 + |entry.1|
  }

  /** Of the first n blocks, block k is the first that has position p. */
  ghost predicate HasFirst(shape: seq<(nat, seq<Byte>)>, n: nat, p: nat, k: int) {
    && 0 <= k < n <= |shape| && Within(shape[k], p)
    && forall j :: 0 <= j < k ==> !Within(shape[j], p)
  }

  /** Every position has the byte that the first of n blocks with that position has there. */
  ghost predicate FirstWins(shape: seq<(nat, seq<Byte>)>, c: map<nat, Byte>, n: nat) {
    forall p: nat, k :: HasFirst(shape, n, p, k) ==> p in c && c[p] == shape[k].1[p - shape[k].0]
  }

  /** The first byte of block n differs from the one that the first block before with its position has there. */
  ghost predicate StopsAt(shape: seq<(nat, seq<Byte>)>, n: nat) {
    && n < |shape| && shape[n].1 != []
    && exists k :: HasFirst(shape, n, shape[n].0, k) && shape[k].1[shape[n].0 - shape[k].0] != shape[n].1[0]
  }

  /** What is known after n blocks were replayed, none of which stopped the replay. */
  ghost predicate ReplayedSoFar(shape: seq<(nat, seq<Byte>)>, now: seq<Block>, n: nat) {
    && ReplayedKeys(shape, now, n) && FirstWins(shape, Content(now), n)
    && (forall k :: 0 <= k < n ==> !StopsAt(shape, k))
    && (IsShape(shape) ==> Replayed(shape, now, n))
  }

  /** One more turn of the replay. */
  lemma {:induction false} ReplayTurn(shape: seq<(nat, seq<Byte>)>, now: seq<Block>, n: nat)
    requires Keyed(TouchedInOrder(shape, 0)) && ReplayedSoFar(shape, now, n) && n < |shape|
    ensures Keyed(now) && shape[n].1 != []
    ensures Stops(now, shape[n].0, shape[n].1) <==> StopsAt(shape, n)
    ensures IsShape(shape) ==> !StopsAt(shape, n)
    ensures !StopsAt(shape, n) ==>
              var next := Written(now, shape[n].0, shape[n].1, n);
              Disjoint(next) && ReplayedSoFar(shape, next, n + 1)
  {
    hide Keyed, TouchedInOrder, Written, Replayed, ReplayedKeys, Stops, StopsAt, Disjoint, IsShape, Agrees, Misrouted,
         FirstWins, Content;
    ReplayKey(shape, now, n);
    StopsWhereFirstDiffers(shape, now, n);
    ReplayWins(shape, now, n);
    if IsShape(shape) {
      ReplayStep(shape, now, n);
      StopsOnlyAtDifferences(now, shape[n].0, shape[n].1);
    }
  }

  // ---- Which byte wins in a replay, and when it stops ----

  lemma {:induction false} HeldIsWithin(shape: seq<(nat, seq<Byte>)>, n: nat, p: nat)
    requires n <= |shape|
    ensures p in Held(TouchedInOrder(shape[..n], 0)) <==> exists k :: 0 <= k < n && Within(shape[k], p)
  {
    var bs := TouchedInOrder(shape[..n], 0);
    HeldIsInSome(bs, p);
    assert forall k :: 0 <= k < n ==> (bs[k].Contains(p) <==> Within(shape[k], p));
  }

  lemma {:induction false} FindFirst(shape: seq<(nat, seq<Byte>)>, n: nat, p: nat) returns (k: nat)
    requires n <= |shape| && exists m :: 0 <= m < n && Within(shape[m], p)
    ensures HasFirst(shape, n, p, k)
  {
    k := 0;
    while !Within(shape[k], p)
      invariant k < n && forall j :: 0 <= j < k ==> !Within(shape[j], p)
      decreases n - k
    {
      k := k + 1;
    }
  }

  /** A write that starts behind the start of every block stops just when its first byte is held and
      differs. */
  lemma {:induction false} StopsAtLast(now: seq<Block>, fpos: nat, data: seq<Byte>, c: map<nat, Byte>)
    requires Canonical(now) && data != [] && (now != [] ==> now[|now| - 1].fpos < fpos) && c == Content(now)
    ensures Stops(now, fpos, data) <==> fpos in c && c[fpos] != data[0]
  {
    assert Disjoint(now) && Keyed(now);
    UpperBoundIs(now, fpos, |now|);
    LastHolds(now, fpos, c);
    hide Canonical, Keyed, Disjoint, Content, UpperBound, StopsBehind, AgreesOn;
  }

  /** What is held from behind the start of the last block on is in that block. */
  lemma {:induction false} LastHolds(now: seq<Block>, p: nat, c: map<nat, Byte>)
    requires Disjoint(now) && (now != [] ==> now[|now| - 1].fpos <= p) && c == Content(now)
    ensures p in c <==> now != [] && p < now[|now| - 1].End()
    ensures p in c ==> c[p] == now[|now| - 1].At(p)
  {
    HeldIsInSome(now, p);
    hide Content, Held;
    if p in c {
      var k :| 0 <= k < |now| && now[k].Contains(p);
      assert k == |now| - 1;
    }
    if now != [] && p < now[|now| - 1].End() {
      ContentAt(now, |now| - 1, p, c);
    }
  }

  lemma {:induction false} ReplayedHolds(shape: seq<(nat, seq<Byte>)>, now: seq<Block>, n: nat, p: nat)
    requires ReplayedKeys(shape, now, n)
    ensures p in Content(now) <==> exists k :: 0 <= k < n && Within(shape[k], p)
  {
    HeldIsWithin(shape, n, p);
    hide Content, Held, TouchedInOrder, Canonical, Within;
    assert Content(now).Keys == Held(now);
  }

  lemma {:induction false} ReplayedStands(shape: seq<(nat, seq<Byte>)>, now: seq<Block>, n: nat)
    requires Keyed(TouchedInOrder(shape, 0)) && ReplayedKeys(shape, now, n) && n < |shape|
    ensures Canonical(now) && Keyed(now) && Disjoint(now) && shape[n].1 != []
    ensures now != [] ==> now[|now| - 1].fpos < shape[n].0
  {
    KeyPrefix(shape, n);
    hide TouchedInOrder, Held;
  }

  lemma {:induction false} StopsWhereFirstDiffers(shape: seq<(nat, seq<Byte>)>, now: seq<Block>, n: nat)
    requires Keyed(TouchedInOrder(shape, 0)) && ReplayedKeys(shape, now, n) && n < |shape|
    requires FirstWins(shape, Content(now), n)
    ensures Stops(now, shape[n].0, shape[n].1) <==> StopsAt(shape, n)
  {
    hide Content, Held, TouchedInOrder, Keyed, Canonical, Stops, Within, ReplayedKeys, Disjoint;
    var fpos, c := shape[n].0, Content(now);
    ReplayedStands(shape, now, n);
    ReplayedHolds(shape, now, n, fpos);
    StopsAtLast(now, fpos, shape[n].1, c);
    if fpos in c {
      var k := FindFirst(shape, n, fpos);
    }
  }

  lemma {:induction false} OverlayKeeps(c: map<nat, Byte>, fpos: nat, data: seq<Byte>, keep: nat, p: nat)
    requires p in c && (p in Interval(fpos, |data|) ==> p < keep)
    ensures p in Overlay(c, fpos, data, keep) && Overlay(c, fpos, data, keep)[p] == c[p]
  {
    hide Interval;
  }

  lemma {:induction false} KeptAtLast(now: seq<Block>, fpos: nat, p: nat, c: map<nat, Byte>)
    requires Disjoint(now) && (now != [] ==> now[|now| - 1].fpos < fpos) && c == Content(now)
    ensures p in c && fpos <= p ==> p < KeptUpTo(now, fpos)
  {
    assert Keyed(now);
    UpperBoundIs(now, fpos, |now|);
    hide Content, UpperBound, Keyed;
    if fpos <= p {
      LastHolds(now, p, c);
    }
  }

  lemma {:induction false} LastWriteOverlays(now: seq<Block>, fpos: nat, data: seq<Byte>, touch: nat)
    requires Canonical(now) && data != [] && (now != [] ==> now[|now| - 1].fpos < fpos)
    ensures Keyed(now)
    ensures Content(Written(now, fpos, data, touch)) == Overlay(Content(now), fpos, data, KeptUpTo(now, fpos))
  {
    hide *;
    WriteLast(now, fpos, data, touch);
    OverlapIsMisrouted(now, fpos, |data|);
    WrittenContent(now, fpos, data, touch);
  }

  /** The last block's bytes stay, all else is new. */
  lemma {:induction false} WriteLastByte(now: seq<Block>, fpos: nat, data: seq<Byte>, p: nat, c: map<nat, Byte>)
    requires Disjoint(now) && (now != [] ==> now[|now| - 1].fpos < fpos) && c == Content(now)
    ensures var nc := Overlay(c, fpos, data, KeptUpTo(now, fpos));
            && (p in c ==> p in nc && nc[p] == c[p])
            && (p !in c && fpos <= p < fpos + |data| ==> p in nc && nc[p] == data[p - fpos])
  {
    hide Content, Disjoint, KeptUpTo, Overlay;
    KeptAtLast(now, fpos, p, c);
    if p in c {
      OverlayKeeps(c, fpos, data, KeptUpTo(now, fpos), p);
    } else if fpos <= p < fpos + |data| {
      OverlayAdds(c, fpos, data, KeptUpTo(now, fpos), p);
    }
  }

  lemma {:induction false} ReplayWins(shape: seq<(nat, seq<Byte>)>, now: seq<Block>, n: nat)
    requires Keyed(TouchedInOrder(shape, 0)) && ReplayedKeys(shape, now, n) && n < |shape|
    requires FirstWins(shape, Content(now), n)
    ensures Keyed(now) && FirstWins(shape, Content(Written(now, shape[n].0, shape[n].1, n)), n + 1)
  {
    hide Keyed, Content, Written, Held, TouchedInOrder, Canonical, ReplayedKeys, Overlay, KeptUpTo, Disjoint;
    ReplayedStands(shape, now, n);
    LastWriteOverlays(now, shape[n].0, shape[n].1, n);
    var c, nc := Content(now), Content(Written(now, shape[n].0, shape[n].1, n));
    forall p: nat, k | HasFirst(shape, n + 1, p, k)
      ensures p in nc && nc[p] == shape[k].1[p - shape[k].0]
    {
      WriteLastByte(now, shape[n].0, shape[n].1, p, c);
      ReplayedHolds(shape, now, n, p);
      if k < n {
        assert HasFirst(shape, n, p, k);
      }
    }
  }

  /** What n replayed blocks leave: canonical blocks that hold their positions and start before the
      next. */
  ghost predicate ReplayedKeys(shape: seq<(nat, seq<Byte>)>, now: seq<Block>, n: nat) {
    && n <= |shape| && Canonical(now)
    && Held(now) == Held(TouchedInOrder(shape[..n], 0))
    && (now != [] ==> n > 0 && now[|now| - 1].fpos <= shape[n - 1].0)
  }

  /** A write that starts behind the start of every block goes to the last one or behind it. */
  lemma {:induction false} WriteLast(now: seq<Block>, fpos: nat, data: seq<Byte>, touch: nat)
    requires Canonical(now) && data != [] && (now != [] ==> now[|now| - 1].fpos < fpos)
    ensures Disjoint(now) && Keyed(now) && !Misrouted(now, fpos, |data|)
    ensures var next := Written(now, fpos, data, touch);
            next != [] && next[|next| - 1].fpos <= fpos
  {
    assert Disjoint(now) && Keyed(now);
    UpperBoundIs(now, fpos, |now|);
    UpperBoundIs(now, fpos + |data|, |now|);
    if HasBase(now, fpos) {
      assert |now| >= 2 ==> now[|now| - 2].End() < now[|now| - 1].fpos;
      assert ReachFromBase(now, fpos + |data|) == |now|;
    }
    hide UpperBound, ReachFromBase, Canonical, Disjoint, Keyed, TailFrom;
    assert ReplacedTo(now, fpos, |data|) == |now|;
  }

  /** One more block replayed. */
  lemma {:induction false} ReplayKey(shape: seq<(nat, seq<Byte>)>, now: seq<Block>, n: nat)
    requires Keyed(TouchedInOrder(shape, 0)) && ReplayedKeys(shape, now, n) && n < |shape|
    ensures Keyed(now) && Disjoint(now) && shape[n].1 != []
    ensures ReplayedKeys(shape, Written(now, shape[n].0, shape[n].1, n), n + 1)
    ensures Disjoint(Written(now, shape[n].0, shape[n].1, n))
  {
    var fpos, data := shape[n].0, shape[n].1;
    KeyPrefix(shape, n);
    HeldOneMore(shape, n);
    hide Canonical, Written, Misrouted, Overlaps, TouchedInOrder, Keyed, Held, Disjoint, Interval;
    WriteLast(now, fpos, data, n);
    OverlapIsMisrouted(now, fpos, |data|);
    WrittenIsDisjoint(now, fpos, data, n);
    WrittenIsCanonical(now, fpos, data, n);
    WrittenHolds(now, fpos, data, n);
  }

  lemma {:induction false} KeyPrefix(shape: seq<(nat, seq<Byte>)>, n: nat)
    requires Keyed(TouchedInOrder(shape, 0)) && n < |shape|
    ensures shape[n].1 != [] && (n > 0 ==> shape[n - 1].0 < shape[n].0)
  {
    var all := TouchedInOrder(shape, 0);
    assert all[n].data == shape[n].1 && all[n].fpos == shape[n].0;
    assert n > 0 ==> all[n - 1].fpos == shape[n - 1].0;
  }

  lemma {:induction false} HeldOneMore(shape: seq<(nat, seq<Byte>)>, n: nat)
    requires n < |shape|
    ensures Held(TouchedInOrder(shape[..n + 1], 0)) ==
            Held(TouchedInOrder(shape[..n], 0)) + Interval(shape[n].0, |shape[n].1|)
  {
    var before, b := TouchedInOrder(shape[..n], 0), Block(shape[n].0, shape[n].1, n);
    assert TouchedInOrder(shape[..n + 1], 0) == before + [b];
    HeldExtended(before, b);
  }

  lemma {:induction false} HeldExtended(bs: seq<Block>, b: Block)
    ensures Held(bs + [b]) == Held(bs) + Interval(b.fpos, |b.data|)
  {
    forall p: nat
      ensures p in Held(bs + [b]) <==> p in Held(bs) || p in Interval(b.fpos, |b.data|)
    {
      HeldIsInSome(bs, p);
      HeldIsInSome(bs + [b], p);
      if InSome(bs, p) {
        var k :| 0 <= k < |bs| && bs[k].Contains(p);
        assert (bs + [b])[k].Contains(p);
      }
      if b.Contains(p) {
        assert (bs + [b])[|bs|].Contains(p);
      }
    }
  }

  /** Canonical blocks of the same shape are the very ones pickled, if those were canonical. */
  lemma {:induction false} CanonicalIsShape(shape: seq<(nat, seq<Byte>)>, now: seq<Block>)
    requires Canonical(now)
    requires Canonical(TouchedInOrder(shape, 0)) && IsShape(shape) ==> now == TouchedInOrder(shape, 0)
    ensures Canonical(TouchedInOrder(shape, 0)) <==> Shape(now) == shape
  {
    var all := TouchedInOrder(shape, 0);
    assert Shape(all) == shape;
    assert Canonical(all) ==> Disjoint(all);
    if Shape(now) == shape {
      assert |now| == |Shape(now)| == |all|;
      forall i | 0 <= i < |now| ensures now[i].fpos == all[i].fpos && now[i].data == all[i].data {
        assert Shape(now)[i] == shape[i];
      }
      SameFormsKept(now, all);
    }
  }

  /** What n replayed blocks leave: their bytes in canonical blocks, and themselves if they were
      canonical. */
  ghost predicate Replayed(shape: seq<(nat, seq<Byte>)>, now: seq<Block>, n: nat) {
    && n <= |shape| && Canonical(now)
    && Content(now) == Content(TouchedInOrder(shape[..n], 0))
    && (now != [] ==> n > 0 && now[|now| - 1].End() == shape[n - 1].0 + |shape[n - 1].1|)
    && (now == [] ==> n == 0)
    && (Canonical(TouchedInOrder(shape, 0)) ==> now == TouchedInOrder(shape[..n], 0))
  }

  lemma {:induction false} ReplayStarts(shape: seq<(nat, seq<Byte>)>)
    ensures ReplayedSoFar(shape, [], 0)
  {
    assert TouchedInOrder(shape[..0], 0) == [];
  }

  /** A block that starts at or behind the end of all others is put there, or appended. */
  lemma {:induction false} WriteBehind(now: seq<Block>, fpos: nat, data: seq<Byte>, touch: nat)
    requires Canonical(now) && data != [] && (now != [] ==> now[|now| - 1].End() <= fpos)
    ensures Keyed(now) && Disjoint(now) && !Misrouted(now, fpos, |data|) && Agrees(now, fpos, data)
    ensures var next := Written(now, fpos, data, touch);
            && next != [] && next[|next| - 1].End() == fpos + |data|
            && (now == [] || now[|now| - 1].End() < fpos ==> next == now + [Block(fpos, data, touch)])
  {
    assert Disjoint(now) && Keyed(now);
    LastEndsLast(now);
    UpperBoundIs(now, fpos, |now|);
    UpperBoundIs(now, fpos + |data|, |now|);
    hide Disjoint, Keyed, Canonical, UpperBound;
    assert Agrees(now, fpos, data);
    hide Agrees;
    if HasBase(now, fpos) {
      var u := |now|;
      assert ReachFromBase(now, fpos + |data|) == u;
      assert TailFrom(now, u, fpos + |data|) == [];
    }
  }

  lemma {:induction false} LastEndsLast(bs: seq<Block>)
    requires Disjoint(bs)
    ensures forall k :: 0 <= k < |bs| ==> bs[k].End() <= bs[|bs| - 1].End()
  {
  }

  lemma {:induction false} ShapePrefix(shape: seq<(nat, seq<Byte>)>, n: nat)
    requires IsShape(shape) && n < |shape|
    ensures var bs := TouchedInOrder(shape[..n], 0);
            && Disjoint(bs) && TouchedInOrder(shape[..n + 1], 0) == bs + [Block(shape[n].0, shape[n].1, n)]
            && forall k :: 0 <= k < n ==> bs[k].End() <= shape[n].0
    ensures shape[n].1 != []
    ensures n > 0 ==> shape[n - 1].0 + |shape[n - 1].1| <= shape[n].0
    ensures n > 0 && Canonical(TouchedInOrder(shape, 0)) ==> shape[n - 1].0 + |shape[n - 1].1| < shape[n].0
  {
    var all := TouchedInOrder(shape, 0);
    assert all[n].data == shape[n].1;
    assert n > 0 ==> all[n - 1].End() <= all[n].fpos;
    assert forall i :: 0 <= i < n ==> TouchedInOrder(shape[..n], 0)[i] == all[i];
  }

  /** Bytes written behind all others are those of one block more. */
  lemma {:induction false} BytesBehind(bs: seq<Block>, b: Block)
    requires Disjoint(bs) && b.data != []
    requires forall k :: 0 <= k < |bs| ==> bs[k].End() <= b.fpos
    ensures Content(bs + [b]) == Content(bs) + BytesFrom(b.fpos, b.data)
  {
    hide Disjoint, Content, BytesFrom, Overlay, Coalesces, StaysApart, Held;
    InsertCoalesces(bs, |bs|, b.fpos, b.data, b.touch);
    SpliceContent(bs, |bs|, |bs|, b, b.fpos, b.data, 0);
    assert Splice(bs, |bs|, |bs|, b) == bs + [b];
    hide Splice;
    forall p | p in Content(bs)
      ensures p !in Interval(b.fpos, |b.data|)
    {
      HeldIsInSome(bs, p);
    }
    OverlayOfAgreeing(Content(bs), b.fpos, b.data, 0);
  }

  /** Replaying one more block keeps what was replayed. */
  lemma {:induction false} ReplayStep(shape: seq<(nat, seq<Byte>)>, now: seq<Block>, n: nat)
    requires IsShape(shape) && Replayed(shape, now, n) && n < |shape|
    ensures Keyed(now) && shape[n].1 != []
    ensures !Misrouted(now, shape[n].0, |shape[n].1|) && Agrees(now, shape[n].0, shape[n].1) && Disjoint(now)
    ensures Replayed(shape, Written(now, shape[n].0, shape[n].1, n), n + 1)
    ensures Disjoint(Written(now, shape[n].0, shape[n].1, n))
  {
    var fpos, data := shape[n].0, shape[n].1;
    var before := TouchedInOrder(shape[..n], 0);
    ShapePrefix(shape, n);
    hide IsShape, Content, Canonical, Written, Misrouted, Agrees, TouchedInOrder, Keyed, BytesFrom;
    WriteBehind(now, fpos, data, n);
    OverlapIsMisrouted(now, fpos, |data|);
    WrittenIsDisjoint(now, fpos, data, n);
    WrittenIsCanonical(now, fpos, data, n);
    AgreeingContent(now, fpos, data, n);
    BytesBehind(before, Block(fpos, data, n));
  }

  lemma {:induction false} ReplayEnds(shape: seq<(nat, seq<Byte>)>, now: seq<Block>)
    requires ReplayedSoFar(shape, now, |shape|)
    ensures forall n :: !StopsAt(shape, n)
    ensures Canonical(now) && Held(now) == Held(TouchedInOrder(shape, 0)) && FirstWins(shape, Content(now), |shape|)
    ensures Canonical(TouchedInOrder(shape, 0)) <==> Shape(now) == shape
    ensures IsShape(shape) ==>
              && Content(now) == Content(TouchedInOrder(shape, 0))
              && (Canonical(TouchedInOrder(shape, 0)) ==> now == TouchedInOrder(shape, 0))
  {
    assert shape[..|shape|] == shape;
    hide Canonical, Held, Content, TouchedInOrder, Shape, Stops, IsShape, FirstWins;
    CanonicalIsShape(shape, now);
  }

  /** The source, read out, and its copy were touched in the same order, so that punts with equal
      bounds keep the same blocks of both. */
  lemma {:induction false} SameEviction(shape: seq<(nat, seq<Byte>)>, t: nat, bound: nat, source: seq<Block>,
                                        copy: seq<Block>)
    requires Punted(TouchedInOrder(shape, t), bound, source)
    requires Punted(TouchedInOrder(shape, 0), bound, copy)
    ensures Shape(source) == Shape(copy)
  {
    assert TouchedInOrder(shape, t) == Delayed(TouchedInOrder(shape, 0), t);
    DelayedPunt(TouchedInOrder(shape, 0), t, bound, copy, source);
    assert |Shape(source)| == |Shape(copy)|;
  }
}
