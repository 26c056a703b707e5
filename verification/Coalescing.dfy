/** The loops of the two coalescing writes: what they have done after each turn, and what that
    comes to. */
module Coalescing {
  import opened Blocks
  import opened Writes

  predicate HasKey(bs: seq<Block>, fpos: nat) {
    var u := UpperBound(bs, fpos);
    0 < u && bs[u - 1].fpos == fpos
  }

  lemma {:induction false} KeyMeans(bs: seq<Block>, fpos: nat)
    requires Keyed(bs)
    ensures HasKey(bs, fpos) <==> exists k :: 0 <= k < |bs| && bs[k].fpos == fpos
  {
    if k :| 0 <= k < |bs| && bs[k].fpos == fpos {
      UpperBoundIs(bs, fpos, k + 1);
    }
  }

  lemma {:induction false} KeyIsFound(bs: seq<Block>, fpos: nat)
    requires HasKey(bs, fpos)
    ensures 0 < UpperBound(bs, fpos) <= |bs| && bs[UpperBound(bs, fpos) - 1].fpos == fpos
  {
  }

  /** std::map::insert, which does nothing when the key is there. */
  function MapInsert(bs: seq<Block>, b: Block): seq<Block> {
    if HasKey(bs, b.fpos) then bs else Splice(bs, UpperBound(bs, b.fpos), UpperBound(bs, b.fpos), b)
  }

  lemma {:induction false} ReachIs(bs: seq<Block>, e: nat, j: nat)
    requires Disjoint(bs) && 0 < j <= |bs| && bs[j - 1].fpos <= e
    requires j < |bs| ==> e < bs[j].fpos || bs[j].fpos == e == bs[j - 1].End()
    requires j >= 2 ==> bs[j - 2].End() < e
    ensures ReachFromBase(bs, e) == j
  {
    assert Keyed(bs);
    if j < |bs| && bs[j].fpos == e {
      assert j + 1 < |bs| ==> bs[j].End() <= bs[j + 1].fpos;
      hide Keyed, Disjoint, UpperBound;
      UpperBoundIs(bs, e, j + 1);
    } else {
      hide Keyed, Disjoint, UpperBound;
      UpperBoundIs(bs, e, j);
    }
  }

  // ---- Invariants of the loop that puts a new block in front of old ones ----

  /** The new block has taken the first d bytes and the blocks at up to m; block m comes next. */
  ghost predicate Prepending(was: seq<Block>, now: seq<Block>, at: nat, m: nat, fpos: nat, data: seq<Byte>, d: nat,
                             newData: seq<Byte>, gained: int) {
    && at <= m < |was| && now == was[..at] + was[m..]
    && d <= |data| && newData == data[..d]
    && fpos + d <= was[m].fpos <= fpos + |data|
    && gained == d - Sum(was[at..m])
  }

  /** The new block has all its bytes and the blocks at up to j, all that it absorbs, are gone. */
  ghost predicate HasPrepended(was: seq<Block>, now: seq<Block>, at: nat, j: nat, fpos: nat, data: seq<Byte>,
                               newData: seq<Byte>, gained: int) {
    && at <= j <= |was| && j == UpperBound(was, fpos + |data|) && now == was[..at] + was[j..]
    && newData == data + TailFrom(was, j, fpos + |data|)
    && gained == |newData| - Sum(was[at..j])
  }

  /** How many bytes of a write the block that starts within it holds already. */
  function OverlapLength(b: Block, fpos: nat, data: seq<Byte>): (n: nat)
    requires fpos <= b.fpos <= fpos + |data|
    ensures n <= |b.data| && b.fpos + n <= fpos + |data|
  {
    if fpos + |data| - b.fpos < |b.data| then fpos + |data| - b.fpos else |b.data|
  }

  /** What one turn of the loop does to the block list, the new bytes and the byte count. */
  ghost predicate Turned(now: seq<Block>, now': seq<Block>, at: nat, fpos: nat, data: seq<Byte>, d: nat,
                         newData: seq<Byte>, d': nat, done: bool, gain: int) {
    && at < |now| && fpos <= now[at].fpos <= fpos + |data|
    && now' == now[..at] + now[at + 1..]
    && var iter, e := now[at], fpos + |data|;
       var start, overlap := iter.fpos - fpos, OverlapLength(iter, fpos, data);
       if e < iter.End() then
         done && newData == data + iter.data[overlap..] && gain == start - d
       else if at == |now'| || e < now'[at].fpos then
         done && newData == data && gain == start - d + e - iter.End()
       else
         !done && d' == start + overlap && newData == data[..d'] && gain == start - d
  }

  lemma {:induction false} Prefixes(data: seq<Byte>, d: nat, e: nat)
    requires d <= e <= |data|
    ensures data[..d] + data[d..e] == data[..e] && data[..|data|] == data
  {
  }

  /** The turn that ends inside a block, whose rest is pushed. */
  lemma {:induction false} TurnEndsInBlock(was: seq<Block>, now: seq<Block>, at: nat, fpos: nat, data: seq<Byte>,
                                           d: nat, newData: seq<Byte>, d': nat, gain: int)
    requires at < |was| && fpos <= was[at].fpos <= fpos + |data| < was[at].End()
    requires now == was[..at] + was[at + 1..] && gain == was[at].fpos - fpos - d
    requires var overlap := OverlapLength(was[at], fpos, data);
             newData == data[..was[at].fpos - fpos + overlap] + was[at].data[overlap..|was[at].data|]
    ensures Turned(was, now, at, fpos, data, d, newData, d', true, gain)
  {
    assert data[..|data|] == data;
  }

  /** The turn that ends behind a block, in front of the next. */
  lemma {:induction false} TurnEndsBehind(was: seq<Block>, now: seq<Block>, at: nat, fpos: nat, data: seq<Byte>,
                                          d: nat, newData: seq<Byte>, d': nat, gain: int)
    requires at < |was| && fpos <= was[at].fpos && was[at].End() <= fpos + |data|
    requires now == was[..at] + was[at + 1..] && (at == |now| || fpos + |data| < now[at].fpos)
    requires newData == data && gain == was[at].fpos - fpos - d + fpos + |data| - was[at].End()
    ensures Turned(was, now, at, fpos, data, d, newData, d', true, gain)
  {
  }

  /** The turn that absorbs a block and goes on to the next. */
  lemma {:induction false} TurnGoesOn(was: seq<Block>, now: seq<Block>, at: nat, fpos: nat, data: seq<Byte>, d: nat,
                                      newData: seq<Byte>, d': nat, gain: int)
    requires at < |was| && fpos <= was[at].fpos && was[at].End() <= fpos + |data|
    requires now == was[..at] + was[at + 1..] && at < |now| && now[at].fpos <= fpos + |data|
    requires d' == was[at].End() - fpos && newData == data[..d'] && gain == was[at].fpos - fpos - d
    ensures Turned(was, now, at, fpos, data, d, newData, d', false, gain)
  {
  }

  lemma {:induction false} SumStep(bs: seq<Block>, i: nat, m: nat)
    requires i <= m < |bs|
    ensures Sum(bs[i..m + 1]) == Sum(bs[i..m]) + |bs[m].data|
  {
    assert bs[i..m + 1] == bs[i..m] + [bs[m]];
    SumConcat(bs[i..m], [bs[m]]);
  }

  /** Block m sticks out of the write: its rest is the tail of the new block. */
  lemma {:induction false} PrependsTail(was: seq<Block>, at: nat, m: nat, fpos: nat, data: seq<Byte>, d: nat)
    requires Disjoint(was) && at <= m < |was| && d <= |data|
    requires fpos + d == was[m].fpos <= fpos + |data| < was[m].End()
    ensures HasPrepended(was, was[..at] + was[m + 1..], at, m + 1, fpos, data,
                         data + was[m].data[|data| - d..], d - Sum(was[at..m]))
  {
    UpperBoundIs(was, fpos + |data|, m + 1);
    assert |was[m].data[|data| - d..]| == |was[m].data| - (|data| - d);
    assert TailFrom(was, m + 1, fpos + |data|) == was[m].data[|data| - d..];
    SumStep(was, at, m);
  }

  /** Block m ends within the write and the next one does not start within it. */
  lemma {:induction false} PrependsLast(was: seq<Block>, at: nat, m: nat, fpos: nat, data: seq<Byte>)
    requires Disjoint(was) && at <= m < |was| && was[m].End() <= fpos + |data|
    requires m + 1 < |was| ==> fpos + |data| < was[m + 1].fpos
    ensures HasPrepended(was, was[..at] + was[m + 1..], at, m + 1, fpos, data, data,
                         |data| - Sum(was[at..m + 1]))
  {
    UpperBoundIs(was, fpos + |data|, m + 1);
  }

  lemma {:induction false} PrependsNext(was: seq<Block>, at: nat, m: nat, fpos: nat, data: seq<Byte>, d: nat)
    requires Disjoint(was) && at <= m && m + 1 < |was|
    requires fpos + d == was[m].fpos && was[m].End() <= fpos + |data|
    requires was[m + 1].fpos <= fpos + |data|
    ensures var next := d + |was[m].data|;
            && next <= |data|
            && Prepending(was, was[..at] + was[m + 1..], at, m + 1, fpos, data, next, data[..next],
                          d - Sum(was[at..m]))
  {
    SumStep(was, at, m);
  }

  /** A turn of the loop keeps its invariant. */
  lemma {:induction false} TurnKeeps(was: seq<Block>, now: seq<Block>, now': seq<Block>, at: nat, m: nat, fpos: nat,
                                     data: seq<Byte>, d: nat, newData: seq<Byte>, gained: int, newData': seq<Byte>,
                                     d': nat, done: bool, gain: int)
    requires Disjoint(was) && Prepending(was, now, at, m, fpos, data, d, newData, gained)
    requires Turned(now, now', at, fpos, data, d, newData', d', done, gain)
    ensures done ==> HasPrepended(was, now', at, m + 1, fpos, data, newData', gained + gain)
    ensures !done ==> Prepending(was, now', at, m + 1, fpos, data, d', newData', gained + gain)
  {
    hide Disjoint, HasPrepended;
    var iter, e := now[at], fpos + |data|;
    var start := iter.fpos - fpos;
    assert iter == was[m];
    assert now' == was[..at] + was[m + 1..];
    if e < iter.End() {
      PrependsTail(was, at, m, fpos, data, start);
    } else if at == |now'| || e < now'[at].fpos {
      PrependsLast(was, at, m, fpos, data);
      SumStep(was, at, m);
    } else {
      PrependsNext(was, at, m, fpos, data, start);
    }
  }

  // ---- Invariants of the loop that appends new bytes to an old block ----

  /** Block at has grown over the blocks up to m and ends where the first d bytes do. */
  ghost predicate Appending(was: seq<Block>, now: seq<Block>, at: nat, m: nat, fpos: nat, data: seq<Byte>, d: nat,
                            gained: int) {
    && at < m <= |was| && fpos <= was[at].End()
    && was[at].End() - fpos <= d < |data| && fpos + d == was[m - 1].End()
    && now == Splice(was, at, m, was[at].(data := was[at].data + data[was[at].End() - fpos..d]))
    && gained == fpos + d - was[at].End() - Sum(was[at + 1..m])
  }

  /** Block at has all the bytes and the blocks after it up to j, all that it absorbs, are gone. */
  ghost predicate HasAppended(was: seq<Block>, now: seq<Block>, at: nat, j: nat, fpos: nat, data: seq<Byte>,
                              gained: int) {
    && at < j <= |was| && j == ReachFromBase(was, fpos + |data|)
    && fpos <= was[at].End() < fpos + |data|
    && now == Splice(was, at, j, Appended(was, at, j, fpos, data, was[at].touch))
    && gained == |Appended(was, at, j, fpos, data, 0).data| - |was[at].data| - Sum(was[at + 1..j])
  }

  /** No block is left behind block at that starts within the write. */
  predicate AtLast(now: seq<Block>, at: nat, e: nat) {
    at + 1 == |now| || (at + 1 < |now| && e < now[at + 1].fpos)
  }

  /** What one turn of the loop does to the block list and the byte count. */
  ghost predicate AppendTurned(now: seq<Block>, now': seq<Block>, at: nat, fpos: nat, data: seq<Byte>, d: nat,
                               d': nat, done: bool, gain: int) {
    && at < |now| && d <= |data|
    && var base, e := now[at], fpos + |data|;
       if AtLast(now, at, e) then
         && done && gain == |data| - d
         && now' == now[at := base.(data := base.data + data[d..])]
       else
         && at + 1 < |now| && fpos <= now[at + 1].fpos
         && var next := now[at + 1];
            var start, overlap := next.fpos - fpos, OverlapLength(next, fpos, data);
            && gain == start - d
            && (if e <= next.End() then
                  && done
                  && now' == Splice(now, at, at + 2, base.(data := base.data + data[d..] + next.data[overlap..]))
                else
                  && !done && d' == start + overlap && d <= d' <= |data|
                  && now' == Splice(now, at, at + 2, base.(data := base.data + data[d..d'])))
  }

  /** The turn that runs out of new bytes before the next block. */
  lemma {:induction false} AppendTurnRunsOut(was: seq<Block>, now: seq<Block>, at: nat, fpos: nat, data: seq<Byte>,
                                             d: nat, d': nat, gain: int)
    requires at < |was| && d <= d' == |data| && AtLast(was, at, fpos + |data|)
    requires now == was[at := was[at].(data := was[at].data + data[d..d'])] && gain == d' - d
    ensures AppendTurned(was, now, at, fpos, data, d, d', true, gain)
  {
    assert data[d..d'] == data[d..];
  }

  /** The block list when block at has taken what it shares with the next block, and what is left of
      that if the write ends there. */
  function Absorbed(bs: seq<Block>, at: nat, fpos: nat, data: seq<Byte>, start: nat): seq<Block>
    requires at + 1 < |bs| && start <= |data| && fpos + start == bs[at + 1].fpos
  {
    var overlap := OverlapLength(bs[at + 1], fpos, data);
    var tail := if start + overlap == |data| then bs[at + 1].data[overlap..] else [];
    Splice(bs, at, at + 2, bs[at].(data := bs[at].data + data[start..start + overlap] + tail))
  }

  lemma {:induction false} PushedNothing(bs: seq<Block>, at: nat, data: seq<Byte>, d: nat)
    requires at < |bs| && d <= |data|
    ensures bs[at := bs[at].(data := bs[at].data + data[d..d])] == bs
  {
    assert bs[at].data + data[d..d] == bs[at].data;
  }

  lemma {:induction false} AbsorbedIs(was: seq<Block>, copied: seq<Block>, now: seq<Block>, at: nat, fpos: nat,
                                      data: seq<Byte>, start: nat, d': nat)
    requires at + 1 < |was| && start <= d' <= |data| && fpos + start == was[at + 1].fpos
    requires d' == start + OverlapLength(was[at + 1], fpos, data)
    requires copied == was[at := was[at].(data := was[at].data + data[start..d'])]
    requires var rest := was[at + 1].data[d' - start..|was[at + 1].data|];
             now == if d' == |data| then copied[at := copied[at].(data := copied[at].data + rest)] else copied
    ensures now[..at + 1] + now[at + 2..] == Absorbed(was, at, fpos, data, start)
  {
    var next, grown := was[at + 1].data, was[at].data + data[start..d'];
    assert grown + [] == grown;
    assert next[d' - start..|next|] == next[d' - start..];
    var b := was[at].(data := grown + if d' == |data| then next[d' - start..] else []);
    assert now == was[at := b];
    SpliceByErase(was, at, b);
  }

  /** The turn that absorbs the next block. */
  lemma {:induction false} AppendTurnAbsorbs(was: seq<Block>, grown: seq<Block>, now: seq<Block>, at: nat, fpos: nat,
                                             data: seq<Byte>, d: nat, start: nat, d': nat, gain: int)
    requires at + 1 < |was| && !AtLast(was, at, fpos + |data|)
    requires fpos + start == was[at + 1].fpos && d <= start <= |data| && gain == start - d
    requires d' == start + OverlapLength(was[at + 1], fpos, data)
    requires grown == was[at := was[at].(data := was[at].data + data[d..start])]
    requires now == Absorbed(grown, at, fpos, data, start)
    ensures AppendTurned(was, now, at, fpos, data, d, d', d' == |data|, gain) && |now| < |was|
  {
    var base, tail := was[at].data, was[at + 1].data[d' - start..];
    Grown(base, data, d, start, d');
    assert d' == |data| ==> data[d..d'] == data[d..];
    assert base + data[d..d'] + [] == base + data[d..d'];
    assert grown[..at] == was[..at] && grown[at + 2..] == was[at + 2..];
  }

  lemma {:induction false} SpliceOfSplice(was: seq<Block>, at: nat, m: nat, b: Block, b': Block)
    requires at < m <= |was|
    ensures var now := Splice(was, at, m, b);
            && |now| == at + 1 + |was| - m && now[at] == b
            && now[at := b'] == Splice(was, at, m, b')
            && (m < |was| ==> now[at + 1] == was[m] && Splice(now, at, at + 2, b') == Splice(was, at, m + 1, b'))
  {
  }

  lemma {:induction false} Grown(base: seq<Byte>, data: seq<Byte>, d: nat, start: nat, d': nat)
    requires d <= start <= d' <= |data|
    ensures base + data[d..start] + data[start..d'] == base + data[d..d']
  {
  }

  lemma {:induction false} Regrown(base: seq<Byte>, data: seq<Byte>, c0: nat, d: nat, tail: seq<Byte>)
    requires c0 <= d <= |data|
    ensures base + data[c0..] + tail == base + data[c0..d] + data[d..] + tail
  {
    assert data[c0..] == data[c0..d] + data[d..];
  }

  lemma {:induction false} AppendsLast(was: seq<Block>, at: nat, m: nat, fpos: nat, data: seq<Byte>, d: nat)
    requires Disjoint(was) && at < m <= |was| && fpos <= was[at].End()
    requires was[at].End() - fpos <= d < |data| && fpos + d == was[m - 1].End()
    requires m < |was| ==> fpos + |data| < was[m].fpos
    ensures m == ReachFromBase(was, fpos + |data|)
    ensures Appended(was, at, m, fpos, data, was[at].touch) ==
            was[at].(data := was[at].data + data[was[at].End() - fpos..d] + data[d..])
  {
    ReachIs(was, fpos + |data|, m);
    assert TailFrom(was, m, fpos + |data|) == [];
    hide Disjoint, ReachFromBase, TailFrom;
    Regrown(was[at].data, data, was[at].End() - fpos, d, []);
  }

  lemma {:induction false} TailOverlap(was: seq<Block>, m: nat, fpos: nat, data: seq<Byte>)
    requires m < |was| && fpos <= was[m].fpos <= fpos + |data| <= was[m].End()
    ensures TailFrom(was, m + 1, fpos + |data|) == was[m].data[OverlapLength(was[m], fpos, data)..]
  {
  }

  lemma {:induction false} ReachesTail(was: seq<Block>, m: nat, e: nat)
    requires Disjoint(was) && 0 < m < |was| && was[m - 1].End() < e && was[m].fpos <= e <= was[m].End()
    ensures m + 1 == ReachFromBase(was, e)
  {
    if m + 1 < |was| {
      assert was[m].End() <= was[m + 1].fpos;
    }
    ReachIs(was, e, m + 1);
  }

  lemma {:induction false} AppendsTail(was: seq<Block>, at: nat, m: nat, fpos: nat, data: seq<Byte>, d: nat)
    requires Disjoint(was) && at < m < |was| && fpos <= was[at].End()
    requires was[at].End() - fpos <= d < |data| && fpos + d == was[m - 1].End()
    requires fpos <= was[m].fpos <= fpos + |data| <= was[m].End()
    ensures m + 1 == ReachFromBase(was, fpos + |data|)
    ensures Appended(was, at, m + 1, fpos, data, was[at].touch) ==
            was[at].(data := was[at].data + data[was[at].End() - fpos..d] + data[d..] +
                             was[m].data[OverlapLength(was[m], fpos, data)..])
  {
    hide Disjoint, ReachFromBase, TailFrom, OverlapLength;
    ReachesTail(was, m, fpos + |data|);
    TailOverlap(was, m, fpos, data);
    Regrown(was[at].data, data, was[at].End() - fpos, d, TailFrom(was, m + 1, fpos + |data|));
  }

  /** Where the next turn of the loop stands. */
  function NextBlock(now: seq<Block>, at: nat, m: nat, e: nat): nat {
    if AtLast(now, at, e) then m else m + 1
  }

  /** A turn of the loop keeps its invariant. */
  lemma {:induction false} AppendTurnKeeps(was: seq<Block>, now: seq<Block>, now': seq<Block>, at: nat, m: nat,
                                           fpos: nat, data: seq<Byte>, d: nat, gained: int, d': nat, done: bool,
                                           gain: int)
    requires Disjoint(was) && Appending(was, now, at, m, fpos, data, d, gained)
    requires AppendTurned(now, now', at, fpos, data, d, d', done, gain)
    ensures var m' := NextBlock(now, at, m, fpos + |data|);
            if done then HasAppended(was, now', at, m', fpos, data, gained + gain)
            else Appending(was, now', at, m', fpos, data, d', gained + gain)
  {
    hide Disjoint, ReachFromBase;
    var c0, e := was[at].End() - fpos, fpos + |data|;
    SpliceOfSplice(was, at, m, now[at], now'[at]);
    if AtLast(now, at, e) {
      AppendsLast(was, at, m, fpos, data, d);
    } else {
      SumStep(was, at + 1, m);
      if e <= was[m].End() {
        AppendsTail(was, at, m, fpos, data, d);
      } else {
        Grown(was[at].data, data, c0, d, d');
      }
    }
  }

  lemma {:induction false} AppendStarts(was: seq<Block>, at: nat, fpos: nat, data: seq<Byte>)
    requires at < |was| && was[at].fpos <= fpos <= was[at].End() < fpos + |data|
    ensures Appending(was, was, at, at + 1, fpos, data, was[at].End() - fpos, 0)
  {
    var c0 := was[at].End() - fpos;
    assert was[at].data + data[c0..c0] == was[at].data;
    assert Splice(was, at, at + 1, was[at]) == was;
  }

  /** Where block at and the one after it stand when a turn of the loop starts. */
  lemma {:induction false} AppendTurnStands(was: seq<Block>, now: seq<Block>, at: nat, m: nat, fpos: nat,
                                            data: seq<Byte>, d: nat, gained: int)
    requires Disjoint(was) && Appending(was, now, at, m, fpos, data, d, gained)
    ensures at < |now| && now[at].End() == fpos + d && d < |data|
    ensures now[at].data != [] && now[at].data[0] == was[at].data[0]
    ensures at + 1 < |now| ==> m < |was| && now[at + 1] == was[m] && now[at].End() <= now[at + 1].fpos
  {
  }

  /** The first block that appending data to block at leaves alone. */
  function AppendReach(bs: seq<Block>, at: nat, fpos: nat, data: seq<Byte>): (j: nat)
    requires at < |bs|
    ensures j <= |bs|
  {
    if fpos + |data| <= bs[at].End() then at + 1 else ReachFromBase(bs, fpos + |data|)
  }

  /** What appending data makes of block at. */
  function AppendResult(bs: seq<Block>, at: nat, fpos: nat, data: seq<Byte>, touch: nat): Block
    requires at < |bs| && fpos <= bs[at].End()
  {
    if fpos + |data| <= bs[at].End() then bs[at].(touch := touch)
    else Appended(bs, at, AppendReach(bs, at, fpos, data), fpos, data, touch)
  }

  lemma {:induction false} AppendFinishes(was: seq<Block>, now: seq<Block>, at: nat, m: nat, fpos: nat,
                                          data: seq<Byte>, gained: int, touch: nat)
    requires Disjoint(was) && at < |was| && was[at].fpos <= fpos <= was[at].End()
    requires if fpos + |data| <= was[at].End() then now == was && m == at + 1 && gained == 0
             else HasAppended(was, now, at, m, fpos, data, gained)
    ensures var b := AppendResult(was, at, fpos, data, touch);
            && at < m <= |was| && m == AppendReach(was, at, fpos, data)
            && at < |now| && now[at := now[at].(touch := touch)] == Splice(was, at, m, b)
            && gained == Sum(Splice(was, at, m, b)) - Sum(was)
    ensures forall k :: 0 <= k < at ==> was[k].End() <= fpos
    ensures forall k :: m <= k < |was| ==> fpos + |data| <= was[k].fpos
  {
    var b := AppendResult(was, at, fpos, data, touch);
    AppendStays(was, at, m, fpos, data);
    AppendAccounts(was, at, m, b);
    if fpos + |data| <= was[at].End() {
      assert Sum(was[at + 1..m]) == 0;
      assert now[at := b] == Splice(was, at, m, b);
    } else {
      hide Disjoint, Sum, ReachFromBase, TailFrom;
      SpliceOfSplice(was, at, m, Appended(was, at, m, fpos, data, was[at].touch), b);
    }
  }

  lemma {:induction false} AppendStays(was: seq<Block>, at: nat, m: nat, fpos: nat, data: seq<Byte>)
    requires Disjoint(was) && at < |was| && was[at].fpos <= fpos
    requires m == AppendReach(was, at, fpos, data)
    ensures forall k :: 0 <= k < at ==> was[k].End() <= fpos
    ensures forall k :: m <= k < |was| ==> fpos + |data| <= was[k].fpos
  {
    if was[at].End() < fpos + |data| {
      TailReaches(was, m, fpos + |data|);
    }
  }

  lemma {:induction false} AppendAccounts(was: seq<Block>, at: nat, m: nat, b: Block)
    requires at < m <= |was|
    ensures Sum(Splice(was, at, m, b)) - Sum(was) == |b.data| - |was[at].data| - Sum(was[at + 1..m])
  {
    SumSplice(was, at, m, b);
    assert was[at..m] == [was[at]] + was[at + 1..m];
    SumConcat([was[at]], was[at + 1..m]);
  }

  lemma {:induction false} SumSplice(bs: seq<Block>, i: nat, j: nat, b: Block)
    requires i <= j <= |bs|
    ensures Sum(Splice(bs, i, j, b)) == Sum(bs) - Sum(bs[i..j]) + |b.data|
  {
    assert bs == bs[..i] + bs[i..j] + bs[j..];
    SumConcat(bs[..i] + bs[i..j], bs[j..]);
    SumConcat(bs[..i], bs[i..j]);
    SumConcat(bs[..i] + [b], bs[j..]);
    SumConcat(bs[..i], [b]);
  }

  lemma {:induction false} SumInsert(bs: seq<Block>, u: nat, b: Block)
    requires u <= |bs|
    ensures Sum(Splice(bs, u, u, b)) == Sum(bs) + |b.data|
  {
    SumSplice(bs, u, u, b);
  }

  /** The write goes into a block, or absorbs the first one; else it is put between blocks as it is. */
  predicate MeetsBlock(bs: seq<Block>, fpos: nat, len: nat) {
    HasBase(bs, fpos) || ReachesFirst(bs, fpos, len)
  }

  /** How the code finds out where a write goes, against where it ought to go. */
  lemma {:induction false} RouteMeans(bs: seq<Block>, fpos: nat, data: seq<Byte>, touch: nat)
    requires Keyed(bs) && data != [] && (Disjoint(bs) || !MeetsBlock(bs, fpos, |data|))
    ensures var u := UpperBound(bs, fpos);
            && u <= |bs|
            && (u > 0 ==> bs[u - 1].fpos <= fpos)
            && (u < |bs| ==> fpos < bs[u].fpos)
            && (bs != [] && bs[|bs| - 1].End() < fpos ==> u == |bs| && !MeetsBlock(bs, fpos, |data|))
            && (if u > 0 && fpos <= bs[u - 1].End() then
                  && Disjoint(bs) && !Misrouted(bs, fpos, |data|)
                  && Written(bs, fpos, data, touch) ==
                     Splice(bs, u - 1, AppendReach(bs, u - 1, fpos, data), AppendResult(bs, u - 1, fpos, data, touch))
                else if u == 0 && u < |bs| && bs[u].fpos <= fpos + |data| then
                  && Disjoint(bs) && !Misrouted(bs, fpos, |data|)
                  && Written(bs, fpos, data, touch) ==
                     Splice(bs, 0, UpperBound(bs, fpos + |data|),
                            Prepended(bs, UpperBound(bs, fpos + |data|), fpos, data, touch))
                else
                  && !HasKey(bs, fpos)
                  && Written(bs, fpos, data, touch) == Splice(bs, u, u, Block(fpos, data, touch))
                  && (Disjoint(bs) ==> Misrouted(bs, fpos, |data|) || Agrees(bs, fpos, data)))
  {
    RouteStarts(bs, fpos, |data|);
    RouteIntoBlock(bs, fpos, data, touch);
    RouteInFront(bs, fpos, data, touch);
    RouteFresh(bs, fpos, data, touch);
    hide *;
  }

  lemma {:induction false} RouteStarts(bs: seq<Block>, fpos: nat, len: nat)
    requires Keyed(bs)
    ensures var u := UpperBound(bs, fpos);
            && u <= |bs| && (u > 0 ==> bs[u - 1].fpos <= fpos) && (u < |bs| ==> fpos < bs[u].fpos)
            && (bs != [] && bs[|bs| - 1].End() < fpos ==> u == |bs| && !MeetsBlock(bs, fpos, len))
            && (MeetsBlock(bs, fpos, len) <==>
                (u > 0 && fpos <= bs[u - 1].End()) || (u == 0 && u < |bs| && bs[u].fpos <= fpos + len))
  {
    if bs != [] && bs[|bs| - 1].End() < fpos {
      UpperBoundIs(bs, fpos, |bs|);
    }
    hide UpperBound, Keyed;
  }

  lemma {:induction false} RouteIntoBlock(bs: seq<Block>, fpos: nat, data: seq<Byte>, touch: nat)
    requires Keyed(bs)
    ensures var u := UpperBound(bs, fpos);
            u > 0 && fpos <= bs[u - 1].End() ==>
              && !Misrouted(bs, fpos, |data|)
              && Written(bs, fpos, data, touch) ==
                 Splice(bs, u - 1, AppendReach(bs, u - 1, fpos, data), AppendResult(bs, u - 1, fpos, data, touch))
  {
    hide UpperBound, Keyed, Splice, Appended, ReachFromBase;
  }

  lemma {:induction false} RouteInFront(bs: seq<Block>, fpos: nat, data: seq<Byte>, touch: nat)
    requires Keyed(bs)
    ensures var u, v := UpperBound(bs, fpos), UpperBound(bs, fpos + |data|);
            u == 0 && u < |bs| && bs[u].fpos <= fpos + |data| ==>
              && !Misrouted(bs, fpos, |data|)
              && Written(bs, fpos, data, touch) == Splice(bs, 0, v, Prepended(bs, v, fpos, data, touch))
  {
    hide UpperBound, Keyed, Splice, Prepended;
  }

  lemma {:induction false} RouteFresh(bs: seq<Block>, fpos: nat, data: seq<Byte>, touch: nat)
    requires Keyed(bs)
    ensures var u := UpperBound(bs, fpos);
            !MeetsBlock(bs, fpos, |data|) ==>
              && !HasKey(bs, fpos)
              && Written(bs, fpos, data, touch) == Splice(bs, u, u, Block(fpos, data, touch))
              && (Disjoint(bs) ==> Misrouted(bs, fpos, |data|) || Agrees(bs, fpos, data))
  {
    if Disjoint(bs) {
      UpperBoundSplits(bs, fpos, UpperBound(bs, fpos));
    }
    hide UpperBound, Splice;
  }

  /** A write adds at most its own length to the byte count and at most one block. */
  lemma {:induction false} WrittenAccounts(bs: seq<Block>, fpos: nat, data: seq<Byte>, touch: nat)
    requires Keyed(bs) && data != [] && Touched(bs, touch) && (Disjoint(bs) || !MeetsBlock(bs, fpos, |data|))
    ensures var ns := Written(bs, fpos, data, touch);
            && Keyed(ns) && Touched(ns, touch + 1) && |ns| <= |bs| + 1
            && Sum(ns) <= Sum(bs) + |data|
  {
    WrittenTouches(bs, fpos, data, touch);
    if !MeetsBlock(bs, fpos, |data|) {
      FreshAccounts(bs, fpos, data, touch);
    } else {
      MeetingIsRouted(bs, fpos, |data|);
      WrittenIsKeyed(bs, fpos, data, touch);
      WrittenSum(bs, fpos, data, touch);
      UnionSize(Held(bs), Interval(fpos, |data|));
    }
  }

  lemma {:induction false} MeetingIsRouted(bs: seq<Block>, fpos: nat, len: nat)
    ensures MeetsBlock(bs, fpos, len) ==> !Misrouted(bs, fpos, len)
  {
  }

  lemma {:induction false} FreshAccounts(bs: seq<Block>, fpos: nat, data: seq<Byte>, touch: nat)
    requires Keyed(bs) && data != [] && !MeetsBlock(bs, fpos, |data|)
    ensures var ns := Written(bs, fpos, data, touch);
            Keyed(ns) && Sum(ns) == Sum(bs) + |data|
  {
    var u, b := UpperBound(bs, fpos), Block(fpos, data, touch);
    assert u > 0 ==> bs[u - 1].fpos < fpos;
    assert Written(bs, fpos, data, touch) == Splice(bs, u, u, b);
    hide Written, UpperBound, Splice, Sum;
    InsertIsKeyed(bs, u, b);
    SumInsert(bs, u, b);
  }

  lemma {:induction false} SpliceByErase(was: seq<Block>, at: nat, b: Block)
    requires at + 1 < |was|
    ensures var now := was[at := b];
            now[..at + 1] + now[at + 2..] == Splice(was, at, at + 2, b)
  {
  }

  lemma {:induction false} PrependStarts(was: seq<Block>, at: nat, fpos: nat, data: seq<Byte>)
    requires at < |was| && fpos < was[at].fpos <= fpos + |data|
    ensures Prepending(was, was, at, at, fpos, data, 0, [], 0)
  {
    assert was == was[..at] + was[at..];
  }

  /** Once the absorbed blocks are gone the new one goes where they were. */
  lemma {:induction false} PrependInserts(was: seq<Block>, now: seq<Block>, at: nat, j: nat, fpos: nat,
                                          data: seq<Byte>, newData: seq<Byte>, gained: int, touch: nat)
    requires Disjoint(was) && data != [] && HasPrepended(was, now, at, j, fpos, data, newData, gained)
    requires forall k :: 0 <= k < at ==> was[k].End() < fpos
    ensures at <= j == UpperBound(was, fpos + |data|)
    ensures Block(fpos, newData, touch) == Prepended(was, j, fpos, data, touch)
    ensures MapInsert(now, Block(fpos, newData, touch)) == Splice(was, at, j, Prepended(was, j, fpos, data, touch))
    ensures gained == Sum(Splice(was, at, j, Prepended(was, j, fpos, data, touch))) - Sum(was)
    ensures forall k :: j <= k < |was| ==> fpos + |data| <= was[k].fpos
  {
    var b := Prepended(was, j, fpos, data, touch);
    PrependedStands(was, now, at, j, fpos, data, newData, gained);
    assert b == Block(fpos, newData, touch);
    hide HasPrepended, Disjoint, TailFrom, Sum, Prepended, UpperBound, MapInsert, Splice;
    SumSplice(was, at, j, b);
    InsertWhereCut(was, now, at, j, b);
  }

  lemma {:induction false} PrependedStands(was: seq<Block>, now: seq<Block>, at: nat, j: nat, fpos: nat,
                                           data: seq<Byte>, newData: seq<Byte>, gained: int)
    requires Disjoint(was) && HasPrepended(was, now, at, j, fpos, data, newData, gained)
    ensures at <= j <= |was| && j == UpperBound(was, fpos + |data|) && now == was[..at] + was[j..]
    ensures newData == data + TailFrom(was, j, fpos + |data|) && gained == |newData| - Sum(was[at..j])
    ensures forall k :: j <= k < |was| ==> fpos + |data| < was[k].fpos
  {
    UpperBoundSplits(was, fpos + |data|, j);
    hide UpperBound;
  }

  lemma {:induction false} InsertWhereCut(was: seq<Block>, now: seq<Block>, at: nat, j: nat, b: Block)
    requires Disjoint(was) && at <= j <= |was| && now == was[..at] + was[j..]
    requires forall k :: 0 <= k < at ==> was[k].End() < b.fpos
    requires forall k :: j <= k < |was| ==> b.fpos < was[k].fpos
    ensures MapInsert(now, b) == Splice(was, at, j, b)
  {
    CutIsKeyed(was, at, j);
    hide Disjoint;
    UpperBoundIs(now, b.fpos, at);
    hide UpperBound;
  }

  lemma {:induction false} CutIsKeyed(was: seq<Block>, at: nat, j: nat)
    requires Disjoint(was) && at <= j <= |was|
    ensures Keyed(was[..at] + was[j..])
  {
    var now := was[..at] + was[j..];
    forall m, n | 0 <= m < n < |now|
      ensures now[m].fpos < now[n].fpos
    {
      var i, k := if m < at then m else m - at + j, if n < at then n else n - at + j;
      assert was[i].End() <= was[k].fpos;
    }
  }

  /** What touching the block that was read leaves as it was. */
  lemma {:induction false} ReadKeeps(bs: seq<Block>, k: nat, touch: nat, fpos: nat, len: nat)
    requires Keyed(bs) && k < |bs| && Touched(bs, touch)
    requires bs[k].fpos <= fpos && fpos + len <= bs[k].End()
    ensures var ns := bs[k := bs[k].(touch := touch)];
            && Keyed(ns) && Touched(ns, touch + 1) && Sum(ns) == Sum(bs) && Shape(ns) == Shape(bs)
            && (Disjoint(bs) ==>
                  && Disjoint(ns) && Content(ns) == Content(bs)
                  && IsSlice(Content(bs), fpos, bs[k].data[fpos - bs[k].fpos..][..len]))
  {
    TouchKeeps(bs, k, touch);
    hide Keyed, Disjoint, Content, Sum, IsSlice, Shape;
    if Disjoint(bs) {
      ContentFollowsShape(bs, bs[k := bs[k].(touch := touch)]);
      SliceIsContent(bs, k, fpos, len, Content(bs));
    }
  }

  lemma {:induction false} NoBlocks()
    ensures Canonical([]) && Disjoint([]) && Keyed([]) && Touched([], 0) && Sum([]) == 0
  {
  }
}
