/** Comparing a write with the bytes held: when it stops at a difference, what it leaves behind
    then, and which differences it lets through. */
module Differences {
  import opened Blocks
  import opened Writes
  import opened Coalescing

  /** The bytes of block b do not differ from the ones to be written there. */
  ghost predicate AgreesOn(b: Block, fpos: nat, data: seq<Byte>) {
    forall p :: b.Contains(p) && fpos <= p < fpos + |data| ==> b.At(p) == data[p - fpos]
  }

  /** Only the byte at one index is looked at. */
  predicate ThrowsDiff(x: Byte, iter: Block, index: nat)
    requires index < |iter.data|
  {
    x != iter.data[index]
  }

  /** memcmp finds a difference in n bytes of b and data, and the one byte looked at then, the one of block
      iter at index, differs as well. */
  predicate Throws(b: Block, skip: nat, n: nat, data: seq<Byte>, d: nat, iter: Block, index: nat)
    requires skip + n <= |b.data| && d + n <= |data| && (n > 0 ==> index < |iter.data|)
  {
    b.data[skip..skip + n] != data[d..d + n] && ThrowsDiff(data[d], iter, index)
  }

  /** The first byte that the write shares with block b differs. */
  predicate FirstDiffers(b: Block, fpos: nat, data: seq<Byte>) {
    var p := if b.fpos < fpos then fpos else b.fpos;
    b.Contains(p) && p < fpos + |data| && b.At(p) != data[p - fpos]
  }

  /** Appending to block base stops at block b: the bytes differ, and the first of the new ones
      differs from the first of base, which is the one that is looked at. */
  ghost predicate StopsBehind(base: Block, b: Block, fpos: nat, data: seq<Byte>) {
    && base.data != [] && fpos <= b.fpos < fpos + |data|
    && !AgreesOn(b, fpos, data)
    && data[b.fpos - fpos] != base.data[0]
  }

  /** Putting a new block in front of block at stops at a block. */
  ghost predicate StopsInFront(bs: seq<Block>, at: nat, fpos: nat, data: seq<Byte>) {
    exists k :: at <= k < |bs| && FirstDiffers(bs[k], fpos, data)
  }

  /** Appending to block at stops at it or at a block behind it. */
  ghost predicate StopsAppending(bs: seq<Block>, at: nat, fpos: nat, data: seq<Byte>)
    requires at < |bs|
  {
    FirstDiffers(bs[at], fpos, data) || exists k :: at < k < |bs| && StopsBehind(bs[at], bs[k], fpos, data)
  }

  /** A write that compares stops. */
  ghost predicate Stops(bs: seq<Block>, fpos: nat, data: seq<Byte>) {
    if HasBase(bs, fpos) then StopsAppending(bs, UpperBound(bs, fpos) - 1, fpos, data)
    else ReachesFirst(bs, fpos, |data|) && StopsInFront(bs, 0, fpos, data)
  }

  // ---- What the loops compare ----

  /** The blocks at up to m have been passed in front of which a new block is put. */
  ghost predicate PassedInFront(bs: seq<Block>, at: nat, m: nat, fpos: nat, data: seq<Byte>) {
    m <= |bs| && forall k :: at <= k < m ==> !FirstDiffers(bs[k], fpos, data)
  }

  /** The blocks behind block at up to m have been passed that are appended to it. */
  ghost predicate PassedBehind(bs: seq<Block>, at: nat, m: nat, fpos: nat, data: seq<Byte>) {
    && at < m <= |bs| && !FirstDiffers(bs[at], fpos, data)
    && forall k :: at < k < m ==> !StopsBehind(bs[at], bs[k], fpos, data)
  }

  /** What the loop that puts a new block in front of old ones leaves when it stops at block m. */
  ghost predicate StoppedInFrontAt(was: seq<Block>, now: seq<Block>, at: nat, m: nat, fpos: nat, data: seq<Byte>,
                                   gained: int) {
    && at <= m < |was| && PassedInFront(was, at, m, fpos, data) && FirstDiffers(was[m], fpos, data)
    && now == was[..at] + was[m..]
    && gained == was[m].fpos - fpos - Sum(was[at..m])
  }

  /** What the loop that appends to block at leaves when it stops at block m. */
  ghost predicate StoppedBehindAt(was: seq<Block>, now: seq<Block>, at: nat, m: nat, fpos: nat, data: seq<Byte>,
                                  gained: int) {
    && at < m < |was| && PassedBehind(was, at, m, fpos, data) && StopsBehind(was[at], was[m], fpos, data)
    && was[at].fpos <= fpos <= was[at].End() <= was[m].fpos
    && now == Splice(was, at, m, was[at].(data := was[at].data + data[was[at].End() - fpos..was[m].fpos - fpos]))
    && gained == was[m].fpos - was[at].End() - Sum(was[at + 1..m])
  }

  ghost predicate StoppedInFront(was: seq<Block>, now: seq<Block>, at: nat, fpos: nat, data: seq<Byte>, gained: int) {
    exists m :: StoppedInFrontAt(was, now, at, m, fpos, data, gained)
  }

  ghost predicate StoppedBehind(was: seq<Block>, now: seq<Block>, at: nat, fpos: nat, data: seq<Byte>, gained: int) {
    exists m :: StoppedBehindAt(was, now, at, m, fpos, data, gained)
  }

  /** memcmp followed by a look at the first byte is a look at the first byte. */
  lemma {:induction false} FirstOfStretch(b: Block, skip: nat, delta: nat, fpos: nat, data: seq<Byte>, d: nat)
    requires skip + delta <= |b.data| && d + delta <= |data| && fpos + d == b.fpos + skip
    requires d == 0 || skip == 0
    requires d + delta == |data| || skip + delta == |b.data|
    ensures Throws(b, skip, delta, data, d, b, skip) <==> FirstDiffers(b, fpos, data)
  {
    if FirstDiffers(b, fpos, data) {
      assert b.data[skip..skip + delta][0] != data[d..d + delta][0];
    }
  }

  /** memcmp sees whether a block that starts within the write differs. */
  lemma {:induction false} StretchAgrees(b: Block, fpos: nat, data: seq<Byte>)
    requires fpos <= b.fpos <= fpos + |data|
    ensures var start, overlap := b.fpos - fpos, OverlapLength(b, fpos, data);
            b.data[..overlap] == data[start..start + overlap] <==> AgreesOn(b, fpos, data)
  {
    var start, overlap := b.fpos - fpos, OverlapLength(b, fpos, data);
    if b.data[..overlap] == data[start..start + overlap] {
      forall p | b.Contains(p) && fpos <= p < fpos + |data|
        ensures b.At(p) == data[p - fpos]
      {
        assert b.data[..overlap][p - b.fpos] == data[start..start + overlap][p - b.fpos];
      }
    } else {
      var n :| 0 <= n < overlap && b.data[..overlap][n] != data[start..start + overlap][n];
      assert b.Contains(b.fpos + n) && b.At(b.fpos + n) != data[b.fpos + n - fpos];
    }
  }

  /** One turn of the loop that puts a new block in front of old ones. */
  lemma {:induction false} TurnCompares(was: seq<Block>, now: seq<Block>, at: nat, m: nat, fpos: nat, data: seq<Byte>,
                                        d: nat, newData: seq<Byte>, gained: int)
    requires Prepending(was, now, at, m, fpos, data, d, newData, gained)
    requires PassedInFront(was, at, m, fpos, data)
    ensures at < |now| && now[at] == was[m]
    ensures if FirstDiffers(was[m], fpos, data) then
              && StoppedInFront(was, now, at, fpos, data, gained + was[m].fpos - fpos - d)
              && StopsInFront(was, at, fpos, data)
            else PassedInFront(was, at, m + 1, fpos, data)
  {
    if FirstDiffers(was[m], fpos, data) {
      assert StoppedInFrontAt(was, now, at, m, fpos, data, gained + was[m].fpos - fpos - d);
    }
  }

  lemma {:induction false} AllPassedInFront(was: seq<Block>, at: nat, j: nat, fpos: nat, data: seq<Byte>)
    requires PassedInFront(was, at, j, fpos, data)
    requires forall k :: j <= k < |was| ==> fpos + |data| <= was[k].fpos
    ensures !StopsInFront(was, at, fpos, data)
  {
  }

  /** One turn of the loop that appends to block at. */
  lemma {:induction false} AppendTurnCompares(was: seq<Block>, now: seq<Block>, at: nat, m: nat, fpos: nat,
                                              data: seq<Byte>, d: nat, gained: int)
    requires Disjoint(was) && Appending(was, now, at, m, fpos, data, d, gained)
    requires was[at].fpos <= fpos && PassedBehind(was, at, m, fpos, data)
    ensures at < |now|
    ensures !AtLast(now, at, fpos + |data|) ==>
              && m < |was| && at + 1 < |now| && now[at + 1] == was[m]
              && (if StopsBehind(now[at], was[m], fpos, data) then StopsAppending(was, at, fpos, data)
                  else PassedBehind(was, at, m + 1, fpos, data))
  {
    assert now[at].data[0] == was[at].data[0];
  }

  /** Where the loop that appends to block at is when it stops. */
  lemma {:induction false} AppendStops(was: seq<Block>, now: seq<Block>, now': seq<Block>, at: nat, m: nat, fpos: nat,
                                       data: seq<Byte>, d: nat, gained: int)
    requires Disjoint(was) && Appending(was, now, at, m, fpos, data, d, gained)
    requires was[at].fpos <= fpos && PassedBehind(was, at, m, fpos, data)
    requires m < |was| && StopsBehind(now[at], was[m], fpos, data) && fpos + d <= was[m].fpos
    requires now' == now[at := now[at].(data := now[at].data + data[d..was[m].fpos - fpos])]
    ensures StoppedBehind(was, now', at, fpos, data, gained + was[m].fpos - fpos - d)
  {
    var base, c0, start := was[at], was[at].End() - fpos, was[m].fpos - fpos;
    assert now[at].data[0] == base.data[0];
    Grown(base.data, data, c0, d, start);
    SpliceOfSplice(was, at, m, now[at], now'[at]);
    assert StoppedBehindAt(was, now', at, m, fpos, data, gained + was[m].fpos - fpos - d);
  }

  lemma {:induction false} AllPassedBehind(was: seq<Block>, at: nat, j: nat, fpos: nat, data: seq<Byte>)
    requires PassedBehind(was, at, j, fpos, data)
    requires forall k :: j <= k < |was| ==> fpos + |data| <= was[k].fpos
    ensures !StopsAppending(was, at, fpos, data)
  {
  }

  lemma {:induction false} NonePassed(was: seq<Block>, at: nat, fpos: nat, data: seq<Byte>)
    requires at <= |was|
    ensures PassedInFront(was, at, at, fpos, data)
  {
  }

  /** What the turn of the loop that appends to a block compares with what. */
  lemma {:induction false} StretchStops(base: Block, next: Block, fpos: nat, data: seq<Byte>)
    requires fpos <= next.fpos <= fpos + |data| && base.data != []
    ensures var start, overlap := next.fpos - fpos, OverlapLength(next, fpos, data);
            && (overlap == 0 ==> !StopsBehind(base, next, fpos, data))
            && (Throws(next, 0, overlap, data, start, base, 0) <==> StopsBehind(base, next, fpos, data))
  {
    StretchAgrees(next, fpos, data);
    assert next.data[0..OverlapLength(next, fpos, data)] == next.data[..OverlapLength(next, fpos, data)];
  }

  lemma {:induction false} GrownStops(base: Block, grown: Block, next: Block, fpos: nat, data: seq<Byte>)
    requires base.data != [] && base.data <= grown.data
    ensures StopsBehind(base, next, fpos, data) <==> StopsBehind(grown, next, fpos, data)
  {
  }

  lemma {:induction false} BaseStops(was: seq<Block>, at: nat, fpos: nat, data: seq<Byte>)
    requires at < |was| && FirstDiffers(was[at], fpos, data)
    ensures StopsAppending(was, at, fpos, data)
  {
  }

  lemma {:induction false} BasePasses(was: seq<Block>, at: nat, fpos: nat, data: seq<Byte>)
    requires at < |was| && !FirstDiffers(was[at], fpos, data)
    ensures PassedBehind(was, at, at + 1, fpos, data)
  {
  }

  // ---- What a write that stops leaves behind ----

  /** The blocks after a write that stopped, and by how much the byte count grew. */
  ghost predicate Stopped(was: seq<Block>, now: seq<Block>, fpos: nat, data: seq<Byte>, gained: int) {
    if HasBase(was, fpos) then
      var at := UpperBound(was, fpos) - 1;
      if FirstDiffers(was[at], fpos, data) then now == was && gained == 0
      else StoppedBehind(was, now, at, fpos, data, gained)
    else StoppedInFront(was, now, 0, fpos, data, gained)
  }

  /** How the branches of write lead to a stop. */
  lemma {:induction false} RouteStops(bs: seq<Block>, fpos: nat, data: seq<Byte>)
    ensures var u := UpperBound(bs, fpos);
            Stops(bs, fpos, data) <==>
            if u > 0 && fpos <= bs[u - 1].End() then StopsAppending(bs, u - 1, fpos, data)
            else u == 0 && u < |bs| && bs[u].fpos <= fpos + |data| && StopsInFront(bs, 0, fpos, data)
  {
    hide UpperBound, StopsAppending, StopsInFront, StoppedBehind, StoppedInFront, FirstDiffers;
  }

  /** Block j is the one that a write at fpos is appended to. */
  ghost predicate AppendsTo(bs: seq<Block>, j: int, fpos: nat) {
    0 <= j < |bs| && bs[j].fpos <= fpos <= bs[j].End() && (j + 1 < |bs| ==> fpos < bs[j + 1].fpos)
  }

  lemma {:induction false} BaseIs(bs: seq<Block>, j: int, fpos: nat)
    requires Keyed(bs)
    ensures AppendsTo(bs, j, fpos) <==> HasBase(bs, fpos) && j == UpperBound(bs, fpos) - 1
  {
    if AppendsTo(bs, j, fpos) {
      UpperBoundIs(bs, fpos, j + 1);
    }
  }

  lemma {:induction false} DiffersSomewhere(b: Block, fpos: nat, data: seq<Byte>)
    requires fpos <= b.fpos
    ensures !AgreesOn(b, fpos, data) <==>
            exists n :: 0 <= n < |b.data| && b.fpos - fpos + n < |data| && b.data[n] != data[b.fpos - fpos + n]
  {
    if p :| b.Contains(p) && fpos <= p < fpos + |data| && b.At(p) != data[p - fpos] {
      var n := p - b.fpos;
      assert b.data[n] != data[b.fpos - fpos + n];
    }
    if n :| 0 <= n < |b.data| && b.fpos - fpos + n < |data| && b.data[n] != data[b.fpos - fpos + n] {
      assert b.Contains(b.fpos + n) && b.At(b.fpos + n) != data[b.fpos + n - fpos];
    }
  }

  /** Where a write that compares and is appended to a block stops: at that block, if the first byte written
      is another than the one held there, or at one behind it that holds some other byte than is written, if
      the byte written at its start is another than the first of the block appended to. */
  lemma {:induction false} StopsAppendedTo(bs: seq<Block>, fpos: nat, data: seq<Byte>, j: nat)
    requires Disjoint(bs) && data != [] && AppendsTo(bs, j, fpos)
    ensures Stops(bs, fpos, data) <==>
            || (fpos < bs[j].End() && bs[j].data[fpos - bs[j].fpos] != data[0])
            || exists k, n ::
                 && j < k < |bs| && 0 <= n < |bs[k].data| && bs[k].fpos - fpos + n < |data|
                 && bs[k].data[n] != data[bs[k].fpos - fpos + n]
                 && data[bs[k].fpos - fpos] != bs[j].data[0]
  {
    BaseIs(bs, j, fpos);
    assert bs[j].data != [];
    forall k | j < k < |bs| ensures fpos < bs[k].fpos {
      assert bs[j + 1].fpos <= bs[k].fpos;
    }
    assert FirstDiffers(bs[j], fpos, data) <==> fpos < bs[j].End() && bs[j].data[fpos - bs[j].fpos] != data[0];
    hide UpperBound, Disjoint, AgreesOn, FirstDiffers;
    forall k | j < k < |bs|
      ensures StopsBehind(bs[j], bs[k], fpos, data) <==>
              exists n ::
                && 0 <= n < |bs[k].data| && bs[k].fpos - fpos + n < |data|
                && bs[k].data[n] != data[bs[k].fpos - fpos + n] && data[bs[k].fpos - fpos] != bs[j].data[0]
    {
      DiffersSomewhere(bs[k], fpos, data);
    }
  }

  /** Where a write that compares and is appended to no block stops: at a block of which the first byte is
      another than the one written there, and only if the write starts in front of all blocks. */
  lemma {:induction false} StopsInGap(bs: seq<Block>, fpos: nat, data: seq<Byte>)
    requires Disjoint(bs) && data != [] && forall j :: !AppendsTo(bs, j, fpos)
    ensures Stops(bs, fpos, data) <==>
            exists k ::
              && 0 <= k < |bs| && fpos < bs[0].fpos && bs[k].fpos < fpos + |data|
              && bs[k].data[0] != data[bs[k].fpos - fpos]
  {
    BaseIs(bs, UpperBound(bs, fpos) - 1, fpos);
    assert UpperBound(bs, fpos) == 0 <==> bs == [] || fpos < bs[0].fpos;
    assert forall k :: 0 <= k < |bs| ==> bs[k].data != [] && bs[0].fpos <= bs[k].fpos;
    hide UpperBound, Disjoint;
    forall k | 0 <= k < |bs| && fpos < bs[k].fpos
      ensures FirstDiffers(bs[k], fpos, data) <==>
              bs[k].fpos < fpos + |data| && bs[k].data[0] != data[bs[k].fpos - fpos]
    {
      FrontDiffers(bs[k], fpos, data);
    }
  }

  lemma {:induction false} FrontDiffers(b: Block, fpos: nat, data: seq<Byte>)
    requires fpos < b.fpos && b.data != []
    ensures FirstDiffers(b, fpos, data) <==> b.fpos < fpos + |data| && b.data[0] != data[b.fpos - fpos]
  {
  }

  lemma {:induction false} RouteStopped(was: seq<Block>, now: seq<Block>, fpos: nat, data: seq<Byte>, gained: int)
    requires var u := UpperBound(was, fpos);
             if u > 0 && fpos <= was[u - 1].End() then
               if FirstDiffers(was[u - 1], fpos, data) then now == was && gained == 0
               else StoppedBehind(was, now, u - 1, fpos, data, gained)
             else StoppedInFront(was, now, 0, fpos, data, gained)
    ensures Stopped(was, now, fpos, data, gained)
  {
    hide UpperBound, StopsAppending, StopsInFront, StoppedBehind, StoppedInFront, FirstDiffers;
  }

  lemma {:induction false} StoppedSum(was: seq<Block>, at: nat, m: nat, b: Block)
    requires at < m <= |was|
    ensures Sum(Splice(was, at, m, b)) == Sum(was) - |was[at].data| - Sum(was[at + 1..m]) + |b.data|
  {
    AppendAccounts(was, at, m, b);
  }

  lemma {:induction false} StoppedInFrontMeans(was: seq<Block>, now: seq<Block>, m: nat, fpos: nat, data: seq<Byte>,
                                               gained: int)
    requires Disjoint(was) && StoppedInFrontAt(was, now, 0, m, fpos, data, gained)
    requires was != [] ==> fpos < was[0].fpos
    ensures Disjoint(now) && Sum(now) < Sum(was) + gained
  {
    SuffixIsDisjoint(was, m);
    hide Disjoint, Sum, PassedInFront, FirstDiffers;
    assert was == was[..m] + was[m..] && was[..0] + was[m..] == was[m..] && was[0..m] == was[..m];
    SumConcat(was[..m], was[m..]);
  }

  lemma {:induction false} SuffixIsDisjoint(bs: seq<Block>, m: nat)
    requires Disjoint(bs) && m < |bs|
    ensures Disjoint(bs[m..]) && bs[0].fpos <= bs[m].fpos
  {
  }

  lemma {:induction false} StoppedBehindMeans(was: seq<Block>, now: seq<Block>, at: nat, m: nat, fpos: nat,
                                              data: seq<Byte>, gained: int)
    requires Disjoint(was) && StoppedBehindAt(was, now, at, m, fpos, data, gained)
    ensures Disjoint(now) && !Canonical(now) && Sum(now) == Sum(was) + gained
  {
    var base := was[at];
    var b := base.(data := base.data + data[base.End() - fpos..was[m].fpos - fpos]);
    StoppedSum(was, at, m, b);
    SpliceAt(was, at, m, b);
    hide Splice, Sum, PassedBehind, StopsBehind;
    assert now[at + 1] == was[m] && now[at] == b;
    SpliceDisjoint(was, at, m, b, b.fpos, b.End());
  }

  /** A write that stops leaves the file alone only if it stops at the block it is appended to. If
      not, blocks touch afterwards, or the byte count is too high. */
  lemma {:induction false} StoppedMeans(was: seq<Block>, now: seq<Block>, fpos: nat, data: seq<Byte>, gained: int)
    requires Disjoint(was) && Stops(was, fpos, data) && Stopped(was, now, fpos, data, gained)
    ensures Disjoint(now)
    ensures if !HasBase(was, fpos) then Sum(now) < Sum(was) + gained
            else if FirstDiffers(was[UpperBound(was, fpos) - 1], fpos, data) then now == was && gained == 0
            else !Canonical(now) && Sum(now) == Sum(was) + gained
  {
    hide Disjoint, Sum, Canonical, StoppedInFrontAt, StoppedBehindAt;
    if !HasBase(was, fpos) {
      var m :| StoppedInFrontAt(was, now, 0, m, fpos, data, gained);
      StoppedInFrontMeans(was, now, m, fpos, data, gained);
    } else {
      var at := UpperBound(was, fpos) - 1;
      if !FirstDiffers(was[at], fpos, data) {
        var m :| StoppedBehindAt(was, now, at, m, fpos, data, gained);
        StoppedBehindMeans(was, now, at, m, fpos, data, gained);
      }
    }
  }

  // ---- Which differences are let through ----

  lemma {:induction false} AgreeingBlocks(bs: seq<Block>, fpos: nat, data: seq<Byte>)
    ensures Agrees(bs, fpos, data) <==> forall k :: 0 <= k < |bs| ==> AgreesOn(bs[k], fpos, data)
  {
    if Agrees(bs, fpos, data) {
      forall k | 0 <= k < |bs| ensures AgreesOn(bs[k], fpos, data) {
      }
    }
    if forall k :: 0 <= k < |bs| ==> AgreesOn(bs[k], fpos, data) {
      forall k, p | 0 <= k < |bs| && bs[k].Contains(p) && fpos <= p < fpos + |data|
        ensures bs[k].At(p) == data[p - fpos]
      {
        assert AgreesOn(bs[k], fpos, data);
      }
    }
  }

  lemma {:induction false} FirstIsPart(b: Block, fpos: nat, data: seq<Byte>)
    ensures FirstDiffers(b, fpos, data) ==> !AgreesOn(b, fpos, data)
  {
  }

  /** A write never stops at bytes that agree. */
  lemma {:induction false} StopsOnlyAtDifferences(bs: seq<Block>, fpos: nat, data: seq<Byte>)
    ensures Stops(bs, fpos, data) ==> !Agrees(bs, fpos, data)
  {
    AgreeingBlocks(bs, fpos, data);
    hide Agrees, AgreesOn, FirstDiffers, UpperBound;
    forall k | 0 <= k < |bs| ensures FirstDiffers(bs[k], fpos, data) ==> !AgreesOn(bs[k], fpos, data) {
      FirstIsPart(bs[k], fpos, data);
    }
  }

  /** Some byte that c holds is another one in nc. */
  ghost predicate ChangesByte(c: map<nat, Byte>, nc: map<nat, Byte>) {
    exists p :: p in c && p in nc && nc[p] != c[p]
  }

  /** A block that starts behind fpos differs from the write. */
  ghost predicate DiffersBehind(bs: seq<Block>, fpos: nat, data: seq<Byte>) {
    exists k :: UpperBound(bs, fpos) <= k < |bs| && !AgreesOn(bs[k], fpos, data)
  }

  lemma {:induction false} OverlayChanges(c: map<nat, Byte>, fpos: nat, data: seq<Byte>, keep: nat)
    ensures ChangesByte(c, Overlay(c, fpos, data, keep)) <==>
            exists p :: p in c && fpos <= p < fpos + |data| && keep <= p && c[p] != data[p - fpos]
  {
    hide Interval;
  }

  lemma {:induction false} KeptIsFirst(bs: seq<Block>, fpos: nat, k: nat, p: nat)
    requires Disjoint(bs) && k < |bs| && bs[k].Contains(p) && fpos <= p
    ensures KeptUpTo(bs, fpos) <= p <==> UpperBound(bs, fpos) <= k
    ensures p < KeptUpTo(bs, fpos) ==> k == UpperBound(bs, fpos) - 1
  {
    UpperBoundSplits(bs, fpos, UpperBound(bs, fpos));
    hide UpperBound;
  }

  /** A completed write changes a held byte exactly when it differs from a block that starts behind
      its own start. */
  lemma {:induction false} ChangesMeans(bs: seq<Block>, fpos: nat, data: seq<Byte>, touch: nat)
    requires Disjoint(bs) && data != [] && !Overlaps(bs, fpos, |data|)
    ensures Keyed(bs)
    ensures ChangesByte(Content(bs), Content(Written(bs, fpos, data, touch))) <==> DiffersBehind(bs, fpos, data)
  {
    hide Disjoint, Content, Written, Overlaps, Overlay, ChangesByte, KeptUpTo, UpperBound, Held, Keyed;
    var c, keep := Content(bs), KeptUpTo(bs, fpos);
    WrittenContent(bs, fpos, data, touch);
    OverlayChanges(c, fpos, data, keep);
    if p :| p in c && fpos <= p < fpos + |data| && keep <= p && c[p] != data[p - fpos] {
      HeldIsInSome(bs, p);
      var k :| 0 <= k < |bs| && bs[k].Contains(p);
      ContentAt(bs, k, p, c);
      KeptIsFirst(bs, fpos, k, p);
      assert !AgreesOn(bs[k], fpos, data);
    }
    if DiffersBehind(bs, fpos, data) {
      var k :| UpperBound(bs, fpos) <= k < |bs| && !AgreesOn(bs[k], fpos, data);
      var p :| bs[k].Contains(p) && fpos <= p < fpos + |data| && bs[k].At(p) != data[p - fpos];
      ContentAt(bs, k, p, c);
      KeptIsFirst(bs, fpos, k, p);
    }
  }

  /** After a completed write the bytes written are there exactly when they agree with the block they
      were appended to, if any. */
  lemma {:induction false} WrittenIsThere(bs: seq<Block>, fpos: nat, data: seq<Byte>, touch: nat)
    requires Disjoint(bs) && data != [] && !Overlaps(bs, fpos, |data|)
    ensures Keyed(bs)
    ensures IsSlice(Content(Written(bs, fpos, data, touch)), fpos, data) <==>
            (HasBase(bs, fpos) ==> AgreesOn(bs[UpperBound(bs, fpos) - 1], fpos, data))
  {
    hide Disjoint, Content, Written, Overlaps, UpperBound, Held, Keyed, Overlay, KeptUpTo, IsSlice;
    WrittenContent(bs, fpos, data, touch);
    SliceOfOverlay(Content(bs), fpos, data, KeptUpTo(bs, fpos));
    BaseIsKept(bs, fpos, data, Content(bs));
  }

  lemma {:induction false} OverlayAt(c: map<nat, Byte>, fpos: nat, data: seq<Byte>, keep: nat, p: nat)
    requires p in c && p in Interval(fpos, |data|)
    ensures p in Overlay(c, fpos, data, keep)
    ensures Overlay(c, fpos, data, keep)[p] == if p < keep then c[p] else data[p - fpos]
  {
    hide Interval;
  }

  lemma {:induction false} OverlayAdds(c: map<nat, Byte>, fpos: nat, data: seq<Byte>, keep: nat, p: nat)
    requires p !in c && p in Interval(fpos, |data|)
    ensures p in Overlay(c, fpos, data, keep)
    ensures Overlay(c, fpos, data, keep)[p] == data[p - fpos]
  {
    hide Interval;
  }

  lemma {:induction false} SliceOfOverlay(c: map<nat, Byte>, fpos: nat, data: seq<Byte>, keep: nat)
    ensures IsSlice(Overlay(c, fpos, data, keep), fpos, data) <==>
            forall p: nat :: p in c && fpos <= p < fpos + |data| && p < keep ==> c[p] == data[p - fpos]
  {
    hide Overlay, Interval;
    var nc := Overlay(c, fpos, data, keep);
    forall p: nat | fpos <= p < fpos + |data|
      ensures p in nc && nc[p] == if p in c && p < keep then c[p] else data[p - fpos]
    {
      if p in c {
        OverlayAt(c, fpos, data, keep, p);
      } else {
        OverlayAdds(c, fpos, data, keep, p);
      }
    }
  }

  lemma {:induction false} BaseIsKept(bs: seq<Block>, fpos: nat, data: seq<Byte>, c: map<nat, Byte>)
    requires Disjoint(bs) && c == Content(bs)
    ensures (forall p: nat :: p in c && fpos <= p < fpos + |data| && p < KeptUpTo(bs, fpos) ==> c[p] == data[p - fpos])
            <==> (HasBase(bs, fpos) ==> AgreesOn(bs[UpperBound(bs, fpos) - 1], fpos, data))
  {
    hide Disjoint, Content, UpperBound, Held;
    var u, keep := UpperBound(bs, fpos), KeptUpTo(bs, fpos);
    if HasBase(bs, fpos) && AgreesOn(bs[u - 1], fpos, data) {
      forall p: nat | p in c && fpos <= p < fpos + |data| && p < keep
        ensures c[p] == data[p - fpos]
      {
        HeldIsInSome(bs, p);
        var k :| 0 <= k < |bs| && bs[k].Contains(p);
        ContentAt(bs, k, p, c);
        KeptIsFirst(bs, fpos, k, p);
      }
    }
    if HasBase(bs, fpos) &&
       forall p: nat :: p in c && fpos <= p < fpos + |data| && p < keep ==> c[p] == data[p - fpos] {
      var base := bs[u - 1];
      forall p | base.Contains(p) && fpos <= p < fpos + |data|
        ensures base.At(p) == data[p - fpos]
      {
        ContentAt(bs, u - 1, p, c);
      }
    }
  }

  /** What a write has to be like for comparing to overlook that it changes a held byte. */
  ghost predicate LetsThrough(bs: seq<Block>, fpos: nat, data: seq<Byte>) {
    var u := UpperBound(bs, fpos);
    if HasBase(bs, fpos) then
      && !FirstDiffers(bs[u - 1], fpos, data)
      && (exists k :: u <= k < |bs| && !AgreesOn(bs[k], fpos, data))
      && (forall k :: u <= k < |bs| && !AgreesOn(bs[k], fpos, data) ==>
            fpos <= bs[k].fpos < fpos + |data| && bs[u - 1].data != [] && data[bs[k].fpos - fpos] == bs[u - 1].data[0])
    else
      && u == 0
      && (exists k :: 0 <= k < |bs| && !AgreesOn(bs[k], fpos, data))
      && (forall k :: 0 <= k < |bs| ==> !FirstDiffers(bs[k], fpos, data))
  }

  lemma {:induction false} StopsBehindMeans(base: Block, b: Block, fpos: nat, data: seq<Byte>)
    requires base.data != [] && fpos <= b.fpos
    ensures !AgreesOn(b, fpos, data) ==> b.fpos < fpos + |data|
    ensures StopsBehind(base, b, fpos, data) <==> !AgreesOn(b, fpos, data) && data[b.fpos - fpos] != base.data[0]
  {
  }

  /** Nothing behind a gap that a write starts in differs unless the write overlaps it. */
  lemma {:induction false} GapAgrees(bs: seq<Block>, fpos: nat, data: seq<Byte>)
    requires Disjoint(bs) && !Overlaps(bs, fpos, |data|) && !HasBase(bs, fpos)
    ensures !ReachesFirst(bs, fpos, |data|) ==> !DiffersBehind(bs, fpos, data)
  {
    UpperBoundSplits(bs, fpos, UpperBound(bs, fpos));
    hide UpperBound;
  }

  lemma {:induction false} BaseLetsThrough(bs: seq<Block>, fpos: nat, data: seq<Byte>)
    requires Disjoint(bs) && HasBase(bs, fpos)
    ensures !Stops(bs, fpos, data) && DiffersBehind(bs, fpos, data) <==> LetsThrough(bs, fpos, data)
  {
    var u := UpperBound(bs, fpos);
    UpperBoundSplits(bs, fpos, u);
    assert bs[u - 1].data != [];
    forall k | u <= k < |bs|
      ensures !AgreesOn(bs[k], fpos, data) ==> fpos <= bs[k].fpos < fpos + |data|
      ensures StopsBehind(bs[u - 1], bs[k], fpos, data) <==>
              !AgreesOn(bs[k], fpos, data) && data[bs[k].fpos - fpos] != bs[u - 1].data[0]
    {
      StopsBehindMeans(bs[u - 1], bs[k], fpos, data);
    }
    hide Disjoint, UpperBound, AgreesOn, FirstDiffers, StopsBehind;
  }

  /** Exactly when a write that compares completes and yet changes a held byte. */
  lemma {:induction false} LetsThroughMeans(bs: seq<Block>, fpos: nat, data: seq<Byte>, touch: nat)
    requires Disjoint(bs) && data != [] && !Overlaps(bs, fpos, |data|)
    ensures Keyed(bs)
    ensures !Stops(bs, fpos, data) && ChangesByte(Content(bs), Content(Written(bs, fpos, data, touch))) <==>
            LetsThrough(bs, fpos, data)
  {
    ChangesMeans(bs, fpos, data, touch);
    hide Content, Written, ChangesByte, AgreesOn, FirstDiffers, Held, Disjoint, Keyed, Overlaps;
    if HasBase(bs, fpos) {
      BaseLetsThrough(bs, fpos, data);
    } else {
      GapAgrees(bs, fpos, data);
    }
  }

  /** Bytes 97, 98 are held at 0. Writing 97, 99 there completes and leaves the 98. */
  lemma {:induction false} KeepsOldByte()
    ensures var bs, data := [Block(0, [97, 98], 0)], [97, 99];
            && Disjoint(bs) && Keyed(bs) && !Agrees(bs, 0, data) && !Stops(bs, 0, data)
            && Written(bs, 0, data, 1) == [Block(0, [97, 98], 1)]
  {
    var bs, data: seq<Byte> := [Block(0, [97, 98], 0)], [97, 99];
    UpperBoundIs(bs, 0, 1);
    assert bs[0].Contains(1) && bs[0].At(1) != data[1 - 0];
  }

  /** Bytes 97, 98 are held at 5. Writing 120, 120, 97, 99 at 3 completes and turns the 98 into 99. */
  lemma {:induction false} OverwritesHeldByte()
    ensures var bs, data := [Block(5, [97, 98], 0)], [120, 120, 97, 99];
            && Disjoint(bs) && Keyed(bs) && !Stops(bs, 3, data)
            && Written(bs, 3, data, 1) == [Block(3, [120, 120, 97, 99], 1)]
  {
    var bs, data: seq<Byte> := [Block(5, [97, 98], 0)], [120, 120, 97, 99];
    UpperBoundIs(bs, 3, 0);
    UpperBoundIs(bs, 7, 1);
    assert data + [] == data;
  }

  /** Byte 97 is held at 0 and byte 1 at 2. Writing 5, 97 at 1 turns the 1 into 97: the new byte is looked
      for in the first block. */
  lemma {:induction false} LooksInWrongBlock()
    ensures var bs, data := [Block(0, [97], 0), Block(2, [1], 1)], [5, 97];
            && Disjoint(bs) && Keyed(bs) && FirstDiffers(bs[1], 1, data) && !Stops(bs, 1, data)
            && Written(bs, 1, data, 2) == [Block(0, [97, 5, 97], 2)]
  {
    var bs, data: seq<Byte> := [Block(0, [97], 0), Block(2, [1], 1)], [5, 97];
    assert Disjoint(bs) && Keyed(bs);
    UpperBoundIs(bs, 1, 1);
    UpperBoundIs(bs, 3, 2);
    hide UpperBound, Disjoint, Keyed, AgreesOn;
    PassesWrongBlock(bs, data);
    AppendedToFirst(bs, data);
  }

  lemma {:induction false} PassesWrongBlock(bs: seq<Block>, data: seq<Byte>)
    requires bs == [Block(0, [97], 0), Block(2, [1], 1)] && data == [5, 97] && UpperBound(bs, 1) == 1
    ensures FirstDiffers(bs[1], 1, data) && !Stops(bs, 1, data)
  {
    hide UpperBound, AgreesOn;
    assert data[1] == 97 == bs[0].data[0];
  }

  lemma {:induction false} AppendedToFirst(bs: seq<Block>, data: seq<Byte>)
    requires bs == [Block(0, [97], 0), Block(2, [1], 1)] && data == [5, 97] && Keyed(bs)
    requires UpperBound(bs, 1) == 1 && UpperBound(bs, 3) == 2
    ensures Written(bs, 1, data, 2) == [Block(0, [97, 5, 97], 2)]
  {
    hide UpperBound, Keyed;
    assert ReachFromBase(bs, 3) == 2 && TailFrom(bs, 2, 3) == [];
    hide ReachFromBase, TailFrom;
    assert Appended(bs, 0, 2, 1, data, 2).data == [97, 5, 97];
    hide Appended;
    assert bs[..0] + [Block(0, [97, 5, 97], 2)] + bs[2..] == [Block(0, [97, 5, 97], 2)];
  }
}
