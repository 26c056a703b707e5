/** The walk of need() over the blocks, on block lists with and without overlaps. */
module Walks {
  import opened SeekReads
  import opened Blocks
  import opened Writes
  import opened Gaps

  /** How many values a size_t has. */
  const SIZE_T_VALUES: nat := 0x1_0000_0000_0000_0000

  /** A length as a size_t holds it, which wraps around when it is negative. */
  function AsSize(n: int): nat { if n < 0 then n % SIZE_T_VALUES else n }

  /** The entries that the walk adds when it is at position p, block k comes next and the request ends at
      position to. A walk that has overshot the end goes on with what the subtraction wrapped around to. */
  function WalkFrom(bs: seq<Block>, k: nat, p: nat, to: nat): seq<SeekRead>
    requires k <= |bs|
    decreases |bs| - k
  {
    if p == to then []
    else if k == |bs| || to <= bs[k].fpos then [SeekRead(p, AsSize(to - p))]
    else
      var at := if p < bs[k].fpos then bs[k].fpos else p;
      var rest := if to <= bs[k].End() then [] else WalkFrom(bs, k + 1, at + |bs[k].data|, to);
      if p < bs[k].fpos then [SeekRead(p, bs[k].fpos - p)] + rest else rest
  }

  /** Where the walk starts. */
  function StartOfWalk(bs: seq<Block>, fpos: nat, to: nat): nat
    requires fpos <= to
  {
    var u := UpperBound(bs, fpos);
    if u > 0 && fpos < bs[u - 1].End() then if to < bs[u - 1].End() then to else bs[u - 1].End() else fpos
  }

  /** All entries of the walk; in front of the first block also for an empty request. */
  function Walk(bs: seq<Block>, fpos: nat, len: nat): seq<SeekRead>
    requires bs != []
  {
    var u := UpperBound(bs, fpos);
    if u == 0 && fpos + len <= bs[0].fpos then [SeekRead(fpos, len)]
    else WalkFrom(bs, u, StartOfWalk(bs, fpos, fpos + len), fpos + len)
  }

  /** The runs found when the walk that was at p reaches block b. */
  function UpToBlock(rs: seq<SeekRead>, p: nat, b: Block): seq<SeekRead> {
    if p < b.fpos then rs + [SeekRead(p, b.fpos - p)] else rs
  }

  /** One turn of the walk, after what it found before. */
  lemma {:induction false} WalkStep(rs: seq<SeekRead>, bs: seq<Block>, k: nat, p: nat, to: nat)
    requires k < |bs| && p != to && bs[k].fpos < to
    ensures var past := (if p < bs[k].fpos then bs[k].fpos else p) + |bs[k].data|;
            rs + WalkFrom(bs, k, p, to) ==
            UpToBlock(rs, p, bs[k]) +
            (if to <= bs[k].End() || past == to then [] else WalkFrom(bs, k + 1, past, to))
  {
  }

  lemma {:induction false} LastStep(rs: seq<SeekRead>, bs: seq<Block>, k: nat, p: nat, to: nat)
    requires k <= |bs| && (k == |bs| || to <= bs[k].fpos) && p != to
    ensures rs + WalkFrom(bs, k, p, to) == rs + [SeekRead(p, AsSize(to - p))] + []
  {
  }

  /** What the walk has found, and where it is, when its loop starts. */
  lemma {:induction false} FirstStep(bs: seq<Block>, fpos: nat, len: nat, k: nat, p: nat, rest: int,
                                     rs: seq<SeekRead>)
    requires Keyed(bs) && bs != [] && k == UpperBound(bs, fpos) && p + rest == fpos + len
    requires if k == 0 && fpos + len <= bs[0].fpos then rest == 0 && rs == [SeekRead(fpos, len)]
             else rs == [] && p == StartOfWalk(bs, fpos, fpos + len)
    ensures Walk(bs, fpos, len) == rs + if rest == 0 then [] else WalkFrom(bs, k, p, fpos + len)
    ensures Disjoint(bs) && rest != 0 ==> rest > 0 && (k < |bs| ==> p <= bs[k].fpos)
  {
  }

  lemma {:induction false} NextFollows(bs: seq<Block>, k: nat)
    requires k < |bs|
    ensures Disjoint(bs) && k + 1 < |bs| ==> bs[k].End() <= bs[k + 1].fpos
  {
  }

  // ---- When the walk finds what is missing ----

  /** No block before the one that fpos leads to reaches further into the request than that one. */
  ghost predicate StartsClean(bs: seq<Block>, fpos: nat) {
    var u := UpperBound(bs, fpos);
    forall j :: 0 <= j < u - 1 ==> bs[j].End() <= fpos || bs[j].End() <= bs[u - 1].End()
  }

  /** From block i on, block k overlaps a block before it, in front of missing position x. */
  ghost predicate OverlapAt(bs: seq<Block>, i: int, to: int, j: int, k: int, x: int) {
    && 0 <= j && i <= j < k < |bs| && bs[k].fpos < bs[j].End()
    && bs[k].fpos < x < to && !InSome(bs, x)
  }

  ghost predicate OverlapsFrom(bs: seq<Block>, i: int, to: nat) {
    exists j, k, x :: OverlapAt(bs, i, to, j, k, x)
  }

  /** From the block that fpos leads to on, blocks overlap in front of a missing position of the request. */
  ghost predicate OverlapsBeforeGap(bs: seq<Block>, fpos: nat, len: nat) {
    OverlapsFrom(bs, UpperBound(bs, fpos) - 1, fpos + len)
  }

  /** What the walk has found when it is at p and block k comes next, with no overlap so far. */
  ghost predicate Walked(rs: seq<SeekRead>, bs: seq<Block>, i: int, fpos: nat, p: nat, k: nat) {
    && fpos <= p && k <= |bs| && i <= k && UpperBound(bs, fpos) <= k
    && MissingRuns(rs, bs, fpos, p - fpos)
    && (rs != [] ==> rs[|rs| - 1].End() < p)
    && (forall m :: 0 <= m < k ==> bs[m].End() <= p)
    && (forall j, m :: 0 <= j && i <= j < m < k ==> bs[j].End() <= bs[m].fpos)
    && (p == fpos || (0 < k && i < k && bs[k - 1].End() == p))
  }

  /** Between the blocks before k and block k nothing is held. */
  lemma {:induction false} GapIsFree(bs: seq<Block>, k: nat, from: int, to: int)
    requires Keyed(bs) && k <= |bs|
    requires forall i :: 0 <= i < k ==> bs[i].End() <= from
    requires k < |bs| ==> to <= bs[k].fpos
    ensures forall p :: from <= p < to ==> !InSome(bs, p)
  {
    forall p, i | from <= p < to && 0 <= i < |bs|
      ensures !bs[i].Contains(p)
    {
      assert k < i ==> bs[k].fpos < bs[i].fpos;
    }
  }

  /** The gap in front of block k, or in front of the end of the request, is one more run. */
  lemma {:induction false} WalkGap(rs: seq<SeekRead>, bs: seq<Block>, i: int, fpos: nat, p: nat, k: nat, to: nat)
    requires Keyed(bs) && Walked(rs, bs, i, fpos, p, k) && p < to
    requires k < |bs| ==> to <= bs[k].fpos
    ensures MissingRuns(rs + [SeekRead(p, to - p)], bs, fpos, to - fpos)
  {
    var entry := SeekRead(p, to - p);
    GapIsFree(bs, k, p, to);
    forall q
      ensures Covered(rs + [entry], q) <==> fpos <= q < to && !InSome(bs, q)
    {
      CoveredExtended(rs, entry, q);
    }
    assert forall n :: 0 <= n < |rs| ==> rs[n].End() <= rs[|rs| - 1].End();
  }

  /** Positions that are held need nothing. */
  lemma {:induction false} WalkHeld(rs: seq<SeekRead>, bs: seq<Block>, fpos: nat, from: nat, to: nat)
    requires fpos <= from <= to && MissingRuns(rs, bs, fpos, from - fpos)
    requires forall q :: from <= q < to ==> InSome(bs, q)
    ensures MissingRuns(rs, bs, fpos, to - fpos)
  {
  }

  lemma {:induction false} BlockHolds(bs: seq<Block>, k: nat)
    requires k < |bs|
    ensures forall q :: bs[k].fpos <= q < bs[k].End() ==> InSome(bs, q)
  {
    forall q | bs[k].fpos <= q < bs[k].End() ensures InSome(bs, q) {
      assert bs[k].Contains(q);
    }
  }

  // ---- After an overlap ----

  /** Where everything from m on is held, a walk that is at or past m adds nothing. */
  lemma {:induction false} HeldAddsNothing(bs: seq<Block>, k: nat, p: nat, m: nat, to: nat)
    requires Keyed(bs) && k <= |bs| && m <= p && m < to
    requires forall i :: 0 <= i < k ==> bs[i].End() <= m
    requires forall q :: m <= q < to ==> InSome(bs, q)
    ensures WalkFrom(bs, k, p, to) == []
    decreases |bs| - k
  {
    if p != to {
      assert InSome(bs, m);
      var i :| 0 <= i < |bs| && bs[i].Contains(m);
      assert k <= i && bs[k].fpos <= bs[i].fpos;
      if bs[k].End() < to {
        HeldAddsNothing(bs, k + 1, p + |bs[k].data|, if m < bs[k].End() then bs[k].End() else m, to);
      }
    }
  }

  ghost predicate StartFrom(rs: seq<SeekRead>, p: nat) {
    forall i :: 0 <= i < |rs| ==> p <= rs[i].fpos
  }

  /** Everything the walk adds lies at or behind where it is. */
  lemma {:induction false} EntriesFollow(bs: seq<Block>, k: nat, p: nat, to: nat)
    requires k <= |bs|
    ensures StartFrom(WalkFrom(bs, k, p, to), p)
    decreases |bs| - k
  {
    if p != to && k < |bs| && bs[k].End() < to {
      EntriesFollow(bs, k + 1, (if p < bs[k].fpos then bs[k].fpos else p) + |bs[k].data|, to);
    }
  }

  /** A walk that is past m passes over a missing position if there is one from m on. */
  lemma {:induction false} PassesOverGap(bs: seq<Block>, k: nat, p: nat, m: nat, to: nat, x: nat) returns (y: nat)
    requires Keyed(bs) && k <= |bs| && m < p && m <= x < to && !InSome(bs, x)
    requires forall i :: 0 <= i < k ==> bs[i].End() <= m
    ensures m <= y < to && !InSome(bs, y) && !Covered(WalkFrom(bs, k, p, to), y)
    decreases |bs| - k
  {
    if p == to {
      y := x;
    } else if !InSome(bs, m) {
      y := m;
      EntriesFollow(bs, k, p, to);
    } else {
      var i :| 0 <= i < |bs| && bs[i].Contains(m);
      assert k <= i && bs[k].fpos <= bs[i].fpos;
      assert !bs[k].Contains(x);
      y := PassesOverGap(bs, k + 1, p + |bs[k].data|, if m < bs[k].End() then bs[k].End() else m, to, x);
    }
  }

  // ---- The verdict ----

  /** The whole walk is right. */
  ghost predicate IsRight(rs: seq<SeekRead>, bs: seq<Block>, k: nat, fpos: nat, p: nat, to: nat)
    requires k <= |bs| && fpos <= to
  {
    MissingRuns(rs + WalkFrom(bs, k, p, to), bs, fpos, to - fpos)
  }

  /** No overlap lies in front of what is missing when the walk has met none so far and block k, where it
      starts behind position p, holds all from its start to the end of the request. */
  lemma {:induction false} NoOverlap(rs: seq<SeekRead>, bs: seq<Block>, i: int, fpos: nat, p: nat, k: nat, to: nat)
    requires Keyed(bs) && Walked(rs, bs, i, fpos, p, k)
    requires p == to || k == |bs| || to <= bs[k].fpos || (p <= bs[k].fpos && to <= bs[k].End())
    ensures !OverlapsFrom(bs, i, to)
  {
    forall j, m, x | 0 <= j && i <= j < m < |bs| && bs[m].fpos < bs[j].End() && bs[m].fpos < x < to
      ensures InSome(bs, x)
    {
      assert k <= m && bs[k].fpos <= bs[m].fpos;
      if p == to {
        assert p != fpos && bs[k - 1].fpos < bs[m].fpos;
        assert bs[k - 1].Contains(x);
      } else {
        assert bs[k].Contains(x);
      }
    }
  }

  /** The walk that is at its end, or in front of nothing but a gap. */
  lemma {:induction false} WalkEnds(rs: seq<SeekRead>, bs: seq<Block>, i: int, fpos: nat, p: nat, k: nat, to: nat)
    requires Keyed(bs) && Walked(rs, bs, i, fpos, p, k) && p <= to
    requires p == to || k == |bs| || to <= bs[k].fpos
    ensures IsRight(rs, bs, k, fpos, p, to)
  {
    if p == to {
      assert rs + [] == rs;
    } else {
      WalkGap(rs, bs, i, fpos, p, k, to);
    }
  }

  lemma {:induction false} ReachesBlock(rs: seq<SeekRead>, bs: seq<Block>, i: int, fpos: nat, p: nat, k: nat, to: nat)
    requires Keyed(bs) && Walked(rs, bs, i, fpos, p, k) && k < |bs| && p <= bs[k].fpos < to
    ensures MissingRuns(UpToBlock(rs, p, bs[k]), bs, fpos, bs[k].fpos - fpos)
    ensures rs + WalkFrom(bs, k, p, to) ==
            UpToBlock(rs, p, bs[k]) + (if to <= bs[k].End() then [] else WalkFrom(bs, k + 1, bs[k].End(), to))
  {
    hide MissingRuns, WalkFrom, Keyed, UpperBound;
    WalkStep(rs, bs, k, p, to);
    if p < bs[k].fpos {
      WalkGap(rs, bs, i, fpos, p, k, bs[k].fpos);
    }
  }

  /** The walk that ends inside a block. */
  lemma {:induction false} WalkEndsInside(rs: seq<SeekRead>, bs: seq<Block>, i: int, fpos: nat, p: nat, k: nat,
                                          to: nat)
    requires Keyed(bs) && Walked(rs, bs, i, fpos, p, k) && k < |bs| && p <= bs[k].fpos < to <= bs[k].End()
    ensures IsRight(rs, bs, k, fpos, p, to)
  {
    hide MissingRuns;
    ReachesBlock(rs, bs, i, fpos, p, k, to);
    BlockHolds(bs, k);
    WalkHeld(UpToBlock(rs, p, bs[k]), bs, fpos, bs[k].fpos, to);
    assert UpToBlock(rs, p, bs[k]) + [] == UpToBlock(rs, p, bs[k]);
  }

  /** The walk that passes a block which overlaps none before. */
  lemma {:induction false} WalkPasses(rs: seq<SeekRead>, bs: seq<Block>, i: int, fpos: nat, p: nat, k: nat, to: nat)
    requires Keyed(bs) && Walked(rs, bs, i, fpos, p, k) && k < |bs| && p <= bs[k].fpos && bs[k].End() < to
    ensures Walked(UpToBlock(rs, p, bs[k]), bs, i, fpos, bs[k].End(), k + 1)
    ensures IsRight(rs, bs, k, fpos, p, to) <==>
            IsRight(UpToBlock(rs, p, bs[k]), bs, k + 1, fpos, bs[k].End(), to)
  {
    var next := UpToBlock(rs, p, bs[k]);
    ReachesBlock(rs, bs, i, fpos, p, k, to);
    BlockHolds(bs, k);
    WalkHeld(next, bs, fpos, bs[k].fpos, bs[k].End());
    hide MissingRuns;
  }

  /** The walk that comes to a block which overlaps one before. */
  lemma {:induction false} WalkOverlaps(rs: seq<SeekRead>, bs: seq<Block>, i: int, fpos: nat, p: nat, k: nat, to: nat)
    requires Keyed(bs) && Walked(rs, bs, i, fpos, p, k) && k < |bs| && bs[k].fpos < p < to && p != fpos
    ensures IsRight(rs, bs, k, fpos, p, to) <==> !OverlapsFrom(bs, i, to)
  {
    if x :| bs[k].fpos < x < to && !InSome(bs, x) {
      WalkGoesWrong(rs, bs, i, fpos, p, k, to, x);
      var j := k - 1;
      assert OverlapAt(bs, i, to, j, k, x);
    } else {
      HeldAddsNothing(bs, k, p, p, to);
      assert rs + [] == rs;
      WalkHeld(rs, bs, fpos, p, to);
      forall j, m, x | 0 <= j && i <= j < m < |bs| && bs[m].fpos < bs[j].End() && bs[m].fpos < x < to
        ensures InSome(bs, x)
      {
        assert k <= m && bs[k].fpos <= bs[m].fpos;
      }
    }
  }

  lemma {:induction false} WalkGoesWrong(rs: seq<SeekRead>, bs: seq<Block>, i: int, fpos: nat, p: nat, k: nat,
                                         to: nat, x: nat)
    requires Keyed(bs) && Walked(rs, bs, i, fpos, p, k) && k < |bs| && bs[k].fpos < p < to && p != fpos
    requires bs[k].fpos < x < to && !InSome(bs, x)
    ensures !IsRight(rs, bs, k, fpos, p, to)
  {
    BlockHolds(bs, k - 1);
    assert p <= x && !bs[k].Contains(x);
    var m := if p < bs[k].End() then bs[k].End() else p;
    var past := p + |bs[k].data|;
    var y := PassesOverGap(bs, k + 1, past, m, to, x);
    assert WalkFrom(bs, k, p, to) == WalkFrom(bs, k + 1, past, to);
    CoveredConcat(rs, WalkFrom(bs, k, p, to), y);
    assert !Covered(rs, y);
  }

  /** The walk finds what is missing exactly when no overlap lies in front of something missing. */
  lemma {:induction false} WalkVerdict(rs: seq<SeekRead>, bs: seq<Block>, i: int, fpos: nat, p: nat, k: nat, to: nat)
    requires Keyed(bs) && Walked(rs, bs, i, fpos, p, k) && p <= to
    ensures IsRight(rs, bs, k, fpos, p, to) <==> !OverlapsFrom(bs, i, to)
    decreases |bs| - k
  {
    hide Keyed, IsRight, OverlapsFrom;
    if p == to || k == |bs| || to <= bs[k].fpos {
      WalkEnds(rs, bs, i, fpos, p, k, to);
      NoOverlap(rs, bs, i, fpos, p, k, to);
    } else if bs[k].fpos < p {
      StartsInFront(rs, bs, i, fpos, p, k);
      WalkOverlaps(rs, bs, i, fpos, p, k, to);
    } else if to <= bs[k].End() {
      WalkEndsInside(rs, bs, i, fpos, p, k, to);
      NoOverlap(rs, bs, i, fpos, p, k, to);
    } else {
      WalkPasses(rs, bs, i, fpos, p, k, to);
      WalkVerdict(UpToBlock(rs, p, bs[k]), bs, i, fpos, bs[k].End(), k + 1, to);
    }
  }

  lemma {:induction false} StartsInFront(rs: seq<SeekRead>, bs: seq<Block>, i: int, fpos: nat, p: nat, k: nat)
    requires Keyed(bs) && Walked(rs, bs, i, fpos, p, k) && k < |bs| && bs[k].fpos < p
    ensures p != fpos
  {
  }

  // ---- From the start ----

  /** Where every block before has ended the walk starts with nothing found. */
  lemma {:induction false} WalkStarts(bs: seq<Block>, fpos: nat, to: nat)
    requires Keyed(bs) && StartsClean(bs, fpos) && fpos <= to
    requires var u := UpperBound(bs, fpos); u > 0 ==> bs[u - 1].End() < to
    ensures Walked([], bs, UpperBound(bs, fpos) - 1, fpos, StartOfWalk(bs, fpos, to), UpperBound(bs, fpos))
  {
    var u, p := UpperBound(bs, fpos), StartOfWalk(bs, fpos, to);
    assert forall q :: !Covered([], q);
    if u > 0 {
      BlockHolds(bs, u - 1);
    }
  }

  /** A request inside the block that fpos leads to. */
  lemma {:induction false} StartsInside(bs: seq<Block>, fpos: nat, to: nat)
    requires Keyed(bs) && fpos <= to
    requires var u := UpperBound(bs, fpos); u > 0 && fpos < to <= bs[u - 1].End()
    ensures Walk(bs, fpos, to - fpos) == [] && MissingRuns([], bs, fpos, to - fpos)
    ensures !OverlapsBeforeGap(bs, fpos, to - fpos)
  {
    var u := UpperBound(bs, fpos);
    BlockHolds(bs, u - 1);
    assert forall q :: !Covered([], q);
    assert bs[u - 1].fpos <= fpos;
    var i: int := UpperBound(bs, fpos) - 1;
    forall j, k, x
      ensures !OverlapAt(bs, i, to, j, k, x)
    {
      if u - 1 <= j < k < |bs| && bs[k].fpos < x < to {
        assert bs[u - 1].fpos < bs[k].fpos;
        assert InSome(bs, x);
      }
    }
  }

  /** Where no block sticks out before: need() answers right exactly when blocks overlap in front of nothing
      that is missing. */
  lemma {:induction false} WalkIsRight(bs: seq<Block>, fpos: nat, len: nat)
    requires Keyed(bs) && bs != [] && len > 0 && StartsClean(bs, fpos)
    ensures MissingRuns(Walk(bs, fpos, len), bs, fpos, len) <==> !OverlapsBeforeGap(bs, fpos, len)
  {
    hide Keyed, MissingRuns, StartsClean, OverlapsFrom, WalkFrom, Walk, UpperBound, StartOfWalk, Walked;
    var u, to := UpperBound(bs, fpos), fpos + len;
    if u > 0 && to <= bs[u - 1].End() {
      StartsInside(bs, fpos, to);
    } else {
      WalkStarts(bs, fpos, to);
      var p := StartOfWalk(bs, fpos, to);
      StartIsWithin(bs, fpos, to);
      WalkVerdict([], bs, UpperBound(bs, fpos) - 1, fpos, p, u, to);
      assert [] + WalkFrom(bs, u, p, to) == WalkFrom(bs, u, p, to);
      FirstWalk(bs, fpos, len);
    }
  }

  lemma {:induction false} StartIsWithin(bs: seq<Block>, fpos: nat, to: nat)
    requires fpos <= to
    ensures fpos <= StartOfWalk(bs, fpos, to) <= to
  {
  }

  lemma {:induction false} FirstWalk(bs: seq<Block>, fpos: nat, len: nat)
    requires bs != [] && len > 0
    ensures Walk(bs, fpos, len) == WalkFrom(bs, UpperBound(bs, fpos), StartOfWalk(bs, fpos, fpos + len), fpos + len)
  {
  }

  /** A block that sticks out before: what it holds behind the block that fpos leads to is asked for again. */
  lemma {:induction false} AsksForHeld(bs: seq<Block>, fpos: nat, len: nat, j: nat)
    requires Keyed(bs) && bs != [] && len > 0
    requires var u := UpperBound(bs, fpos);
             && j < u - 1 && bs[u - 1].End() < bs[j].End() && fpos < bs[j].End()
             && StartOfWalk(bs, fpos, fpos + len) < fpos + len
             && (u < |bs| ==> StartOfWalk(bs, fpos, fpos + len) < bs[u].fpos)
    ensures !MissingRuns(Walk(bs, fpos, len), bs, fpos, len)
  {
    var u, p := UpperBound(bs, fpos), StartOfWalk(bs, fpos, fpos + len);
    assert bs[j].Contains(p);
    var entries := WalkFrom(bs, u, p, fpos + len);
    assert entries[0].Contains(p) && Covered(entries, p);
  }

  lemma {:induction false} EmptyWalk(bs: seq<Block>, fpos: nat)
    requires Keyed(bs) && bs != []
    ensures Walk(bs, fpos, 0) == if UpperBound(bs, fpos) == 0 then [SeekRead(fpos, 0)] else []
  {
  }

  /** A request that the walk of need() is sure to answer right. */
  ghost predicate WalksWell(bs: seq<Block>, fpos: nat, len: nat) {
    bs == [] || len == 0 || (StartsClean(bs, fpos) && !OverlapsBeforeGap(bs, fpos, len))
  }

  /** Without overlaps the walk is always right. */
  lemma {:induction false} DisjointIsClean(bs: seq<Block>, fpos: nat, len: nat)
    requires Disjoint(bs)
    ensures Keyed(bs) && StartsClean(bs, fpos) && WalksWell(bs, fpos, len)
  {
  }

  /** The walks for all requests, one after the other. */
  ghost function WalkEach(bs: seq<Block>, requests: seq<SeekRead>): seq<SeekRead>
    requires bs != []
  {
    if requests == [] then []
    else
      var n := |requests| - 1;
      WalkEach(bs, requests[..n]) + Walk(bs, requests[n].fpos, requests[n].len)
  }

  lemma {:induction false} WalkEachNext(bs: seq<Block>, requests: seq<SeekRead>, n: nat)
    requires bs != [] && n < |requests|
    ensures WalkEach(bs, requests[..n + 1]) ==
            WalkEach(bs, requests[..n]) + Walk(bs, requests[n].fpos, requests[n].len)
  {
    hide Walk;
    assert requests[..n + 1][..n] == requests[..n];
  }

  ghost predicate AllWalkWell(bs: seq<Block>, requests: seq<SeekRead>) {
    forall i :: 0 <= i < |requests| ==> WalksWell(bs, requests[i].fpos, requests[i].len)
  }

  lemma {:induction false} DisjointWalkWell(bs: seq<Block>, requests: seq<SeekRead>)
    ensures Disjoint(bs) ==> AllWalkWell(bs, requests)
  {
    if Disjoint(bs) {
      forall i | 0 <= i < |requests| ensures WalksWell(bs, requests[i].fpos, requests[i].len) {
        DisjointIsClean(bs, requests[i].fpos, requests[i].len);
      }
    }
  }

  lemma {:induction false} SameWalkWell(bs: seq<Block>, a: seq<SeekRead>, b: seq<SeekRead>)
    requires multiset(a) == multiset(b)
    ensures AllWalkWell(bs, a) ==> AllWalkWell(bs, b)
  {
    hide WalksWell;
    forall i | AllWalkWell(bs, a) && 0 <= i < |b|
      ensures WalksWell(bs, b[i].fpos, b[i].len)
    {
      assert b[i] in multiset(b) && b[i] in multiset(a);
      assert b[i] in a;
    }
  }

  /** Blocks of 32 bytes at 0 and 100. A write of 32 bytes at 90, which nothing warns of, makes two of them
      overlap. Of the 80 bytes at 90 those from 132 on are missing, but asked for are those from 154 on; of
      the 50 bytes at 90 some that go beyond every file. */
  lemma {:induction false} OverlapMisleads(a: seq<Byte>, b: seq<Byte>, data: seq<Byte>)
    requires |a| == |b| == |data| == 32
    ensures var bs := [Block(0, a, 0), Block(100, b, 1)];
            && Canonical(bs) && Keyed(bs)
            && var ns := Written(bs, 90, data, 2);
               && ns != [] && !InSome(ns, 132) && !InSome(ns, 153)
               && Walk(ns, 90, 80) == [SeekRead(154, 16)]
               && Walk(ns, 90, 50) == [SeekRead(154, 18446744073709551602)]
  {
    var bs := [Block(0, a, 0), Block(100, b, 1)];
    var ns := [Block(0, a, 0), Block(90, data, 2), Block(100, b, 1)];
    assert Canonical(bs) && Keyed(bs) && Keyed(ns);
    UpperBoundIs(bs, 90, 1);
    UpperBoundIs(ns, 90, 2);
    hide UpperBound, Keyed, Canonical;
    MisleadingWrite(bs, ns, data);
    MisledWalk(ns, 170);
    MisledWalk(ns, 140);
  }

  lemma {:induction false} MisleadingWrite(bs: seq<Block>, ns: seq<Block>, data: seq<Byte>)
    requires Keyed(bs) && |bs| == 2 && bs[0].End() == 32 && bs[1].fpos == 100 && bs[1].End() == 132
    requires UpperBound(bs, 90) == 1 && |data| == 32 && ns == [bs[0], Block(90, data, 2), bs[1]]
    ensures Written(bs, 90, data, 2) == ns && !InSome(ns, 132) && !InSome(ns, 153)
  {
    hide UpperBound, Keyed;
    assert ReplacedFrom(bs, 90) == 1 == ReplacedTo(bs, 90, 32) && NewBlock(bs, 90, data, 2) == Block(90, data, 2);
    hide ReplacedFrom, ReplacedTo, NewBlock;
    assert bs[..1] + [Block(90, data, 2)] + bs[1..] == ns;
  }

  lemma {:induction false} MisledWalk(ns: seq<Block>, to: nat)
    requires |ns| == 3 && ns[1].fpos == 90 && ns[1].End() == 122 && ns[2].fpos == 100 && ns[2].End() == 132
    requires UpperBound(ns, 90) == 2 && 132 < to && to != 154
    ensures Walk(ns, 90, to - 90) == [SeekRead(154, AsSize(to - 154))]
  {
    hide UpperBound;
    assert WalkFrom(ns, 3, 154, to) == [SeekRead(154, AsSize(to - 154))];
    assert WalkFrom(ns, 2, 122, to) == WalkFrom(ns, 3, 154, to);
  }

  // ---- What an overshoot comes to ----

  /** The length is one that a size_t can hold, and leads back to position to when 2^64 counts as nothing. */
  ghost predicate WrapsRound(entry: SeekRead, to: nat) {
    && entry.len < 18446744073709551616
    && entry.End() % 18446744073709551616 == to % 18446744073709551616
    && (entry.fpos < to + 18446744073709551616 ==> entry.End() == to + 18446744073709551616)
  }

  /** Every entry lies within the request, but the last, which can lie behind its end and wrap around. */
  ghost predicate Wraps(rs: seq<SeekRead>, to: nat) {
    forall i :: 0 <= i < |rs| && to < rs[i].End() ==> i == |rs| - 1 && to < rs[i].fpos && WrapsRound(rs[i], to)
  }

  lemma {:induction false} SizeWraps(p: nat, to: nat)
    requires to < p
    ensures WrapsRound(SeekRead(p, AsSize(to - p)), to)
  {
  }

  lemma {:induction false} LastWraps(p: nat, to: nat)
    ensures Wraps([SeekRead(p, AsSize(to - p))], to) && Wraps([], to)
  {
    if to < p {
      SizeWraps(p, to);
    } else {
      assert SeekRead(p, AsSize(to - p)).End() == to;
    }
    hide AsSize, WrapsRound;
  }

  lemma {:induction false} FrontWraps(entry: SeekRead, rs: seq<SeekRead>, to: nat)
    requires entry.End() <= to && Wraps(rs, to)
    ensures Wraps([entry] + rs, to)
  {
    hide WrapsRound;
    var all := [entry] + rs;
    assert forall i :: 0 < i < |all| ==> all[i] == rs[i - 1];
  }

  lemma {:induction false} WalkWraps(bs: seq<Block>, k: nat, p: nat, to: nat)
    requires k <= |bs|
    ensures Wraps(WalkFrom(bs, k, p, to), to)
    decreases |bs| - k
  {
    hide Wraps, AsSize, WalkFrom;
    LastWraps(p, to);
    if k == |bs| || to <= bs[k].fpos || p == to {
      EndOfWalk(bs, k, p, to);
    } else {
      var past := (if p < bs[k].fpos then bs[k].fpos else p) + |bs[k].data|;
      var rest := if to <= bs[k].End() then [] else WalkFrom(bs, k + 1, past, to);
      WalkUnfolds(bs, k, p, to, rest);
      if bs[k].End() < to {
        WalkWraps(bs, k + 1, past, to);
      }
      if p < bs[k].fpos {
        FrontWraps(SeekRead(p, bs[k].fpos - p), rest, to);
      }
    }
  }

  lemma {:induction false} EndOfWalk(bs: seq<Block>, k: nat, p: nat, to: nat)
    requires k <= |bs| && (k == |bs| || to <= bs[k].fpos || p == to)
    ensures WalkFrom(bs, k, p, to) == if p == to then [] else [SeekRead(p, AsSize(to - p))]
  {
  }

  lemma {:induction false} WalkUnfolds(bs: seq<Block>, k: nat, p: nat, to: nat, rest: seq<SeekRead>)
    requires k < |bs| && bs[k].fpos < to && p != to
    requires rest == if to <= bs[k].End() then []
                     else WalkFrom(bs, k + 1, (if p < bs[k].fpos then bs[k].fpos else p) + |bs[k].data|, to)
    ensures WalkFrom(bs, k, p, to) == if p < bs[k].fpos then [SeekRead(p, bs[k].fpos - p)] + rest else rest
  {
  }

  /** What the whole walk comes to. */
  lemma {:induction false} WholeWalk(bs: seq<Block>, fpos: nat, len: nat)
    requires Keyed(bs) && bs != []
    ensures Wraps(Walk(bs, fpos, len), fpos + len)
    ensures len > 0 && StartsClean(bs, fpos) ==>
              (MissingRuns(Walk(bs, fpos, len), bs, fpos, len) <==> !OverlapsBeforeGap(bs, fpos, len))
    ensures len == 0 ==> Walk(bs, fpos, len) == if UpperBound(bs, fpos) == 0 then [SeekRead(fpos, 0)] else []
  {
    hide Keyed, Wraps, StartsClean, OverlapsBeforeGap, MissingRuns, UpperBound, WalkFrom;
    WalkWraps(bs, UpperBound(bs, fpos), StartOfWalk(bs, fpos, fpos + len), fpos + len);
    LastWraps(fpos, fpos + len);
    EmptyWalk(bs, fpos);
    if len > 0 && StartsClean(bs, fpos) {
      WalkIsRight(bs, fpos, len);
    }
  }
}
