/** Seams: positions where one block ends and the next begins. A block list in the state that the
    code promises has none; a misrouted write leaves one behind. */
module Seams {
  import opened SeekReads
  import opened Blocks
  import opened Writes
  import opened Gaps

  // ---- Spanning a request by one block ----

  ghost predicate Spanned(bs: seq<Block>, fpos: nat, len: nat) {
    exists k :: 0 <= k < |bs| && bs[k].fpos <= fpos && fpos + len <= bs[k].End()
  }

  /** The last block that starts at or before a position is the one in front of which its search ends. */
  lemma {:induction false} LastStarts(bs: seq<Block>, fpos: nat, k: int)
    requires Keyed(bs) && 0 <= k < |bs|
    ensures bs[k].fpos <= fpos && (k + 1 < |bs| ==> fpos < bs[k + 1].fpos) <==> k == UpperBound(bs, fpos) - 1
  {
    if bs[k].fpos <= fpos && (k + 1 < |bs| ==> fpos < bs[k + 1].fpos) {
      UpperBoundIs(bs, fpos, k + 1);
    }
  }

  lemma {:induction false} LastCovers(bs: seq<Block>, fpos: nat, len: nat)
    requires Keyed(bs)
    ensures (exists k :: 0 <= k < |bs| && bs[k].fpos <= fpos && fpos + len <= bs[k].End() &&
               (k + 1 < |bs| ==> fpos < bs[k + 1].fpos)) <==>
            var u := UpperBound(bs, fpos); u > 0 && fpos + len <= bs[u - 1].End()
  {
    var u := UpperBound(bs, fpos);
    if u > 0 {
      LastStarts(bs, fpos, u - 1);
    }
    hide UpperBound, Keyed;
    if k :| 0 <= k < |bs| && bs[k].fpos <= fpos && fpos + len <= bs[k].End() &&
            (k + 1 < |bs| ==> fpos < bs[k + 1].fpos) {
      LastStarts(bs, fpos, k);
    }
  }

  /** What has() answers when it has moved to block iter. */
  lemma {:induction false} HasMeans(bs: seq<Block>, fpos: nat, len: nat, iter: nat)
    requires Keyed(bs) && iter == if UpperBound(bs, fpos) != 0 then UpperBound(bs, fpos) - 1 else 0
    ensures var has := |bs| != 0 && bs[iter].fpos <= fpos && fpos + len <= bs[iter].End();
            && (has <==> exists k :: 0 <= k < |bs| && bs[k].fpos <= fpos && fpos + len <= bs[k].End() &&
                           (k + 1 < |bs| ==> fpos < bs[k + 1].fpos))
            && (Disjoint(bs) ==> (has <==> Spanned(bs, fpos, len)))
  {
    LastCovers(bs, fpos, len);
    if Disjoint(bs) {
      UpperBoundSplits(bs, fpos, UpperBound(bs, fpos));
    }
    hide UpperBound, Keyed, Disjoint;
  }

  predicate IsSeam(bs: seq<Block>, k: int) {
    0 < k < |bs| && bs[k - 1].End() == bs[k].fpos
  }

  /** Where one block ends and the next begins at the same position. */
  ghost function SeamsOf(bs: seq<Block>): set<nat> {
    set k | 0 < k < |bs| && IsSeam(bs, k) :: bs[k].fpos
  }

  lemma {:induction false} SeamIsListed(bs: seq<Block>, k: nat)
    ensures IsSeam(bs, k) ==> bs[k].fpos in SeamsOf(bs)
  {
  }

  lemma {:induction false} CanonicalHasNoSeams(bs: seq<Block>)
    requires Disjoint(bs)
    ensures Canonical(bs) <==> SeamsOf(bs) == {}
  {
    if SeamsOf(bs) == {} {
      forall i, j | 0 <= i < j < |bs|
        ensures bs[i].End() < bs[j].fpos
      {
        assert bs[i].End() <= bs[j - 1].End() <= bs[j].fpos;
        SeamIsListed(bs, j);
      }
    }
  }

  /** One block spans a request just when all of it is held and no seam lies inside it. */
  lemma {:induction false} SpannedMeansHeld(bs: seq<Block>, fpos: nat, len: nat)
    requires Disjoint(bs) && len > 0
    ensures Spanned(bs, fpos, len) <==>
            && (forall p :: fpos <= p < fpos + len ==> InSome(bs, p))
            && (forall s :: s in SeamsOf(bs) ==> !(fpos < s < fpos + len))
  {
    if Spanned(bs, fpos, len) {
      var k :| 0 <= k < |bs| && bs[k].fpos <= fpos && fpos + len <= bs[k].End();
      forall p | fpos <= p < fpos + len ensures InSome(bs, p) {
        assert bs[k].Contains(p);
      }
      SeamIsNotInside(bs, k);
    }
    if (forall p :: fpos <= p < fpos + len ==> InSome(bs, p)) &&
       (forall s :: s in SeamsOf(bs) ==> !(fpos < s < fpos + len)) {
      HeldIsSpanned(bs, fpos, len);
    }
  }

  lemma {:induction false} SeamIsNotInside(bs: seq<Block>, k: nat)
    requires Disjoint(bs) && k < |bs|
    ensures forall s :: s in SeamsOf(bs) ==> !(bs[k].fpos < s < bs[k].End())
  {
    forall m | 0 < m < |bs| && IsSeam(bs, m)
      ensures !(bs[k].fpos < bs[m].fpos < bs[k].End())
    {
    }
  }

  lemma {:induction false} HeldIsSpanned(bs: seq<Block>, fpos: nat, len: nat)
    requires Disjoint(bs) && len > 0
    requires forall p :: fpos <= p < fpos + len ==> InSome(bs, p)
    requires forall s :: s in SeamsOf(bs) ==> !(fpos < s < fpos + len)
    ensures Spanned(bs, fpos, len)
  {
    assert InSome(bs, fpos);
    var k :| 0 <= k < |bs| && bs[k].Contains(fpos);
    EndIsSeamOrFree(bs, k);
  }

  /** If the position where block k ends is held then the next block starts there. */
  lemma {:induction false} EndIsSeamOrFree(bs: seq<Block>, k: nat)
    requires Disjoint(bs) && k < |bs|
    ensures InSome(bs, bs[k].End()) ==> bs[k].End() in SeamsOf(bs)
  {
    var e := bs[k].End();
    if InSome(bs, e) {
      var m :| 0 <= m < |bs| && bs[m].Contains(e);
      assert k < m;
      assert bs[k + 1].fpos == e;
      assert IsSeam(bs, k + 1);
    }
  }

  /** Without seams: a request is spanned just when nothing of it is missing. */
  lemma {:induction false} SpannedMeansNothingMissing(rs: seq<SeekRead>, bs: seq<Block>, fpos: nat, len: nat)
    requires Canonical(bs) && len > 0 && MissingRuns(rs, bs, fpos, len)
    ensures Spanned(bs, fpos, len) <==> rs == []
  {
    CanonicalHasNoSeams(bs);
    SpannedMeansHeld(bs, fpos, len);
    if rs != [] {
      assert rs[0].Contains(rs[0].fpos) && Covered(rs, rs[0].fpos);
    } else {
      assert forall p :: !Covered(rs, p);
    }
  }

  lemma {:induction false} SeamsFollowShape(a: seq<Block>, b: seq<Block>)
    requires Shape(a) == Shape(b)
    ensures SeamsOf(a) == SeamsOf(b)
  {
    assert |a| == |Shape(a)| == |b|;
    forall i | 0 <= i < |a|
      ensures a[i].fpos == b[i].fpos && a[i].End() == b[i].End()
    {
      assert Shape(a)[i] == Shape(b)[i];
    }
    assert forall k :: IsSeam(a, k) <==> IsSeam(b, k);
  }

  // ---- What the positions held tell of a write ----

  /** Some byte in front of the gap that fpos lies in is held, though not the one right in front of it. */
  ghost predicate StartsInGap(held: set<nat>, fpos: nat) {
    && fpos > 0 && fpos - 1 !in held
    && exists q :: q in held && q < fpos
  }

  /** The byte at fpos or the one in front of it is held. */
  predicate StartsAtHeld(held: set<nat>, fpos: nat) {
    fpos in held || (fpos > 0 && fpos - 1 in held)
  }

  /** A write is misrouted when neither its first byte nor the one in front is held, some byte before
      that is, and some byte up to the one behind the write is. */
  ghost predicate MisroutedInto(held: set<nat>, fpos: nat, len: nat) {
    && fpos !in held
    && StartsInGap(held, fpos)
    && exists p :: p in held && fpos < p <= fpos + len
  }

  /** A misrouted write overlaps a block when it is misrouted even without its last byte. */
  ghost predicate OverlapsInto(held: set<nat>, fpos: nat, len: nat) {
    len > 0 && MisroutedInto(held, fpos, len - 1)
  }

  lemma {:induction false} BlockIsHeld(bs: seq<Block>, k: nat, held: set<nat>)
    requires Disjoint(bs) && k < |bs| && held == Held(bs)
    ensures bs[k].fpos in held && bs[k].fpos < bs[k].End() && bs[k].End() - 1 in held
    ensures forall p: nat :: bs[k].Contains(p) ==> p in held
  {
    forall p: nat | bs[k].Contains(p) ensures p in held {
      HeldIsInSome(bs, p);
    }
    assert bs[k].Contains(bs[k].fpos) && bs[k].Contains(bs[k].End() - 1);
  }

  /** The positions held decide whether there is a block that the write starts in or right behind, and
      whether there is one before. */
  lemma {:induction false} BaseByHeld(bs: seq<Block>, fpos: nat, held: set<nat>)
    requires Disjoint(bs) && held == Held(bs)
    ensures HasBase(bs, fpos) <==> StartsAtHeld(held, fpos)
    ensures UpperBound(bs, fpos) > 0 ==> fpos in held || exists q :: q in held && q < fpos
    ensures UpperBound(bs, fpos) == 0 ==> forall q :: q in held ==> fpos < q
  {
    hide Held;
    var u := UpperBound(bs, fpos);
    UpperBoundSplits(bs, fpos, u);
    if u > 0 {
      BlockIsHeld(bs, u - 1, held);
    }
    forall q | q in held && q <= fpos
      ensures u > 0 && q < bs[u - 1].End()
    {
      HeldIsInSome(bs, q);
      var k :| 0 <= k < |bs| && bs[k].Contains(q);
      assert k < u;
    }
  }

  /** The positions held decide how a write is routed. */
  lemma {:induction false} MisroutedByHeld(bs: seq<Block>, fpos: nat, len: nat, held: set<nat>)
    requires Disjoint(bs) && held == Held(bs)
    ensures Misrouted(bs, fpos, len) <==> MisroutedInto(held, fpos, len)
    ensures Overlaps(bs, fpos, len) <==> OverlapsInto(held, fpos, len)
  {
    hide Held;
    var u := UpperBound(bs, fpos);
    UpperBoundSplits(bs, fpos, u);
    BaseByHeld(bs, fpos, held);
    if u < |bs| {
      BlockIsHeld(bs, u, held);
    }
    hide HasBase, UpperBound;
    forall p | p in held && fpos < p && !StartsAtHeld(held, fpos)
      ensures u < |bs| && bs[u].fpos <= p
    {
      HeldIsInSome(bs, p);
      var k :| 0 <= k < |bs| && bs[k].Contains(p);
      assert u <= k;
    }
  }

  // ---- The seams after a write ----

  /** Seams of bs at indices strictly between lo and hi. */
  ghost function SeamsIn(bs: seq<Block>, lo: int, hi: int): set<nat> {
    set k | 0 < k < |bs| && lo < k < hi && IsSeam(bs, k) :: bs[k].fpos
  }

  ghost function SeamBetween(end: nat, start: nat): set<nat> {
    if end == start then {start} else {}
  }

  ghost function SeamBefore(bs: seq<Block>, i: nat, start: nat): set<nat>
    requires i <= |bs|
  {
    if i > 0 then SeamBetween(bs[i - 1].End(), start) else {}
  }

  ghost function SeamAfter(bs: seq<Block>, j: nat, end: nat): set<nat>
    requires j <= |bs|
  {
    if j < |bs| then SeamBetween(end, bs[j].fpos) else {}
  }

  /** Where a seam of a spliced list comes from. */
  lemma {:induction false} SeamOfSplice(bs: seq<Block>, i: nat, j: nat, b: Block, ns: seq<Block>, k: nat)
    requires i <= j <= |bs| && ns == Splice(bs, i, j, b) && IsSeam(ns, k)
    ensures k < i ==> IsSeam(bs, k) && bs[k].fpos == ns[k].fpos
    ensures k == i ==> ns[k].fpos in SeamBefore(bs, i, b.fpos)
    ensures k == i + 1 ==> ns[k].fpos in SeamAfter(bs, j, b.End())
    ensures i + 1 < k ==> IsSeam(bs, k - i - 1 + j) && bs[k - i - 1 + j].fpos == ns[k].fpos
  {
    SpliceAt(bs, i, j, b);
    hide Splice;
  }

  /** Where a seam of a list goes that is spliced. */
  lemma {:induction false} SeamIntoSplice(bs: seq<Block>, i: nat, j: nat, b: Block, ns: seq<Block>, k: nat)
    requires i <= j <= |bs| && ns == Splice(bs, i, j, b) && IsSeam(bs, k)
    ensures k < i ==> IsSeam(ns, k) && ns[k].fpos == bs[k].fpos
    ensures j < k ==> IsSeam(ns, k - j + i + 1) && ns[k - j + i + 1].fpos == bs[k].fpos
  {
    SpliceAt(bs, i, j, b);
    assert |ns| == i + 1 + |bs| - j;
    hide Splice;
  }

  lemma {:induction false} EndsIntoSplice(bs: seq<Block>, i: nat, j: nat, b: Block, ns: seq<Block>)
    requires i <= j <= |bs| && ns == Splice(bs, i, j, b)
    ensures forall s :: s in SeamBefore(bs, i, b.fpos) ==> IsSeam(ns, i) && ns[i].fpos == s
    ensures forall s :: s in SeamAfter(bs, j, b.End()) ==> IsSeam(ns, i + 1) && ns[i + 1].fpos == s
  {
    SpliceAt(bs, i, j, b);
    assert |ns| == i + 1 + |bs| - j;
    hide Splice;
  }

  lemma {:induction false} SpliceSeams(bs: seq<Block>, i: nat, j: nat, b: Block)
    requires i <= j <= |bs|
    ensures SeamsOf(Splice(bs, i, j, b)) ==
            SeamsIn(bs, 0, i) + SeamBefore(bs, i, b.fpos) + SeamAfter(bs, j, b.End()) + SeamsIn(bs, j, |bs|)
  {
    var ns := Splice(bs, i, j, b);
    var kept := SeamsIn(bs, 0, i) + SeamBefore(bs, i, b.fpos) + SeamAfter(bs, j, b.End()) + SeamsIn(bs, j, |bs|);
    EndsIntoSplice(bs, i, j, b, ns);
    hide Splice, SeamBefore, SeamAfter;
    forall s | s in SeamsOf(ns)
      ensures s in kept
    {
      var k :| 0 < k < |ns| && IsSeam(ns, k) && ns[k].fpos == s;
      SeamOfSplice(bs, i, j, b, ns, k);
    }
    forall s | s in SeamsIn(bs, 0, i) + SeamsIn(bs, j, |bs|)
      ensures s in SeamsOf(ns)
    {
      var k :| 0 < k < |bs| && (k < i || j < k) && IsSeam(bs, k) && bs[k].fpos == s;
      SeamIntoSplice(bs, i, j, b, ns, k);
    }
  }

  /** The seams before, at and after index i. */
  lemma {:induction false} SeamsAround(bs: seq<Block>, i: nat)
    requires i < |bs|
    ensures SeamsOf(bs) == SeamsIn(bs, 0, i) + SeamBefore(bs, i, bs[i].fpos) + SeamsIn(bs, i, |bs|)
    ensures i + 1 < |bs| ==> SeamsIn(bs, i, |bs|) == SeamAfter(bs, i + 1, bs[i].End()) + SeamsIn(bs, i + 1, |bs|)
    ensures i + 1 == |bs| ==> SeamsIn(bs, i, |bs|) == {}
  {
    forall s
      ensures s in SeamsOf(bs) <==> s in SeamsIn(bs, 0, i) + SeamBefore(bs, i, bs[i].fpos) + SeamsIn(bs, i, |bs|)
    {
      if s in SeamBefore(bs, i, bs[i].fpos) {
        assert IsSeam(bs, i);
      }
    }
    if i + 1 < |bs| {
      forall s
        ensures s in SeamsIn(bs, i, |bs|) <==> s in SeamAfter(bs, i + 1, bs[i].End()) + SeamsIn(bs, i + 1, |bs|)
      {
        if s in SeamAfter(bs, i + 1, bs[i].End()) {
          assert IsSeam(bs, i + 1);
        }
      }
    }
  }

  ghost function Without(seams: set<nat>, lo: nat, hi: nat): set<nat> {
    set s | s in seams && !(lo < s < hi)
  }

  /** Block b starts where block i did, or in front of all, ends where block j - 1 did or short of block
      j, and the seams among the blocks i up to j are those between lo and hi. */
  ghost predicate Absorbs(bs: seq<Block>, i: nat, j: nat, b: Block, lo: nat, hi: nat) {
    && i < j <= |bs|
    && (i > 0 ==> b.fpos == bs[i].fpos)
    && (forall k :: 0 < k <= i ==> bs[k].fpos <= lo)
    && (forall k :: i < k < j && IsSeam(bs, k) ==> lo < bs[k].fpos < hi)
    && (forall k :: j <= k < |bs| ==> hi <= bs[k].fpos)
    && (j < |bs| ==> (b.End() == bs[j].fpos <==> bs[j - 1].End() == bs[j].fpos))
  }

  lemma {:induction false} AbsorbsKeeps(bs: seq<Block>, i: nat, j: nat, b: Block, lo: nat, hi: nat, k: nat)
    requires Absorbs(bs, i, j, b, lo, hi) && IsSeam(bs, k)
    ensures lo < bs[k].fpos < hi <==> i < k < j
    ensures k == i ==> bs[k].fpos in SeamBefore(bs, i, b.fpos)
    ensures k == j ==> bs[k].fpos in SeamAfter(bs, j, b.End())
    ensures k < i ==> bs[k].fpos in SeamsIn(bs, 0, i)
    ensures j < k ==> bs[k].fpos in SeamsIn(bs, j, |bs|)
  {
  }

  lemma {:induction false} AbsorbsEnds(bs: seq<Block>, i: nat, j: nat, b: Block, lo: nat, hi: nat)
    requires Absorbs(bs, i, j, b, lo, hi)
    ensures forall s :: s in SeamBefore(bs, i, b.fpos) ==> IsSeam(bs, i) && s == bs[i].fpos
    ensures forall s :: s in SeamAfter(bs, j, b.End()) ==> IsSeam(bs, j) && s == bs[j].fpos
  {
  }

  /** The seams when the blocks i up to j are replaced by b. */
  lemma {:induction false} GrowSeams(bs: seq<Block>, i: nat, j: nat, b: Block, lo: nat, hi: nat)
    requires Absorbs(bs, i, j, b, lo, hi)
    ensures i <= j <= |bs| && SeamsOf(Splice(bs, i, j, b)) == Without(SeamsOf(bs), lo, hi)
  {
    assert i < j <= |bs|;
    SpliceSeams(bs, i, j, b);
    AbsorbsEnds(bs, i, j, b, lo, hi);
    var kept := SeamsIn(bs, 0, i) + SeamBefore(bs, i, b.fpos) + SeamAfter(bs, j, b.End()) + SeamsIn(bs, j, |bs|);
    hide Splice, Absorbs, IsSeam, SeamBefore, SeamAfter;
    forall s | s in Without(SeamsOf(bs), lo, hi)
      ensures s in kept
    {
      var k :| 0 < k < |bs| && IsSeam(bs, k) && bs[k].fpos == s;
      AbsorbsKeeps(bs, i, j, b, lo, hi, k);
    }
    forall s | s in kept
      ensures s in Without(SeamsOf(bs), lo, hi)
    {
      var k :| 0 < k < |bs| && (k <= i || j <= k) && IsSeam(bs, k) && bs[k].fpos == s;
      AbsorbsKeeps(bs, i, j, b, lo, hi, k);
    }
  }

  lemma {:induction false} InsideAbsorbs(bs: seq<Block>, u: nat, b: Block, fpos: nat, e: nat)
    requires Disjoint(bs) && 0 < u <= |bs| && u == UpperBound(bs, fpos) && fpos <= e <= bs[u - 1].End()
    requires b.fpos == bs[u - 1].fpos && b.data == bs[u - 1].data
    ensures Absorbs(bs, u - 1, u, b, fpos, e)
  {
    UpperBoundSplits(bs, fpos, u);
    hide UpperBound;
  }

  /** No seam lies at the end of an appending write, or behind it, among the blocks absorbed. */
  lemma {:induction false} ReachedSeam(bs: seq<Block>, u: nat, j: nat, fpos: nat, e: nat, k: nat)
    requires Disjoint(bs) && u == UpperBound(bs, fpos) && j == ReachFromBase(bs, e)
    requires u <= k < j && IsSeam(bs, k)
    ensures fpos < bs[k].fpos < e
  {
    var v := UpperBound(bs, e);
    UpperBoundSplits(bs, fpos, u);
    UpperBoundSplits(bs, e, v);
    hide UpperBound;
    if k < v - 1 {
      assert bs[k].End() <= bs[v - 1].fpos;
    }
  }

  lemma {:induction false} ReachStops(bs: seq<Block>, i: nat, j: nat, e: nat)
    requires Disjoint(bs) && i < |bs| && bs[i].End() < e && j == ReachFromBase(bs, e)
    ensures i < j && bs[j - 1].fpos <= e
    ensures forall k :: j <= k < |bs| ==> e <= bs[k].fpos
    ensures j < |bs| && bs[j].fpos == e ==> bs[j - 1].End() == e
  {
    UpperBoundSplits(bs, e, UpperBound(bs, e));
    hide UpperBound;
  }

  lemma {:induction false} AbsorbsIf(bs: seq<Block>, i: nat, j: nat, b: Block, lo: nat, hi: nat)
    requires Disjoint(bs) && i < j <= |bs| && b.fpos == bs[i].fpos
    requires forall k :: 0 <= k <= i ==> bs[k].fpos <= lo
    requires forall k :: i < k < j && IsSeam(bs, k) ==> lo < bs[k].fpos < hi
    requires forall k :: j <= k < |bs| ==> hi <= bs[k].fpos
    requires b.End() == if hi < bs[j - 1].End() then bs[j - 1].End() else hi
    requires j < |bs| && bs[j].fpos == hi ==> bs[j - 1].End() == hi
    ensures Absorbs(bs, i, j, b, lo, hi)
  {
    assert j < |bs| ==> bs[j - 1].End() <= bs[j].fpos;
  }

  lemma {:induction false} AppendAbsorbs(bs: seq<Block>, u: nat, j: nat, fpos: nat, data: seq<Byte>, touch: nat)
    requires Disjoint(bs) && 0 < u <= |bs| && u == UpperBound(bs, fpos)
    requires bs[u - 1].fpos <= fpos <= bs[u - 1].End() < fpos + |data| && j == ReachFromBase(bs, fpos + |data|)
    ensures Absorbs(bs, u - 1, j, Appended(bs, u - 1, j, fpos, data, touch), fpos, fpos + |data|)
  {
    hide *;
    var e := fpos + |data|;
    ReachStops(bs, u - 1, j, e);
    EndsWithTail(bs, j, e);
    AppendedEnd(bs, u - 1, j, fpos, data, touch);
    UpperBoundSplits(bs, fpos, u);
    forall k | u - 1 < k < j && IsSeam(bs, k)
      ensures fpos < bs[k].fpos < e
    {
      ReachedSeam(bs, u, j, fpos, e, k);
    }
    AbsorbsIf(bs, u - 1, j, Appended(bs, u - 1, j, fpos, data, touch), fpos, e);
  }

  lemma {:induction false} AppendedEnd(bs: seq<Block>, i: nat, j: nat, fpos: nat, data: seq<Byte>, touch: nat)
    requires i < |bs| && j <= |bs| && fpos <= bs[i].End() <= fpos + |data|
    ensures Appended(bs, i, j, fpos, data, touch).fpos == bs[i].fpos
    ensures Appended(bs, i, j, fpos, data, touch).End() == fpos + |data| + |TailFrom(bs, j, fpos + |data|)|
  {
  }

  /** The tail ends where the last block absorbed does, if that sticks out. */
  lemma {:induction false} EndsWithTail(bs: seq<Block>, j: nat, e: nat)
    requires 0 < j <= |bs| && bs[j - 1].fpos <= e
    ensures e + |TailFrom(bs, j, e)| == if e < bs[j - 1].End() then bs[j - 1].End() else e
  {
  }

  /** What a block put in front of the others absorbs. */
  lemma {:induction false} PrependAbsorbs(bs: seq<Block>, j: nat, fpos: nat, data: seq<Byte>, touch: nat)
    requires Disjoint(bs) && bs != [] && fpos < bs[0].fpos <= fpos + |data| && j == UpperBound(bs, fpos + |data|)
    ensures Absorbs(bs, 0, j, Prepended(bs, j, fpos, data, touch), fpos, fpos + |data| + 1)
  {
    var e := fpos + |data|;
    UpperBoundSplits(bs, e, j);
    hide UpperBound, TailFrom;
    assert 0 < j && bs[j - 1].fpos <= e;
    EndsWithTail(bs, j, e);
    assert forall k :: 0 <= k < |bs| ==> bs[0].fpos <= bs[k].fpos;
    assert j < |bs| ==> bs[j - 1].End() <= bs[j].fpos;
    assert Prepended(bs, j, fpos, data, touch).End() == e + |TailFrom(bs, j, e)|;
  }

  /** The seams when a block is put into a gap. */
  lemma {:induction false} InsertSeams(bs: seq<Block>, u: nat, b: Block)
    requires u <= |bs|
    requires 0 < u ==> bs[u - 1].End() < b.fpos
    requires 0 < u < |bs| ==> bs[u - 1].End() < bs[u].fpos
    requires u == 0 && bs != [] ==> b.End() < bs[0].fpos
    ensures SeamsOf(Splice(bs, u, u, b)) == SeamsOf(bs) + (if 0 < u then SeamAfter(bs, u, b.End()) else {})
  {
    SpliceSeams(bs, u, u, b);
    if u < |bs| {
      SeamsAround(bs, u);
    } else {
      assert SeamsIn(bs, 0, u) == SeamsOf(bs);
      assert SeamsIn(bs, u, |bs|) == {};
    }
    assert u == 0 ==> SeamsIn(bs, 0, u) == {};
    hide SeamsIn, SeamsOf, Splice;
  }

  /** The seams after a write that overlaps no block it does not look at. */
  ghost function SeamsAfterWrite(held: set<nat>, seams: set<nat>, fpos: nat, len: nat): set<nat> {
    if StartsAtHeld(held, fpos) then Without(seams, fpos, fpos + len)
    else if StartsInGap(held, fpos) then
      if fpos + len in held then seams + {fpos + len} else seams
    else Without(seams, fpos, fpos + len + 1)
  }

  /** A block put into a gap. */
  lemma {:induction false} FreshSeams(bs: seq<Block>, fpos: nat, data: seq<Byte>, touch: nat)
    requires Disjoint(bs) && Keyed(bs) && data != [] && !Overlaps(bs, fpos, |data|)
    requires !HasBase(bs, fpos) && !ReachesFirst(bs, fpos, |data|)
    ensures var u, seams := UpperBound(bs, fpos), SeamsOf(Written(bs, fpos, data, touch));
            if 0 < u then
              seams == if fpos + |data| in Held(bs) then SeamsOf(bs) + {fpos + |data|} else SeamsOf(bs)
            else seams == SeamsOf(bs) == Without(SeamsOf(bs), fpos, fpos + |data| + 1)
  {
    hide SeamsOf, Splice, Keyed, UpperBound, Held;
    var u := UpperBound(bs, fpos);
    UpperBoundSplits(bs, fpos, u);
    InsertSeams(bs, u, Block(fpos, data, touch));
    HeldBehind(bs, fpos, u, fpos + |data|);
    HeldIsInSome(bs, fpos + |data|);
    if u == 0 {
      SeamsStartBlocks(bs);
    }
  }

  lemma {:induction false} SeamsStartBlocks(bs: seq<Block>)
    ensures forall s :: s in SeamsOf(bs) ==> exists k :: 0 <= k < |bs| && bs[k].fpos == s
  {
  }

  /** Whether the byte behind a write into a gap is held. */
  lemma {:induction false} HeldBehind(bs: seq<Block>, fpos: nat, u: nat, e: nat)
    requires Disjoint(bs) && u == UpperBound(bs, fpos) && fpos < e
    requires u > 0 ==> bs[u - 1].End() <= fpos
    requires u < |bs| ==> e <= bs[u].fpos
    ensures InSome(bs, e) <==> u < |bs| && bs[u].fpos == e
  {
    UpperBoundSplits(bs, fpos, u);
    hide UpperBound;
    if InSome(bs, e) {
      var k :| 0 <= k < |bs| && bs[k].Contains(e);
      assert u <= k;
    }
    if u < |bs| && bs[u].fpos == e {
      assert bs[u].Contains(e);
    }
  }

  lemma {:induction false} AppendSeams(bs: seq<Block>, fpos: nat, data: seq<Byte>, touch: nat)
    requires Disjoint(bs) && Keyed(bs) && HasBase(bs, fpos)
    ensures SeamsOf(Written(bs, fpos, data, touch)) == Without(SeamsOf(bs), fpos, fpos + |data|)
  {
    hide Absorbs, UpperBound, Disjoint, Appended, ReachFromBase, Keyed, SeamsOf, Without, Splice;
    var u, b, e := UpperBound(bs, fpos), NewBlock(bs, fpos, data, touch), fpos + |data|;
    if e <= bs[u - 1].End() {
      InsideAbsorbs(bs, u, b, fpos, e);
    } else {
      UpperBoundSplits(bs, fpos, u);
      AppendAbsorbs(bs, u, ReachFromBase(bs, e), fpos, data, touch);
    }
    GrowSeams(bs, u - 1, ReplacedTo(bs, fpos, |data|), b, fpos, e);
  }

  lemma {:induction false} PrependSeams(bs: seq<Block>, fpos: nat, data: seq<Byte>, touch: nat)
    requires Disjoint(bs) && Keyed(bs) && !HasBase(bs, fpos) && ReachesFirst(bs, fpos, |data|)
    ensures SeamsOf(Written(bs, fpos, data, touch)) == Without(SeamsOf(bs), fpos, fpos + |data| + 1)
  {
    UpperBoundSplits(bs, fpos, 0);
    hide Absorbs, UpperBound, Disjoint, Prepended, Keyed, SeamsOf, Without, Splice;
    var j := ReplacedTo(bs, fpos, |data|);
    PrependAbsorbs(bs, j, fpos, data, touch);
    GrowSeams(bs, 0, j, NewBlock(bs, fpos, data, touch), fpos, fpos + |data| + 1);
  }

  /** The positions held and the seams decide the seams after a write: it removes those that it covers,
      and leaves one more exactly when it stops at a block behind the gap it starts in. */
  lemma {:induction false} WriteSeams(bs: seq<Block>, fpos: nat, data: seq<Byte>, touch: nat)
    requires Disjoint(bs) && data != [] && !Overlaps(bs, fpos, |data|)
    ensures Keyed(bs)
    ensures SeamsOf(Written(bs, fpos, data, touch)) == SeamsAfterWrite(Held(bs), SeamsOf(bs), fpos, |data|)
  {
    assert Keyed(bs);
    GapByHeld(bs, fpos, Held(bs));
    BaseByHeld(bs, fpos, Held(bs));
    hide Disjoint, Keyed, Overlaps, Written, SeamsOf, Held, Without, HasBase, StartsAtHeld, StartsInGap, UpperBound;
    if HasBase(bs, fpos) {
      AppendSeams(bs, fpos, data, touch);
    } else if ReachesFirst(bs, fpos, |data|) {
      PrependSeams(bs, fpos, data, touch);
    } else {
      FreshSeams(bs, fpos, data, touch);
    }
  }

  lemma {:induction false} GapByHeld(bs: seq<Block>, fpos: nat, held: set<nat>)
    requires Disjoint(bs) && held == Held(bs)
    ensures !StartsAtHeld(held, fpos) ==> (StartsInGap(held, fpos) <==> UpperBound(bs, fpos) > 0)
  {
    BaseByHeld(bs, fpos, held);
    hide Disjoint, Held, UpperBound, HasBase;
  }
}
