/** The block list of a sparse virtual file and the bytes it holds. */
module Blocks {
  import opened SeekReads

  newtype Byte = x: int | 0 <= x < 256

  /** One entry of the file-position map: its key, its bytes and when it was last touched. */
  datatype Block = Block(fpos: nat, data: seq<Byte>, touch: nat) {
    function End(): nat { fpos + |data| }

    predicate Contains(p: int) { fpos <= p < End() }

    function At(p: int): Byte
      requires Contains(p)
    {
      data[p - fpos]
    }

    function Extent(): SeekRead { SeekRead(fpos, |data|) }
  }

  // ---- Shapes of a block list, weakest first ----

  /** Keys strictly increase, as in any std::map, and no block is empty. */
  ghost predicate Keyed(bs: seq<Block>) {
    && (forall i :: 0 <= i < |bs| ==> |bs[i].data| > 0)
    && forall i, j :: 0 <= i < j < |bs| ==> bs[i].fpos < bs[j].fpos
  }

  /** Keys strictly increase; some block may be empty. */
  ghost predicate KeysIncrease(bs: seq<Block>) {
    forall i, j :: 0 <= i < j < |bs| ==> bs[i].fpos < bs[j].fpos
  }

  /** No position is in two blocks. */
  ghost predicate Disjoint(bs: seq<Block>) {
    && (forall i :: 0 <= i < |bs| ==> |bs[i].data| > 0)
    && forall i, j :: 0 <= i < j < |bs| ==> bs[i].End() <= bs[j].fpos
  }

  /** At least one position lies between any two blocks: every block is a maximal run. */
  ghost predicate Canonical(bs: seq<Block>) {
    && (forall i :: 0 <= i < |bs| ==> |bs[i].data| > 0)
    && forall i, j :: 0 <= i < j < |bs| ==> bs[i].End() < bs[j].fpos
  }

  /** Touches are pairwise distinct and below the counter. */
  ghost predicate Touched(bs: seq<Block>, counter: nat) {
    && (forall i :: 0 <= i < |bs| ==> bs[i].touch < counter)
    && forall i, j :: 0 <= i < j < |bs| ==> bs[i].touch != bs[j].touch
  }

  function Extents(bs: seq<Block>): seq<SeekRead> {
    seq(|bs|, i requires 0 <= i < |bs| => bs[i].Extent())
  }

  /** Positions and bytes, without the touches. */
  function Shape(bs: seq<Block>): seq<(nat, seq<Byte>)> {
    seq(|bs|, i requires 0 <= i < |bs| => (bs[i].fpos, bs[i].data))
  }

  function Sum(bs: seq<Block>): nat {
    if bs == [] then 0 else |bs[0].data| + Sum(bs[1..])
  }

  lemma {:induction false} SumConcat(a: seq<Block>, b: seq<Block>)
    ensures Sum(a + b) == Sum(a) + Sum(b)
  {
    if a == [] {
      assert a + b == b;
    } else {
      SumConcat(a[1..], b);
      assert (a + b)[1..] == a[1..] + b;
    }
  }

  // ---- The bytes held ----

  ghost predicate InSome(bs: seq<Block>, p: int) {
    exists k :: 0 <= k < |bs| && bs[k].Contains(p)
  }

  function Interval(fpos: nat, len: nat): (s: set<nat>)
    ensures forall p :: p in s <==> fpos <= p < fpos + len
    ensures |s| == len
  {
    if len == 0 then {} else Interval(fpos, len - 1) + {fpos + len - 1}
  }

  /** The positions held. */
  ghost function Held(bs: seq<Block>): set<nat> {
    set k, p | 0 <= k < |bs| && p in Interval(bs[k].fpos, |bs[k].data|) :: p
  }

  ghost function ByteAt(bs: seq<Block>, p: int): Byte
    requires InSome(bs, p)
  {
    var k :| 0 <= k < |bs| && bs[k].Contains(p);
    bs[k].At(p)
  }

  lemma {:induction false} HeldIsInSome(bs: seq<Block>, p: nat)
    ensures p in Held(bs) <==> InSome(bs, p)
  {
    if InSome(bs, p) {
      var k :| 0 <= k < |bs| && bs[k].Contains(p);
      assert p in Interval(bs[k].fpos, |bs[k].data|);
    }
  }

  /** Which byte is held where. */
  ghost function Content(bs: seq<Block>): (c: map<nat, Byte>)
    ensures c.Keys == Held(bs)
  {
    map p | p in Held(bs) :: (HeldIsInSome(bs, p); ByteAt(bs, p))
  }

  function BytesFrom(fpos: nat, data: seq<Byte>): map<nat, Byte> {
    map p | p in Interval(fpos, |data|) :: data[p - fpos]
  }

  lemma {:induction false} ContentAt(bs: seq<Block>, k: nat, p: nat, c: map<nat, Byte>)
    requires Disjoint(bs) && k < |bs| && bs[k].Contains(p) && c == Content(bs)
    ensures p in c && c[p] == bs[k].At(p)
  {
    HeldIsInSome(bs, p);
  }

  /** The sum of the block sizes is the number of positions held. */
  lemma {:induction false} SumIsHeld(bs: seq<Block>)
    requires Disjoint(bs)
    ensures Sum(bs) == |Held(bs)|
  {
    if bs == [] {
      assert Held(bs) == {};
    } else {
      SumIsHeld(bs[1..]);
      HeldSplit(bs);
      FirstIsApart(bs);
      DisjointUnionSize(Interval(bs[0].fpos, |bs[0].data|), Held(bs[1..]));
    }
  }

  lemma {:induction false} DisjointUnionSize(a: set<nat>, b: set<nat>)
    requires a !! b
    ensures |a + b| == |a| + |b|
  {
  }

  lemma {:induction false} FirstIsApart(bs: seq<Block>)
    requires Disjoint(bs) && bs != []
    ensures Interval(bs[0].fpos, |bs[0].data|) !! Held(bs[1..])
  {
    forall p | p in Held(bs[1..])
      ensures bs[0].End() <= p
    {
      HeldIsInSome(bs[1..], p);
    }
  }

  lemma {:induction false} HeldSplit(bs: seq<Block>)
    requires bs != []
    ensures Held(bs) == Interval(bs[0].fpos, |bs[0].data|) + Held(bs[1..])
  {
    forall p: nat ensures p in Held(bs) <==> bs[0].Contains(p) || p in Held(bs[1..]) {
      HeldIsInSome(bs, p);
      HeldIsInSome(bs[1..], p);
      assert forall k :: 0 <= k < |bs[1..]| ==> bs[1..][k] == bs[k + 1];
      assert InSome(bs, p) <==> bs[0].Contains(p) || InSome(bs[1..], p) by {
        if InSome(bs, p) {
          var k :| 0 <= k < |bs| && bs[k].Contains(p);
          assert k > 0 ==> bs[1..][k - 1].Contains(p);
        }
      }
    }
  }

  /** Touching a block changes nothing but its touch. */
  lemma {:induction false} TouchKeeps(bs: seq<Block>, k: nat, touch: nat)
    requires k < |bs|
    ensures var ns := bs[k := bs[k].(touch := touch)];
            && Shape(ns) == Shape(bs) && Sum(ns) == Sum(bs)
            && (Keyed(ns) <==> Keyed(bs)) && (Disjoint(ns) <==> Disjoint(bs)) && (Canonical(ns) <==> Canonical(bs))
  {
    var ns := bs[k := bs[k].(touch := touch)];
    assert forall i :: 0 <= i < |bs| ==> ns[i].fpos == bs[i].fpos && ns[i].data == bs[i].data;
    SameShapeSum(bs, ns);
    SameFormsKept(bs, ns);
    SameFormsKept(ns, bs);
    hide Keyed, Disjoint, Canonical, Sum;
  }

  lemma {:induction false} SameFormsKept(a: seq<Block>, b: seq<Block>)
    requires |a| == |b| && forall i :: 0 <= i < |a| ==> a[i].fpos == b[i].fpos && a[i].data == b[i].data
    ensures Keyed(a) ==> Keyed(b)
    ensures Disjoint(a) ==> Disjoint(b)
    ensures Canonical(a) ==> Canonical(b)
  {
  }

  lemma {:induction false} SameShapeSum(a: seq<Block>, b: seq<Block>)
    requires |a| == |b| && forall i :: 0 <= i < |a| ==> a[i].data == b[i].data
    ensures Sum(a) == Sum(b)
  {
    if a != [] {
      SameShapeSum(a[1..], b[1..]);
    }
  }

  lemma {:induction false} ContentFollowsShape(a: seq<Block>, b: seq<Block>)
    requires Disjoint(a) && Shape(a) == Shape(b)
    ensures Disjoint(b) && Content(a) == Content(b)
  {
    assert |a| == |Shape(a)| == |b|;
    forall i | 0 <= i < |a|
      ensures a[i].fpos == b[i].fpos && a[i].data == b[i].data
    {
      assert Shape(a)[i] == Shape(b)[i];
    }
    SameBlocksSameContent(a, b, Content(a), Content(b));
  }

  lemma {:induction false} SameBlocksSameContent(a: seq<Block>, b: seq<Block>, c: map<nat, Byte>, d: map<nat, Byte>)
    requires Disjoint(a) && |a| == |b| && c == Content(a) && d == Content(b)
    requires forall i :: 0 <= i < |a| ==> a[i].fpos == b[i].fpos && a[i].data == b[i].data
    ensures c == d
  {
    forall p: nat
      ensures p in c <==> p in d
      ensures p in c ==> c[p] == d[p]
    {
      SameBlocksSameByte(a, b, c, d, p);
    }
  }

  lemma {:induction false} SameBlocksSameByte(a: seq<Block>, b: seq<Block>, c: map<nat, Byte>, d: map<nat, Byte>,
                                              p: nat)
    requires Disjoint(a) && |a| == |b| && c == Content(a) && d == Content(b)
    requires forall i :: 0 <= i < |a| ==> a[i].fpos == b[i].fpos && a[i].data == b[i].data
    ensures p in c <==> p in d
    ensures p in c ==> c[p] == d[p]
  {
    hide Disjoint, Content, Held;
    SameBlocksHold(a, b, p);
    HeldIsInSome(a, p);
    HeldIsInSome(b, p);
    if InSome(a, p) {
      var k :| 0 <= k < |a| && a[k].Contains(p);
      var fpos, data := a[k].fpos, a[k].data;
      hide InSome;
      ContentIn(a, k, p, c, fpos, data);
      ContentIn(b, k, p, d, fpos, data);
    }
  }

  lemma {:induction false} ContentIn(bs: seq<Block>, k: nat, p: nat, c: map<nat, Byte>, fpos: nat, data: seq<Byte>)
    requires Disjoint(bs) && k < |bs| && bs[k].fpos == fpos && bs[k].data == data && c == Content(bs)
    requires fpos <= p < fpos + |data|
    ensures p in c && c[p] == data[p - fpos]
  {
    hide Disjoint, Content, Held, Interval;
    ContentAt(bs, k, p, c);
  }

  lemma {:induction false} SameBlocksHold(a: seq<Block>, b: seq<Block>, p: int)
    requires |a| == |b|
    requires forall i :: 0 <= i < |a| ==> a[i].fpos == b[i].fpos && a[i].data == b[i].data
    ensures InSome(a, p) <==> InSome(b, p)
    ensures Disjoint(a) ==> Disjoint(b)
  {
    assert forall k :: 0 <= k < |a| ==> (a[k].Contains(p) <==> b[k].Contains(p));
  }

  /** A slice of a block is a slice of the content. */
  lemma {:induction false} SliceIsContent(bs: seq<Block>, k: nat, fpos: nat, len: nat, c: map<nat, Byte>)
    requires Disjoint(bs) && k < |bs| && c == Content(bs)
    requires bs[k].fpos <= fpos && fpos + len <= bs[k].End()
    ensures IsSlice(c, fpos, bs[k].data[fpos - bs[k].fpos..][..len])
  {
    var start, data := bs[k].fpos, bs[k].data;
    var slice := data[fpos - start..][..len];
    assert forall n :: 0 <= n < len ==> slice[n] == data[fpos - start + n];
    BytesAreContent(bs, k, fpos, slice, c);
  }

  lemma {:induction false} BytesAreContent(bs: seq<Block>, k: nat, fpos: nat, bytes: seq<Byte>, c: map<nat, Byte>)
    requires Disjoint(bs) && k < |bs| && c == Content(bs)
    requires bs[k].fpos <= fpos && fpos + |bytes| <= bs[k].End()
    requires forall n :: 0 <= n < |bytes| ==> bytes[n] == bs[k].data[fpos - bs[k].fpos + n]
    ensures IsSlice(c, fpos, bytes)
  {
    hide Disjoint, Content, Held, Interval;
    var start, data := bs[k].fpos, bs[k].data;
    forall p: nat | fpos <= p < fpos + |bytes|
      ensures p in c && bytes[p - fpos] == c[p]
    {
      ContentIn(bs, k, p, c, start, data);
    }
  }

  /** c holds the bytes of slice from fpos on. */
  ghost predicate IsSlice(c: map<nat, Byte>, fpos: nat, slice: seq<Byte>) {
    forall p: nat :: fpos <= p < fpos + |slice| ==> p in c && slice[p - fpos] == c[p]
  }

  // ---- Canonical block lists are the maximal runs of their content ----

  lemma {:induction false} CanonicalExtents(bs: seq<Block>)
    ensures Canonical(bs) <==> Separated(Extents(bs))
    ensures forall p :: Covered(Extents(bs), p) <==> InSome(bs, p)
  {
    var rs := Extents(bs);
    assert forall i :: 0 <= i < |bs| ==> rs[i].End() == bs[i].End() && |bs[i].data| == rs[i].len;
    forall p ensures Covered(rs, p) <==> InSome(bs, p) {
      assert forall i :: 0 <= i < |bs| ==> (rs[i].Contains(p) <==> bs[i].Contains(p));
    }
  }

  /** The positions held decide where every block of a canonical list starts and ends. */
  lemma {:induction false} ExtentsFollowHeld(a: seq<Block>, b: seq<Block>)
    requires Canonical(a) && Canonical(b) && Held(a) == Held(b)
    ensures Extents(a) == Extents(b)
  {
    CanonicalExtents(a);
    CanonicalExtents(b);
    forall p ensures Covered(Extents(a), p) <==> Covered(Extents(b), p) {
      if 0 <= p {
        HeldIsInSome(a, p);
        HeldIsInSome(b, p);
      }
    }
    SeparatedIsUnique(Extents(a), Extents(b));
  }

  /** Content alone decides a canonical list up to touches. */
  lemma {:induction false} ShapeFollowsContent(a: seq<Block>, b: seq<Block>)
    requires Canonical(a) && Canonical(b) && Content(a) == Content(b)
    ensures Shape(a) == Shape(b)
  {
    ExtentsFollowHeld(a, b);
    assert |a| == |Extents(a)| == |b|;
    forall i | 0 <= i < |a|
      ensures a[i].fpos == b[i].fpos && a[i].data == b[i].data
    {
      assert Extents(a)[i] == Extents(b)[i];
      SameBytes(a, b, i, Content(a));
    }
  }

  lemma {:induction false} SameBytes(a: seq<Block>, b: seq<Block>, i: nat, c: map<nat, Byte>)
    requires Disjoint(a) && Disjoint(b) && c == Content(a) && c == Content(b)
    requires i < |a| && i < |b| && a[i].fpos == b[i].fpos && |a[i].data| == |b[i].data|
    ensures a[i].data == b[i].data
  {
    forall n | 0 <= n < |a[i].data|
      ensures a[i].data[n] == b[i].data[n]
    {
      SameByte(a, b, i, n, c);
    }
  }

  lemma {:induction false} SameByte(a: seq<Block>, b: seq<Block>, i: nat, n: nat, c: map<nat, Byte>)
    requires Disjoint(a) && Disjoint(b) && c == Content(a) && c == Content(b)
    requires i < |a| && i < |b| && a[i].fpos == b[i].fpos
    requires n < |a[i].data| && n < |b[i].data|
    ensures a[i].data[n] == b[i].data[n]
  {
    var p := a[i].fpos + n;
    ContentAt(a, i, p, c);
    ContentAt(b, i, p, c);
  }

  lemma {:induction false} NeighboursAreFree(bs: seq<Block>, k: nat)
    requires Canonical(bs) && k < |bs|
    ensures bs[k].End() !in Held(bs)
    ensures bs[k].fpos == 0 || bs[k].fpos - 1 !in Held(bs)
  {
    forall m, p: nat | 0 <= m < |bs| && (p == bs[k].fpos - 1 || p == bs[k].End())
      ensures !bs[m].Contains(p)
    {
      assert m < k ==> bs[m].End() < bs[k].fpos;
      assert k < m ==> bs[k].End() < bs[m].fpos;
    }
    HeldIsInSome(bs, bs[k].End());
    if bs[k].fpos > 0 {
      HeldIsInSome(bs, bs[k].fpos - 1);
    }
  }

  /** A canonical block list is exactly the list of maximal runs of held positions. */
  lemma {:induction false} CanonicalIsMaximalRuns(bs: seq<Block>, fpos: nat, len: nat)
    requires Canonical(bs) && len > 0
    ensures SeekRead(fpos, len) in Extents(bs) <==> IsMaximalRun(Held(bs), fpos, len)
  {
    if SeekRead(fpos, len) in Extents(bs) {
      var k :| 0 <= k < |bs| && Extents(bs)[k] == SeekRead(fpos, len);
      BlockIsMaximalRun(bs, k, Held(bs));
    }
    if IsMaximalRun(Held(bs), fpos, len) {
      MaximalRunIsBlock(bs, fpos, len, Held(bs));
    }
  }

  ghost predicate IsMaximalRun(held: set<nat>, fpos: nat, len: nat) {
    && Interval(fpos, len) <= held
    && fpos + len !in held
    && (fpos == 0 || fpos - 1 !in held)
  }

  lemma {:induction false} BlockIsMaximalRun(bs: seq<Block>, k: nat, held: set<nat>)
    requires Canonical(bs) && held == Held(bs) && k < |bs|
    ensures IsMaximalRun(held, bs[k].fpos, |bs[k].data|)
  {
    NeighboursAreFree(bs, k);
    forall p | p in Interval(bs[k].fpos, |bs[k].data|)
      ensures p in held
    {
      assert bs[k].Contains(p);
      HeldIsInSome(bs, p);
    }
  }

  lemma {:induction false} MaximalRunIsBlock(bs: seq<Block>, fpos: nat, len: nat, held: set<nat>)
    requires Canonical(bs) && held == Held(bs)
    requires len > 0 && IsMaximalRun(held, fpos, len)
    ensures SeekRead(fpos, len) in Extents(bs)
  {
    assert fpos in Interval(fpos, len);
    HeldIsInSome(bs, fpos);
    var k :| 0 <= k < |bs| && bs[k].Contains(fpos);
    BlockIsMaximalRun(bs, k, held);
    MaximalRunsAgree(held, bs[k].fpos, |bs[k].data|, fpos, len);
    assert Extents(bs)[k] == SeekRead(fpos, len);
  }

  lemma {:induction false} MaximalRunsAgree(held: set<nat>, f1: nat, len1: nat, f2: nat, len2: nat)
    requires IsMaximalRun(held, f1, len1) && IsMaximalRun(held, f2, len2)
    requires f1 <= f2 < f1 + len1 && len2 > 0
    ensures f1 == f2 && len1 == len2
  {
    var p := f2 - 1;
    assert p !in Interval(f1, len1);
    var e1, e2 := f1 + len1, f2 + len2;
    assert e1 !in Interval(f2, len2) && e2 !in Interval(f1, len1);
  }

  // ---- std::map searches ----

  /** How many blocks start at or before p. */
  function UpperBound(bs: seq<Block>, p: int): (u: nat)
    ensures u <= |bs|
    ensures Keyed(bs) ==> forall i :: 0 <= i < u ==> bs[i].fpos <= p
    ensures forall i :: u <= i < |bs| ==> p < bs[i].fpos
  {
    if bs == [] then 0
    else if bs[|bs| - 1].fpos <= p then |bs|
    else
      var before := bs[..|bs| - 1];
      assert forall i :: 0 <= i < |before| ==> before[i] == bs[i];
      UpperBound(before, p)
  }

  lemma {:induction false} UpperBoundIs(bs: seq<Block>, p: int, u: nat)
    requires Keyed(bs) && u <= |bs|
    requires u > 0 ==> bs[u - 1].fpos <= p
    requires u < |bs| ==> p < bs[u].fpos
    ensures UpperBound(bs, p) == u
  {
  }

  /** How many blocks start before p. */
  function LowerBound(bs: seq<Block>, p: int): (u: nat)
    ensures u <= |bs|
    ensures Keyed(bs) ==> forall i :: 0 <= i < u ==> bs[i].fpos < p
    ensures forall i :: u <= i < |bs| ==> p <= bs[i].fpos
  {
    UpperBound(bs, p - 1)
  }

  /** The block at p, or before it, is the one that both searches lead to. */
  lemma {:induction false} LowerMeetsUpper(bs: seq<Block>, p: int)
    requires Keyed(bs) && bs != []
    ensures var l, u := LowerBound(bs, p), UpperBound(bs, p);
            && l <= |bs| && u <= |bs|
            && (if l < |bs| && bs[l].fpos == p then u == l + 1 else u == l)
            && (u > 0 ==> bs[u - 1].fpos <= p) && (u == 0 <==> p < bs[0].fpos)
  {
    var l := LowerBound(bs, p);
    if l < |bs| && bs[l].fpos == p {
      UpperBoundIs(bs, p, l + 1);
    } else {
      UpperBoundIs(bs, p, l);
    }
  }
}
