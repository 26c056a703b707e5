/** Files in which one write made blocks overlap: one more block beside disjoint ones. */
module Overlapping {
  import opened SeekReads
  import opened Blocks
  import opened Writes
  import opened Walks
  import opened Seams
  import opened Demands
  import opened Runs
  import opened Forecasts

  ghost function WithoutBlock(bs: seq<Block>, u: nat): seq<Block>
    requires u < |bs|
  {
    bs[..u] + bs[u + 1..]
  }

  /** Block u lies at w beside disjoint blocks that make up cache c. */
  ghost predicate BesideAt(bs: seq<Block>, u: nat, c: Cache, w: SeekRead) {
    && u < |bs| && bs[u].Extent() == w
    && Disjoint(WithoutBlock(bs, u)) && CacheOf(WithoutBlock(bs, u)) == c
  }

  ghost predicate Beside(bs: seq<Block>, c: Cache, w: SeekRead) {
    Keyed(bs) && exists u: nat :: BesideAt(bs, u, c, w)
  }

  /** What a write that makes blocks overlap leaves. */
  lemma {:induction false} OverlapIsBeside(bs: seq<Block>, w: SeekRead, file: nat -> Byte, touch: nat)
    requires Disjoint(bs) && BlocksBacked(bs, file) && w.len > 0 && Overlaps(bs, w.fpos, w.len)
    ensures Keyed(bs)
    ensures var ns := Written(bs, w.fpos, Slice(file, w.fpos, w.len), touch);
            Beside(ns, CacheOf(bs), w) && BlocksBacked(ns, file)
  {
    hide Disjoint, BlocksBacked, BlockBacked, Overlaps, Keyed, Written, Splice, Beside, CacheOf, UpperBound, Slice;
    var u, b := UpperBound(bs, w.fpos), Block(w.fpos, Slice(file, w.fpos, w.len), touch);
    WrittenIsKeyed(bs, w.fpos, b.data, touch);
    OverlapIsInserted(bs, w.fpos, b.data, touch);
    InsertedBeside(bs, u, b);
    SliceIsBacked(file, w.fpos, w.len, touch);
    InsertedBacked(bs, u, b, file);
  }

  lemma {:induction false} SliceIsBacked(file: nat -> Byte, fpos: nat, len: nat, touch: nat)
    ensures BlockBacked(Block(fpos, Slice(file, fpos, len), touch), file)
  {
  }

  lemma {:induction false} InsertedBacked(bs: seq<Block>, u: nat, b: Block, file: nat -> Byte)
    requires u <= |bs| && BlocksBacked(bs, file) && BlockBacked(b, file)
    ensures BlocksBacked(Splice(bs, u, u, b), file)
  {
    hide BlockBacked;
    SpliceAt(bs, u, u, b);
  }

  lemma {:induction false} InsertedBeside(bs: seq<Block>, u: nat, b: Block)
    requires Disjoint(bs) && u <= |bs| && Keyed(Splice(bs, u, u, b))
    ensures Beside(Splice(bs, u, u, b), CacheOf(bs), b.Extent())
  {
    hide CacheOf, Disjoint, Keyed;
    var ns := Splice(bs, u, u, b);
    assert WithoutBlock(ns, u) == bs;
    assert BesideAt(ns, u, CacheOf(bs), b.Extent());
  }

  lemma {:induction false} OverlapIsInserted(bs: seq<Block>, fpos: nat, data: seq<Byte>, touch: nat)
    requires Keyed(bs) && Overlaps(bs, fpos, |data|)
    ensures UpperBound(bs, fpos) <= |bs|
    ensures var u := UpperBound(bs, fpos);
            Written(bs, fpos, data, touch) == Splice(bs, u, u, Block(fpos, data, touch))
  {
  }

  /** The last block that starts at or before fpos spans the request. */
  predicate LastSpans(bs: seq<Block>, fpos: nat, len: nat) {
    var u := UpperBound(bs, fpos);
    u > 0 && bs[u - 1].fpos <= fpos && fpos + len <= bs[u - 1].End()
  }

  lemma {:induction false} LastIsSpanned(bs: seq<Block>, fpos: nat, len: nat)
    requires Disjoint(bs) && len > 0
    ensures LastSpans(bs, fpos, len) <==> Spanned(bs, fpos, len)
  {
    UpperBoundSplits(bs, fpos, UpperBound(bs, fpos));
    hide UpperBound;
    if k :| 0 <= k < |bs| && bs[k].fpos <= fpos && fpos + len <= bs[k].End() {
      assert k < UpperBound(bs, fpos);
    }
  }

  /** Where blocks start can be read off the cache. */
  lemma {:induction false} StartsByCache(bs: seq<Block>, s: nat)
    requires Disjoint(bs)
    ensures StartsBlock(CacheOf(bs), s) <==> exists k :: 0 <= k < |bs| && bs[k].fpos == s
  {
    var held, seams := Held(bs), SeamsOf(bs);
    hide Held;
    if k :| 0 <= k < |bs| && bs[k].fpos == s {
      BlockIsHeld(bs, k, held);
      if s > 0 && s - 1 in held {
        HeldIsInSome(bs, s - 1);
        var m :| 0 <= m < |bs| && bs[m].Contains(s - 1);
        assert m < k && bs[m].End() == s;
        assert bs[k].Contains(s);
        EndIsSeamOrFree(bs, m);
      }
    }
    if s in held && (s == 0 || s - 1 !in held) {
      HeldIsInSome(bs, s);
      var k :| 0 <= k < |bs| && bs[k].Contains(s);
      BlockIsHeld(bs, k, held);
      assert !bs[k].Contains(s - 1);
    }
  }

  lemma {:induction false} WithoutAt(bs: seq<Block>, u: nat, k: nat)
    requires u < |bs| && k < |bs| && k != u
    ensures var m := if k < u then k else k - 1;
            m < |WithoutBlock(bs, u)| && WithoutBlock(bs, u)[m] == bs[k]
  {
  }

  lemma {:induction false} WithoutFrom(bs: seq<Block>, u: nat, m: nat)
    requires u < |bs| && m < |WithoutBlock(bs, u)|
    ensures var k := if m < u then m else m + 1;
            k < |bs| && k != u && WithoutBlock(bs, u)[m] == bs[k]
  {
  }

  /** The last block that starts at or before a demand is the one beside just when no other starts between
      them. */
  lemma {:induction false} LastIsBeside(bs: seq<Block>, u: nat, c: Cache, w: SeekRead, fpos: nat)
    requires Keyed(bs) && BesideAt(bs, u, c, w)
    ensures UpperBound(bs, fpos) == u + 1 <==>
            w.fpos <= fpos && forall s :: w.fpos < s <= fpos ==> !StartsBlock(c, s)
  {
    hide CacheOf, StartsBlock, Disjoint, UpperBound, WithoutBlock;
    var v, rest := UpperBound(bs, fpos), WithoutBlock(bs, u);
    if v == u + 1 {
      forall s | w.fpos < s <= fpos
        ensures !StartsBlock(c, s)
      {
        StartsByCache(rest, s);
        forall m | 0 <= m < |rest|
          ensures rest[m].fpos != s
        {
          WithoutFrom(bs, u, m);
          assert m < u ==> bs[m].fpos < bs[u].fpos;
        }
      }
    } else if w.fpos <= fpos {
      assert u + 1 < v;
      WithoutAt(bs, u, u + 1);
      StartsByCache(rest, bs[u + 1].fpos);
      assert rest[u].fpos == bs[u + 1].fpos && StartsBlock(c, bs[u + 1].fpos);
    }
  }

  /** Where a search among the other blocks leads. */
  lemma {:induction false} SearchOther(bs: seq<Block>, u: nat, fpos: nat)
    requires Keyed(bs) && u < |bs| && Keyed(WithoutBlock(bs, u)) && UpperBound(bs, fpos) != u + 1
    ensures var v := UpperBound(bs, fpos);
            UpperBound(WithoutBlock(bs, u), fpos) == if v <= u then v else v - 1
  {
    var v, rest := UpperBound(bs, fpos), WithoutBlock(bs, u);
    var m: nat := if v <= u then v else v - 1;
    assert m <= |rest|;
    if m > 0 {
      WithoutAt(bs, u, v - 1);
    }
    if m < |rest| {
      WithoutFrom(bs, u, m);
    }
    hide UpperBound, Keyed, WithoutBlock;
    UpperBoundIs(rest, fpos, m);
  }

  /** Away from the block beside, a search leads to the same block. */
  lemma {:induction false} LastIsOther(bs: seq<Block>, u: nat, fpos: nat, len: nat)
    requires Keyed(bs) && u < |bs| && Keyed(WithoutBlock(bs, u)) && UpperBound(bs, fpos) != u + 1
    ensures LastSpans(bs, fpos, len) <==> LastSpans(WithoutBlock(bs, u), fpos, len)
  {
    hide UpperBound, Keyed, WithoutBlock, LastSpans;
    SearchOther(bs, u, fpos);
    if UpperBound(bs, fpos) > 0 {
      WithoutAt(bs, u, UpperBound(bs, fpos) - 1);
    }
    SameSpan(bs, WithoutBlock(bs, u), fpos, len);
  }

  lemma {:induction false} SameSpan(a: seq<Block>, b: seq<Block>, fpos: nat, len: nat)
    requires UpperBound(a, fpos) > 0 <==> UpperBound(b, fpos) > 0
    requires UpperBound(a, fpos) > 0 ==> a[UpperBound(a, fpos) - 1] == b[UpperBound(b, fpos) - 1]
    ensures LastSpans(a, fpos, len) <==> LastSpans(b, fpos, len)
  {
    hide UpperBound;
  }

  /** What has() says of a file with a block beside. */
  lemma {:induction false} HitMeansBeside(bs: seq<Block>, c: Cache, w: SeekRead, d: SeekRead)
    requires Beside(bs, c, w) && d.len > 0
    ensures LastSpans(bs, d.fpos, d.len) <==> HitsBeside(c, w, d)
  {
    var u: nat :| BesideAt(bs, u, c, w);
    var rest := WithoutBlock(bs, u);
    LastIsBeside(bs, u, c, w, d.fpos);
    assert Keyed(rest);
    hide CacheOf, StartsBlock, Hits, UpperBound, Keyed, Disjoint;
    if UpperBound(bs, d.fpos) != u + 1 {
      hide BesideAt, WithoutBlock;
      LastIsOther(bs, u, d.fpos, d.len);
      LastIsSpanned(rest, d.fpos, d.len);
      HitMeansHeld(rest, d);
    }
  }

  lemma {:induction false} HitMeansHeld(bs: seq<Block>, d: SeekRead)
    requires Disjoint(bs) && d.len > 0
    ensures Spanned(bs, d.fpos, d.len) <==> Hits(CacheOf(bs), d)
  {
    hide Held, SeamsOf, Disjoint, Spanned, InSome;
    SpannedMeansHeld(bs, d.fpos, d.len);
    forall p: nat ensures p in Held(bs) <==> InSome(bs, p) {
      HeldIsInSome(bs, p);
    }
  }

  /** A demand that starts where the block beside does and is no longer is a hit. */
  lemma {:induction false} JustWrittenHits(c: Cache, d: SeekRead, greedy: nat)
    requires d.len <= greedy
    ensures HitsBeside(c, SeekRead(d.fpos, greedy), d)
  {
  }

  /** Touching a block keeps all that. */
  lemma {:induction false} TouchedBeside(bs: seq<Block>, k: nat, touch: nat, c: Cache, w: SeekRead, file: nat -> Byte)
    requires Beside(bs, c, w) && BlocksBacked(bs, file) && k < |bs|
    ensures var ns := bs[k := bs[k].(touch := touch)];
            Beside(ns, c, w) && BlocksBacked(ns, file)
  {
    var ns := bs[k := bs[k].(touch := touch)];
    TouchKeeps(bs, k, touch);
    TouchedBacked(bs, k, touch, file);
    hide Keyed, Disjoint, BlocksBacked, BesideAt, Canonical, Shape, Sum;
    var u: nat :| BesideAt(bs, u, c, w);
    TouchedAt(bs, k, touch, u, c, w);
  }

  lemma {:induction false} TouchedAt(bs: seq<Block>, k: nat, touch: nat, u: nat, c: Cache, w: SeekRead)
    requires BesideAt(bs, u, c, w) && k < |bs|
    ensures BesideAt(bs[k := bs[k].(touch := touch)], u, c, w)
  {
    var ns := bs[k := bs[k].(touch := touch)];
    assert forall i :: 0 <= i < |bs| ==> ns[i].fpos == bs[i].fpos && ns[i].data == bs[i].data;
    hide Disjoint, CacheOf, WithoutBlock;
    SameForms(bs, ns, u);
  }

  lemma {:induction false} TouchedBacked(bs: seq<Block>, k: nat, touch: nat, file: nat -> Byte)
    requires BlocksBacked(bs, file) && k < |bs|
    ensures BlocksBacked(bs[k := bs[k].(touch := touch)], file)
  {
    assert BlockBacked(bs[k], file);
    assert BlockBacked(bs[k].(touch := touch), file);
    hide BlockBacked;
  }

  lemma {:induction false} SameForms(a: seq<Block>, b: seq<Block>, u: nat)
    requires |a| == |b| && u < |a| && Disjoint(WithoutBlock(a, u))
    requires forall i :: 0 <= i < |a| ==> a[i].fpos == b[i].fpos && a[i].data == b[i].data
    ensures Disjoint(WithoutBlock(b, u)) && CacheOf(WithoutBlock(b, u)) == CacheOf(WithoutBlock(a, u))
  {
    var x, y := WithoutBlock(a, u), WithoutBlock(b, u);
    assert forall i :: 0 <= i < |x| ==> x[i].fpos == y[i].fpos && x[i].data == y[i].data;
    hide WithoutBlock;
    assert Shape(x) == Shape(y);
    SameFormsKept(x, y);
    SeamsFollowShape(x, y);
    SameShapeHeld(x, y);
  }

  lemma {:induction false} SameShapeHeld(a: seq<Block>, b: seq<Block>)
    requires |a| == |b| && forall i :: 0 <= i < |a| ==> a[i].fpos == b[i].fpos && a[i].data == b[i].data
    ensures Held(a) == Held(b)
  {
    forall p: nat ensures p in Held(a) <==> p in Held(b) {
      HeldIsInSome(a, p);
      HeldIsInSome(b, p);
      SameBlocksHold(a, b, p);
    }
  }

  /** The byte count beside. */
  lemma {:induction false} BesideSum(bs: seq<Block>, c: Cache, w: SeekRead)
    requires Beside(bs, c, w)
    ensures Sum(bs) == |c.held| + w.len
  {
    var u: nat :| BesideAt(bs, u, c, w);
    assert u < |bs| && bs == bs[..u] + ([bs[u]] + bs[u + 1..]);
    SumConcat(bs[..u], [bs[u]] + bs[u + 1..]);
    SumConcat([bs[u]], bs[u + 1..]);
    SumConcat(bs[..u], bs[u + 1..]);
    SumIsHeld(WithoutBlock(bs, u));
  }

  /** A part of a backed block is a part of the file. */
  lemma {:induction false} BackedPart(b: Block, file: nat -> Byte, fpos: nat, len: nat)
    requires BlockBacked(b, file) && b.fpos <= fpos && fpos + len <= b.End()
    ensures b.data[fpos - b.fpos..][..len] == Slice(file, fpos, len)
  {
    var part := b.data[fpos - b.fpos..][..len];
    forall n | 0 <= n < |part|
      ensures part[n] == file(fpos + n)
    {
      assert b.Contains(fpos + n) && b.At(fpos + n) == file(fpos + n);
    }
  }

  /** Blocks of 32 bytes at 0 and 100, then one of 32 bytes written at 90, and then the 16 bytes at 154 that
      need() asks for when 80 bytes at 90 are demanded: the demand still misses. */
  lemma {:induction false} MisledDemandFails(bs: seq<Block>, data: seq<Byte>, more: seq<Byte>)
    requires Disjoint(bs) && |bs| == 2 && bs[0].Extent() == SeekRead(0, 32) && bs[1].Extent() == SeekRead(100, 32)
    requires |data| == 32 && |more| == 16
    ensures Keyed(bs) && Overlaps(bs, 90, 32)
    ensures var ns := Written(bs, 90, data, 2);
            && Keyed(ns) && ns != [] && Walk(ns, 90, 80) == [SeekRead(154, 16)]
            && !LastSpans(Written(ns, 154, more, 3), 90, 80)
  {
    var ns := [bs[0], Block(90, data, 2), bs[1]];
    assert Keyed(bs) && Keyed(ns);
    UpperBoundIs(bs, 90, 1);
    UpperBoundIs(ns, 90, 2);
    UpperBoundIs(ns, 154, 3);
    hide Keyed, Disjoint, UpperBound, Walk, InSome, Written, LastSpans;
    MisleadingWrite(bs, ns, data);
    MisledWalk(ns, 170);
    WrittenBehind(ns, 154, more, 3);
    StillMisses(ns, Block(154, more, 3));
  }

  lemma {:induction false} StillMisses(ns: seq<Block>, b: Block)
    requires Keyed(ns) && |ns| == 3 && ns[1].fpos == 90 && ns[1].End() == 122 && ns[2].fpos == 100 && b.fpos == 154
    requires b.data != []
    ensures !LastSpans(ns + [b], 90, 80)
  {
    assert Keyed(ns + [b]);
    UpperBoundIs(ns + [b], 90, 2);
    hide UpperBound;
  }

  lemma {:induction false} WrittenBehind(bs: seq<Block>, fpos: nat, data: seq<Byte>, touch: nat)
    requires Keyed(bs) && bs != [] && UpperBound(bs, fpos) == |bs| && bs[|bs| - 1].End() < fpos
    ensures Written(bs, fpos, data, touch) == bs + [Block(fpos, data, touch)]
  {
    hide Keyed, UpperBound;
    assert ReplacedFrom(bs, fpos) == |bs| == ReplacedTo(bs, fpos, |data|);
  }
}
