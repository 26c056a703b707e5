/** Runs of writes that bring parts of one file. */
module Runs {
  import opened SeekReads
  import opened Blocks
  import opened Writes

  function Slice(file: nat -> Byte, fpos: nat, len: nat): (data: seq<Byte>)
    ensures |data| == len
  {
    seq(len, i requires 0 <= i < len => file(fpos + i))
  }

  ghost predicate IsPartOf(c: map<nat, Byte>, file: nat -> Byte) {
    forall p :: p in c ==> c[p] == file(p)
  }

  /** Every byte held is the file's. */
  ghost predicate FileBacked(bs: seq<Block>, file: nat -> Byte) {
    IsPartOf(Content(bs), file)
  }

  /** Every byte of every block is the file's. */
  ghost predicate BlocksBacked(bs: seq<Block>, file: nat -> Byte) {
    forall k :: 0 <= k < |bs| ==> BlockBacked(bs[k], file)
  }

  ghost predicate BlockBacked(b: Block, file: nat -> Byte) {
    forall p: nat :: b.Contains(p) ==> b.At(p) == file(p)
  }

  lemma {:induction false} BackedBlocks(bs: seq<Block>, file: nat -> Byte)
    requires Disjoint(bs) && FileBacked(bs, file)
    ensures BlocksBacked(bs, file)
  {
    forall k, p: nat | 0 <= k < |bs| && bs[k].Contains(p)
      ensures bs[k].At(p) == file(p)
    {
      ContentAt(bs, k, p, Content(bs));
    }
  }

  lemma {:induction false} BackedAgrees(bs: seq<Block>, file: nat -> Byte, fpos: nat, len: nat)
    requires Disjoint(bs) && FileBacked(bs, file)
    ensures Agrees(bs, fpos, Slice(file, fpos, len))
  {
    forall k, p: nat | 0 <= k < |bs| && bs[k].Contains(p) && fpos <= p < fpos + len
      ensures bs[k].At(p) == file(p)
    {
      ContentAt(bs, k, p, Content(bs));
    }
  }

  lemma {:induction false} BackedWrite(bs: seq<Block>, file: nat -> Byte, fpos: nat, len: nat, touch: nat)
    requires Disjoint(bs) && FileBacked(bs, file) && len > 0 && !Overlaps(bs, fpos, len)
    ensures Keyed(bs) && FileBacked(Written(bs, fpos, Slice(file, fpos, len), touch), file)
  {
    var data := Slice(file, fpos, len);
    BackedAgrees(bs, file, fpos, len);
    AgreeingContent(bs, fpos, data, touch);
    AddedBytes(Content(bs), file, fpos, len);
    hide IsPartOf, Content, Disjoint, Written, BytesFrom;
  }

  lemma {:induction false} AddedBytes(c: map<nat, Byte>, file: nat -> Byte, fpos: nat, len: nat)
    requires IsPartOf(c, file)
    ensures IsPartOf(c + BytesFrom(fpos, Slice(file, fpos, len)), file)
  {
    var added := BytesFrom(fpos, Slice(file, fpos, len));
    assert forall p :: p in added ==> added[p] == file(p);
    hide BytesFrom, Slice, Interval;
  }

  /** The block list after the writes, the first of which is given the touch. */
  ghost function WriteAll(bs: seq<Block>, writes: seq<SeekRead>, file: nat -> Byte, touch: nat): seq<Block> {
    if writes == [] then bs
    else
      var n := |writes| - 1;
      var before, last := WriteAll(bs, writes[..n], file, touch), writes[n];
      if Keyed(before) then Written(before, last.fpos, Slice(file, last.fpos, last.len), touch + n) else before
  }

  /** No write is misrouted when its turn comes. */
  ghost predicate AllRouted(bs: seq<Block>, writes: seq<SeekRead>, file: nat -> Byte, touch: nat) {
    writes == [] ||
    (var n := |writes| - 1;
     && AllRouted(bs, writes[..n], file, touch)
     && !Misrouted(WriteAll(bs, writes[..n], file, touch), writes[n].fpos, writes[n].len))
  }

  lemma {:induction false} WriteAllNext(bs: seq<Block>, writes: seq<SeekRead>, n: nat, file: nat -> Byte, touch: nat)
    requires n < |writes|
    ensures var before, w := WriteAll(bs, writes[..n], file, touch), writes[n];
            && (AllRouted(bs, writes[..n + 1], file, touch) <==>
                AllRouted(bs, writes[..n], file, touch) && !Misrouted(before, w.fpos, w.len))
            && (Keyed(before) ==>
                  WriteAll(bs, writes[..n + 1], file, touch) ==
                  Written(before, w.fpos, Slice(file, w.fpos, w.len), touch + n))
  {
    hide Written, Misrouted, Keyed, Slice;
    var upTo := writes[..n + 1];
    assert |upTo| == n + 1 && upTo[n] == writes[n];
    assert upTo[..n] == writes[..n];
  }

  /** Well-routed writes keep the blocks canonical and the file's, and add just their positions. */
  lemma {:induction false} RunHolds(bs: seq<Block>, writes: seq<SeekRead>, file: nat -> Byte, touch: nat)
    requires Canonical(bs) && FileBacked(bs, file) && Positive(writes)
    requires AllRouted(bs, writes, file, touch)
    ensures var now := WriteAll(bs, writes, file, touch);
            && Canonical(now) && FileBacked(now, file)
            && forall p: nat :: p in Held(now) <==> p in Held(bs) || Covered(writes, p)
  {
    if writes != [] {
      var n := |writes| - 1;
      var before, w := WriteAll(bs, writes[..n], file, touch), writes[n];
      RunHolds(bs, writes[..n], file, touch);
      hide WriteAll, AllRouted, FileBacked, Held, Written, Misrouted;
      assert writes[..n + 1] == writes;
      WriteAllNext(bs, writes, n, file, touch);
      RunStep(before, w, file, touch + n);
      forall p: nat ensures Covered(writes, p) <==> Covered(writes[..n], p) || w.Contains(p) {
        CoveredPrefix(writes, n, p);
      }
    }
  }

  lemma {:induction false} RunStep(bs: seq<Block>, w: SeekRead, file: nat -> Byte, touch: nat)
    requires Canonical(bs) && FileBacked(bs, file) && w.len > 0 && !Misrouted(bs, w.fpos, w.len)
    ensures Keyed(bs)
    ensures var now := Written(bs, w.fpos, Slice(file, w.fpos, w.len), touch);
            && Canonical(now) && FileBacked(now, file)
            && forall p: nat :: p in Held(now) <==> p in Held(bs) || w.Contains(p)
  {
    var data := Slice(file, w.fpos, w.len);
    assert Disjoint(bs);
    OverlapIsMisrouted(bs, w.fpos, w.len);
    WrittenIsCanonical(bs, w.fpos, data, touch);
    RunStepHolds(bs, w, data, touch);
    BackedWrite(bs, file, w.fpos, w.len, touch);
    hide *;
  }

  lemma {:induction false} RunStepHolds(bs: seq<Block>, w: SeekRead, data: seq<Byte>, touch: nat)
    requires Disjoint(bs) && |data| == w.len > 0 && !Overlaps(bs, w.fpos, w.len)
    ensures Keyed(bs)
    ensures forall p: nat :: p in Held(Written(bs, w.fpos, data, touch)) <==> p in Held(bs) || w.Contains(p)
  {
    WrittenHolds(bs, w.fpos, data, touch);
    hide Written, Held, Disjoint, Overlaps, Keyed;
  }

  /** Any two runs of well-routed writes that cover the same positions of one file end with the same
      blocks and the same bytes in them, in whatever order and pieces they come. */
  lemma {:induction false} OrderDoesNotMatter(a: seq<SeekRead>, b: seq<SeekRead>, file: nat -> Byte, s: nat, t: nat)
    requires Positive(a) && Positive(b)
    requires AllRouted([], a, file, s) && AllRouted([], b, file, t)
    requires forall p :: Covered(a, p) <==> Covered(b, p)
    ensures Shape(WriteAll([], a, file, s)) == Shape(WriteAll([], b, file, t))
    ensures Sum(WriteAll([], a, file, s)) == Sum(WriteAll([], b, file, t))
  {
    var x, y := WriteAll([], a, file, s), WriteAll([], b, file, t);
    assert Held([]) == {};
    RunHolds([], a, file, s);
    RunHolds([], b, file, t);
    assert Held(x) == Held(y);
    BackedByHeld(x, y, file);
    ShapeFollowsContent(x, y);
    ShapeSum(x, y);
  }

  lemma {:induction false} BackedByHeld(a: seq<Block>, b: seq<Block>, file: nat -> Byte)
    requires FileBacked(a, file) && FileBacked(b, file) && Held(a) == Held(b)
    ensures Content(a) == Content(b)
  {
    PartsOfOneFile(Content(a), Content(b), file);
  }

  lemma {:induction false} PartsOfOneFile(c: map<nat, Byte>, d: map<nat, Byte>, file: nat -> Byte)
    requires IsPartOf(c, file) && IsPartOf(d, file) && c.Keys == d.Keys
    ensures c == d
  {
  }

  lemma {:induction false} ShapeSum(a: seq<Block>, b: seq<Block>)
    requires Shape(a) == Shape(b)
    ensures Sum(a) == Sum(b)
  {
    assert |a| == |Shape(a)| == |b|;
    forall i | 0 <= i < |a| ensures a[i].data == b[i].data {
      assert Shape(a)[i] == Shape(b)[i];
    }
    SameShapeSum(a, b);
  }
}
