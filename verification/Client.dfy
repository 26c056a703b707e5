/** The client that serves demands from the cache and fetches what is missing. */
module Client {
  import opened SeekReads
  import opened Blocks
  import opened Writes
  import opened Differences
  import opened Gaps
  import opened Walks
  import opened Seams
  import opened Demands
  import opened Runs
  import opened Routing
  import opened Forecasts
  import opened Overlapping
  import opened SparseVirtualFiles

  /** The server of one file that does not change. */
  class Server {
    const file: nat -> Byte
    var filePosition: nat
    // The GETs answered so far.
    ghost var log: seq<SeekRead>

    constructor (file: nat -> Byte)
      ensures this.file == file && filePosition == 0 && log == []
    {
      this.file, filePosition, log := file, 0, [];
    }

    method Get(fpos: nat, len: nat) returns (data: seq<Byte>)
      modifies this
      ensures data == Slice(file, fpos, len) && filePosition == fpos
      ensures log == old(log) + [SeekRead(fpos, len)]
    {
      filePosition, log := fpos, log + [SeekRead(fpos, len)];
      data := Slice(file, fpos, len);
    }
  }

  datatype RunResult = RunResult(hits: nat, misses: nat, minimalBytes: nat, numBytes: nat)

  // ---- Fetching what is needed ----

  /** The block list after the first n writes is what is foretold, and holds the file's bytes. */
  ghost predicate Fetched(c: Cache, now: seq<Block>, need: seq<SeekRead>, n: nat, file: nat -> Byte) {
    && n <= |need| && BlocksBacked(now, file)
    && (Apart(c, need[..n]) ==>
          Disjoint(now) && FileBacked(now, file) && CacheOf(now) == AfterWrites(c, need[..n]))
    && (!Apart(c, need[..n]) ==> n > 0 && Beside(now, AfterWrites(c, need[..n - 1]), need[n - 1]))
  }

  lemma {:induction false} FetchStarts(now: seq<Block>, need: seq<SeekRead>, file: nat -> Byte, touch: nat)
    requires Disjoint(now) && FileBacked(now, file)
    ensures Fetched(CacheOf(now), now, need, 0, file)
    ensures WriteAll(now, need[..0], file, touch) == now && TotalLength(need[..0]) == 0
  {
    BackedBlocks(now, file);
    hide CacheOf, Disjoint, FileBacked;
    assert need[..0] == [];
  }

  /** One more entry is fetched: it makes blocks overlap exactly when that is foretold. */
  lemma {:induction false} FetchStep(c: Cache, now: seq<Block>, need: seq<SeekRead>, n: nat, file: nat -> Byte,
                                     touch: nat)
    requires Fetched(c, now, need, n, file) && n < |need| && need[n].len > 0 && Apart(c, need[..n])
    ensures Keyed(now) && Disjoint(now) && Agrees(now, need[n].fpos, Slice(file, need[n].fpos, need[n].len))
    ensures Overlaps(now, need[n].fpos, need[n].len) <==> !Apart(c, need[..n + 1])
    ensures Fetched(c, Written(now, need[n].fpos, Slice(file, need[n].fpos, need[n].len), touch), need, n + 1, file)
    ensures TotalLength(need[..n + 1]) == TotalLength(need[..n]) + need[n].len
  {
    hide Disjoint, FileBacked, BlocksBacked, CacheOf, AfterWrites, AfterWrite, Apart, Written, Overlaps, OverlapsInto,
         Keyed, Slice, TotalLength, Agrees, Beside;
    AfterWritesNext(c, need, n);
    BackedAgrees(now, file, need[n].fpos, need[n].len);
    WriteForetold(now, need[n], Slice(file, need[n].fpos, need[n].len), touch);
    if Overlaps(now, need[n].fpos, need[n].len) {
      OverlapIsBeside(now, need[n], file, touch);
    } else {
      BackedWrite(now, file, need[n].fpos, need[n].len, touch);
      BackedBlocks(Written(now, need[n].fpos, Slice(file, need[n].fpos, need[n].len), touch), file);
    }
  }

  /** Only the last entry may make blocks overlap. */
  ghost predicate OverlapsLast(c: Cache, need: seq<SeekRead>) {
    need != [] ==> Apart(c, need[..|need| - 1])
  }

  lemma {:induction false} ApartBefore(c: Cache, need: seq<SeekRead>, n: nat)
    requires OverlapsLast(c, need) && n < |need|
    ensures Apart(c, need[..n])
  {
    var before := need[..|need| - 1];
    assert before[..n] == need[..n];
    hide Apart;
    if !Apart(c, need[..n]) {
      UnapartStays(c, before, n);
    }
  }

  lemma {:induction false} FetchEnds(c: Cache, now: seq<Block>, need: seq<SeekRead>, file: nat -> Byte)
    requires Fetched(c, now, need, |need|, file)
    ensures need[..|need|] == need && BlocksBacked(now, file)
    ensures Apart(c, need) ==> Disjoint(now) && FileBacked(now, file) && CacheOf(now) == AfterWrites(c, need)
    ensures !Apart(c, need) ==>
              need != [] && Beside(now, AfterWrites(c, need[..|need| - 1]), need[|need| - 1])
  {
    assert need[..|need|] == need;
  }

  /** GETs and writes all that is needed, of which only the last may make blocks overlap. */
  method FetchAll(svf: SparseVirtualFile, server: Server, need: seq<SeekRead>)
    returns (fetched: nat, overlap: bool)
    requires svf.Valid() && FileBacked(svf.blocks, server.file) && Positive(need)
    requires OverlapsLast(CacheOf(svf.blocks), need)
    modifies svf, server
    ensures svf.Inv() && BlocksBacked(svf.blocks, server.file)
    ensures svf.blocks == WriteAll(old(svf.blocks), need, server.file, old(svf.blockTouch))
    ensures server.log == old(server.log) + need
    ensures fetched == TotalLength(need) && svf.bytesWrite == old(svf.bytesWrite) + fetched
    ensures svf.countWrite == old(svf.countWrite) + |need| && svf.blockTouch == old(svf.blockTouch) + |need|
    ensures svf.countRead == old(svf.countRead) && svf.bytesRead == old(svf.bytesRead)
    ensures overlap <==> !Apart(old(CacheOf(svf.blocks)), need)
    ensures !overlap ==>
              && svf.Valid() && FileBacked(svf.blocks, server.file)
              && CacheOf(svf.blocks) == AfterWrites(old(CacheOf(svf.blocks)), need)
    ensures overlap ==>
              && need != []
              && Beside(svf.blocks, AfterWrites(old(CacheOf(svf.blocks)), need[..|need| - 1]), need[|need| - 1])
  {
    hide Disjoint, Fetched, Agrees, Stops, Written, Overlaps, CacheOf, AfterWrites, Apart, FileBacked, BlocksBacked,
         Keyed, Sum, Touched, WriteAll, Slice, TotalLength, AllRouted, Beside, OverlapsLast;
    ghost var was, touch, c := svf.blocks, svf.blockTouch, CacheOf(svf.blocks);
    fetched, overlap := 0, false;
    FetchStarts(was, need, server.file, touch);
    NoWrites(c);
    assert need[..0] == [];
    for n := 0 to |need|
      invariant svf.Inv() && Fetched(c, svf.blocks, need, n, server.file)
      invariant fetched == TotalLength(need[..n]) && svf.bytesWrite == old(svf.bytesWrite) + fetched
      invariant server.log == old(server.log) + need[..n] && svf.countWrite == old(svf.countWrite) + n
      invariant svf.countRead == old(svf.countRead) && svf.bytesRead == old(svf.bytesRead)
      invariant svf.blockTouch == touch + n && svf.blocks == WriteAll(was, need[..n], server.file, touch)
      invariant overlap <==> !Apart(c, need[..n])
    {
      ghost var now := svf.blocks;
      var fpos, len := need[n].fpos, need[n].len;
      var result := server.Get(fpos, len);
      ApartBefore(c, need, n);
      overlap := Overlaps(svf.blocks, fpos, len);
      FetchStep(c, now, need, n, server.file, touch + n);
      StopsOnlyAtDifferences(now, fpos, result);
      WriteAllNext(was, need, n, server.file, touch);
      var r := svf.Write(fpos, result);
      fetched := fetched + len;
      assert need[..n + 1] == need[..n] + [need[n]];
    }
    FetchEnds(c, svf.blocks, need, server.file);
  }

  // ---- One demand ----

  /** What is held of a demand can be read unless a seam lies inside it. */
  lemma {:induction false} HeldIsServed(bs: seq<Block>, d: SeekRead)
    requires Disjoint(bs) && d.len > 0
    requires forall p: nat :: d.fpos <= p < d.End() ==> p in Held(bs)
    ensures Spanned(bs, d.fpos, d.len) <==> !Straddles(d, SeamsOf(bs))
  {
    forall p | d.fpos <= p < d.End() ensures InSome(bs, p) {
      HeldIsInSome(bs, p);
    }
    SpannedMeansHeld(bs, d.fpos, d.len);
  }

  lemma {:induction false} BackedSlice(bs: seq<Block>, file: nat -> Byte, fpos: nat, data: seq<Byte>)
    requires FileBacked(bs, file) && IsSlice(Content(bs), fpos, data)
    ensures data == Slice(file, fpos, |data|)
  {
    var c := Content(bs);
    forall n | 0 <= n < |data|
      ensures data[n] == file(fpos + n)
    {
      var p: nat := fpos + n;
      assert p in c && data[p - fpos] == c[p];
    }
  }

  /** Whether the demand can be read after what is needed was fetched. */
  lemma {:induction false} FetchedServes(c: Cache, now: seq<Block>, d: SeekRead, greedy: nat)
    requires Disjoint(now) && d.len > 0
    requires var need := NeedFor(c.held, d, greedy); Apart(c, need) && CacheOf(now) == AfterWrites(c, need)
    ensures Served(c, d, greedy) == if Spanned(now, d.fpos, d.len) then AllRead else DataMissing
    ensures Held(now) == c.held + Union(NeedFor(c.held, d, greedy))
  {
    hide NeedFor, AfterWrites, Apart, Straddles, Spanned, NeedOf, Union, Disjoint, Held, SeamsOf, Interval;
    var need := NeedFor(c.held, d, greedy);
    NeedForIsNeed(c.held, d, greedy);
    assert need[..|need|] == need;
    AfterWritesHold(c, need, |need|);
    IntervalIsHeld(now, d);
    HeldIsServed(now, d);
  }

  lemma {:induction false} IntervalIsHeld(bs: seq<Block>, d: SeekRead)
    ensures Interval(d.fpos, d.len) <= Held(bs) ==> forall p: nat :: d.fpos <= p < d.End() ==> p in Held(bs)
  {
    hide Held;
    forall p: nat | d.fpos <= p < d.End() ensures p in Interval(d.fpos, d.len) {
    }
  }

  /** A demand that is served although nothing was needed was a hit. */
  lemma {:induction false} NothingNeeded(c: Cache, d: SeekRead, greedy: nat)
    requires NeedFor(c.held, d, greedy) == [] && Served(c, d, greedy).AllRead?
    ensures Hits(c, d)
  {
    NeedForIsNeed(c.held, d, greedy);
    NoWrites(c);
    assert c.held + {} == c.held;
    hide NeedFor, NeedOf;
  }

  /** A hit needs nothing and is served. */
  lemma {:induction false} HitServes(c: Cache, d: SeekRead, greedy: nat)
    requires Hits(c, d)
    ensures NeedFor(c.held, d, greedy) == [] && AfterWrites(c, []) == c && TotalLength([]) == 0 && Apart(c, [])
    ensures Served(c, d, greedy) == AllRead
  {
    NeedForIsNeed(c.held, d, greedy);
    NoWrites(c);
    hide NeedFor, NeedOf;
  }

  /** Of what is needed only the last can make blocks overlap, as it is then the only one. */
  lemma {:induction false} NeedOverlapsLast(c: Cache, d: SeekRead, greedy: nat)
    requires SeamsHeld(c) && d.len > 0
    ensures var need := NeedFor(c.held, d, greedy);
            && OverlapsLast(c, need)
            && (!Apart(c, need) ==>
                  && need == [SeekRead(d.fpos, greedy)] && AfterWrites(c, need[..|need| - 1]) == c
                  && Served(c, d, greedy).AllRead? && HitsBeside(c, SeekRead(d.fpos, greedy), d)
                  && TotalLength(need) == greedy)
  {
    var need := NeedFor(c.held, d, greedy);
    hide NeedFor, SeamsHeld, OverlapsInto;
    NoWrites(c);
    if Apart(c, need) {
      if need != [] {
        AfterWritesNext(c, need, |need| - 1);
        assert need[..|need|] == need;
      }
    } else {
      OverlapIsWhole(c, d, greedy);
      assert need[..0] == [];
      JustWrittenHits(c, d, greedy);
    }
  }

  lemma {:induction false} CacheSeamsHeld(bs: seq<Block>)
    requires Disjoint(bs)
    ensures SeamsHeld(CacheOf(bs))
  {
    var held := Held(bs);
    forall k | 0 < k < |bs| && IsSeam(bs, k)
      ensures bs[k].fpos > 0 && bs[k].fpos in held && bs[k].fpos - 1 in held
    {
      BlockIsHeld(bs, k, held);
      BlockIsHeld(bs, k - 1, held);
    }
    hide Held;
  }

  /** The demand was read from the last block that starts at or before it, which was touched. */
  ghost predicate ReadFrom(was: seq<Block>, now: seq<Block>, d: SeekRead, touch: nat) {
    exists k :: ReadFromAt(was, now, d, touch, k)
  }

  ghost predicate ReadFromAt(was: seq<Block>, now: seq<Block>, d: SeekRead, touch: nat, k: int) {
    && 0 <= k < |was| && was[k].fpos <= d.fpos && d.End() <= was[k].End()
    && (k + 1 < |was| ==> d.fpos < was[k + 1].fpos)
    && now == was[k := was[k].(touch := touch)]
  }

  /** Reads a demand that is here. */
  method ReadDemand(svf: SparseVirtualFile, d: SeekRead) returns (data: seq<Byte>)
    requires svf.Inv() && svf.Has(d.fpos, d.len) && d.len > 0
    modifies svf`blocks, svf`blockTouch, svf`bytesRead, svf`countRead
    ensures svf.Inv() && ReadFrom(old(svf.blocks), svf.blocks, d, old(svf.blockTouch))
    ensures svf.blockTouch == old(svf.blockTouch) + 1
    ensures svf.countRead == old(svf.countRead) + 1 && svf.bytesRead == old(svf.bytesRead) + d.len
    ensures var was, k := old(svf.blocks), UpperBound(old(svf.blocks), d.fpos) - 1;
            && 0 <= k && was[k].fpos <= d.fpos && d.End() <= was[k].End()
            && svf.blocks == was[k := was[k].(touch := old(svf.blockTouch))]
            && data == was[k].data[d.fpos - was[k].fpos..][..d.len]
    ensures Shape(svf.blocks) == old(Shape(svf.blocks))
    ensures old(svf.Valid()) ==>
              && svf.Valid() && Content(svf.blocks) == old(Content(svf.blocks))
              && |data| == d.len && IsSlice(Content(svf.blocks), d.fpos, data)
  {
    hide Disjoint, Content, Shape, Keyed, Sum, Touched, IsSlice, UpperBound;
    ghost var was, touch, k := svf.blocks, svf.blockTouch, UpperBound(svf.blocks, d.fpos) - 1;
    var r := svf.Read(d.fpos, d.len);
    data := r.value;
    assert ReadFromAt(was, svf.blocks, d, touch, k);
  }

  lemma {:induction false} NothingWritten(bs: seq<Block>, file: nat -> Byte, touch: nat)
    ensures WriteAll(bs, [], file, touch) == bs
  {
  }

  lemma {:induction false} HasLooksAtLast(svf: SparseVirtualFile, d: SeekRead)
    requires Keyed(svf.blocks)
    ensures svf.Has(d.fpos, d.len) <==> LastSpans(svf.blocks, d.fpos, d.len)
  {
  }

  /** A demand whose write makes blocks overlap was a miss. */
  lemma {:induction false} OverlapMisses(c: Cache, d: SeekRead, greedy: nat)
    ensures !Apart(c, NeedFor(c.held, d, greedy)) ==> !Hits(c, d) && Served(c, d, greedy).AllRead?
    ensures !Served(c, d, greedy).MissAfterOverlap?
  {
    hide NeedFor, Apart, Hits;
    if Hits(c, d) {
      HitServes(c, d, greedy);
    }
  }

  /** GETs and writes what is needed for a demand that is not here. */
  method FetchNeeded(svf: SparseVirtualFile, server: Server, d: SeekRead, greedy: nat)
    returns (fetched: nat, overlap: bool)
    requires svf.Valid() && FileBacked(svf.blocks, server.file) && d.len > 0
    requires !Hits(CacheOf(svf.blocks), d)
    modifies svf, server
    ensures svf.Inv()
    ensures var c := old(CacheOf(svf.blocks));
            var need := NeedFor(c.held, d, greedy);
            && server.log == old(server.log) + need && svf.countWrite == old(svf.countWrite) + |need|
            && svf.blocks == WriteAll(old(svf.blocks), need, server.file, old(svf.blockTouch))
            && svf.blockTouch == old(svf.blockTouch) + |need|
            && fetched == TotalLength(need) && svf.bytesWrite == old(svf.bytesWrite) + fetched
            && (overlap <==> !Apart(c, need))
            && (!overlap ==>
                  && svf.Valid() && FileBacked(svf.blocks, server.file)
                  && CacheOf(svf.blocks) == AfterWrites(c, need))
            && (overlap ==>
                  && BlocksBacked(svf.blocks, server.file) && need == [SeekRead(d.fpos, greedy)]
                  && Beside(svf.blocks, c, SeekRead(d.fpos, greedy)))
            && (svf.Has(d.fpos, d.len) <==> Served(c, d, greedy).AllRead?)
            && !Served(c, d, greedy).MissAfterOverlap? && (Served(c, d, greedy).AllRead? ==> need != [])
    ensures svf.countRead == old(svf.countRead) && svf.bytesRead == old(svf.bytesRead)
  {
    hide Disjoint, AfterWrites, Apart, FileBacked, BlocksBacked, Keyed, Sum, Touched, WriteAll, TotalLength, Served,
         NeedFor, NeedOf, NeedAnswer, Hits, HitsBeside, Spanned, Union, Held, SeamsOf, OverlapsLast, SeamsHeld,
         Beside, LastSpans, WalksWell, UpperBound;
    ghost var c := CacheOf(svf.blocks);
    var need := svf.Need(d.fpos, d.len, greedy);
    AnswerIsForetold(need, svf.blocks, d, greedy);
    NeedForIsNeed(c.held, d, greedy);
    CacheSeamsHeld(svf.blocks);
    NeedOverlapsLast(c, d, greedy);
    OverlapMisses(c, d, greedy);
    fetched, overlap := FetchAll(svf, server, need);
    if overlap {
      HitMeansBeside(svf.blocks, c, SeekRead(d.fpos, greedy), d);
      HasLooksAtLast(svf, d);
    } else {
      FetchedServes(c, svf.blocks, d, greedy);
    }
    if need == [] && Served(c, d, greedy).AllRead? {
      NothingNeeded(c, d, greedy);
    }
  }

  /** Serves one demand: has, need, GET and write, has again, read. */
  method Serve(svf: SparseVirtualFile, server: Server, d: SeekRead, greedy: nat)
    returns (outcome: Outcome, hit: bool, data: seq<Byte>, fetched: nat, overlap: bool)
    requires svf.Valid() && FileBacked(svf.blocks, server.file) && d.len > 0
    modifies svf, server
    ensures svf.Inv() && (hit <==> Hits(old(CacheOf(svf.blocks)), d))
    // What is needed, and nothing else, is fetched and written in turn; then the demand is read once.
    ensures var need := NeedFor(old(CacheOf(svf.blocks)).held, d, greedy);
            var written := WriteAll(old(svf.blocks), need, server.file, old(svf.blockTouch));
            && server.log == old(server.log) + need && svf.countWrite == old(svf.countWrite) + |need|
            && (hit ==> need == []) && (!hit && outcome.AllRead? ==> need != [])
            && (outcome.AllRead? ==>
                  && ReadFrom(written, svf.blocks, d, old(svf.blockTouch) + |need|)
                  && svf.blockTouch == old(svf.blockTouch) + |need| + 1
                  && svf.countRead == old(svf.countRead) + 1 && svf.bytesRead == old(svf.bytesRead) + d.len)
            && (!outcome.AllRead? ==>
                  && svf.blocks == written && svf.blockTouch == old(svf.blockTouch) + |need|
                  && svf.countRead == old(svf.countRead) && svf.bytesRead == old(svf.bytesRead))
    ensures outcome == Served(old(CacheOf(svf.blocks)), d, greedy)
    ensures outcome.AllRead? ==> data == Slice(server.file, d.fpos, d.len)
    ensures var need := NeedFor(old(CacheOf(svf.blocks)).held, d, greedy);
            && fetched == TotalLength(need) && svf.bytesWrite == old(svf.bytesWrite) + fetched
            && (overlap <==> !Apart(old(CacheOf(svf.blocks)), need))
            && (!overlap ==>
                  && svf.Valid() && FileBacked(svf.blocks, server.file)
                  && CacheOf(svf.blocks) == AfterWrites(old(CacheOf(svf.blocks)), need))
            && (overlap ==>
                  && BlocksBacked(svf.blocks, server.file) && need == [SeekRead(d.fpos, greedy)]
                  && Beside(svf.blocks, old(CacheOf(svf.blocks)), SeekRead(d.fpos, greedy)))
  {
    hide Disjoint, AfterWrites, Apart, FileBacked, BlocksBacked, Keyed, Sum, Touched, WriteAll, Slice, TotalLength,
         Served, NeedFor, Hits, Spanned, Content, IsSlice, CacheOf, Beside, UpperBound, ReadFrom, Shape;
    ghost var c := CacheOf(svf.blocks);
    data, fetched, overlap := [], 0, false;
    hit := svf.Has(d.fpos, d.len);
    HitMeansHeld(svf.blocks, d);
    if hit {
      HitServes(c, d, greedy);
      NothingWritten(svf.blocks, server.file, svf.blockTouch);
    } else {
      fetched, overlap := FetchNeeded(svf, server, d, greedy);
      if !svf.Has(d.fpos, d.len) {
        outcome := DataMissing;
        return;
      }
    }
    ghost var now, touch := svf.blocks, svf.blockTouch;
    data := ReadDemand(svf, d);
    if overlap {
      ReadBeside(now, svf.blocks, d, touch, data, c, SeekRead(d.fpos, greedy), server.file);
    } else {
      TouchedServes(now, svf.blocks, server.file, d, data);
    }
    outcome := AllRead;
  }

  /** Reading, which touches a block, gives the file's bytes also where blocks overlap. */
  lemma {:induction false} ReadBeside(was: seq<Block>, now: seq<Block>, d: SeekRead, touch: nat, data: seq<Byte>,
                                      c: Cache, w: SeekRead, file: nat -> Byte)
    requires Beside(was, c, w) && BlocksBacked(was, file)
    requires var k := UpperBound(was, d.fpos) - 1;
             && 0 <= k && was[k].fpos <= d.fpos && d.End() <= was[k].End()
             && now == was[k := was[k].(touch := touch)] && data == was[k].data[d.fpos - was[k].fpos..][..d.len]
    ensures Beside(now, c, w) && BlocksBacked(now, file)
    ensures data == Slice(file, d.fpos, d.len)
  {
    var k := UpperBound(was, d.fpos) - 1;
    BackedBlock(was, k, file);
    BackedPart(was[k], file, d.fpos, d.len);
    hide *;
    TouchedBeside(was, k, touch, c, w, file);
  }

  lemma {:induction false} BackedBlock(bs: seq<Block>, k: nat, file: nat -> Byte)
    requires BlocksBacked(bs, file) && k < |bs|
    ensures BlockBacked(bs[k], file)
  {
  }

  /** Serves one demand in a file in which a write made blocks overlap, if it is a hit. */
  method ServeBeside(svf: SparseVirtualFile, d: SeekRead, ghost c: Cache, ghost w: SeekRead, ghost file: nat -> Byte)
    returns (hit: bool, data: seq<Byte>)
    requires svf.Inv() && BlocksBacked(svf.blocks, file) && Beside(svf.blocks, c, w) && d.len > 0
    modifies svf
    ensures svf.Inv() && BlocksBacked(svf.blocks, file) && Beside(svf.blocks, c, w)
    ensures svf.bytesWrite == old(svf.bytesWrite) && svf.countWrite == old(svf.countWrite)
    ensures hit <==> HitsBeside(c, w, d)
    ensures hit ==>
              && data == Slice(file, d.fpos, d.len)
              && ReadFrom(old(svf.blocks), svf.blocks, d, old(svf.blockTouch))
              && svf.blockTouch == old(svf.blockTouch) + 1
              && svf.countRead == old(svf.countRead) + 1 && svf.bytesRead == old(svf.bytesRead) + d.len
    ensures !hit ==> unchanged(svf)
  {
    hide Disjoint, Content, BlocksBacked, Beside, HitsBeside, LastSpans, Slice, Keyed, Sum, Touched, IsSlice,
         UpperBound, ReadFrom;
    data := [];
    hit := svf.Has(d.fpos, d.len);
    HasLooksAtLast(svf, d);
    HitMeansBeside(svf.blocks, c, w, d);
    if hit {
      ghost var was, touch := svf.blocks, svf.blockTouch;
      data := ReadDemand(svf, d);
      ReadBeside(was, svf.blocks, d, touch, data, c, w, file);
    }
  }

  /** Reading, which touches a block, gives the file's bytes and leaves the cache as it was. */
  lemma {:induction false} TouchedServes(was: seq<Block>, now: seq<Block>, file: nat -> Byte, d: SeekRead,
                                         data: seq<Byte>)
    requires Shape(was) == Shape(now) && Content(was) == Content(now) && Disjoint(was) && FileBacked(was, file)
    requires |data| == d.len && IsSlice(Content(now), d.fpos, data)
    ensures FileBacked(now, file) && CacheOf(now) == CacheOf(was) && (Canonical(was) ==> Canonical(now))
    ensures Held(now) == Held(was)
    ensures data == Slice(file, d.fpos, d.len)
  {
    SeamsFollowShape(was, now);
    BackedSlice(was, file, d.fpos, data);
    ContentFollowsShape(was, now);
    CanonicalHasNoSeams(was);
    CanonicalHasNoSeams(now);
    hide *;
    assert Content(was).Keys == Held(was);
    assert Content(now).Keys == Held(now);
  }

  // ---- Whole runs ----

  /** The block touched last, before the counter reached touch, covers the demand. */
  ghost predicate ReadLast(bs: seq<Block>, d: SeekRead, touch: int) {
    exists k :: 0 <= k < |bs| && bs[k].touch == touch - 1 && bs[k].fpos <= d.fpos && d.End() <= bs[k].End()
  }

  /** The last GET was for w, and the ones before filled the cache. */
  ghost predicate GotLast(gets: seq<SeekRead>, c: Cache, w: SeekRead) {
    gets != [] && c.held == Union(gets[..|gets| - 1]) && w == gets[|gets| - 1]
  }

  /** The file after a run, as it is foretold: what it holds is what was fetched. */
  ghost predicate EndsAs(svf: SparseVirtualFile, t: Forecast, file: nat -> Byte)
    reads svf
  {
    if t.overlap == [] then
      && svf.Valid() && FileBacked(svf.blocks, file)
      && CacheOf(svf.blocks) == t.cache && svf.bytesTotal == |t.cache.held| && t.cache.held == Union(t.gets)
    else
      && |t.overlap| == 1 && svf.Inv() && BlocksBacked(svf.blocks, file)
      && Beside(svf.blocks, t.cache, t.overlap[0]) && svf.bytesTotal == |t.cache.held| + t.overlap[0].len
      && GotLast(t.gets, t.cache, t.overlap[0])
  }

  /** Serves the demands in turn. How that ends, and with what, is foretold from the demands. */
  method ServeAll(svf: SparseVirtualFile, server: Server, seekReads: seq<SeekRead>, greedy: nat)
    returns (outcome: Outcome, hits: nat, misses: nat, minimalBytes: nat, received: seq<seq<Byte>>, fetched: nat)
    requires Positive(seekReads)
    requires svf.Valid() && svf.blocks == [] && svf.blockTouch == 0
    requires svf.countWrite == svf.bytesWrite == svf.countRead == svf.bytesRead == 0
    modifies svf, server
    ensures svf.Inv()
    ensures var t := Foretold(EMPTY_CACHE, seekReads, greedy, 0, []);
            && outcome == t.outcome && hits == t.hits && EndsAs(svf, t, server.file)
            && server.log == old(server.log) + t.gets && svf.countWrite == |t.gets|
            && svf.bytesWrite == fetched == TotalLength(t.gets)
            && svf.blockTouch == |t.gets| + |received| && misses <= |t.gets|
    ensures |received| <= |seekReads| && hits + misses == |received|
    ensures forall i :: 0 <= i < |received| ==>
              received[i] == Slice(server.file, seekReads[i].fpos, seekReads[i].len)
    ensures svf.countRead == |received| && svf.bytesRead == minimalBytes == TotalLength(seekReads[..|received|])
    ensures received != [] && outcome.AllRead? ==>
              ReadLast(svf.blocks, seekReads[|received| - 1], svf.blockTouch)
    ensures outcome.AllRead? <==> |received| == |seekReads|
  {
    hide Canonical, Content, CacheOf, FileBacked, BlocksBacked, Slice, Held, Keyed, Sum, Touched, Disjoint, Union,
         AllServed, TotalLength, Hits, HitsBeside, HitCount, RunRouted, NeedFor, Served, Foretold, ForetoldBeside,
         AfterWrites, Apart, Beside, WriteAll, ReadFrom, ReadLast, GotLast;
    FreshCache(server.file);
    ghost var t := Foretold(EMPTY_CACHE, seekReads, greedy, 0, []);
    assert seekReads[0..] == seekReads;
    var overlapped := false;
    hits, misses, minimalBytes, received, fetched := 0, 0, 0, [], 0;
    ghost var c, w, gets, log := EMPTY_CACHE, SeekRead(0, 0), [], server.log;
    for n := 0 to |seekReads|
      invariant svf.Inv()
      invariant |received| == n == hits + misses && minimalBytes == TotalLength(seekReads[..n])
      invariant forall i :: 0 <= i < n ==> received[i] == Slice(server.file, seekReads[i].fpos, seekReads[i].len)
      invariant server.log == log + gets && svf.bytesWrite == fetched == TotalLength(gets)
      invariant svf.countWrite == |gets| && misses <= |gets|
      invariant svf.countRead == n && svf.bytesRead == minimalBytes && svf.blockTouch == |gets| + n
      invariant n > 0 ==> ReadLast(svf.blocks, seekReads[n - 1], svf.blockTouch)
      invariant !overlapped ==>
                  && svf.Valid() && FileBacked(svf.blocks, server.file) && CacheOf(svf.blocks).held == Union(gets)
                  && t == Foretold(CacheOf(svf.blocks), seekReads[n..], greedy, hits, gets)
      invariant overlapped ==>
                  && BlocksBacked(svf.blocks, server.file) && Beside(svf.blocks, c, w) && GotLast(gets, c, w)
                  && t == ForetoldBeside(c, w, seekReads[n..], hits, gets)
    {
      var d := seekReads[n];
      ghost var written := svf.blocks;
      LengthNext(seekReads, n);
      var hit, data;
      if overlapped {
        BesideNext(c, w, seekReads, n, hits, gets);
        BesideBytes(svf.blocks, c, w);
        hit, data := ServeBeside(svf, d, c, w, server.file);
        outcome := if hit then AllRead else MissAfterOverlap;
      } else {
        c, w := CacheOf(svf.blocks), SeekRead(d.fpos, greedy);
        ghost var need := NeedFor(c.held, d, greedy);
        ForetoldNext(c, seekReads, n, greedy, hits, gets);
        written := WriteAll(svf.blocks, need, server.file, svf.blockTouch);
        var got;
        outcome, hit, data, got, overlapped := Serve(svf, server, d, greedy);
        OverlapMisses(c, d, greedy);
        MoreGets(c, gets, need);
        gets, fetched := gets + need, fetched + got;
        DisjointBytes(svf.blocks);
      }
      if !outcome.AllRead? {
        return;
      }
      ReadIsLast(written, svf.blocks, d, svf.blockTouch - 1);
      minimalBytes := minimalBytes + d.len;
      if hit {
        hits := hits + 1;
      } else {
        misses := misses + 1;
      }
      received := received + [data];
    }
    RunOver(CacheOf(svf.blocks), c, w, seekReads, greedy, hits, gets);
    if overlapped {
      BesideBytes(svf.blocks, c, w);
    } else {
      DisjointBytes(svf.blocks);
    }
    outcome := AllRead;
  }

  /** Serves the demands in turn with a fresh cache. */
  method Run(server: Server, seekReads: seq<SeekRead>, greedy: nat)
    returns (outcome: Outcome, result: RunResult, svf: SparseVirtualFile, received: seq<seq<Byte>>, fetched: nat)
    requires Positive(seekReads)
    modifies server
    ensures fresh(svf) && svf.Inv()
    // How the run ends, what is fetched and written in that order, and what is held then, is foretold.
    ensures var t := Foretold(EMPTY_CACHE, seekReads, greedy, 0, []);
            && outcome == t.outcome && result.hits == t.hits && EndsAs(svf, t, server.file)
            && server.log == old(server.log) + t.gets && svf.countWrite == |t.gets|
            && svf.bytesWrite == fetched == TotalLength(t.gets)
            && svf.blockTouch == |t.gets| + |received| && result.misses <= |t.gets|
    // Every demand served was read from the cache, once, and got the file's bytes.
    ensures svf.countRead == |received| && svf.bytesRead == result.minimalBytes
    ensures outcome.AllRead? && seekReads != [] ==>
              ReadLast(svf.blocks, seekReads[|seekReads| - 1], svf.blockTouch)
    ensures |received| <= |seekReads| && result.hits + result.misses == |received|
    ensures forall i :: 0 <= i < |received| ==>
              received[i] == Slice(server.file, seekReads[i].fpos, seekReads[i].len)
    ensures result.minimalBytes == TotalLength(seekReads[..|received|]) && result.numBytes == svf.bytesTotal
    ensures outcome.AllRead? <==> |received| == |seekReads|
    // A run of well-routed writes always ends well, whatever the greedy length.
    ensures RunRouted({}, seekReads, greedy) ==> outcome.AllRead? && Canonical(svf.blocks)
    // Without greed: when it ends well, and that no byte is fetched twice.
    ensures (forall i :: 0 <= i < |seekReads| ==> greedy <= seekReads[i].len) ==>
              && svf.Valid() && !outcome.MissAfterOverlap? && fetched == svf.bytesTotal
              && (forall i, j, p: nat :: |old(server.log)| <= i < j < |server.log| && server.log[i].Contains(p) ==>
                    !server.log[j].Contains(p))
              && (outcome.AllRead? <==> AllServed(EMPTY_CACHE, seekReads))
              && (outcome.AllRead? ==>
                    && Held(svf.blocks) == Union(seekReads)
                    && fetched == svf.bytesTotal == |Union(seekReads)|
                    && result.hits == HitCount(EMPTY_CACHE, seekReads)
                    && (RunRouted({}, seekReads, greedy) <==> Canonical(svf.blocks)))
  {
    hide Canonical, CacheOf, FileBacked, BlocksBacked, Slice, Held, Keyed, Sum, Touched, Disjoint, Union, AllServed,
         TotalLength, HitCount, RunRouted, Foretold, Beside, ReadLast, GotLast;
    svf := new SparseVirtualFile.Default("ID", 0.0);
    var hits, misses, minimalBytes;
    outcome, hits, misses, minimalBytes, received, fetched := ServeAll(svf, server, seekReads, greedy);
    result := RunResult(hits, misses, minimalBytes, svf.bytesTotal);
    ghost var t := Foretold(EMPTY_CACHE, seekReads, greedy, 0, []);
    ForetoldMeans(seekReads, greedy, t);
    EachOnce(t);
    assert outcome.AllRead? ==> seekReads[..|received|] == seekReads;
    if t.overlap == [] {
      CanonicalCache(svf.blocks);
    }
  }

  lemma {:induction false} ReadIsLast(was: seq<Block>, now: seq<Block>, d: SeekRead, touch: nat)
    requires ReadFrom(was, now, d, touch)
    ensures ReadLast(now, d, touch + 1)
  {
    var k :| ReadFromAt(was, now, d, touch, k);
    assert now[k].touch == touch && now[k].fpos == was[k].fpos && now[k].data == was[k].data;
  }

  lemma {:induction false} MoreGets(c: Cache, gets: seq<SeekRead>, need: seq<SeekRead>)
    requires c.held == Union(gets)
    ensures AfterWrites(c, need).held == Union(gets + need)
    ensures TotalLength(gets + need) == TotalLength(gets) + TotalLength(need)
    ensures |need| == 1 ==> GotLast(gets + need, c, need[0])
  {
    assert need[..|need|] == need;
    AfterWritesHold(c, need, |need|);
    UnionConcat(gets, need);
    assert |need| == 1 ==> (gets + need)[..|gets|] == gets;
    hide AfterWrites, Union, TotalLength;
  }

  /** What is fetched but once is no longer than what is held. */
  lemma {:induction false} EachOnce(t: Forecast)
    ensures TotalLength(t.gets) == |Union(t.gets)| ==>
              forall i, j, p: nat :: 0 <= i < j < |t.gets| && t.gets[i].Contains(p) ==> !t.gets[j].Contains(p)
  {
    if TotalLength(t.gets) == |Union(t.gets)| {
      NoneTwice(t.gets);
    }
  }

  lemma {:induction false} BesideBytes(bs: seq<Block>, c: Cache, w: SeekRead)
    ensures Beside(bs, c, w) ==> Sum(bs) == |c.held| + w.len
  {
    if Beside(bs, c, w) {
      BesideSum(bs, c, w);
    }
  }

  lemma {:induction false} FreshCache(file: nat -> Byte)
    ensures FileBacked([], file) && CacheOf([]) == EMPTY_CACHE && Disjoint([])
    ensures TotalLength([]) == 0 && Union([]) == {}
  {
    assert Held([]) == {};
    assert SeamsOf([]) == {};
  }

  lemma {:induction false} LengthNext(ds: seq<SeekRead>, n: nat)
    requires n < |ds|
    ensures TotalLength(ds[..n + 1]) == TotalLength(ds[..n]) + ds[n].len
  {
    assert ds[..n + 1][..n] == ds[..n];
  }

  lemma {:induction false} DisjointBytes(bs: seq<Block>)
    ensures Disjoint(bs) ==> Sum(bs) == |CacheOf(bs).held|
  {
    if Disjoint(bs) {
      SumIsHeld(bs);
    }
  }

  lemma {:induction false} CanonicalCache(bs: seq<Block>)
    requires Disjoint(bs)
    ensures CacheOf(bs).held == Held(bs) && (Canonical(bs) <==> CacheOf(bs).seams == {})
  {
    CanonicalHasNoSeams(bs);
  }

  lemma {:induction false} RunOver(now: Cache, c: Cache, w: SeekRead, ds: seq<SeekRead>, greedy: nat, hits: nat,
                                   gets: seq<SeekRead>)
    ensures ds[..|ds|] == ds
    ensures Foretold(now, ds[|ds|..], greedy, hits, gets) == Forecast(AllRead, hits, gets, now, [])
    ensures ForetoldBeside(c, w, ds[|ds|..], hits, gets) == Forecast(AllRead, hits, gets, c, [w])
  {
  }

  /** What is foretold of well-routed runs, and of runs without greed. */
  lemma {:induction false} ForetoldMeans(ds: seq<SeekRead>, greedy: nat, t: Forecast)
    requires Positive(ds) && t == Foretold(EMPTY_CACHE, ds, greedy, 0, [])
    ensures RunRouted({}, ds, greedy) ==> t.outcome.AllRead? && t.cache.seams == {} && t.overlap == []
    ensures (forall i :: 0 <= i < |ds| ==> greedy <= ds[i].len) ==>
              && !t.outcome.MissAfterOverlap? && t.overlap == []
              && t.cache.held == Union(t.gets) && TotalLength(t.gets) == |Union(t.gets)|
              && (t.outcome.AllRead? <==> AllServed(EMPTY_CACHE, ds))
              && (t.outcome.AllRead? ==>
                    && t.cache.held == Union(ds)
                    && t.hits == HitCount(EMPTY_CACHE, ds)
                    && (RunRouted({}, ds, greedy) <==> t.cache.seams == {}))
  {
    hide Foretold, RunRouted, AllServed, HitCount, Union;
    if RunRouted({}, ds, greedy) {
      RoutedEndsWell(EMPTY_CACHE, ds, greedy, 0, []);
    }
    if forall i :: 0 <= i < |ds| ==> greedy <= ds[i].len {
      PlainRun(EMPTY_CACHE, ds, greedy, 0, []);
      NoWrites(EMPTY_CACHE);
      assert {} + Union(ds) == Union(ds) && {} + Union(t.gets) == Union(t.gets);
    }
  }
}
