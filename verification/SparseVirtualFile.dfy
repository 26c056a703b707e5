/** The sparse virtual file: an in-memory cache of parts of a file, as blocks that writes coalesce. */
module SparseVirtualFiles {
  import opened SeekReads
  import opened Blocks
  import opened Writes
  import opened Coalescing
  import opened Differences
  import opened Eviction
  import opened Gaps
  import opened Walks
  import opened Seams

  /** Why a read or an erase throws. */
  datatype Error = EmptyFile | PrecedesFirstBlock | OverrunsBlock | NoSuchBlock

  datatype Result<+T> = Ok(value: T) | Err(error: Error)

  /** Whether a write ran to its end or stopped at bytes that differ from those held. */
  datatype WriteResult = Completed | DataDiffers

  datatype ErrorCondition =
    | ErrorNone
    | ErrorEmptyBlock
    | ErrorAdjacentBlocks
    | ErrorBlocksOverlap
    | ErrorByteCountMismatch
    | ErrorDuplicateBlock
    | ErrorDuplicateBlockTouch

  class SparseVirtualFile {
    const id: string
    const fileModTime: real
    const compareForDiff: bool

    var blocks: seq<Block>
    var bytesTotal: nat
    var blockTouch: nat
    var countWrite: nat
    var countRead: nat
    var bytesWrite: nat
    var bytesRead: nat
    var blocksErased: nat
    var bytesErased: nat
    var blocksPunted: nat
    var bytesPunted: nat

    /** What every operation keeps, even a write that makes blocks overlap, but not one that stops at a
        difference. */
    ghost predicate Inv()
      reads this
    {
      && Keyed(blocks)
      && Touched(blocks, blockTouch)
      && bytesTotal == Sum(blocks)
      && bytesTotal + bytesErased <= bytesWrite
      && |blocks| + blocksErased <= countWrite
      && bytesPunted <= bytesErased
      && blocksPunted <= blocksErased
    }

    ghost predicate Valid()
      reads this
    {
      Inv() && Disjoint(blocks)
    }

    /** A file with the default configuration, which compares. */
    constructor Default(id: string, fileModTime: real)
      ensures Valid() && blocks == [] && blockTouch == 0
      ensures bytesWrite == bytesRead == countWrite == countRead == bytesErased == 0
      ensures this.id == id && this.fileModTime == fileModTime && this.compareForDiff
    {
      this.id, this.fileModTime, this.compareForDiff := id, fileModTime, true;
      blocks, bytesTotal, blockTouch := [], 0, 0;
      countWrite, countRead, bytesWrite, bytesRead := 0, 0, 0, 0;
      blocksErased, bytesErased, blocksPunted, bytesPunted := 0, 0, 0, 0;
    }

    constructor (id: string, fileModTime: real, compareForDiff: bool)
      ensures Valid() && blocks == [] && blockTouch == 0
      ensures bytesWrite == bytesRead == countWrite == countRead == bytesErased == 0
      ensures this.id == id && this.fileModTime == fileModTime && this.compareForDiff == compareForDiff
    {
      this.id, this.fileModTime, this.compareForDiff := id, fileModTime, compareForDiff;
      blocks, bytesTotal, blockTouch := [], 0, 0;
      countWrite, countRead, bytesWrite, bytesRead := 0, 0, 0, 0;
      blocksErased, bytesErased, blocksPunted, bytesPunted := 0, 0, 0, 0;
    }

    // ---- Write ----

    /** Writes a brand new block; the insertion cannot fail. */
    method WriteNewBlock(fpos: nat, data: seq<Byte>)
      requires Keyed(blocks) && !HasKey(blocks, fpos)
      modifies this`blocks, this`bytesTotal, this`blockTouch
      ensures var u := UpperBound(old(blocks), fpos);
              blocks == Splice(old(blocks), u, u, Block(fpos, data, old(blockTouch)))
      ensures bytesTotal == old(bytesTotal) + Sum(blocks) - Sum(old(blocks)) && blockTouch == old(blockTouch) + 1
    {
      SumInsert(blocks, UpperBound(blocks, fpos), Block(fpos, data, blockTouch));
      var newValue := Block(fpos, data, blockTouch);
      blockTouch := blockTouch + 1;
      bytesTotal := bytesTotal + |data|;
      var sizeBeforeInsert := |blocks|;
      blocks := MapInsert(blocks, newValue);
      assert |blocks| == 1 + sizeBeforeInsert;
    }

    /** Pushes new bytes one at a time until they run out or the position reaches bound. */
    method PushNew(newData: seq<Byte>, data: seq<Byte>, d: nat, fpos: nat, bound: nat)
      returns (newData': seq<Byte>, d': nat)
      requires d <= |data|
      modifies this`bytesTotal
      ensures d <= d' <= |data| && newData' == newData + data[d..d']
      ensures d' == |data| || bound <= fpos + d'
      ensures d' == d || fpos + d' <= bound
      ensures bytesTotal == old(bytesTotal) + (d' - d)
    {
      newData', d' := newData, d;
      while d' < |data| && fpos + d' < bound
        invariant d <= d' <= |data| && newData' == newData + data[d..d']
        invariant d' == d || fpos + d' <= bound
        invariant bytesTotal == old(bytesTotal) + (d' - d)
      {
        newData' := newData' + [data[d']];
        d' := d' + 1;
        bytesTotal := bytesTotal + 1;
      }
    }

    /** Pushes src[from..to] one at a time. */
    method PushHeld(newData: seq<Byte>, src: seq<Byte>, from: nat, to: nat) returns (newData': seq<Byte>)
      requires from <= to <= |src|
      ensures newData' == newData + src[from..to]
    {
      newData' := newData;
      for i := from to to
        invariant newData' == newData + src[from..i]
      {
        newData' := newData' + [src[i]];
      }
    }

    /** One turn of the loop of WriteNewAppendOld: pushes new bytes up to block at, checks and
        pushes those that the block holds already, and erases the block; at the end of the write
        it pushes what is left of the block or of the new bytes. */
    method AbsorbIntoNew(at: nat, fpos: nat, data: seq<Byte>, newData: seq<Byte>, d: nat)
      returns (newData': seq<Byte>, d': nat, done: bool, r: WriteResult)
      requires at < |blocks| && d <= |data| && newData == data[..d]
      requires fpos + d <= blocks[at].fpos <= fpos + |data|
      modifies this`blocks, this`bytesTotal
      ensures r.DataDiffers? <==> compareForDiff && FirstDiffers(old(blocks)[at], fpos, data)
      ensures r.DataDiffers? ==>
                && blocks == old(blocks)
                && bytesTotal == old(bytesTotal) + (blocks[at].fpos - fpos - d)
      ensures r.Completed? ==>
                Turned(old(blocks), blocks, at, fpos, data, d, newData', d', done, bytesTotal - old(bytesTotal))
      ensures r.Completed? ==> |blocks| < |old(blocks)|
    {
      hide Turned, FirstDiffers, Throws;
      ghost var was, total := blocks, bytesTotal;
      var iter := blocks[at];
      var start: nat;
      newData', start := PushNew(newData, data, d, fpos, iter.fpos);
      Prefixes(data, d, start);
      var delta := OverlapLength(iter, fpos, data);
      d', done, r := start + delta, false, Completed;
      FirstOfStretch(iter, 0, delta, fpos, data, start);
      if compareForDiff && Throws(iter, 0, delta, data, start, iter, 0) {
        r := DataDiffers;
        return;
      }
      newData' := PushHeld(newData', data, start, d');
      Prefixes(data, start, d');
      blocks := blocks[..at] + blocks[at + 1..];
      if iter.End() > fpos + |data| {
        newData' := PushHeld(newData', iter.data, delta, |iter.data|);
        done := true;
        TurnEndsInBlock(was, blocks, at, fpos, data, d, newData', d', bytesTotal - total);
      } else if at == |blocks| || blocks[at].fpos > fpos + d' + (|data| - d') {
        newData', d' := PushNew(newData', data, d', fpos, fpos + |data|);
        Prefixes(data, start + delta, d');
        done := true;
        TurnEndsBehind(was, blocks, at, fpos, data, d, newData', d', bytesTotal - total);
      } else {
        TurnGoesOn(was, blocks, at, fpos, data, d, newData', d', bytesTotal - total);
      }
    }

    /** Writes a new block and appends to it the block at, which starts within the write, and any
        that follow it within the write. */
    method WriteNewAppendOld(fpos: nat, data: seq<Byte>, at: nat) returns (r: WriteResult)
      requires Disjoint(blocks) && data != []
      requires at < |blocks| && fpos < blocks[at].fpos <= fpos + |data|
      requires forall k :: 0 <= k < at ==> blocks[k].End() < fpos
      modifies this`blocks, this`bytesTotal, this`blockTouch
      ensures blockTouch == old(blockTouch) + 1
      ensures r.DataDiffers? <==> compareForDiff && StopsInFront(old(blocks), at, fpos, data)
      ensures r.DataDiffers? ==>
                StoppedInFront(old(blocks), blocks, at, fpos, data, bytesTotal - old(bytesTotal))
      ensures r.Completed? ==>
                var j := UpperBound(old(blocks), fpos + |data|);
                var b := Prepended(old(blocks), j, fpos, data, old(blockTouch));
                && at <= j && blocks == Splice(old(blocks), at, j, b)
                && bytesTotal == old(bytesTotal) + Sum(blocks) - Sum(old(blocks))
    {
      hide Disjoint, HasPrepended, Turned, PassedInFront, StopsInFront, StoppedInFront, FirstDiffers, Prepended,
           Splice, MapInsert, UpperBound, Sum;
      ghost var was, total := blocks, bytesTotal;
      var touch := blockTouch;
      blockTouch := blockTouch + 1;
      var d: nat, done := 0, false;
      var newData: seq<Byte> := [];
      ghost var m: nat := at;
      PrependStarts(was, at, fpos, data);
      NonePassed(was, at, fpos, data);
      while !done
        invariant blockTouch == touch + 1
        invariant done ==> HasPrepended(was, blocks, at, m, fpos, data, newData, bytesTotal - total)
        invariant !done ==> Prepending(was, blocks, at, m, fpos, data, d, newData, bytesTotal - total)
        invariant compareForDiff ==> PassedInFront(was, at, m, fpos, data)
        decreases if done then 0 else 1 + |blocks|
      {
        ghost var now, d0, newData0, gained := blocks, d, newData, bytesTotal - total;
        if compareForDiff {
          TurnCompares(was, now, at, m, fpos, data, d, newData, gained);
        }
        newData, d, done, r := AbsorbIntoNew(at, fpos, data, newData, d);
        if r.DataDiffers? {
          return;
        }
        TurnKeeps(was, now, blocks, at, m, fpos, data, d0, newData0, gained, newData, d, done,
                  bytesTotal - total - gained);
        m := m + 1;
      }
      PrependInserts(was, blocks, at, m, fpos, data, newData, bytesTotal - total, touch);
      if compareForDiff {
        AllPassedInFront(was, at, m, fpos, data);
      }
      blocks := MapInsert(blocks, Block(fpos, newData, touch));
      r := Completed;
    }

    /** Pushes new bytes one at a time onto block at until they run out or the position reaches
        bound. */
    method PushNewOnto(at: nat, data: seq<Byte>, d: nat, fpos: nat, bound: nat) returns (d': nat)
      requires at < |blocks| && d <= |data|
      modifies this`blocks, this`bytesTotal
      ensures d <= d' <= |data|
      ensures d' == |data| || bound <= fpos + d'
      ensures d' == d || fpos + d' <= bound
      ensures blocks == old(blocks)[at := old(blocks)[at].(data := old(blocks)[at].data + data[d..d'])]
      ensures bytesTotal == old(bytesTotal) + (d' - d)
    {
      d' := d;
      while d' < |data| && fpos + d' < bound
        invariant d <= d' <= |data|
        invariant d' == d || fpos + d' <= bound
        invariant |blocks| == |old(blocks)| && blocks[at].data == old(blocks)[at].data + data[d..d']
        invariant blocks == old(blocks)[at := old(blocks)[at].(data := blocks[at].data)]
        invariant bytesTotal == old(bytesTotal) + (d' - d)
      {
        blocks := blocks[at := blocks[at].(data := blocks[at].data + [data[d']])];
        d' := d' + 1;
        bytesTotal := bytesTotal + 1;
      }
    }

    /** Pushes src[from..to] one at a time onto block at. */
    method PushHeldOnto(at: nat, src: seq<Byte>, from: nat, to: nat)
      requires at < |blocks| && from <= to <= |src|
      modifies this`blocks
      ensures blocks == old(blocks)[at := old(blocks)[at].(data := old(blocks)[at].data + src[from..to])]
    {
      for i := from to to
        invariant |blocks| == |old(blocks)| && blocks[at].data == old(blocks)[at].data + src[from..i]
        invariant blocks == old(blocks)[at := old(blocks)[at].(data := blocks[at].data)]
      {
        blocks := blocks[at := blocks[at].(data := blocks[at].data + [src[i]])];
      }
    }

    /** The part of a turn of the loop of WriteAppendNewToOld that deals with the next block, which
        block at now reaches: checks and pushes what it holds already, then what is left of it if the
        write ends there, and erases it. A difference is looked for in the first byte of block at. */
    method AbsorbNext(at: nat, fpos: nat, data: seq<Byte>, start: nat) returns (d': nat, r: WriteResult)
      requires at + 1 < |blocks| && start <= |data| && fpos + start == blocks[at + 1].fpos
      requires blocks[at].data != []
      modifies this`blocks
      ensures r.DataDiffers? <==>
                compareForDiff && StopsBehind(old(blocks)[at], old(blocks)[at + 1], fpos, data)
      ensures r.DataDiffers? ==> blocks == old(blocks)
      ensures r.Completed? ==>
                && start <= d' <= |data|
                && d' == start + OverlapLength(old(blocks)[at + 1], fpos, data)
                && blocks == Absorbed(old(blocks), at, fpos, data, start)
    {
      hide Splice, StopsBehind, Absorbed, Throws;
      r := Completed;
      ghost var was := blocks;
      var next := blocks[at + 1];
      var lenCheck := if |data| - start < next.End() - (fpos + start) then |data| - start
                      else next.End() - (fpos + start);
      d' := start + lenCheck;
      StretchStops(blocks[at], next, fpos, data);
      PushedNothing(was, at, data, start);
      if lenCheck != 0 {
        if compareForDiff && Throws(next, 0, lenCheck, data, start, blocks[at], 0) {
          r := DataDiffers;
          return;
        }
        PushHeldOnto(at, data, start, d');
      }
      assert blocks == was[at := was[at].(data := was[at].data + data[start..d'])];
      ghost var copied := blocks;
      if d' == |data| {
        PushHeldOnto(at, next.data, lenCheck, |next.data|);
      }
      AbsorbedIs(was, copied, blocks, at, fpos, data, start, d');
      blocks := blocks[..at + 1] + blocks[at + 2..];
    }

    /** One turn of the loop of WriteAppendNewToOld: pushes new bytes up to the next block, if there
        is one within the write, and absorbs it. */
    method AbsorbIntoBase(at: nat, fpos: nat, data: seq<Byte>, d: nat)
      returns (d': nat, done: bool, r: WriteResult)
      requires at < |blocks| && d < |data| && blocks[at].End() == fpos + d && blocks[at].data != []
      requires at + 1 < |blocks| ==> blocks[at].End() <= blocks[at + 1].fpos
      modifies this`blocks, this`bytesTotal
      ensures r.DataDiffers? <==>
                && compareForDiff
                && !AtLast(old(blocks), at, fpos + |data|)
                && StopsBehind(old(blocks)[at], old(blocks)[at + 1], fpos, data)
      ensures r.DataDiffers? ==>
                var base, start := old(blocks)[at], old(blocks)[at + 1].fpos - fpos;
                && d <= start <= |data|
                && blocks == old(blocks)[at := base.(data := base.data + data[d..start])]
                && bytesTotal == old(bytesTotal) + (start - d)
      ensures r.Completed? ==>
                AppendTurned(old(blocks), blocks, at, fpos, data, d, d', done, bytesTotal - old(bytesTotal))
      ensures r.Completed? && !done ==> |blocks| < |old(blocks)|
    {
      hide AppendTurned, StopsBehind, Absorbed, OverlapLength;
      ghost var was, total := blocks, bytesTotal;
      done, r := true, Completed;
      if at + 1 == |blocks| {
        d' := PushNewOnto(at, data, d, fpos, fpos + |data|);
        AppendTurnRunsOut(was, blocks, at, fpos, data, d, d', bytesTotal - total);
        return;
      }
      var next := blocks[at + 1];
      var start := PushNewOnto(at, data, d, fpos, next.fpos);
      if start == |data| && fpos + start < next.fpos {
        d' := start;
        AppendTurnRunsOut(was, blocks, at, fpos, data, d, d', bytesTotal - total);
        return;
      }
      GrownStops(was[at], blocks[at], next, fpos, data);
      ghost var grown := blocks;
      d', r := AbsorbNext(at, fpos, data, start);
      if r.DataDiffers? {
        return;
      }
      AppendTurnAbsorbs(was, grown, blocks, at, fpos, data, d, start, d', bytesTotal - total);
      done := d' == |data|;
    }

    /** Appends new bytes to block at, which the write starts inside or right after, and absorbs
        the blocks that follow within the write. */
    method WriteAppendNewToOld(fpos: nat, data: seq<Byte>, at: nat) returns (r: WriteResult)
      requires Disjoint(blocks) && data != []
      requires at < |blocks| && blocks[at].fpos <= fpos <= blocks[at].End()
      modifies this`blocks, this`bytesTotal, this`blockTouch
      ensures r.DataDiffers? <==> compareForDiff && StopsAppending(old(blocks), at, fpos, data)
      ensures r.DataDiffers? && FirstDiffers(old(blocks)[at], fpos, data) ==> unchanged(this)
      ensures r.DataDiffers? && !FirstDiffers(old(blocks)[at], fpos, data) ==>
                && blockTouch == old(blockTouch)
                && StoppedBehind(old(blocks), blocks, at, fpos, data, bytesTotal - old(bytesTotal))
      ensures r.Completed? ==> blockTouch == old(blockTouch) + 1
      ensures r.Completed? ==>
                var j := AppendReach(old(blocks), at, fpos, data);
                var b := AppendResult(old(blocks), at, fpos, data, old(blockTouch));
                && at < j && blocks == Splice(old(blocks), at, j, b)
                && bytesTotal == old(bytesTotal) + Sum(blocks) - Sum(old(blocks))
    {
      hide Disjoint, HasAppended, AppendTurned, Throws, PassedBehind, StopsAppending, StopsBehind, StoppedBehind,
           FirstDiffers, ReachFromBase, Sum, Splice, AppendReach, AppendResult, Appending, AtLast, OverlapLength;
      ghost var was, total := blocks, bytesTotal;
      var base := blocks[at];
      var index := fpos - base.fpos;
      var d: nat := if |data| < |base.data| - index then |data| else |base.data| - index;
      FirstOfStretch(base, index, d, fpos, data, 0);
      if compareForDiff && Throws(base, index, d, data, 0, base, index) {
        BaseStops(was, at, fpos, data);
        return DataDiffers;
      }
      var done := d == |data|;
      ghost var m: nat := at + 1;
      if compareForDiff {
        BasePasses(was, at, fpos, data);
      }
      if !done {
        AppendStarts(was, at, fpos, data);
      }
      while !done
        invariant blockTouch == old(blockTouch)
        invariant fpos + |data| <= base.End() ==> done && blocks == was && bytesTotal == total && m == at + 1
        invariant base.End() < fpos + |data| && done ==>
                    HasAppended(was, blocks, at, m, fpos, data, bytesTotal - total)
        invariant !done ==> Appending(was, blocks, at, m, fpos, data, d, bytesTotal - total)
        invariant compareForDiff ==> PassedBehind(was, at, m, fpos, data)
        decreases if done then 0 else 1 + |blocks|
      {
        ghost var now, d0, gained := blocks, d, bytesTotal - total;
        AppendTurnStands(was, now, at, m, fpos, data, d, gained);
        if compareForDiff {
          AppendTurnCompares(was, now, at, m, fpos, data, d, gained);
        }
        d, done, r := AbsorbIntoBase(at, fpos, data, d);
        if r.DataDiffers? {
          AppendStops(was, now, blocks, at, m, fpos, data, d0, gained);
          return;
        }
        AppendTurnKeeps(was, now, blocks, at, m, fpos, data, d0, gained, d, done, bytesTotal - total - gained);
        m := NextBlock(now, at, m, fpos + |data|);
      }
      AppendFinishes(was, blocks, at, m, fpos, data, bytesTotal - total, blockTouch);
      if compareForDiff {
        AllPassedBehind(was, at, m, fpos, data);
      }
      blocks := blocks[at := blocks[at].(touch := blockTouch)];
      blockTouch := blockTouch + 1;
      r := Completed;
    }

    /** Writes data at fpos. */
    method Write(fpos: nat, data: seq<Byte>) returns (r: WriteResult)
      requires Inv() && data != [] && (Disjoint(blocks) || !MeetsBlock(blocks, fpos, |data|))
      modifies this`blocks, this`bytesTotal, this`blockTouch, this`countWrite, this`bytesWrite
      ensures r.DataDiffers? <==> compareForDiff && Stops(old(blocks), fpos, data)
      ensures r.DataDiffers? ==>
                && countWrite == old(countWrite) && bytesWrite == old(bytesWrite)
                && blockTouch == old(blockTouch) + (if HasBase(old(blocks), fpos) then 0 else 1)
                && Stopped(old(blocks), blocks, fpos, data, bytesTotal - old(bytesTotal))
      ensures r.Completed? ==>
                && Inv()
                && blocks == Writes.Written(old(blocks), fpos, data, old(blockTouch))
                && blockTouch == old(blockTouch) + 1
                && countWrite == old(countWrite) + 1
                && bytesWrite == old(bytesWrite) + |data|
    {
      hide Disjoint, Written, UpperBound, AppendReach, AppendResult, Prepended, Keyed, Touched, Sum, Splice,
           Misrouted, HasKey, MeetsBlock, Stops, Stopped, StopsAppending, StopsInFront, StoppedBehind, StoppedInFront,
           FirstDiffers;
      RouteMeans(blocks, fpos, data, blockTouch);
      RouteStops(blocks, fpos, data);
      ghost var was := blocks;
      if |blocks| == 0 || fpos > blocks[|blocks| - 1].End() {
        WriteNewBlock(fpos, data);
      } else {
        var iter := UpperBound(blocks, fpos);
        if iter != 0 {
          iter := iter - 1;
        }
        if blocks[iter].fpos > fpos {
          if blocks[iter].fpos <= fpos + |data| {
            r := WriteNewAppendOld(fpos, data, iter);
            if r.DataDiffers? {
              RouteStopped(was, blocks, fpos, data, bytesTotal - old(bytesTotal));
              return;
            }
          } else {
            WriteNewBlock(fpos, data);
          }
        } else if fpos > blocks[iter].End() {
          WriteNewBlock(fpos, data);
        } else {
          r := WriteAppendNewToOld(fpos, data, iter);
          if r.DataDiffers? {
            RouteStopped(was, blocks, fpos, data, bytesTotal - old(bytesTotal));
            return;
          }
        }
      }
      assert bytesTotal == Sum(blocks);
      WrittenAccounts(was, fpos, data, old(blockTouch));
      countWrite := countWrite + 1;
      bytesWrite := bytesWrite + |data|;
      r := Completed;
    }

    // ---- Read ----

    /** Whether all of the request is here. */
    predicate Has(fpos: nat, len: nat)
      reads this
      requires Keyed(blocks)
      ensures Disjoint(blocks) ==> (Has(fpos, len) <==> Spanned(blocks, fpos, len))
      ensures Has(fpos, len) <==>
                exists k :: 0 <= k < |blocks| && blocks[k].fpos <= fpos && fpos + len <= blocks[k].End() &&
                  (k + 1 < |blocks| ==> fpos < blocks[k + 1].fpos)
    {
      var u := UpperBound(blocks, fpos);
      var iter := if u != 0 then u - 1 else u;
      HasMeans(blocks, fpos, len, iter);
      |blocks| != 0 && blocks[iter].fpos <= fpos && fpos + len <= blocks[iter].End()
    }

    /** Reads a request that Has allows, and only such a one. */
    method Read(fpos: nat, len: nat) returns (r: Result<seq<Byte>>)
      requires Inv()
      modifies this`blocks, this`blockTouch, this`bytesRead, this`countRead
      ensures Inv()
      ensures r.Ok? <==> old(Has(fpos, len))
      ensures r.Ok? ==>
                var k := UpperBound(old(blocks), fpos) - 1;
                && 0 <= k && old(blocks)[k].fpos <= fpos && fpos + len <= old(blocks)[k].End()
                && r.value == old(blocks)[k].data[fpos - old(blocks)[k].fpos..][..len]
                && blocks == old(blocks)[k := old(blocks)[k].(touch := old(blockTouch))]
                && blockTouch == old(blockTouch) + 1
                && bytesRead == old(bytesRead) + len && countRead == old(countRead) + 1
      ensures r.Err? ==>
                && unchanged(this)
                && r.error == (if blocks == [] then EmptyFile
                               else if fpos < blocks[0].fpos then PrecedesFirstBlock else OverrunsBlock)
      ensures Shape(blocks) == old(Shape(blocks))
      ensures old(Valid()) ==> Valid() && Content(blocks) == old(Content(blocks))
      ensures old(Valid()) && r.Ok? ==>
                |r.value| == len && IsSlice(Content(blocks), fpos, r.value)
    {
      hide Disjoint, Content, IsSlice, Touched, Sum, Shape, UpperBound, LowerBound, Keyed;
      if |blocks| == 0 {
        return Err(EmptyFile);
      }
      var iter := LowerBound(blocks, fpos);
      LowerMeetsUpper(blocks, fpos);
      if iter == 0 && blocks[iter].fpos != fpos {
        return Err(PrecedesFirstBlock);
      }
      var offset := 0;
      if iter == |blocks| || blocks[iter].fpos != fpos {
        iter := iter - 1;
        offset := fpos - blocks[iter].fpos;
      }
      if offset + len > |blocks[iter].data| {
        return Err(OverrunsBlock);
      }
      r := Ok(blocks[iter].data[offset..][..len]);
      ReadKeeps(blocks, iter, blockTouch, fpos, len);
      blocks := blocks[iter := blocks[iter].(touch := blockTouch)];
      blockTouch := blockTouch + 1;
      bytesRead := bytesRead + len;
      countRead := countRead + 1;
    }

    /** The blocks as (position, length) pairs in order. */
    method BlockList() returns (ret: seq<SeekRead>)
      ensures ret == Extents(blocks)
    {
      ret := [];
      for i := 0 to |blocks|
        invariant ret == Extents(blocks)[..i]
      {
        ret := ret + [SeekRead(blocks[i].fpos, |blocks[i].data|)];
      }
    }

    /** The scan over neighbouring blocks for what must never be. The set of touches that it looks
        in is never filled. */
    method Integrity() returns (r: ErrorCondition)
      requires KeysIncrease(blocks)
      ensures r.ErrorNone? <==> Canonical(blocks) && Sum(blocks) == bytesTotal
      ensures r.ErrorEmptyBlock? ==> exists k :: 0 <= k < |blocks| && blocks[k].data == []
      ensures r.ErrorAdjacentBlocks? ==> exists k :: 0 < k < |blocks| && IsSeam(blocks, k)
      ensures r.ErrorBlocksOverlap? ==> exists k :: 0 < k < |blocks| && blocks[k].fpos < blocks[k - 1].End()
      ensures r.ErrorByteCountMismatch? ==> Canonical(blocks) && Sum(blocks) != bytesTotal
      ensures !r.ErrorDuplicateBlock? && !r.ErrorDuplicateBlockTouch?
      ensures !r.ErrorNone? && !r.ErrorByteCountMismatch? ==>
                exists k ::
                  && 0 <= k < |blocks| && Canonical(blocks[..k])
                  && (r.ErrorEmptyBlock? <==> blocks[k].data == [])
                  && (r.ErrorAdjacentBlocks? ==> k > 0 && blocks[k - 1].End() == blocks[k].fpos)
                  && (r.ErrorBlocksOverlap? ==> k > 0 && blocks[k - 1].End() > blocks[k].fpos)
    {
      hide Canonical, Sum;
      var prevFpos, prevSize, byteCount := 0, 0, 0;
      var blockTouches: set<nat> := {};
      NoBlocks();
      for iter := 0 to |blocks|
        invariant Canonical(blocks[..iter]) && byteCount == Sum(blocks[..iter])
        invariant iter > 0 ==> prevFpos == blocks[iter - 1].fpos && prevSize == |blocks[iter - 1].data|
        invariant blockTouches == {}
      {
        CanonicalPrefix(blocks, iter);
        if Canonical(blocks) {
          CanonicalPrefixes(blocks, iter + 1);
        }
        var size := |blocks[iter].data|;
        if size == 0 {
          return ErrorEmptyBlock;
        }
        if iter != 0 {
          if prevFpos == blocks[iter].fpos && prevSize == size {
            return ErrorDuplicateBlock;
          }
          if prevFpos + prevSize == blocks[iter].fpos {
            assert IsSeam(blocks, iter);
            return ErrorAdjacentBlocks;
          }
          if prevFpos + prevSize > blocks[iter].fpos {
            return ErrorBlocksOverlap;
          }
        }
        if blocks[iter].touch in blockTouches {
          return ErrorDuplicateBlockTouch;
        }
        prevFpos := blocks[iter].fpos;
        prevSize := size;
        byteCount := byteCount + prevSize;
      }
      assert blocks[..|blocks|] == blocks;
      if byteCount != bytesTotal {
        return ErrorByteCountMismatch;
      }
      return ErrorNone;
    }

    // ---- Need ----

    /** What must be fetched before a request can be read. Where blocks overlap the answer can be wrong. */
    method Need(fpos: nat, len: nat, greedy: nat) returns (ret: seq<SeekRead>)
      requires Keyed(blocks)
      ensures WalksWell(blocks, fpos, len) ==> NeedAnswer(ret, blocks, fpos, len, greedy)
      ensures greedy <= len && StartsClean(blocks, fpos) && NeedAnswer(ret, blocks, fpos, len, greedy) ==>
                WalksWell(blocks, fpos, len)
      ensures blocks != [] ==>
                ret == if greedy <= len then Walk(blocks, fpos, len) else MergeAll(Walk(blocks, fpos, len), greedy)
      ensures Disjoint(blocks) ==> NeedAnswer(ret, blocks, fpos, len, greedy)
      ensures Disjoint(blocks) && 0 < len && greedy <= len ==>
                && Separated(ret)
                && forall p :: Covered(ret, p) <==> fpos <= p < fpos + len && !InSome(blocks, p)
      ensures Disjoint(blocks) && len < greedy ==>
                && (forall k :: 0 <= k < |ret| ==> greedy <= ret[k].len)
                && forall p :: fpos <= p < fpos + len && !InSome(blocks, p) ==> Covered(ret, p)
      ensures len == 0 ==> ret == if blocks == [] || fpos < blocks[0].fpos then [SeekRead(fpos, greedy)] else []
    {
      hide Disjoint, Keyed, MissingRuns, MergeOf, UpperBound, CatchesUp, Walk, StartsClean, OverlapsBeforeGap,
           Separated, InSome, Covered;
      if Disjoint(blocks) {
        DisjointIsClean(blocks, fpos, len);
      }
      if |blocks| == 0 {
        ret := [SeekRead(fpos, if greedy > len then greedy else len)];
        NeedOfNothing(fpos, len, greedy, ret);
        AnswerMeans(ret, blocks, fpos, len, greedy);
        return;
      }
      ret := NeedRuns(fpos, len);
      ghost var runs := ret;
      if greedy != 0 && greedy > len && ret != [] {
        ret := MinimiseSeekReads(ret, greedy);
        if len == 0 {
          MergeOfOneRun(runs[0], greedy);
        } else if WalksWell(blocks, fpos, len) {
          RunsCatchUp(runs, blocks, fpos, len);
        }
      } else if greedy > len && len > 0 {
        NothingMerged(greedy);
      }
      if WalksWell(blocks, fpos, len) {
        AnswerMeans(ret, blocks, fpos, len, greedy);
      }
    }

    /** The walk of Need over the blocks. Positions and lengths are size_t values; rest is what is left of the
        request, less than nothing once the walk has overshot its end. */
    method NeedRuns(fpos: nat, len: nat) returns (ret: seq<SeekRead>)
      requires Keyed(blocks) && blocks != []
      ensures ret == Walk(blocks, fpos, len) && Wraps(ret, fpos + len)
      ensures len > 0 && StartsClean(blocks, fpos) ==>
                (MissingRuns(ret, blocks, fpos, len) <==> !OverlapsBeforeGap(blocks, fpos, len))
      ensures len == 0 ==> ret == if UpperBound(blocks, fpos) == 0 then [SeekRead(fpos, 0)] else []
    {
      hide Keyed, Disjoint, MissingRuns, UpperBound, StartsClean, OverlapsBeforeGap, Walk, WalkFrom, Wraps;
      var p: nat, rest: int, fposTo := fpos, len, fpos + len;
      ret := [];
      var iter: nat := UpperBound(blocks, fpos);
      if iter == 0 {
        if p + rest <= blocks[iter].fpos {
          ret := ret + [SeekRead(p, rest)];
          p := p + rest;
          rest := 0;
        }
      } else {
        var lastFpos := blocks[iter - 1].End();
        if p < lastFpos {
          p := if fposTo < lastFpos then fposTo else lastFpos;
          rest := rest - (if rest < lastFpos - fpos then rest else lastFpos - fpos);
        }
      }
      FirstStep(blocks, fpos, len, iter, p, rest, ret);
      ghost var left := if rest == 0 then [] else WalkFrom(blocks, iter, p, fposTo);
      while rest != 0
        invariant p + rest == fposTo && iter <= |blocks|
        invariant Walk(blocks, fpos, len) == ret + left
        invariant left == if rest == 0 then [] else WalkFrom(blocks, iter, p, fposTo)
        invariant Disjoint(blocks) && rest != 0 ==> rest > 0 && (iter < |blocks| ==> p <= blocks[iter].fpos)
        decreases |blocks| - iter, if rest == 0 then 0 else 1
      {
        if iter == |blocks| || p + rest <= blocks[iter].fpos {
          LastStep(ret, blocks, iter, p, fposTo);
          ret := ret + [SeekRead(p, AsSize(rest))];
          p := p + rest;
          rest, left := 0, [];
          break;
        }
        ghost var before, from := ret, p;
        WalkStep(ret, blocks, iter, p, fposTo);
        NextFollows(blocks, iter);
        if p < blocks[iter].fpos {
          assert rest >= blocks[iter].fpos - p;
          var bytesAdded := blocks[iter].fpos - p;
          ret := ret + [SeekRead(p, bytesAdded)];
          rest := rest - bytesAdded;
          p := p + bytesAdded;
        }
        assert ret == UpToBlock(before, from, blocks[iter]);
        assert Disjoint(blocks) ==> p == blocks[iter].fpos;
        if p + rest <= blocks[iter].End() {
          p := p + rest;
          rest, left := 0, [];
          break;
        } else {
          p := p + |blocks[iter].data|;
          rest := rest - |blocks[iter].data|;
        }
        assert Disjoint(blocks) ==> p == blocks[iter].End() && rest > 0;
        iter := iter + 1;
        left := if rest == 0 then [] else WalkFrom(blocks, iter, p, fposTo);
      }
      assert p == fposTo && rest == 0 && ret + [] == ret;
      WholeWalk(blocks, fpos, len);
    }

    /** What must be fetched before all of the requests can be read; sorts the requests. */
    method NeedMany(seekReads: seq<SeekRead>, greedy: nat) returns (sorted: seq<SeekRead>, ret: seq<SeekRead>)
      requires Keyed(blocks)
      ensures multiset(sorted) == multiset(seekReads)
      ensures forall i, j :: 0 <= i < j < |sorted| ==>
                && sorted[i].fpos <= sorted[j].fpos
                && (sorted[i].fpos == sorted[j].fpos ==> sorted[i].len <= sorted[j].len)
      ensures Positive(seekReads) && AllWalkWell(blocks, seekReads) ==>
                && NeedManyAnswer(ret, blocks, seekReads, greedy)
                && (greedy == 0 ==> MissingOfAll(ret, blocks, seekReads))
      ensures Disjoint(blocks) ==> AllWalkWell(blocks, seekReads)
      ensures ret == MergeAll(if blocks == [] then sorted else WalkEach(blocks, sorted), greedy)
    {
      hide Disjoint, Keyed, WalksWell, StartsClean, Walk, MergeAll, MergeOf, CatchesUp, SortedByPair, Separated, InSome;
      sorted := Sort(seekReads);
      SortedRequests(seekReads, sorted);
      ghost var found := sorted;
      if |blocks| == 0 {
        ret := MinimiseSeekReads(sorted, greedy);
        NothingHeld(blocks, sorted);
      } else {
        var needed: seq<SeekRead> := [];
        GatherNothing(blocks, sorted);
        for n := 0 to |sorted|
          invariant Positive(seekReads) && AllWalkWell(blocks, sorted) ==> Gathered(needed, blocks, sorted, n)
          invariant needed == WalkEach(blocks, sorted[..n])
        {
          var runs := Need(sorted[n].fpos, sorted[n].len, 0);
          WalkEachNext(blocks, sorted, n);
          if Positive(seekReads) && AllWalkWell(blocks, sorted) {
            assert sorted[n].len > 0;
            GatherMore(needed, runs, blocks, sorted, n);
          }
          needed := needed + runs;
        }
        ret := MinimiseSeekReads(needed, greedy);
        assert sorted[..|sorted|] == sorted;
        found := needed;
      }
      DisjointWalkWell(blocks, seekReads);
      SameWalkWell(blocks, seekReads, sorted);
      if Positive(seekReads) && AllWalkWell(blocks, seekReads) {
        FoundForRequests(found, blocks, seekReads, sorted);
        MergeOfFound(found, blocks, seekReads, greedy, ret);
      }
    }

    // ---- Erase and punt ----

    /** Removes everything and resets the counters. */
    method Clear()
      modifies this
      ensures Valid() && blocks == [] && blockTouch == 0
      ensures bytesTotal == bytesWrite == bytesRead == countWrite == countRead == 0
      ensures bytesErased == blocksErased == bytesPunted == blocksPunted == 0
    {
      NoBlocks();
      hide Keyed, Disjoint, Sum, Touched;
      blocks, bytesTotal, blockTouch := [], 0, 0;
      countWrite, countRead, bytesWrite, bytesRead := 0, 0, 0, 0;
      blocksErased, bytesErased, blocksPunted, bytesPunted := 0, 0, 0, 0;
    }

    /** Removes the block that starts at fpos. */
    method Erase(fpos: nat) returns (r: Result<nat>)
      requires Inv()
      modifies this`blocks, this`bytesTotal, this`blocksErased, this`bytesErased
      ensures Inv()
      ensures r.Ok? <==> exists k :: 0 <= k < |old(blocks)| && old(blocks)[k].fpos == fpos
      ensures r.Err? ==> r.error == NoSuchBlock && unchanged(this)
      ensures r.Ok? ==>
                var k := UpperBound(old(blocks), fpos) - 1;
                && 0 <= k && old(blocks)[k].fpos == fpos
                && blocks == old(blocks)[..k] + old(blocks)[k + 1..]
                && r.value == |old(blocks)[k].data|
                && bytesTotal == old(bytesTotal) - r.value
                && blocksErased == old(blocksErased) + 1 && bytesErased == old(bytesErased) + r.value
      ensures old(Disjoint(blocks)) ==> Disjoint(blocks)
      ensures old(Canonical(blocks)) ==> Canonical(blocks)
    {
      hide Keyed, Touched, Disjoint, Canonical, Sum, HasKey, UpperBound;
      KeyMeans(blocks, fpos);
      if !HasKey(blocks, fpos) {
        return Err(NoSuchBlock);
      }
      KeyIsFound(blocks, fpos);
      var iter: nat := UpperBound(blocks, fpos) - 1;
      var size := |blocks[iter].data|;
      EraseKeeps(blocks, iter, blockTouch);
      EraseAccounts(blocks, iter);
      bytesTotal := bytesTotal - size;
      blocks := blocks[..iter] + blocks[iter + 1..];
      blocksErased := blocksErased + 1;
      bytesErased := bytesErased + size;
      r := Ok(size);
    }

    /** Which block each touch is of. */
    method BlockTouches() returns (ret: map<nat, nat>)
      requires Inv()
      ensures ret.Keys == Touches(blocks) && Locates(ret, blocks)
      ensures forall t :: t in ret <==> exists k :: 0 <= k < |blocks| && blocks[k].touch == t
      ensures forall k :: 0 <= k < |blocks| ==> blocks[k].touch in ret && ret[blocks[k].touch] == blocks[k].fpos
      ensures |ret| == |blocks|
    {
      hide Touches, Locates, Sum, Keyed;
      ret := map[];
      for i := 0 to |blocks|
        invariant forall k :: 0 <= k < i ==> blocks[k].touch in ret && ret[blocks[k].touch] == blocks[k].fpos
        invariant forall t :: t in ret ==> exists k :: 0 <= k < i && blocks[k].touch == t
        invariant |ret| == i
      {
        assert blocks[i].touch !in ret;
        ret := ret[blocks[i].touch := blocks[i].fpos];
      }
      AllLocated(ret, blocks);
    }

    /** One turn of the loop of LruPunt: erases the block with the least touch, which is there. */
    method PuntOldest(touchFposMap: map<nat, nat>, t: nat, ghost was: seq<Block>, ghost bound: nat, ghost cut: nat)
      returns (size: nat)
      requires Inv() && Locates(touchFposMap, blocks)
      requires Punting(was, bound, blocks, cut) && TooMuch(blocks, bound)
      requires t in Touches(blocks) && forall u :: u in Touches(blocks) ==> t <= u
      modifies this`blocks, this`bytesTotal, this`blocksErased, this`bytesErased, this`blocksPunted
      ensures Inv() && Locates(touchFposMap, blocks)
      ensures Punting(was, bound, blocks, t + 1) && Touches(blocks) == old(Touches(blocks)) - {t}
      ensures |blocks| == |old(blocks)| - 1 && bytesTotal == old(bytesTotal) - size
      ensures bytesErased == old(bytesErased) + size
      ensures blocksErased == old(blocksErased) + 1 && blocksPunted == old(blocksPunted) + 1
      ensures old(Disjoint(blocks)) ==> Disjoint(blocks)
      ensures old(Canonical(blocks)) ==> Canonical(blocks)
    {
      hide Keyed, Touched, Disjoint, Canonical, Sum, Punting, Touches, Locates, TooMuch, UpperBound;
      PuntTurn(was, bound, blocks, cut, blockTouch, t, touchFposMap);
      var r := Erase(touchFposMap[t]);
      size := r.value;
      blocksPunted := blocksPunted + 1;
    }

    /** Erases the least recently touched blocks until the rest is below the bound or one block
        is left. */
    method LruPunt(bound: nat) returns (ret: nat)
      requires Inv()
      modifies this`blocks, this`bytesTotal, this`blocksErased, this`bytesErased, this`blocksPunted, this`bytesPunted
      ensures Inv()
      ensures Punted(old(blocks), bound, blocks)
      ensures |blocks| > 1 ==> bytesTotal < bound
      ensures |old(blocks)| <= 1 || old(bytesTotal) < bound ==> blocks == old(blocks)
      ensures old(blocks) != [] ==> blocks != []
      ensures exists t :: TouchedSince(old(blocks), blocks, t)
      ensures forall t :: |KeepFrom(old(blocks), t)| > |blocks| ==> bound <= Sum(KeepFrom(old(blocks), t))
      ensures ret == old(bytesTotal) - bytesTotal
      ensures bytesPunted == old(bytesPunted) + ret && bytesErased == old(bytesErased) + ret
      ensures blocksPunted - old(blocksPunted) == blocksErased - old(blocksErased) == |old(blocks)| - |blocks|
      ensures old(Disjoint(blocks)) ==> Disjoint(blocks)
      ensures old(Canonical(blocks)) ==> Canonical(blocks)
    {
      hide Keyed, Touched, Disjoint, Canonical, Sum, Punting, Touches, Locates, KeepFrom, TouchedSince, Punted,
           UpperBound;
      ret := 0;
      ghost var was, total, punted, erased, cut: nat := blocks, bytesTotal, bytesPunted, bytesErased, 0;
      ghost var disjoint, canonical := Disjoint(blocks), Canonical(blocks);
      PuntStarts(was, bound);
      if |blocks| > 1 && bytesTotal >= bound {
        var touchFposMap := BlockTouches();
        var pending := touchFposMap.Keys;
        while pending != {}
          invariant Inv() && bytesPunted == punted
          invariant pending == Touches(blocks) && Locates(touchFposMap, blocks)
          invariant Punting(was, bound, blocks, cut)
          invariant ret == total - bytesTotal == bytesErased - erased
          invariant blocksPunted - old(blocksPunted) == blocksErased - old(blocksErased) == |was| - |blocks|
          invariant disjoint ==> Disjoint(blocks)
          invariant canonical ==> Canonical(blocks)
          decreases pending
        {
          if !(|blocks| > 1 && bytesTotal >= bound) {
            break;
          }
          ghost var least := LeastExists(pending);
          var t: nat :| t in pending && forall u :: u in pending ==> t <= u;
          var size := PuntOldest(touchFposMap, t, was, bound, cut);
          ret := ret + size;
          pending := pending - {t};
          cut := t + 1;
        }
        if pending == {} {
          NoTouchesNoBlocks(blocks);
        }
      }
      bytesPunted := bytesPunted + ret;
      PuntEnds(was, bound, blocks, cut);
      PuntedMeans(was, bound, blocks);
    }
  }
}
