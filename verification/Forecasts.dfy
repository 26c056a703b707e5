/** What a run of demands comes to, foretold from the positions held and the seams alone. */
module Forecasts {
  import opened SeekReads
  import opened Blocks
  import opened Writes
  import opened Gaps
  import opened Seams
  import opened Demands
  import opened Routing

  /** How a run ends: all demands served, the data still missing after it was fetched, or at the first miss
      in a file whose blocks overlap, from where on it is not followed. */
  datatype Outcome = AllRead | DataMissing | MissAfterOverlap

  // ---- Writes ----

  ghost function AfterWrite(c: Cache, w: SeekRead): Cache {
    Cache(c.held + Interval(w.fpos, w.len), SeamsAfterWrite(c.held, c.seams, w.fpos, w.len))
  }

  ghost function AfterWrites(c: Cache, ws: seq<SeekRead>): Cache {
    if ws == [] then c else AfterWrite(AfterWrites(c, ws[..|ws| - 1]), ws[|ws| - 1])
  }

  /** No write makes blocks overlap when its turn comes. */
  ghost predicate Apart(c: Cache, ws: seq<SeekRead>) {
    ws == [] ||
    (var n := |ws| - 1;
     Apart(c, ws[..n]) && !OverlapsInto(AfterWrites(c, ws[..n]).held, ws[n].fpos, ws[n].len))
  }

  /** A write does to a block list what is foretold. */
  lemma {:induction false} WriteForetold(bs: seq<Block>, w: SeekRead, data: seq<Byte>, touch: nat)
    requires Disjoint(bs) && |data| == w.len > 0
    ensures Keyed(bs)
    ensures Overlaps(bs, w.fpos, w.len) <==> OverlapsInto(CacheOf(bs).held, w.fpos, w.len)
    ensures !Overlaps(bs, w.fpos, w.len) ==>
              && Disjoint(Written(bs, w.fpos, data, touch))
              && CacheOf(Written(bs, w.fpos, data, touch)) == AfterWrite(CacheOf(bs), w)
  {
    hide Disjoint, Held, SeamsOf, Keyed, Written, Overlaps, OverlapsInto, Misrouted, MisroutedInto, SeamsAfterWrite;
    MisroutedByHeld(bs, w.fpos, w.len, Held(bs));
    WrittenIsDisjoint(bs, w.fpos, data, touch);
    if !Overlaps(bs, w.fpos, w.len) {
      WrittenHolds(bs, w.fpos, data, touch);
      WriteSeams(bs, w.fpos, data, touch);
    }
  }

  lemma {:induction false} AfterWritesNext(c: Cache, ws: seq<SeekRead>, n: nat)
    requires n < |ws|
    ensures AfterWrites(c, ws[..n + 1]) == AfterWrite(AfterWrites(c, ws[..n]), ws[n])
    ensures Apart(c, ws[..n + 1]) <==>
            Apart(c, ws[..n]) && !OverlapsInto(AfterWrites(c, ws[..n]).held, ws[n].fpos, ws[n].len)
    ensures RoutedInto(c.held, ws[..n + 1]) <==>
            RoutedInto(c.held, ws[..n]) && !MisroutedInto(c.held + Union(ws[..n]), ws[n].fpos, ws[n].len)
    ensures Union(ws[..n + 1]) == Union(ws[..n]) + Interval(ws[n].fpos, ws[n].len)
    ensures TotalLength(ws[..n + 1]) == TotalLength(ws[..n]) + ws[n].len
  {
    hide AfterWrite, OverlapsInto, MisroutedInto, Interval;
    assert ws[..n + 1][..n] == ws[..n];
  }

  lemma {:induction false} NoWrites(c: Cache)
    ensures AfterWrites(c, []) == c && Apart(c, []) && RoutedInto(c.held, [])
    ensures Union([]) == {} && TotalLength([]) == 0
  {
  }

  lemma {:induction false} UnapartStays(c: Cache, ws: seq<SeekRead>, n: nat)
    requires n <= |ws| && !Apart(c, ws[..n])
    ensures !Apart(c, ws)
    decreases |ws| - n
  {
    if n == |ws| {
      assert ws[..n] == ws;
    } else {
      AfterWritesNext(c, ws, n);
      hide *;
      UnapartStays(c, ws, n + 1);
    }
  }

  lemma {:induction false} AfterWritesHold(c: Cache, ws: seq<SeekRead>, n: nat)
    requires n <= |ws|
    ensures AfterWrites(c, ws[..n]).held == c.held + Union(ws[..n])
  {
    NoWrites(c);
    hide AfterWrites, Union, SeamsAfterWrite;
    if n == 0 {
      assert ws[..n] == [];
    } else {
      AfterWritesHold(c, ws, n - 1);
      AfterWritesNext(c, ws, n - 1);
    }
  }

  // ---- What is fetched for a demand ----

  /** The missing runs among the len positions from fpos, one position at a time. */
  ghost function Missing(held: set<nat>, fpos: nat, len: nat): seq<SeekRead> {
    if len == 0 then []
    else
      var before, p := Missing(held, fpos, len - 1), fpos + len - 1;
      if p in held then before else MergeOne(before, SeekRead(p, 1), 0)
  }

  lemma {:induction false} MissingIs(held: set<nat>, fpos: nat, len: nat)
    ensures var rs := Missing(held, fpos, len);
            MissingOf(rs, held, SeekRead(fpos, len)) && (rs != [] ==> rs[|rs| - 1].End() <= fpos + len)
  {
    if len > 0 {
      var before, p := Missing(held, fpos, len - 1), fpos + len - 1;
      MissingIs(held, fpos, len - 1);
      if p !in held {
        OneMoreMissing(held, fpos, len, before);
      }
    }
  }

  lemma {:induction false} OneMoreMissing(held: set<nat>, fpos: nat, len: nat, before: seq<SeekRead>)
    requires len > 0 && fpos + len - 1 !in held && MissingOf(before, held, SeekRead(fpos, len - 1))
    requires before != [] ==> before[|before| - 1].End() <= fpos + len - 1
    ensures var rs := MergeOne(before, SeekRead(fpos + len - 1, 1), 0);
            MissingOf(rs, held, SeekRead(fpos, len)) && rs != [] && rs[|rs| - 1].End() <= fpos + len
  {
    var p, k := fpos + len - 1, |before| - 1;
    var rs := MergeOne(before, SeekRead(p, 1), 0);
    MergeOneStaysSeparated(before, SeekRead(p, 1), 0);
    forall q: nat
      ensures Covered(rs, q) <==> Covered(before, q) || q == p
    {
      if before == [] || p > before[k].End() {
        assert rs == before + [SeekRead(p, 1)];
        CoveredExtended(before, SeekRead(p, 1), q);
      } else {
        var last, longer := before[k], SeekRead(before[k].fpos, p + 1 - before[k].fpos);
        assert rs == before[..k] + [longer] && before == before[..k] + [last];
        CoveredExtended(before[..k], last, q);
        CoveredExtended(before[..k], longer, q);
      }
    }
  }

  /** What is fetched for a demand: the missing runs, merged if greedy is longer than the demand. */
  ghost function NeedFor(held: set<nat>, d: SeekRead, greedy: nat): seq<SeekRead> {
    var runs := Missing(held, d.fpos, d.len);
    if greedy <= d.len then runs else MergeAll(runs, greedy)
  }

  lemma {:induction false} NeedForIsNeed(held: set<nat>, d: SeekRead, greedy: nat)
    ensures NeedOf(NeedFor(held, d, greedy), held, d, greedy) && Positive(NeedFor(held, d, greedy))
    ensures Interval(d.fpos, d.len) <= held + Union(NeedFor(held, d, greedy))
    ensures Interval(d.fpos, d.len) <= held ==> NeedFor(held, d, greedy) == []
  {
    var runs, need := Missing(held, d.fpos, d.len), NeedFor(held, d, greedy);
    MissingIs(held, d.fpos, d.len);
    assert MissingOf(runs, held, d);
    SeparatedCatchesUp(runs);
    MergeAllIsMerge(runs, greedy);
    forall p | p in Interval(d.fpos, d.len)
      ensures p in held || p in Union(need)
    {
      UnionIsCovered(need, p);
      assert Covered(runs, p) ==> Covered(need, p);
    }
    FirstIsCovered(runs);
    assert forall p: nat :: d.Contains(p) ==> p in Interval(d.fpos, d.len);
  }

  /** What need() answers is what is foretold. */
  lemma {:induction false} AnswerIsForetold(need: seq<SeekRead>, bs: seq<Block>, d: SeekRead, greedy: nat)
    requires d.len > 0 && NeedAnswer(need, bs, d.fpos, d.len, greedy)
    ensures need == NeedFor(Held(bs), d, greedy)
  {
    hide NeedFor, NeedOf, Held;
    AnswerByHeld(need, bs, d, greedy);
    NeedForIsNeed(Held(bs), d, greedy);
    NeedIsUnique(need, NeedFor(Held(bs), d, greedy), Held(bs), d, greedy);
  }

  // ---- Runs of demands ----

  /** How a run ends, the hits, what was fetched, and the cache then. If a write made blocks overlap it is
      listed, and the cache is the one beside it. */
  datatype Forecast =
    Forecast(outcome: Outcome, hits: nat, gets: seq<SeekRead>, cache: Cache, overlap: seq<SeekRead>)

  /** How one demand ends. One whose write makes blocks overlap is read from the block just written. */
  ghost function Served(c: Cache, d: SeekRead, greedy: nat): Outcome {
    var need := NeedFor(c.held, d, greedy);
    if Apart(c, need) && Straddles(d, AfterWrites(c, need).seams) then DataMissing else AllRead
  }

  /** A block starts at position s. */
  ghost predicate StartsBlock(c: Cache, s: nat) {
    s in c.held && (s == 0 || s - 1 !in c.held || s in c.seams)
  }

  /** A hit in a file with one more block, w, which others overlap: has() looks only at the last block that
      starts at or before the demand. */
  ghost predicate HitsBeside(c: Cache, w: SeekRead, d: SeekRead) {
    if w.fpos <= d.fpos && forall s :: w.fpos < s <= d.fpos ==> !StartsBlock(c, s) then d.End() <= w.End()
    else Hits(c, d)
  }

  /** How a run goes on after a write that made blocks overlap, up to the first miss. */
  ghost function ForetoldBeside(c: Cache, w: SeekRead, ds: seq<SeekRead>, hits: nat, gets: seq<SeekRead>): Forecast
    decreases ds
  {
    if ds == [] then Forecast(AllRead, hits, gets, c, [w])
    else if HitsBeside(c, w, ds[0]) then ForetoldBeside(c, w, ds[1..], hits + 1, gets)
    else Forecast(MissAfterOverlap, hits, gets, c, [w])
  }

  /** How a run of demands ends, from the hits and what was fetched so far. */
  ghost function Foretold(c: Cache, ds: seq<SeekRead>, greedy: nat, hits: nat, gets: seq<SeekRead>): Forecast
    decreases ds
  {
    if ds == [] then Forecast(AllRead, hits, gets, c, [])
    else
      var need := NeedFor(c.held, ds[0], greedy);
      var next, more := AfterWrites(c, need), gets + need;
      if !Apart(c, need) then ForetoldBeside(c, SeekRead(ds[0].fpos, greedy), ds[1..], hits, more)
      else if Served(c, ds[0], greedy).DataMissing? then Forecast(DataMissing, hits, more, next, [])
      else Foretold(next, ds[1..], greedy, if Hits(c, ds[0]) then hits + 1 else hits, more)
  }

  lemma {:induction false} ForetoldNext(c: Cache, ds: seq<SeekRead>, n: nat, greedy: nat, hits: nat,
                                        gets: seq<SeekRead>)
    requires n < |ds|
    ensures var need, t := NeedFor(c.held, ds[n], greedy), Foretold(c, ds[n..], greedy, hits, gets);
            var next, more := AfterWrites(c, need), gets + need;
            if !Apart(c, need) then t == ForetoldBeside(c, SeekRead(ds[n].fpos, greedy), ds[n + 1..], hits, more)
            else if Served(c, ds[n], greedy).DataMissing? then t == Forecast(DataMissing, hits, more, next, [])
            else t == Foretold(next, ds[n + 1..], greedy, if Hits(c, ds[n]) then hits + 1 else hits, more)
  {
    hide Served, NeedFor, AfterWrites, Apart, Hits, ForetoldBeside;
    assert ds[n..][0] == ds[n] && ds[n..][1..] == ds[n + 1..];
  }

  lemma {:induction false} BesideNext(c: Cache, w: SeekRead, ds: seq<SeekRead>, n: nat, hits: nat, gets: seq<SeekRead>)
    requires n < |ds|
    ensures ForetoldBeside(c, w, ds[n..], hits, gets) ==
            if HitsBeside(c, w, ds[n]) then ForetoldBeside(c, w, ds[n + 1..], hits + 1, gets)
            else Forecast(MissAfterOverlap, hits, gets, c, [w])
  {
    hide HitsBeside;
    assert ds[n..][0] == ds[n] && ds[n..][1..] == ds[n + 1..];
  }

  lemma {:induction false} ForetoldOver(c: Cache, greedy: nat, hits: nat, gets: seq<SeekRead>)
    ensures Foretold(c, [], greedy, hits, gets) == Forecast(AllRead, hits, gets, c, [])
  {
  }

  // ---- Well-routed runs ----

  /** Every write for every demand, when its turn comes, is well routed. */
  ghost predicate RunRouted(held: set<nat>, ds: seq<SeekRead>, greedy: nat)
    decreases ds
  {
    ds == [] ||
    (var need := NeedFor(held, ds[0], greedy);
     RoutedInto(held, need) && RunRouted(held + Union(need), ds[1..], greedy))
  }

  lemma {:induction false} RunRoutedNext(held: set<nat>, ds: seq<SeekRead>, n: nat, greedy: nat)
    requires n < |ds|
    ensures var need := NeedFor(held, ds[n], greedy);
            RunRouted(held, ds[n..], greedy) <==>
            RoutedInto(held, need) && RunRouted(held + Union(need), ds[n + 1..], greedy)
  {
    hide NeedFor, RoutedInto, Union;
    assert ds[n..][0] == ds[n] && ds[n..][1..] == ds[n + 1..];
  }

  lemma {:induction false} RoutedWrite(c: Cache, w: SeekRead)
    requires c.seams == {} && w.len > 0 && !MisroutedInto(c.held, w.fpos, w.len)
    ensures !OverlapsInto(c.held, w.fpos, w.len) && AfterWrite(c, w).seams == {}
  {
  }

  lemma {:induction false} RoutedWrites(c: Cache, ws: seq<SeekRead>, n: nat)
    requires c.seams == {} && Positive(ws) && n <= |ws| && RoutedInto(c.held, ws[..n])
    ensures Apart(c, ws[..n]) && AfterWrites(c, ws[..n]).seams == {}
  {
    NoWrites(c);
    hide AfterWrites, Apart, RoutedInto, AfterWrite, Union;
    if n == 0 {
      assert ws[..n] == [];
    } else {
      AfterWritesNext(c, ws, n - 1);
      RoutedWrites(c, ws, n - 1);
      AfterWritesHold(c, ws, n - 1);
      RoutedWrite(AfterWrites(c, ws[..n - 1]), ws[n - 1]);
    }
  }

  lemma {:induction false} RoutedDemand(c: Cache, d: SeekRead, greedy: nat)
    requires c.seams == {} && RoutedInto(c.held, NeedFor(c.held, d, greedy))
    ensures var need := NeedFor(c.held, d, greedy);
            && Apart(c, need) && Served(c, d, greedy).AllRead? && AfterWrites(c, need).seams == {}
            && AfterWrites(c, need).held == c.held + Union(need)
  {
    var need := NeedFor(c.held, d, greedy);
    NeedForIsNeed(c.held, d, greedy);
    assert need[..|need|] == need;
    hide NeedFor, AfterWrites, Apart, RoutedInto, Union, NeedOf, Positive;
    RoutedWrites(c, need, |need|);
    AfterWritesHold(c, need, |need|);
  }

  /** A run of well-routed writes serves every demand, whatever the greedy length. */
  lemma {:induction false} RoutedEndsWell(c: Cache, ds: seq<SeekRead>, greedy: nat, hits: nat, gets: seq<SeekRead>)
    requires c.seams == {} && RunRouted(c.held, ds, greedy)
    ensures var t := Foretold(c, ds, greedy, hits, gets);
            t.outcome.AllRead? && t.cache.seams == {} && t.overlap == []
    decreases ds
  {
    hide *;
    if ds == [] {
      ForetoldOver(c, greedy, hits, gets);
    } else {
      var need := NeedFor(c.held, ds[0], greedy);
      assert ds[0..] == ds;
      RunRoutedNext(c.held, ds, 0, greedy);
      ForetoldNext(c, ds, 0, greedy, hits, gets);
      RoutedDemand(c, ds[0], greedy);
      RoutedEndsWell(AfterWrites(c, need), ds[1..], greedy, if Hits(c, ds[0]) then hits + 1 else hits,
                     gets + need);
    }
  }

  /** From where on the demand is missing, when what is held from bound on has no gap. */
  lemma {:induction false} FirstMissing(held: set<nat>, from: nat, end: nat) returns (x: nat)
    requires from <= end
    ensures from <= x <= end && (x < end ==> x !in held)
    ensures forall p: nat :: from <= p < x ==> p in held
  {
    x := from;
    while x < end && x in held
      invariant from <= x <= end && forall p: nat :: from <= p < x ==> p in held
    {
      x := x + 1;
    }
  }

  /** The one entry that is fetched for a demand of which the end is missing. */
  lemma {:induction false} EndIsNeeded(held: set<nat>, d: SeekRead, x: nat, greedy: nat) returns (entry: SeekRead)
    requires d.Contains(x)
    requires forall p: nat :: d.fpos <= p < d.End() ==> (p in held <==> p < x)
    ensures entry.fpos == x && entry.End() >= d.End() && NeedOf([entry], held, d, greedy)
  {
    var run := SeekRead(x, d.End() - x);
    forall p: nat ensures Covered([run], p) <==> d.Contains(p) && p !in held {
      assert [] + [run] == [run];
      CoveredExtended([], run, p);
    }
    assert MissingOf([run], held, d);
    if greedy <= d.len {
      entry := run;
    } else {
      MergeOfOneRun(run, greedy);
      entry := SeekRead(x, AmountToRead(run, greedy));
    }
  }

  lemma {:induction false} AttachedRouted(held: set<nat>, bound: nat, d: SeekRead, entry: SeekRead)
    requires AttachedAbove(held, bound) && bound <= d.fpos <= entry.fpos && entry.fpos !in held
    requires forall p: nat :: d.fpos <= p < entry.fpos ==> p in held
    ensures RoutedInto(held, [entry])
    ensures AttachedAbove(held + Union([entry]), d.fpos)
  {
    assert [entry][..0] == [];
    assert forall p :: p in held && bound <= p ==> p < entry.fpos;
    assert Union([entry]) == Interval(entry.fpos, entry.len);
    assert !MisroutedInto(held + Union([]), entry.fpos, entry.len);
  }

  /** What is fetched for a demand that starts where held positions are followed by no gap. */
  lemma {:induction false} AttachedNeed(held: set<nat>, bound: nat, d: SeekRead, greedy: nat)
    requires AttachedAbove(held, bound) && bound <= d.fpos
    ensures var need := NeedFor(held, d, greedy);
            RoutedInto(held, need) && AttachedAbove(held + Union(need), d.fpos)
  {
    NeedForIsNeed(held, d, greedy);
    hide NeedFor, NeedOf;
    var x := FirstMissing(held, d.fpos, d.End());
    if x < d.End() {
      assert forall p :: p in held && bound <= p ==> p < x;
      var entry := EndIsNeeded(held, d, x, greedy);
      AttachedRouted(held, bound, d, entry);
      NeedIsUnique(NeedFor(held, d, greedy), [entry], held, d, greedy);
    } else {
      assert Interval(d.fpos, d.len) <= held;
      assert held + Union([]) == held;
    }
  }

  /** Demands in ascending order are well routed, whatever the greedy length. */
  lemma {:induction false} AscendingRunRouted(held: set<nat>, ds: seq<SeekRead>, bound: nat, greedy: nat)
    requires AttachedAbove(held, bound)
    requires Ascending(ds) && forall i :: 0 <= i < |ds| ==> bound <= ds[i].fpos
    ensures RunRouted(held, ds, greedy)
    decreases ds
  {
    if ds != [] {
      AttachedNeed(held, bound, ds[0], greedy);
      hide AttachedAbove, RoutedInto, NeedFor, Union;
      AscendingRunRouted(held + Union(NeedFor(held, ds[0], greedy)), ds[1..], ds[0].fpos, greedy);
    }
  }

  /** Demands in ascending order are all served, whatever the greedy length. */
  lemma {:induction false} AscendingEndsWell(ds: seq<SeekRead>, greedy: nat)
    requires Ascending(ds)
    ensures Foretold(EMPTY_CACHE, ds, greedy, 0, []).outcome.AllRead?
  {
    AscendingRunRouted({}, ds, 0, greedy);
    RoutedEndsWell(EMPTY_CACHE, ds, greedy, 0, []);
  }

  // ---- Without a greedy length beyond the demands ----

  /** Every seam is held, and so is the byte in front of it. */
  ghost predicate SeamsHeld(c: Cache) {
    forall s :: s in c.seams ==> s > 0 && s in c.held && s - 1 in c.held
  }

  /** No seam lies in a gap, or at its end. */
  lemma {:induction false} FreeOfSeams(c: Cache, w: SeekRead)
    requires SeamsHeld(c) && w.len > 0
    requires forall p: nat :: w.Contains(p) ==> p !in c.held
    ensures Without(c.seams, w.fpos, w.End()) == c.seams == Without(c.seams, w.fpos, w.End() + 1)
  {
    forall s | s in c.seams
      ensures !(w.fpos < s <= w.End())
    {
      assert s - 1 in c.held && !w.Contains(s - 1);
    }
  }

  lemma {:induction false} FreeIsRouted(held: set<nat>, w: SeekRead)
    requires w.len > 0 && forall p: nat :: w.Contains(p) ==> p !in held
    ensures !OverlapsInto(held, w.fpos, w.len)
    ensures MisroutedInto(held, w.fpos, w.len) <==> LeavesSeam(held, w.fpos, w.len)
  {
    assert w.Contains(w.fpos);
    hide StartsInGap;
    if p :| p in held && w.fpos < p <= w.End() {
      assert !w.Contains(p);
    }
  }

  /** Filling a gap overlaps nothing, and leaves at most the one seam. */
  lemma {:induction false} FreeWrite(c: Cache, w: SeekRead)
    requires SeamsHeld(c) && w.len > 0
    requires forall p: nat :: w.Contains(p) ==> p !in c.held
    ensures !OverlapsInto(c.held, w.fpos, w.len)
    ensures MisroutedInto(c.held, w.fpos, w.len) <==> LeavesSeam(c.held, w.fpos, w.len)
    ensures AfterWrite(c, w).seams == if LeavesSeam(c.held, w.fpos, w.len) then c.seams + {w.End()} else c.seams
    ensures SeamsHeld(AfterWrite(c, w))
  {
    FreeIsRouted(c.held, w);
    FreeOfSeams(c, w);
    SeamsStayHeld(c, w);
    assert w.Contains(w.fpos);
    hide Without, OverlapsInto, MisroutedInto, Interval, SeamsHeld;
  }

  lemma {:induction false} SeamsStayHeld(c: Cache, w: SeekRead)
    requires SeamsHeld(c) && w.len > 0
    ensures SeamsHeld(Cache(c.held + Interval(w.fpos, w.len), c.seams))
    ensures w.End() in c.held ==> SeamsHeld(Cache(c.held + Interval(w.fpos, w.len), c.seams + {w.End()}))
  {
    assert w.End() - 1 in Interval(w.fpos, w.len);
    hide Interval;
  }

  /** Where run k of the missing ones of a demand lies. */
  lemma {:induction false} RunLies(rs: seq<SeekRead>, held: set<nat>, d: SeekRead, k: nat)
    requires MissingOf(rs, held, d) && k < |rs|
    ensures d.fpos <= rs[k].fpos && rs[k].End() <= d.End() && rs[k].len > 0
    ensures forall p: nat :: rs[k].Contains(p) ==> p !in held
    ensures rs[k].End() < d.End() ==> rs[k].End() in held
    ensures rs[k].fpos > d.fpos ==> rs[k].fpos - 1 in held
    ensures k > 0 ==> rs[k].fpos > d.fpos
  {
    forall p: nat | rs[k].Contains(p) ensures Covered(rs, p) {
    }
    assert rs[k].Contains(rs[k].fpos) && rs[k].Contains(rs[k].End() - 1);
    NeighboursAreUncovered(rs, k);
    if k > 0 {
      assert rs[k - 1].Contains(rs[k - 1].fpos) && Covered(rs, rs[k - 1].fpos);
      assert rs[k - 1].End() < rs[k].fpos;
    }
  }

  lemma {:induction false} NeighboursAreUncovered(rs: seq<SeekRead>, k: nat)
    requires Separated(rs) && k < |rs|
    ensures !Covered(rs, rs[k].End()) && !Covered(rs, rs[k].fpos - 1)
  {
    forall i | 0 <= i < |rs|
      ensures !rs[i].Contains(rs[k].End()) && !rs[i].Contains(rs[k].fpos - 1)
    {
      assert i < k ==> rs[i].End() < rs[k].fpos;
      assert k < i ==> rs[k].End() < rs[i].fpos;
    }
  }

  /** The first n gaps of a demand, filled: only the first can leave a seam. */
  lemma {:induction false} GapWrites(c: Cache, d: SeekRead, rs: seq<SeekRead>, n: nat)
    requires SeamsHeld(c) && MissingOf(rs, c.held, d) && n <= |rs|
    ensures var leaves := n > 0 && LeavesSeam(c.held, rs[0].fpos, rs[0].len);
            && Apart(c, rs[..n]) && (RoutedInto(c.held, rs[..n]) <==> !leaves)
            && SeamsHeld(AfterWrites(c, rs[..n]))
            && AfterWrites(c, rs[..n]).seams == (if leaves then c.seams + {rs[0].End()} else c.seams)
            && TotalLength(rs[..n]) == |c.held + Union(rs[..n])| - |c.held|
  {
    NoWrites(c);
    hide AfterWrites, Apart, RoutedInto, AfterWrite, Union, TotalLength, MissingOf, MisroutedInto, OverlapsInto,
         SeamsHeld, LeavesSeam;
    if n == 0 {
      assert rs[..n] == [];
      assert c.held + {} == c.held;
    } else {
      var m := n - 1;
      GapWrites(c, d, rs, m);
      AfterWritesNext(c, rs, m);
      AfterWritesHold(c, rs, m);
      GapIsStillFree(c.held, d, rs, m);
      FreeWrite(AfterWrites(c, rs[..m]), rs[m]);
      IntervalAdds(c.held + Union(rs[..m]), rs[m]);
      assert c.held + Union(rs[..n]) == c.held + Union(rs[..m]) + Interval(rs[m].fpos, rs[m].len);
      if m == 0 {
        assert rs[..m] == [];
        assert c.held + {} == c.held;
      }
    }
  }

  lemma {:induction false} IntervalAdds(held: set<nat>, w: SeekRead)
    requires forall p: nat :: w.Contains(p) ==> p !in held
    ensures |held + Interval(w.fpos, w.len)| == |held| + w.len
  {
    DisjointUnionSize(held, Interval(w.fpos, w.len));
  }

  /** Filling the gaps before leaves gap n free, and only the first one starts in a gap. */
  lemma {:induction false} GapIsStillFree(held: set<nat>, d: SeekRead, rs: seq<SeekRead>, n: nat)
    requires MissingOf(rs, held, d) && n < |rs|
    ensures rs[n].len > 0 && forall p: nat :: rs[n].Contains(p) ==> p !in held + Union(rs[..n])
    ensures n > 0 ==> !LeavesSeam(held + Union(rs[..n]), rs[n].fpos, rs[n].len)
  {
    RunLies(rs, held, d, n);
    forall p: nat | rs[n].Contains(p)
      ensures p !in Union(rs[..n])
    {
      UnionIsCovered(rs[..n], p);
      assert forall i :: 0 <= i < n ==> rs[i].End() < rs[n].fpos;
    }
  }

  lemma {:induction false} NewSeamsOfRuns(held: set<nat>, d: SeekRead, rs: seq<SeekRead>)
    requires d.len > 0 && MissingOf(rs, held, d)
    ensures NewSeams(held, d.fpos, d.len) ==
            if rs != [] && LeavesSeam(held, rs[0].fpos, rs[0].len) then {rs[0].End()} else {}
  {
    if d.fpos in held {
      assert NewSeams(held, d.fpos, d.len) == {};
      if rs != [] {
        RunLies(rs, held, d, 0);
      }
    } else {
      assert d.Contains(d.fpos) && Covered(rs, d.fpos);
      var k :| 0 <= k < |rs| && rs[k].Contains(d.fpos);
      RunLies(rs, held, d, k);
      RunLies(rs, held, d, 0);
      NewSeamsBehind(held, d.fpos, d.len, rs[0].len);
    }
  }

  lemma {:induction false} RunsComplete(held: set<nat>, d: SeekRead, rs: seq<SeekRead>)
    requires MissingOf(rs, held, d)
    ensures held + Union(rs) == held + Interval(d.fpos, d.len)
  {
    forall p: nat ensures p in held + Union(rs) <==> p in held + Interval(d.fpos, d.len) {
      UnionIsCovered(rs, p);
    }
  }

  lemma {:induction false} PlainNeed(held: set<nat>, d: SeekRead, greedy: nat)
    requires greedy <= d.len
    ensures MissingOf(NeedFor(held, d, greedy), held, d)
  {
    NeedForIsNeed(held, d, greedy);
  }

  /** Without a greedy length beyond it a demand leaves no more than the seam where the gap it starts in
      ends. */
  lemma {:induction false} PlainDemand(c: Cache, d: SeekRead, greedy: nat)
    requires SeamsHeld(c) && greedy <= d.len && d.len > 0
    ensures var need := NeedFor(c.held, d, greedy);
            && AfterWrites(c, need) == After(c, d) && SeamsHeld(After(c, d))
            && TotalLength(need) == |After(c, d).held| - |c.held|
            && c.held + Union(need) == After(c, d).held
            && (RoutedInto(c.held, need) <==> NewSeams(c.held, d.fpos, d.len) == {})
            && Apart(c, need)
            && Served(c, d, greedy) == if Straddles(d, After(c, d).seams) then DataMissing else AllRead
  {
    hide AfterWrites, Apart, RoutedInto, Union, TotalLength, NewSeams, MissingOf, SeamsHeld, LeavesSeam, NeedFor,
         Straddles, Interval;
    var need := NeedFor(c.held, d, greedy);
    PlainNeed(c.held, d, greedy);
    assert need[..|need|] == need;
    GapWrites(c, d, need, |need|);
    AfterWritesHold(c, need, |need|);
    NewSeamsOfRuns(c.held, d, need);
    RunsComplete(c.held, d, need);
  }

  lemma {:induction false} CoveredFront(ds: seq<SeekRead>, p: nat)
    requires ds != []
    ensures Covered(ds, p) <==> ds[0].Contains(p) || Covered(ds[1..], p)
  {
    if Covered(ds, p) && !ds[0].Contains(p) {
      var i :| 0 <= i < |ds| && ds[i].Contains(p);
      assert ds[1..][i - 1].Contains(p);
    }
    if Covered(ds[1..], p) {
      var i :| 0 <= i < |ds[1..]| && ds[1..][i].Contains(p);
      assert ds[i + 1].Contains(p);
    }
  }

  lemma {:induction false} UnionFront(ds: seq<SeekRead>)
    requires ds != []
    ensures Union(ds) == Interval(ds[0].fpos, ds[0].len) + Union(ds[1..])
  {
    hide Union, Covered;
    forall p: nat
      ensures p in Union(ds) <==> ds[0].Contains(p) || p in Union(ds[1..])
    {
      UnionIsCovered(ds, p);
      UnionIsCovered(ds[1..], p);
      CoveredFront(ds, p);
    }
  }

  /** What a run comes to without a greedy length beyond its demands: it ends well exactly when no demand,
      when its turn comes, has a seam inside it. However it ends, what was fetched is what was added to the
      cache, and every byte of that was fetched once. */
  ghost predicate IsPlain(t: Forecast, c: Cache, ds: seq<SeekRead>, greedy: nat, hits: nat, gets: seq<SeekRead>) {
    && !t.outcome.MissAfterOverlap? && t.overlap == []
    && (t.outcome.AllRead? <==> AllServed(c, ds))
    && gets <= t.gets && c.held <= t.cache.held
    && t.cache.held + Union(gets) == c.held + Union(t.gets)
    && TotalLength(t.gets) - TotalLength(gets) == |t.cache.held| - |c.held|
    && (t.outcome.AllRead? ==>
          && t.cache.held == c.held + Union(ds)
          && t.hits == hits + HitCount(c, ds)
          && (t.cache.seams == {} <==> c.seams == {} && RunRouted(c.held, ds, greedy)))
  }

  lemma {:induction false} UnionConcat(a: seq<SeekRead>, b: seq<SeekRead>)
    ensures Union(a + b) == Union(a) + Union(b) && TotalLength(a + b) == TotalLength(a) + TotalLength(b)
  {
    if b == [] {
      assert a + b == a;
    } else {
      var n := |b| - 1;
      UnionConcat(a, b[..n]);
      assert (a + b)[..|a + b| - 1] == a + b[..n];
    }
  }

  /** Bytes that a run fetches first are part of what it fetches. */
  lemma {:induction false} UnionOfPrefix(a: seq<SeekRead>, b: seq<SeekRead>)
    requires a <= b
    ensures Union(a) <= Union(b)
  {
    UnionConcat(a, b[|a|..]);
    assert a + b[|a|..] == b;
  }

  /** What the first demand fetches, and what the others do. */
  lemma {:induction false} PlainGets(t: Forecast, c: Cache, d: SeekRead, need: seq<SeekRead>, gets: seq<SeekRead>)
    requires gets + need <= t.gets && After(c, d).held <= t.cache.held
    requires t.cache.held + Union(gets + need) == After(c, d).held + Union(t.gets)
    requires TotalLength(t.gets) - TotalLength(gets + need) == |t.cache.held| - |After(c, d).held|
    requires c.held + Union(need) == After(c, d).held && TotalLength(need) == |After(c, d).held| - |c.held|
    ensures gets <= t.gets && c.held <= t.cache.held
    ensures t.cache.held + Union(gets) == c.held + Union(t.gets)
    ensures TotalLength(t.gets) - TotalLength(gets) == |t.cache.held| - |c.held|
  {
    hide Union, TotalLength, After;
    UnionConcat(gets, need);
    UnionOfPrefix(gets + need, t.gets);
  }

  lemma {:induction false} PlainNext(t: Forecast, c: Cache, ds: seq<SeekRead>, greedy: nat, hits: nat,
                                     need: seq<SeekRead>, gets: seq<SeekRead>)
    requires ds != [] && RunRouted(c.held, ds, greedy) ==
                         (NewSeams(c.held, ds[0].fpos, ds[0].len) == {} &&
                          RunRouted(After(c, ds[0]).held, ds[1..], greedy))
    requires c.held + Union(need) == After(c, ds[0]).held && TotalLength(need) == |After(c, ds[0]).held| - |c.held|
    requires if Straddles(ds[0], After(c, ds[0]).seams) then
               t.outcome.DataMissing? && t.overlap == [] && t.gets == gets + need && t.cache == After(c, ds[0])
             else
               IsPlain(t, After(c, ds[0]), ds[1..], greedy, if Hits(c, ds[0]) then hits + 1 else hits, gets + need)
    ensures IsPlain(t, c, ds, greedy, hits, gets)
  {
    hide Straddles, NewSeams, Union, Hits, RunRouted, TotalLength;
    PlainGets(t, c, ds[0], need, gets);
    UnionFront(ds);
    assert After(c, ds[0]).held == c.held + Interval(ds[0].fpos, ds[0].len);
    assert c.held + Union(ds) == After(c, ds[0]).held + Union(ds[1..]);
  }

  lemma {:induction false} PlainRun(c: Cache, ds: seq<SeekRead>, greedy: nat, hits: nat, gets: seq<SeekRead>)
    requires SeamsHeld(c) && forall i :: 0 <= i < |ds| ==> ds[i].len > 0 && greedy <= ds[i].len
    ensures IsPlain(Foretold(c, ds, greedy, hits, gets), c, ds, greedy, hits, gets)
    decreases ds
  {
    hide *;
    if ds == [] {
      PlainOver(c, greedy, hits, gets);
    } else {
      var need := NeedFor(c.held, ds[0], greedy);
      PlainDemand(c, ds[0], greedy);
      assert ds[0..] == ds;
      ForetoldNext(c, ds, 0, greedy, hits, gets);
      RunRoutedNext(c.held, ds, 0, greedy);
      if !Straddles(ds[0], After(c, ds[0]).seams) {
        PlainRun(After(c, ds[0]), ds[1..], greedy, if Hits(c, ds[0]) then hits + 1 else hits, gets + need);
      }
      PlainNext(Foretold(c, ds, greedy, hits, gets), c, ds, greedy, hits, need, gets);
    }
  }

  lemma {:induction false} PlainOver(c: Cache, greedy: nat, hits: nat, gets: seq<SeekRead>)
    ensures IsPlain(Foretold(c, [], greedy, hits, gets), c, [], greedy, hits, gets)
  {
    assert c.held + Union([]) == c.held;
  }

  lemma {:induction false} UnionIsNoLonger(ws: seq<SeekRead>)
    ensures |Union(ws)| <= TotalLength(ws)
  {
    if ws != [] {
      UnionIsNoLonger(ws[..|ws| - 1]);
    }
  }

  lemma {:induction false} LastIsApart(ws: seq<SeekRead>)
    requires TotalLength(ws) == |Union(ws)| && ws != []
    ensures var n := |ws| - 1;
            TotalLength(ws[..n]) == |Union(ws[..n])| && Union(ws[..n]) !! Interval(ws[n].fpos, ws[n].len)
  {
    var n := |ws| - 1;
    var before, last := Union(ws[..n]), Interval(ws[n].fpos, ws[n].len);
    UnionIsNoLonger(ws[..n]);
    assert |before + last| + |before * last| == |before| + |last|;
  }

  /** What the last read gives no other does. */
  lemma {:induction false} LastSharesNone(ws: seq<SeekRead>, i: nat, p: nat)
    requires TotalLength(ws) == |Union(ws)| && i < |ws| - 1 && ws[i].Contains(p)
    ensures !ws[|ws| - 1].Contains(p)
  {
    LastIsApart(ws);
    hide TotalLength, Union;
    assert ws[..|ws| - 1][i].Contains(p);
    UnionIsCovered(ws[..|ws| - 1], p);
  }

  /** Reads that are together no longer than their union share no position. */
  lemma {:induction false} SharesNone(ws: seq<SeekRead>, i: nat, j: nat, p: nat)
    requires TotalLength(ws) == |Union(ws)| && i < j < |ws| && ws[i].Contains(p)
    ensures !ws[j].Contains(p)
  {
    hide *;
    if j == |ws| - 1 {
      LastSharesNone(ws, i, p);
    } else {
      LastIsApart(ws);
      SharesNone(ws[..|ws| - 1], i, j, p);
    }
  }

  lemma {:induction false} NoneTwice(ws: seq<SeekRead>)
    requires TotalLength(ws) == |Union(ws)|
    ensures forall i, j, p: nat :: 0 <= i < j < |ws| && ws[i].Contains(p) ==> !ws[j].Contains(p)
  {
    hide *;
    forall i, j, p: nat | 0 <= i < j < |ws| && ws[i].Contains(p)
      ensures !ws[j].Contains(p)
    {
      SharesNone(ws, i, j, p);
    }
  }

  // ---- Writes that make blocks overlap ----

  /** Runs that end within the greedy length of the first are merged into one entry. */
  lemma {:induction false} MergesToOne(rs: seq<SeekRead>, n: nat, greedy: nat)
    requires Separated(rs) && 0 < n <= |rs|
    requires rs[|rs| - 1].End() <= rs[0].fpos + greedy
    ensures MergeAll(rs[..n], greedy) == [SeekRead(rs[0].fpos, greedy)]
  {
    assert forall i :: 0 <= i < |rs| ==> rs[i].End() <= rs[|rs| - 1].End();
    assert rs[..n][..n - 1] == rs[..n - 1];
    hide Separated;
    if n == 1 {
      assert rs[..0] == [];
    } else {
      MergesToOne(rs, n - 1, greedy);
    }
  }

  /** With a greedy length beyond the demand all that is missing is merged into one entry. */
  lemma {:induction false} NeedIsOne(held: set<nat>, d: SeekRead, greedy: nat)
    requires d.len < greedy && NeedFor(held, d, greedy) != []
    ensures var need := NeedFor(held, d, greedy);
            && need == [SeekRead(need[0].fpos, greedy)] && d.fpos <= need[0].fpos
            && (need[0].fpos > d.fpos ==> need[0].fpos - 1 in held)
  {
    var runs := Missing(held, d.fpos, d.len);
    MissingIs(held, d.fpos, d.len);
    hide Missing, MissingOf, MergeOne;
    RunLies(runs, held, d, 0);
    RunLies(runs, held, d, |runs| - 1);
    RunsAreSeparated(runs, held, d);
    assert runs[..|runs|] == runs;
    MergesToOne(runs, |runs|, greedy);
  }

  lemma {:induction false} OneWrite(c: Cache, w: SeekRead)
    ensures Apart(c, [w]) <==> !OverlapsInto(c.held, w.fpos, w.len)
  {
    NoWrites(c);
    assert [w][..1] == [w] && [w][..0] == [];
    hide OverlapsInto, AfterWrites;
  }

  /** Only a greedy length beyond a demand that starts in a gap makes blocks overlap, and then a single write
      is all that is needed: one of that length where the demand starts. */
  lemma {:induction false} OverlapIsWhole(c: Cache, d: SeekRead, greedy: nat)
    requires SeamsHeld(c) && d.len > 0 && !Apart(c, NeedFor(c.held, d, greedy))
    ensures d.len < greedy && NeedFor(c.held, d, greedy) == [SeekRead(d.fpos, greedy)]
    ensures OverlapsInto(c.held, d.fpos, greedy)
  {
    hide *;
    var need := NeedFor(c.held, d, greedy);
    if greedy <= d.len {
      PlainDemand(c, d, greedy);
    }
    NoWrites(c);
    NeedIsOne(c.held, d, greedy);
    OneWrite(c, need[0]);
    GapHasNoFront(c.held, need[0].fpos, greedy);
  }

  lemma {:induction false} RunsAreSeparated(rs: seq<SeekRead>, held: set<nat>, d: SeekRead)
    requires MissingOf(rs, held, d)
    ensures Separated(rs)
  {
  }

  lemma {:induction false} GapHasNoFront(held: set<nat>, fpos: nat, len: nat)
    ensures OverlapsInto(held, fpos, len) ==> fpos > 0 && fpos - 1 !in held
  {
  }
}
