/** Which writes and which demands are well routed, read off the positions held alone. */
module Routing {
  import opened SeekReads
  import opened Blocks
  import opened Writes
  import opened Gaps
  import opened Seams
  import opened Demands
  import opened Runs

  /** No write is misrouted when its turn comes. */
  ghost predicate RoutedInto(held: set<nat>, writes: seq<SeekRead>) {
    writes == [] ||
    (var n := |writes| - 1;
     && RoutedInto(held, writes[..n])
     && !MisroutedInto(held + Union(writes[..n]), writes[n].fpos, writes[n].len))
  }

  /** The positions held decide whether a run of writes is well routed. */
  lemma {:induction false} RoutedByHeld(bs: seq<Block>, writes: seq<SeekRead>, file: nat -> Byte, touch: nat)
    requires Disjoint(bs) && Positive(writes)
    ensures AllRouted(bs, writes, file, touch) <==> RoutedInto(Held(bs), writes)
    ensures AllRouted(bs, writes, file, touch) ==>
              && Disjoint(WriteAll(bs, writes, file, touch))
              && Held(WriteAll(bs, writes, file, touch)) == Held(bs) + Union(writes)
  {
    NothingRouted(bs, file, touch);
    hide *;
    if writes != [] {
      var n := |writes| - 1;
      PositivePrefix(writes, n);
      RoutedByHeld(bs, writes[..n], file, touch);
      RoutedIntoNext(Held(bs), writes);
      assert writes[..n + 1] == writes;
      WriteAllNext(bs, writes, n, file, touch);
      var before, w := WriteAll(bs, writes[..n], file, touch), writes[n];
      if AllRouted(bs, writes[..n], file, touch) {
        MisroutedByHeld(before, w.fpos, w.len, Held(before));
        if !Misrouted(before, w.fpos, w.len) {
          RoutedStep(before, w, file, touch + n);
        }
      }
    }
  }

  lemma {:induction false} NothingRouted(bs: seq<Block>, file: nat -> Byte, touch: nat)
    ensures AllRouted(bs, [], file, touch) && RoutedInto(Held(bs), []) && WriteAll(bs, [], file, touch) == bs
    ensures Held(bs) == Held(bs) + Union([])
  {
    hide Held;
  }

  lemma {:induction false} PositivePrefix(writes: seq<SeekRead>, n: nat)
    requires Positive(writes) && n < |writes|
    ensures Positive(writes[..n]) && writes[n].len > 0
  {
  }

  lemma {:induction false} RoutedIntoNext(held: set<nat>, writes: seq<SeekRead>)
    requires writes != []
    ensures var n := |writes| - 1;
            && (RoutedInto(held, writes) <==>
                && RoutedInto(held, writes[..n])
                && !MisroutedInto(held + Union(writes[..n]), writes[n].fpos, writes[n].len))
            && Union(writes) == Union(writes[..n]) + Interval(writes[n].fpos, writes[n].len)
  {
    hide MisroutedInto, Interval;
  }

  lemma {:induction false} RoutedStep(bs: seq<Block>, w: SeekRead, file: nat -> Byte, touch: nat)
    requires Disjoint(bs) && w.len > 0 && !Misrouted(bs, w.fpos, w.len)
    ensures Keyed(bs)
    ensures var now := Written(bs, w.fpos, Slice(file, w.fpos, w.len), touch);
            Disjoint(now) && Held(now) == Held(bs) + Interval(w.fpos, w.len)
  {
    hide *;
    var data := Slice(file, w.fpos, w.len);
    OverlapIsMisrouted(bs, w.fpos, w.len);
    WrittenIsDisjoint(bs, w.fpos, data, touch);
    WrittenHolds(bs, w.fpos, data, touch);
  }

  // ---- What is fetched for a demand ----

  /** rs is the list of maximal runs of the demand that are not held. */
  ghost predicate MissingOf(rs: seq<SeekRead>, held: set<nat>, d: SeekRead) {
    && Separated(rs)
    && forall p: nat :: Covered(rs, p) <==> d.Contains(p) && p !in held
  }

  /** need is what is fetched for a demand: the missing runs, merged if greedy is longer than it. */
  ghost predicate NeedOf(need: seq<SeekRead>, held: set<nat>, d: SeekRead, greedy: nat) {
    if greedy <= d.len then MissingOf(need, held, d)
    else exists runs :: MissingOf(runs, held, d) && need == MergeAll(runs, greedy)
  }

  lemma {:induction false} MissingByHeld(rs: seq<SeekRead>, bs: seq<Block>, d: SeekRead)
    requires MissingRuns(rs, bs, d.fpos, d.len)
    ensures MissingOf(rs, Held(bs), d)
  {
    forall p: nat
      ensures Covered(rs, p) <==> d.Contains(p) && p !in Held(bs)
    {
      HeldIsInSome(bs, p);
    }
  }

  lemma {:induction false} AnswerByHeld(need: seq<SeekRead>, bs: seq<Block>, d: SeekRead, greedy: nat)
    requires d.len > 0 && NeedAnswer(need, bs, d.fpos, d.len, greedy)
    ensures NeedOf(need, Held(bs), d, greedy)
  {
    if greedy <= d.len {
      MissingByHeld(need, bs, d);
    } else {
      var runs :| MissingRuns(runs, bs, d.fpos, d.len) && need == MergeAll(runs, greedy);
      MissingByHeld(runs, bs, d);
    }
  }

  lemma {:induction false} MissingIsUnique(a: seq<SeekRead>, b: seq<SeekRead>, held: set<nat>, d: SeekRead)
    requires MissingOf(a, held, d) && MissingOf(b, held, d)
    ensures a == b
  {
    forall p ensures Covered(a, p) <==> Covered(b, p) {
      assert Covered(a, p) || Covered(b, p) ==> 0 <= p;
    }
    SeparatedIsUnique(a, b);
  }

  lemma {:induction false} NeedIsUnique(a: seq<SeekRead>, b: seq<SeekRead>, held: set<nat>, d: SeekRead, greedy: nat)
    requires NeedOf(a, held, d, greedy) && NeedOf(b, held, d, greedy)
    ensures a == b
  {
    if greedy <= d.len {
      MissingIsUnique(a, b, held, d);
    } else {
      var r :| MissingOf(r, held, d) && a == MergeAll(r, greedy);
      var s :| MissingOf(s, held, d) && b == MergeAll(s, greedy);
      MissingIsUnique(r, s, held, d);
    }
  }
}
