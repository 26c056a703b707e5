/** What is missing: the runs of positions that no block holds. */
module Gaps {
  import opened SeekReads
  import opened Blocks

  /** rs is the list of maximal runs of missing positions among the len positions from fpos. */
  ghost predicate MissingRuns(rs: seq<SeekRead>, bs: seq<Block>, fpos: nat, len: nat) {
    && Separated(rs)
    && forall p :: Covered(rs, p) <==> fpos <= p < fpos + len && !InSome(bs, p)
  }

  /** The one list that rs can be. */
  lemma {:induction false} MissingRunsAreUnique(a: seq<SeekRead>, b: seq<SeekRead>, bs: seq<Block>, fpos: nat,
                                                len: nat)
    requires MissingRuns(a, bs, fpos, len) && MissingRuns(b, bs, fpos, len)
    ensures a == b
  {
    SeparatedIsUnique(a, b);
  }

  lemma {:induction false} CoveredExtended(rs: seq<SeekRead>, entry: SeekRead, p: int)
    ensures Covered(rs + [entry], p) <==> Covered(rs, p) || entry.Contains(p)
  {
    if Covered(rs, p) {
      var i :| 0 <= i < |rs| && rs[i].Contains(p);
      assert (rs + [entry])[i].Contains(p);
    }
    if entry.Contains(p) {
      assert (rs + [entry])[|rs|].Contains(p);
    }
  }

  /** What need() answers: the missing runs, merged if greedy is longer than the request. Asked for
      nothing it names the position if no block starts at or before it. */
  ghost predicate NeedAnswer(ret: seq<SeekRead>, bs: seq<Block>, fpos: nat, len: nat, greedy: nat) {
    if len == 0 then ret == if UpperBound(bs, fpos) == 0 then [SeekRead(fpos, greedy)] else []
    else if greedy <= len then MissingRuns(ret, bs, fpos, len)
    else exists runs :: MissingRuns(runs, bs, fpos, len) && ret == MergeAll(runs, greedy) && MergeOf(runs, greedy, ret)
  }

  lemma {:induction false} MergeOfOneRun(run: SeekRead, greedy: nat)
    ensures MergeAll([run], greedy) == [SeekRead(run.fpos, AmountToRead(run, greedy))]
  {
    assert [run][..0] == [];
  }

  /** Of an empty file everything is missing. */
  lemma {:induction false} NeedOfNothing(fpos: nat, len: nat, greedy: nat, ret: seq<SeekRead>)
    requires ret == [SeekRead(fpos, if greedy > len then greedy else len)]
    ensures NeedAnswer(ret, [], fpos, len, greedy)
  {
    var run := SeekRead(fpos, len);
    MergeOfOneRun(run, greedy);
    hide MergeAll, MergeOf, MissingRuns, MergeOne;
    if len > 0 {
      AllIsMissing(run);
      if greedy > len {
        OneRunMerged(run, greedy, ret);
        assert MissingRuns([run], [], fpos, len) && ret == MergeAll([run], greedy);
      }
    }
  }

  lemma {:induction false} AllIsMissing(run: SeekRead)
    requires run.len > 0
    ensures MissingRuns([run], [], run.fpos, run.len)
  {
    forall q
      ensures Covered([run], q) <==> run.Contains(q)
    {
      assert [] + [run] == [run];
      CoveredExtended([], run, q);
    }
  }

  lemma {:induction false} OneRunMerged(run: SeekRead, greedy: nat, ret: seq<SeekRead>)
    requires 0 < run.len < greedy && ret == [SeekRead(run.fpos, greedy)]
    ensures MergeOf([run], greedy, ret)
  {
    assert [run][0].fpos == ret[0].fpos;
    forall p ensures (Covered([run], p) <==> run.Contains(p)) && (Covered(ret, p) <==> ret[0].Contains(p)) {
      CoveredExtended([], run, p);
      CoveredExtended([], ret[0], p);
      assert [] + [run] == [run] && [] + [ret[0]] == ret;
    }
  }

  lemma {:induction false} RunsCatchUp(runs: seq<SeekRead>, bs: seq<Block>, fpos: nat, len: nat)
    requires MissingRuns(runs, bs, fpos, len)
    ensures Positive(runs) && CatchesUp(runs)
  {
    SeparatedCatchesUp(runs);
  }

  lemma {:induction false} NothingMerged(greedy: nat)
    ensures MergeAll([], greedy) == [] && MergeOf([], greedy, [])
  {
  }

  /** The answer in terms of positions. */
  lemma {:induction false} AnswerMeans(ret: seq<SeekRead>, bs: seq<Block>, fpos: nat, len: nat, greedy: nat)
    requires Keyed(bs) && NeedAnswer(ret, bs, fpos, len, greedy)
    ensures 0 < len && greedy <= len ==>
              Separated(ret) && forall p :: Covered(ret, p) <==> fpos <= p < fpos + len && !InSome(bs, p)
    ensures len < greedy ==>
              && (forall k :: 0 <= k < |ret| ==> greedy <= ret[k].len)
              && forall p :: fpos <= p < fpos + len && !InSome(bs, p) ==> Covered(ret, p)
    ensures len == 0 ==> ret == if bs == [] || fpos < bs[0].fpos then [SeekRead(fpos, greedy)] else []
  {
    if 0 < len < greedy {
      var runs :| MissingRuns(runs, bs, fpos, len) && MergeOf(runs, greedy, ret);
    }
  }

  // ---- Many requests ----

  /** found lists missing bytes of the requests, all of them, perhaps out of order. */
  ghost predicate ListsMissing(found: seq<SeekRead>, bs: seq<Block>, requests: seq<SeekRead>) {
    forall p :: Covered(found, p) <==> Covered(requests, p) && !InSome(bs, p)
  }

  /** rs is the list of maximal runs of the missing bytes of all requests. */
  ghost predicate MissingOfAll(rs: seq<SeekRead>, bs: seq<Block>, requests: seq<SeekRead>) {
    Separated(rs) && ListsMissing(rs, bs, requests)
  }

  /** What need_many() has gathered from the first n requests, sorted by position. */
  ghost predicate Gathered(found: seq<SeekRead>, bs: seq<Block>, sorted: seq<SeekRead>, n: nat) {
    && n <= |sorted|
    && Positive(found) && CatchesUp(found)
    && ListsMissing(found, bs, sorted[..n])
    && forall i :: 0 <= i < |found| ==> EndsWithin(sorted, n, found[i].End())
  }

  ghost predicate EndsWithin(sorted: seq<SeekRead>, n: nat, e: nat)
    requires n <= |sorted|
  {
    exists m :: 0 <= m < n && e <= sorted[m].End()
  }

  lemma {:induction false} CoveredConcat(a: seq<SeekRead>, b: seq<SeekRead>, p: int)
    ensures Covered(a + b, p) <==> Covered(a, p) || Covered(b, p)
  {
    if Covered(a, p) {
      var i :| 0 <= i < |a| && a[i].Contains(p);
      assert (a + b)[i].Contains(p);
    }
    if Covered(b, p) {
      var i :| 0 <= i < |b| && b[i].Contains(p);
      assert (a + b)[|a| + i].Contains(p);
    }
  }

  /** A missing byte below the end of an earlier find was found before. */
  lemma {:induction false} FallsBackOnFound(found: seq<SeekRead>, bs: seq<Block>, sorted: seq<SeekRead>, n: nat,
                                            i: nat, x: int)
    requires n < |sorted| && Ascending(sorted) && Gathered(found, bs, sorted, n)
    requires i < |found| && x < found[i].End() && sorted[n].Contains(x) && !InSome(bs, x)
    ensures Covered(found, x)
  {
    var m :| 0 <= m < n && found[i].End() <= sorted[m].End();
    assert sorted[..n][m].Contains(x);
    assert Covered(sorted[..n], x);
  }

  lemma {:induction false} RunsLieWithin(runs: seq<SeekRead>, bs: seq<Block>, r: SeekRead, k: nat)
    requires MissingRuns(runs, bs, r.fpos, r.len) && k < |runs|
    ensures r.fpos <= runs[k].fpos && runs[k].End() <= r.End()
    ensures forall x :: runs[k].Contains(x) ==> r.Contains(x) && !InSome(bs, x)
  {
    forall x | runs[k].Contains(x)
      ensures r.Contains(x) && !InSome(bs, x)
    {
      assert Covered(runs, x);
    }
    assert runs[k].Contains(runs[k].fpos) && runs[k].Contains(runs[k].End() - 1);
  }

  lemma {:induction false} GatheredCatchesUp(found: seq<SeekRead>, runs: seq<SeekRead>, bs: seq<Block>,
                                             sorted: seq<SeekRead>, n: nat)
    requires n < |sorted| && Ascending(sorted) && Gathered(found, bs, sorted, n)
    requires MissingRuns(runs, bs, sorted[n].fpos, sorted[n].len)
    ensures CatchesUp(found + runs)
  {
    var all := found + runs;
    forall i, k, x | 0 <= i < k < |all| && all[k].Contains(x) && x < all[i].End()
      ensures Covered(all[..k], x)
    {
      if k < |found| {
        assert all[..k] == found[..k];
      } else {
        RunsLieWithin(runs, bs, sorted[n], k - |found|);
        assert i < |found|;
        FallsBackOnFound(found, bs, sorted, n, i, x);
        CoveredConcat(found, runs[..k - |found|], x);
        assert all[..k] == found + runs[..k - |found|];
      }
    }
  }

  lemma {:induction false} GatherMore(found: seq<SeekRead>, runs: seq<SeekRead>, bs: seq<Block>,
                                      sorted: seq<SeekRead>, n: nat)
    requires n < |sorted| && Ascending(sorted) && Gathered(found, bs, sorted, n)
    requires MissingRuns(runs, bs, sorted[n].fpos, sorted[n].len)
    ensures Gathered(found + runs, bs, sorted, n + 1)
  {
    var all := found + runs;
    GatheredCatchesUp(found, runs, bs, sorted, n);
    forall p
      ensures Covered(all, p) <==> Covered(sorted[..n + 1], p) && !InSome(bs, p)
    {
      CoveredConcat(found, runs, p);
      CoveredPrefix(sorted, n, p);
    }
    forall i | 0 <= i < |all|
      ensures EndsWithin(sorted, n + 1, all[i].End())
    {
      if i < |found| {
        assert EndsWithin(sorted, n, found[i].End());
      } else {
        RunsLieWithin(runs, bs, sorted[n], i - |found|);
        assert all[i].End() <= sorted[n].End();
      }
    }
  }

  /** Requests sorted by position catch up by themselves. */
  lemma {:induction false} AscendingCatchesUp(sorted: seq<SeekRead>)
    requires Ascending(sorted)
    ensures CatchesUp(sorted)
  {
    forall i, n, x | 0 <= i < n < |sorted| && sorted[n].Contains(x) && x < sorted[i].End()
      ensures Covered(sorted[..n], x)
    {
      assert sorted[..n][i].Contains(x);
    }
  }

  lemma {:induction false} SortedRequests(requests: seq<SeekRead>, sorted: seq<SeekRead>)
    requires SortedByPair(sorted) && multiset(sorted) == multiset(requests)
    ensures Ascending(sorted) && (Positive(sorted) <==> Positive(requests))
    ensures CatchesUp(sorted)
  {
    SameElements(sorted, requests, 0);
    AscendingCatchesUp(sorted);
  }

  lemma {:induction false} NothingHeld(bs: seq<Block>, requests: seq<SeekRead>)
    requires bs == []
    ensures ListsMissing(requests, bs, requests)
  {
  }

  lemma {:induction false} GatherNothing(bs: seq<Block>, sorted: seq<SeekRead>)
    ensures Gathered([], bs, sorted, 0)
  {
  }

  lemma {:induction false} FoundForRequests(found: seq<SeekRead>, bs: seq<Block>, requests: seq<SeekRead>,
                                            sorted: seq<SeekRead>)
    requires multiset(sorted) == multiset(requests) && ListsMissing(found, bs, sorted)
    ensures ListsMissing(found, bs, requests)
  {
    forall p ensures Covered(sorted, p) <==> Covered(requests, p) {
      SameElements(sorted, requests, p);
    }
  }

  /** What need_many() answers: the missing runs of all the requests, merged. */
  ghost predicate NeedManyAnswer(ret: seq<SeekRead>, bs: seq<Block>, requests: seq<SeekRead>, greedy: nat) {
    exists runs :: MissingOfAll(runs, bs, requests) && ret == MergeAll(runs, greedy) && MergeOf(runs, greedy, ret)
  }

  /** Merging what was found is merging the missing runs, in whatever order and pieces they were
      found. */
  lemma {:induction false} MergeOfFound(found: seq<SeekRead>, bs: seq<Block>, requests: seq<SeekRead>, greedy: nat,
                                        ret: seq<SeekRead>)
    requires Positive(found) && CatchesUp(found) && ListsMissing(found, bs, requests)
    requires ret == MergeAll(found, greedy)
    ensures NeedManyAnswer(ret, bs, requests, greedy)
    ensures greedy == 0 ==> MissingOfAll(ret, bs, requests)
  {
    var runs := MergeAll(found, 0);
    assert found[..|found|] == found;
    MergeOfMerge(found, |found|, greedy);
    MergeAllIsMerge(found, 0);
    RunsOfFound(found, bs, requests, runs);
    SeparatedCatchesUp(runs);
    MergeAllIsMerge(runs, greedy);
  }

  lemma {:induction false} RunsOfFound(found: seq<SeekRead>, bs: seq<Block>, requests: seq<SeekRead>,
                                       runs: seq<SeekRead>)
    requires ListsMissing(found, bs, requests) && MergeOf(found, 0, runs)
    ensures MissingOfAll(runs, bs, requests)
  {
    forall p ensures Covered(runs, p) <==> Covered(found, p) {
      MergeOfZeroIsExact(found, runs, p);
    }
  }

  /** Only the union of the requests matters. */
  lemma {:induction false} NeedManyFollowsUnion(a: seq<SeekRead>, b: seq<SeekRead>, bs: seq<Block>, r1: seq<SeekRead>,
                                                r2: seq<SeekRead>, greedy: nat)
    requires NeedManyAnswer(a, bs, r1, greedy) && NeedManyAnswer(b, bs, r2, greedy)
    requires forall p :: Covered(r1, p) <==> Covered(r2, p)
    ensures a == b
  {
    var x :| MissingOfAll(x, bs, r1) && a == MergeAll(x, greedy);
    var y :| MissingOfAll(y, bs, r2) && b == MergeAll(y, greedy);
    SeparatedIsUnique(x, y);
  }

  /** Needing many of one request is needing it, unless a greedy length no longer than the request is
      given, which only the former heeds. */
  lemma {:induction false} NeedManyOfOne(a: seq<SeekRead>, b: seq<SeekRead>, bs: seq<Block>, fpos: nat, len: nat,
                                         greedy: nat)
    requires len > 0 && NeedManyAnswer(a, bs, [SeekRead(fpos, len)], greedy) && NeedAnswer(b, bs, fpos, len, greedy)
    ensures greedy == 0 || len < greedy ==> a == b
    ensures 0 < greedy <= len ==> a == MergeAll(b, greedy)
  {
    var one := [SeekRead(fpos, len)];
    var x :| MissingOfAll(x, bs, one) && a == MergeAll(x, greedy) && MergeOf(x, greedy, a);
    forall p ensures Covered(one, p) <==> one[0].Contains(p) {}
    assert MissingRuns(x, bs, fpos, len);
    if greedy <= len {
      MissingRunsAreUnique(x, b, bs, fpos, len);
      if greedy == 0 {
        RunsOfFound(x, bs, one, a);
        SeparatedIsUnique(a, x);
      }
    } else {
      var y :| MissingRuns(y, bs, fpos, len) && b == MergeAll(y, greedy);
      MissingRunsAreUnique(x, y, bs, fpos, len);
    }
  }
}
