/** What serving a list of demands comes to, as positions held and seams left, without blocks. */
module Demands {
  import opened SeekReads
  import opened Blocks
  import opened Seams

  /** The part of a cache that decides which requests it can serve. */
  datatype Cache = Cache(held: set<nat>, seams: set<nat>)

  const EMPTY_CACHE := Cache({}, {})

  ghost function CacheOf(bs: seq<Block>): Cache {
    Cache(Held(bs), SeamsOf(bs))
  }

  /** p is the first held position at or after fpos, within reach of a request. */
  ghost predicate FirstHeld(held: set<nat>, fpos: nat, len: nat, p: nat) {
    && p in held && fpos < p <= fpos + len
    && forall x :: fpos <= x < p ==> x !in held
  }

  /** The seam that serving a request leaves: where the gap it starts in ends. */
  ghost function NewSeams(held: set<nat>, fpos: nat, len: nat): set<nat> {
    set p | p in held && StartsInGap(held, fpos) && FirstHeld(held, fpos, len, p)
  }

  ghost function After(c: Cache, d: SeekRead): Cache {
    Cache(c.held + Interval(d.fpos, d.len), c.seams + NewSeams(c.held, d.fpos, d.len))
  }

  ghost predicate Straddles(d: SeekRead, seams: set<nat>) {
    exists s :: s in seams && d.fpos < s < d.End()
  }

  /** No demand, when its turn comes, has a seam inside it. */
  ghost predicate AllServed(c: Cache, ds: seq<SeekRead>)
    decreases ds
  {
    ds == [] || (!Straddles(ds[0], After(c, ds[0]).seams) && AllServed(After(c, ds[0]), ds[1..]))
  }

  /** The demand is a hit: all of it is held, in one block. */
  ghost predicate Hits(c: Cache, d: SeekRead) {
    Interval(d.fpos, d.len) <= c.held && !Straddles(d, c.seams)
  }

  ghost function HitCount(c: Cache, ds: seq<SeekRead>): nat
    decreases ds
  {
    if ds == [] then 0 else (if Hits(c, ds[0]) then 1 else 0) + HitCount(After(c, ds[0]), ds[1..])
  }

  ghost function Union(ds: seq<SeekRead>): set<nat> {
    if ds == [] then {} else Union(ds[..|ds| - 1]) + Interval(ds[|ds| - 1].fpos, ds[|ds| - 1].len)
  }

  function TotalLength(ds: seq<SeekRead>): nat {
    if ds == [] then 0 else TotalLength(ds[..|ds| - 1]) + ds[|ds| - 1].len
  }

  lemma {:induction false} UnionIsCovered(ds: seq<SeekRead>, p: nat)
    ensures p in Union(ds) <==> Covered(ds, p)
  {
    if ds != [] {
      var n := |ds| - 1;
      UnionIsCovered(ds[..n], p);
      CoveredPrefix(ds, n, p);
      assert ds[..n + 1] == ds;
    }
  }

  /** Filling a gap leaves a seam when the gap is not right behind a held byte, some byte before that is
      held, and the byte behind the gap is. */
  ghost predicate LeavesSeam(held: set<nat>, fpos: nat, len: nat) {
    StartsInGap(held, fpos) && fpos + len in held
  }

  /** The seam lies behind the first missing run. */
  lemma {:induction false} NewSeamsBehind(held: set<nat>, fpos: nat, len: nat, run: nat)
    requires 0 < run <= len && (run < len ==> fpos + run in held)
    requires forall x: nat :: fpos <= x < fpos + run ==> x !in held
    ensures NewSeams(held, fpos, len) == if LeavesSeam(held, fpos, run) then {fpos + run} else {}
  {
    forall p
      ensures FirstHeld(held, fpos, len, p) <==> p == fpos + run && p in held
    {
    }
  }

  // ---- What makes a demand fail ----

  lemma {:induction false} LeastHeld(held: set<nat>, fpos: nat, p: nat) returns (least: nat)
    requires p in held && fpos <= p
    ensures least in held && fpos <= least <= p
    ensures forall x :: fpos <= x < least ==> x !in held
    decreases p - fpos
  {
    if fpos in held {
      least := fpos;
    } else {
      least := LeastHeld(held, fpos + 1, p);
      forall x | fpos <= x < least ensures x !in held {
        assert x == fpos || fpos + 1 <= x;
      }
    }
  }

  /** From a cache without seams a demand fails exactly when it starts in a gap, not right behind
      the byte in front of it, and runs into bytes held behind the gap. */
  lemma {:induction false} FailsWithoutSeams(c: Cache, d: SeekRead)
    requires c.seams == {} && d.len > 0
    ensures Straddles(d, After(c, d).seams) <==>
            && StartsInGap(c.held, d.fpos) && d.fpos !in c.held
            && exists p :: p in c.held && d.fpos < p < d.End()
  {
    if StartsInGap(c.held, d.fpos) && d.fpos !in c.held && exists p :: p in c.held && d.fpos < p < d.End() {
      var p :| p in c.held && d.fpos < p < d.End();
      var least := LeastHeld(c.held, d.fpos, p);
      assert FirstHeld(c.held, d.fpos, d.len, least);
      assert least in NewSeams(c.held, d.fpos, d.len);
    }
  }

  /** Every held position from bound on is reached from bound without a gap. */
  ghost predicate AttachedAbove(held: set<nat>, bound: nat) {
    forall p, q :: p in held && bound <= q <= p ==> q in held
  }

  lemma {:induction false} AttachedStays(c: Cache, d: SeekRead, bound: nat)
    requires AttachedAbove(c.held, bound) && bound <= d.fpos
    ensures NewSeams(c.held, d.fpos, d.len) == {}
    ensures AttachedAbove(After(c, d).held, d.fpos)
  {
    forall p | p in c.held && d.fpos < p
      ensures d.fpos in c.held
    {
      assert bound <= d.fpos <= p;
    }
  }

  /** Demands in ascending order are all served. */
  lemma {:induction false} AscendingAllServed(c: Cache, ds: seq<SeekRead>, bound: nat)
    requires c.seams == {} && AttachedAbove(c.held, bound)
    requires Ascending(ds) && forall i :: 0 <= i < |ds| ==> bound <= ds[i].fpos
    ensures AllServed(c, ds)
    decreases ds
  {
    if ds != [] {
      AttachedStays(c, ds[0], bound);
      hide AttachedAbove, NewSeams;
      AscendingAllServed(After(c, ds[0]), ds[1..], ds[0].fpos);
    }
  }

  /** Three demands of which the last fails: it starts in the gap between the first two and runs
      into the second. */
  lemma {:induction false} GapDemandFails()
    ensures !AllServed(EMPTY_CACHE, [SeekRead(0, 1), SeekRead(5, 1), SeekRead(2, 5)])
  {
    var ds := [SeekRead(0, 1), SeekRead(5, 1), SeekRead(2, 5)];
    var c1 := After(EMPTY_CACHE, ds[0]);
    var c2 := After(c1, ds[1]);
    assert 0 in c2.held && 5 in c2.held && 1 !in c2.held;
    assert FirstHeld(c2.held, 2, 5, 5);
    assert 5 in After(c2, ds[2]).seams;
    assert ds[1..][0] == ds[1] && ds[1..][1..][0] == ds[2];
    assert Straddles(ds[2], After(c2, ds[2]).seams);
    assert !AllServed(c2, ds[1..][1..]);
    assert !AllServed(c1, ds[1..]);
  }
}
