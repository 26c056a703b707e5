/** Which blocks an LRU punt keeps. */
module Eviction {
  import opened Blocks
  import opened Writes

  /** The blocks touched at or after t, in their order. */
  function KeepFrom(bs: seq<Block>, t: nat): seq<Block> {
    if bs == [] then [] else (if t <= bs[0].touch then [bs[0]] else []) + KeepFrom(bs[1..], t)
  }

  /** Too much to keep: a punt goes on erasing. */
  ghost predicate TooMuch(bs: seq<Block>, bound: nat) {
    |bs| > 1 && Sum(bs) >= bound
  }

  /** What a punt leaves: the most recently touched blocks, as many as are not too much. */
  ghost predicate Punted(was: seq<Block>, bound: nat, now: seq<Block>) {
    exists cut :: PuntedAt(was, bound, now, cut)
  }

  ghost predicate PuntedAt(was: seq<Block>, bound: nat, now: seq<Block>, cut: nat) {
    && now == KeepFrom(was, cut)
    && !TooMuch(now, bound)
    && (was != [] ==> now != [])
    && forall c: nat :: c < cut ==> KeepFrom(was, c) == now || TooMuch(KeepFrom(was, c), bound)
  }

  /** The bound and the touches decide what a punt leaves. */
  lemma {:induction false} PuntIsUnique(was: seq<Block>, bound: nat, a: seq<Block>, b: seq<Block>)
    requires Punted(was, bound, a) && Punted(was, bound, b)
    ensures a == b
  {
    var c: nat :| PuntedAt(was, bound, a, c);
    var d: nat :| PuntedAt(was, bound, b, d);
  }

  lemma {:induction false} KeepFromAll(bs: seq<Block>, t: nat)
    requires forall i :: 0 <= i < |bs| ==> t <= bs[i].touch
    ensures KeepFrom(bs, t) == bs
  {
    if bs != [] {
      KeepFromAll(bs[1..], t);
    }
  }

  lemma {:induction false} KeepFromTwice(bs: seq<Block>, s: nat, t: nat)
    requires s <= t
    ensures KeepFrom(KeepFrom(bs, s), t) == KeepFrom(bs, t)
  {
    if bs != [] {
      KeepFromTwice(bs[1..], s, t);
      if s <= bs[0].touch {
        assert KeepFrom(bs, s)[1..] == KeepFrom(bs[1..], s);
      } else {
        assert KeepFrom(bs, s) == KeepFrom(bs[1..], s);
      }
    }
  }

  lemma {:induction false} KeepFromHas(bs: seq<Block>, t: nat, b: Block)
    ensures b in KeepFrom(bs, t) <==> b in bs && t <= b.touch
  {
    if bs != [] {
      KeepFromHas(bs[1..], t, b);
    }
  }

  lemma {:induction false} KeepFromLess(bs: seq<Block>, t: nat)
    ensures |KeepFrom(bs, t)| <= |bs|
  {
    if bs != [] {
      KeepFromLess(bs[1..], t);
    }
  }

  /** Of the blocks was, those in now are the ones touched at or after t. */
  ghost predicate TouchedSince(was: seq<Block>, now: seq<Block>, t: int) {
    forall b :: b in now <==> b in was && t <= b.touch
  }

  /** What a punt leaves, in terms of touches and bytes. */
  lemma {:induction false} PuntedMeans(was: seq<Block>, bound: nat, now: seq<Block>)
    requires Punted(was, bound, now)
    ensures |now| > 1 ==> Sum(now) < bound
    ensures |was| <= 1 || Sum(was) < bound ==> now == was
    ensures was != [] ==> now != []
    ensures exists t :: TouchedSince(was, now, t)
    ensures forall t :: |KeepFrom(was, t)| > |now| ==> bound <= Sum(KeepFrom(was, t))
  {
    var cut: nat :| PuntedAt(was, bound, now, cut);
    KeepFromAll(was, 0);
    forall b ensures b in now <==> b in was && cut <= b.touch {
      KeepFromHas(was, cut, b);
    }
    assert TouchedSince(was, now, cut);
    forall t: nat | |KeepFrom(was, t)| > |now|
      ensures bound <= Sum(KeepFrom(was, t))
    {
      if cut <= t {
        KeepFromTwice(was, cut, t);
        KeepFromLess(now, t);
      }
    }
  }

  /** Erasing the block with the least touch keeps those touched later. */
  lemma {:induction false} EraseLeast(bs: seq<Block>, i: nat)
    requires i < |bs|
    requires forall k :: 0 <= k < |bs| && k != i ==> bs[i].touch < bs[k].touch
    ensures KeepFrom(bs, bs[i].touch + 1) == bs[..i] + bs[i + 1..]
  {
    var rest := bs[1..];
    if i == 0 {
      KeepFromAll(rest, bs[0].touch + 1);
    } else {
      assert rest[i - 1] == bs[i];
      EraseLeast(rest, i - 1);
      assert [bs[0]] + (rest[..i - 1] + rest[i..]) == bs[..i] + bs[i + 1..];
    }
  }

  /** The block touched last survives every punt. */
  lemma {:induction false} NewestSurvives(was: seq<Block>, bound: nat, now: seq<Block>, k: nat)
    requires Punted(was, bound, now) && k < |was|
    requires forall i :: 0 <= i < |was| ==> was[i].touch <= was[k].touch
    ensures was[k] in now
  {
    var cut: nat :| PuntedAt(was, bound, now, cut);
    KeepFromHas(was, cut, now[0]);
    KeepFromHas(was, cut, was[k]);
  }

  /** The block written last survives the punt that follows. */
  lemma {:induction false} LastWrittenSurvives(bs: seq<Block>, fpos: nat, data: seq<Byte>, touch: nat, bound: nat,
                                               now: seq<Block>)
    requires Keyed(bs) && Touched(bs, touch) && Punted(Written(bs, fpos, data, touch), bound, now)
    ensures exists k :: NewestCovers(now, k, touch, fpos, |data|)
  {
    var ns := Written(bs, fpos, data, touch);
    WrittenTouches(bs, fpos, data, touch);
    var k: nat :| NewestCovers(ns, k, touch, fpos, |data|);
    NewestSurvives(ns, bound, now, k);
    var m: nat :| m < |now| && now[m] == ns[k];
    assert NewestCovers(now, m, touch, fpos, |data|);
  }

  /** The block read last survives the punt that follows. */
  lemma {:induction false} LastReadSurvives(bs: seq<Block>, k: nat, touch: nat, bound: nat, now: seq<Block>)
    requires k < |bs| && Touched(bs, touch) && Punted(bs[k := bs[k].(touch := touch)], bound, now)
    ensures bs[k].(touch := touch) in now
  {
    NewestSurvives(bs[k := bs[k].(touch := touch)], bound, now, k);
  }

  /** Erasing block k takes its positions and nothing else. */
  lemma {:induction false} EraseKeeps(bs: seq<Block>, k: nat, counter: nat)
    requires Keyed(bs) && Touched(bs, counter) && k < |bs|
    ensures var ns := bs[..k] + bs[k + 1..];
            && Keyed(ns) && Touched(ns, counter) && Sum(ns) == Sum(bs) - |bs[k].data|
            && (Disjoint(bs) ==> Disjoint(ns)) && (Canonical(bs) ==> Canonical(ns))
  {
    EraseSum(bs, k);
    EraseKeepsForms(bs, k);
    EraseKeepsTouches(bs, k, counter);
    hide *;
  }

  lemma {:induction false} EraseAccounts(bs: seq<Block>, k: nat)
    requires k < |bs|
    ensures |bs[..k] + bs[k + 1..]| == |bs| - 1 && |bs[k].data| <= Sum(bs)
  {
    EraseSum(bs, k);
  }

  lemma {:induction false} EraseKeepsForms(bs: seq<Block>, k: nat)
    requires k < |bs|
    ensures var ns := bs[..k] + bs[k + 1..];
            && (Keyed(bs) ==> Keyed(ns)) && (Disjoint(bs) ==> Disjoint(ns)) && (Canonical(bs) ==> Canonical(ns))
  {
    var ns := bs[..k] + bs[k + 1..];
    assert forall i :: 0 <= i < k ==> ns[i] == bs[i];
    assert forall i :: k <= i < |ns| ==> ns[i] == bs[i + 1];
  }

  lemma {:induction false} EraseKeepsTouches(bs: seq<Block>, k: nat, counter: nat)
    requires k < |bs| && Touched(bs, counter)
    ensures Touched(bs[..k] + bs[k + 1..], counter)
  {
    var ns := bs[..k] + bs[k + 1..];
    assert forall i :: 0 <= i < k ==> ns[i] == bs[i];
    assert forall i :: k <= i < |ns| ==> ns[i] == bs[i + 1];
  }

  lemma {:induction false} EraseSum(bs: seq<Block>, k: nat)
    requires k < |bs|
    ensures Sum(bs[..k] + bs[k + 1..]) == Sum(bs) - |bs[k].data|
  {
    assert bs == bs[..k] + ([bs[k]] + bs[k + 1..]);
    SumConcat(bs[..k], [bs[k]] + bs[k + 1..]);
    SumConcat([bs[k]], bs[k + 1..]);
    SumConcat(bs[..k], bs[k + 1..]);
  }

  // ---- The loop of a punt ----

  ghost function Touches(bs: seq<Block>): set<nat> {
    set k | 0 <= k < |bs| :: bs[k].touch
  }

  lemma {:induction false} LeastExists(s: set<nat>) returns (least: nat)
    requires s != {}
    ensures least in s && forall t :: t in s ==> least <= t
  {
    var x: nat :| x in s;
    if s == {x} {
      least := x;
    } else {
      var rest := LeastExists(s - {x});
      least := if x < rest then x else rest;
      assert forall t :: t in s ==> t == x || t in s - {x};
    }
  }

  /** What the loop of a punt keeps: now is what is left of was after erasing all touched before
      cut, and everything more than that was too much. */
  ghost predicate Punting(was: seq<Block>, bound: nat, now: seq<Block>, cut: nat) {
    && now == KeepFrom(was, cut)
    && (was != [] ==> now != [])
    && (forall k :: 0 <= k < |now| ==> cut <= now[k].touch)
    && (forall c: nat :: c < cut ==> KeepFrom(was, c) == now || TooMuch(KeepFrom(was, c), bound))
  }

  lemma {:induction false} PuntStarts(was: seq<Block>, bound: nat)
    ensures Punting(was, bound, was, 0)
  {
    KeepFromAll(was, 0);
  }

  lemma {:induction false} PuntStep(was: seq<Block>, bound: nat, now: seq<Block>, cut: nat, k: nat, counter: nat)
    requires Punting(was, bound, now, cut) && TooMuch(now, bound) && Touched(now, counter)
    requires k < |now| && forall i :: 0 <= i < |now| ==> now[k].touch <= now[i].touch
    ensures Punting(was, bound, now[..k] + now[k + 1..], now[k].touch + 1)
  {
    hide KeepFrom, Sum;
    var t := now[k].touch;
    var next := now[..k] + now[k + 1..];
    assert forall i :: 0 <= i < |now| && i != k ==> t < now[i].touch;
    EraseLeast(now, k);
    KeepFromTwice(was, cut, t + 1);
    forall c: nat | c < t + 1
      ensures TooMuch(KeepFrom(was, c), bound)
    {
      if cut <= c {
        KeepFromTwice(was, cut, c);
        KeepFromAll(now, c);
      }
    }
    forall i | 0 <= i < |next|
      ensures t + 1 <= next[i].touch
    {
      assert next[i] == now[if i < k then i else i + 1];
    }
  }

  /** touches says where each block starts, by its touch. */
  ghost predicate Locates(touches: map<nat, nat>, bs: seq<Block>) {
    forall k :: 0 <= k < |bs| ==> bs[k].touch in touches && touches[bs[k].touch] == bs[k].fpos
  }

  lemma {:induction false} AllLocated(touches: map<nat, nat>, bs: seq<Block>)
    requires forall k :: 0 <= k < |bs| ==> bs[k].touch in touches && touches[bs[k].touch] == bs[k].fpos
    requires forall t :: t in touches ==> exists k :: 0 <= k < |bs| && bs[k].touch == t
    ensures touches.Keys == Touches(bs) && Locates(touches, bs)
  {
  }

  /** The block with the least touch is found, and erasing it is one step of the punt. */
  lemma {:induction false} PuntTurn(was: seq<Block>, bound: nat, now: seq<Block>, cut: nat, counter: nat, t: nat,
                                    touches: map<nat, nat>)
    requires Keyed(now) && Touched(now, counter) && Locates(touches, now)
    requires Punting(was, bound, now, cut) && TooMuch(now, bound)
    requires t in Touches(now) && forall u :: u in Touches(now) ==> t <= u
    ensures t in touches
    ensures var k := UpperBound(now, touches[t]) - 1;
            && 0 <= k && now[k].fpos == touches[t]
            && Punting(was, bound, now[..k] + now[k + 1..], t + 1)
            && Touches(now[..k] + now[k + 1..]) == Touches(now) - {t}
            && Locates(touches, now[..k] + now[k + 1..])
  {
    hide *;
    var k := FindTouch(now, t, touches);
    TouchesErased(now, k, counter);
    LocatesErased(touches, now, k);
    PuntStep(was, bound, now, cut, k, counter);
  }

  lemma {:induction false} FindTouch(now: seq<Block>, t: nat, touches: map<nat, nat>) returns (k: nat)
    requires Keyed(now) && Locates(touches, now)
    requires t in Touches(now) && forall u :: u in Touches(now) ==> t <= u
    ensures k < |now| && now[k].touch == t && t in touches && now[k].fpos == touches[t]
    ensures UpperBound(now, touches[t]) == k + 1
    ensures forall i :: 0 <= i < |now| ==> t <= now[i].touch
  {
    k :| k < |now| && now[k].touch == t;
    forall i | 0 <= i < |now| ensures t <= now[i].touch {
      assert now[i].touch in Touches(now);
    }
    UpperBoundIs(now, now[k].fpos, k + 1);
  }

  lemma {:induction false} TouchesErased(bs: seq<Block>, k: nat, counter: nat)
    requires Touched(bs, counter) && k < |bs|
    ensures Touches(bs[..k] + bs[k + 1..]) == Touches(bs) - {bs[k].touch}
  {
    var ns := bs[..k] + bs[k + 1..];
    assert forall i :: 0 <= i < |ns| ==> ns[i] == bs[if i < k then i else i + 1];
    forall t
      ensures t in Touches(ns) <==> t in Touches(bs) && t != bs[k].touch
    {
      if t in Touches(bs) && t != bs[k].touch {
        var i: nat :| i < |bs| && bs[i].touch == t;
        assert ns[if i < k then i else i - 1].touch == t;
      }
    }
  }

  lemma {:induction false} LocatesErased(touches: map<nat, nat>, bs: seq<Block>, k: nat)
    requires Locates(touches, bs) && k < |bs|
    ensures Locates(touches, bs[..k] + bs[k + 1..])
  {
  }

  lemma {:induction false} NoTouchesNoBlocks(bs: seq<Block>)
    ensures bs != [] ==> Touches(bs) != {}
  {
    if bs != [] {
      assert bs[0].touch in Touches(bs);
    }
  }

  lemma {:induction false} PuntEnds(was: seq<Block>, bound: nat, now: seq<Block>, cut: nat)
    requires Punting(was, bound, now, cut) && !TooMuch(now, bound)
    ensures Punted(was, bound, now)
  {
    assert PuntedAt(was, bound, now, cut);
  }

  // ---- Punting two files whose blocks were touched in the same order ----

  /** The same blocks, each touched d later. */
  function Delayed(bs: seq<Block>, d: nat): seq<Block> {
    seq(|bs|, i requires 0 <= i < |bs| => bs[i].(touch := bs[i].touch + d))
  }

  lemma {:induction false} KeepFromFront(b: Block, bs: seq<Block>, t: nat)
    ensures KeepFrom([b] + bs, t) == if t <= b.touch then [b] + KeepFrom(bs, t) else KeepFrom(bs, t)
  {
    assert ([b] + bs)[1..] == bs;
  }

  lemma {:induction false} DelayedKeeps(bs: seq<Block>, d: nat, t: nat)
    ensures KeepFrom(Delayed(bs, d), t) == Delayed(KeepFrom(bs, if d <= t then t - d else 0), d)
  {
    if bs != [] {
      hide KeepFrom, Delayed;
      var b, rest := bs[0], bs[1..];
      var from: nat := if d <= t then t - d else 0;
      assert bs == [b] + rest;
      DelayedKeeps(rest, d, t);
      DelayedFront(b, rest, d);
      KeepFromFront(b, rest, from);
      KeepFromFront(b.(touch := b.touch + d), Delayed(rest, d), t);
      DelayedFront(b, KeepFrom(rest, from), d);
    }
  }

  lemma {:induction false} DelayedFront(b: Block, bs: seq<Block>, d: nat)
    ensures Delayed([b] + bs, d) == [b.(touch := b.touch + d)] + Delayed(bs, d)
  {
  }

  lemma {:induction false} DelayedSum(bs: seq<Block>, d: nat)
    ensures Sum(Delayed(bs, d)) == Sum(bs)
  {
    if bs != [] {
      DelayedSum(bs[1..], d);
      assert Delayed(bs, d)[1..] == Delayed(bs[1..], d);
    }
  }

  /** A delay changes nothing about what a punt keeps. */
  lemma {:induction false} DelayedPunt(was: seq<Block>, d: nat, bound: nat, now: seq<Block>, late: seq<Block>)
    requires Punted(was, bound, now) && Punted(Delayed(was, d), bound, late)
    ensures late == Delayed(now, d)
  {
    var cut: nat :| PuntedAt(was, bound, now, cut);
    DelayedKeeps(was, d, cut + d);
    DelayedSum(now, d);
    forall c: nat | c < cut + d
      ensures KeepFrom(Delayed(was, d), c) == Delayed(now, d) || TooMuch(KeepFrom(Delayed(was, d), c), bound)
    {
      var c' := if d <= c then c - d else 0;
      DelayedKeeps(was, d, c);
      DelayedSum(KeepFrom(was, c'), d);
    }
    assert PuntedAt(Delayed(was, d), bound, Delayed(now, d), cut + d);
    PuntIsUnique(Delayed(was, d), bound, late, Delayed(now, d));
  }
}
