/** Lists of (file position, length) pairs: the requests, need lists and block lists
    that the sparse virtual file exchanges with its callers. */
module SeekReads {

  /** A seek() followed by a read(). */
  datatype SeekRead = SeekRead(fpos: nat, len: nat) {
    function End(): nat { fpos + len }

    predicate Contains(p: int) { fpos <= p < End() }
  }

  ghost predicate Positive(rs: seq<SeekRead>) {
    forall i :: 0 <= i < |rs| ==> rs[i].len > 0
  }

  /** Some entry of the list contains position p. */
  ghost predicate Covered(rs: seq<SeekRead>, p: int) {
    exists i :: 0 <= i < |rs| && rs[i].Contains(p)
  }

  /** Some entry of the list starts at position p. */
  ghost predicate StartsEntry(rs: seq<SeekRead>, p: int) {
    exists i :: 0 <= i < |rs| && rs[i].fpos == p
  }

  /** Non-empty entries in increasing order, with at least one position between any two. */
  ghost predicate Separated(rs: seq<SeekRead>) {
    && Positive(rs)
    && forall i, j :: 0 <= i < j < |rs| ==> rs[i].End() < rs[j].fpos
  }

  /** A separated list is determined by the positions it covers. */
  lemma {:induction false} SeparatedIsUnique(a: seq<SeekRead>, b: seq<SeekRead>)
    requires Separated(a) && Separated(b)
    requires forall p :: Covered(a, p) <==> Covered(b, p)
    ensures a == b
  {
    FirstIsCovered(a);
    FirstIsCovered(b);
    if a != [] && b != [] {
      FirstEntryWithin(a, b);
      FirstEntryWithin(b, a);
      forall p
        ensures Covered(a[1..], p) <==> Covered(b[1..], p)
      {
        CoveredTail(a, p);
        CoveredTail(b, p);
      }
      SeparatedIsUnique(a[1..], b[1..]);
      assert a == [a[0]] + a[1..] && b == [b[0]] + b[1..];
    }
  }

  lemma {:induction false} FirstIsCovered(rs: seq<SeekRead>)
    requires Positive(rs)
    ensures rs != [] ==> Covered(rs, rs[0].fpos)
  {
    if rs != [] {
      assert rs[0].Contains(rs[0].fpos);
    }
  }

  /** The first run of b starts no later than that of a, and then ends no earlier. */
  lemma {:induction false} FirstEntryWithin(a: seq<SeekRead>, b: seq<SeekRead>)
    requires Separated(a) && Separated(b) && a != [] && b != []
    requires forall p :: Covered(a, p) <==> Covered(b, p)
    ensures b[0].fpos <= a[0].fpos
    ensures a[0].fpos == b[0].fpos ==> a[0].End() <= b[0].End()
  {
    assert a[0].Contains(a[0].fpos) && Covered(a, a[0].fpos);
    var k :| 0 <= k < |b| && b[k].Contains(a[0].fpos);
    EndIsFree(b);
    assert !a[0].Contains(b[0].End());
  }

  lemma {:induction false} EndIsFree(b: seq<SeekRead>)
    requires Separated(b) && b != []
    ensures !Covered(b, b[0].End())
  {
    forall k | 0 <= k < |b|
      ensures !b[k].Contains(b[0].End())
    {
      assert k == 0 || b[0].End() < b[k].fpos;
    }
  }

  lemma {:induction false} CoveredTail(a: seq<SeekRead>, p: int)
    requires Separated(a) && a != []
    ensures Covered(a[1..], p) <==> Covered(a, p) && a[0].End() < p
  {
    if Covered(a[1..], p) {
      var k :| 0 <= k < |a[1..]| && a[1..][k].Contains(p);
      assert a[k + 1].Contains(p);
    }
    if Covered(a, p) && a[0].End() < p {
      var k :| 0 <= k < |a| && a[k].Contains(p);
      assert a[1..][k - 1].Contains(p);
    }
  }

  // ---- The greedy merger ----

  /** A list may fall back behind positions already passed, but only onto positions that an
      earlier entry contains. Lists of need() entries for requests sorted by position are so. */
  ghost predicate CatchesUp(rs: seq<SeekRead>) {
    forall i, n, x :: 0 <= i < n < |rs| && rs[n].Contains(x) && x < rs[i].End() ==>
      Covered(rs[..n], x)
  }

  /** What out, a merge of rs with minimum length greedy, promises. */
  ghost predicate MergeOf(rs: seq<SeekRead>, greedy: nat, out: seq<SeekRead>) {
    && Separated(out)
    && |out| <= |rs|
    && (forall k :: 0 <= k < |out| ==> greedy <= out[k].len)
    && (forall k :: 0 <= k < |out| ==> StartsEntry(rs, out[k].fpos))
    && (forall p :: Covered(rs, p) ==> Covered(out, p))
    && (forall k, p :: 0 <= k < |out| && out[k].Contains(p) && out[k].fpos + greedy <= p ==>
          Covered(rs, p))
  }

  function AmountToRead(entry: SeekRead, greedy: nat): nat {
    if entry.len > greedy then entry.len else greedy
  }

  /** One turn of the merger: start a new entry, lengthen the last one, or drop the request. */
  function MergeOne(out: seq<SeekRead>, entry: SeekRead, greedy: nat): seq<SeekRead> {
    if out == [] || entry.fpos > out[|out| - 1].End() then
      out + [SeekRead(entry.fpos, AmountToRead(entry, greedy))]
    else if entry.End() > out[|out| - 1].End() then
      out[..|out| - 1] + [SeekRead(out[|out| - 1].fpos, entry.End() - out[|out| - 1].fpos)]
    else out
  }

  /** All turns of the merger. */
  ghost function MergeAll(rs: seq<SeekRead>, greedy: nat): seq<SeekRead> {
    if rs == [] then [] else MergeOne(MergeAll(rs[..|rs| - 1], greedy), rs[|rs| - 1], greedy)
  }

  /** Coalesces requests that meet once each is at least greedy long. */
  method MinimiseSeekReads(rs: seq<SeekRead>, greedy: nat) returns (out: seq<SeekRead>)
    ensures out == MergeAll(rs, greedy)
    ensures Positive(rs) && CatchesUp(rs) ==> MergeOf(rs, greedy, out)
    ensures InGroups(rs, greedy, out)
    ensures rs == [] <==> out == []
  {
    hide MergeOf, CatchesUp, Positive, Merged, InGroups;
    out := [];
    MergeStarts(rs, greedy);
    for n := 0 to |rs|
      invariant out == [] <==> n == 0
      invariant out == MergeAll(rs[..n], greedy)
      invariant Positive(rs) && CatchesUp(rs) ==> Merged(rs, n, greedy, out)
    {
      var seekRead := rs[n];
      ghost var before := out;
      if out == [] {
        out := [SeekRead(seekRead.fpos, AmountToRead(seekRead, greedy))];
      } else {
        var last := out[|out| - 1];
        if seekRead.fpos > last.End() {
          out := out + [SeekRead(seekRead.fpos, AmountToRead(seekRead, greedy))];
        } else if seekRead.End() > last.End() {
          out := out[|out| - 1 := last.(len := last.len + (seekRead.End() - last.End()))];
        }
      }
      assert out == MergeOne(before, seekRead, greedy);
      assert rs[..n + 1][..n] == rs[..n];
      if Positive(rs) && CatchesUp(rs) {
        MergeStep(rs, n, greedy, before);
      }
    }
    assert rs[..|rs|] == rs;
    MergeAllGroups(rs, greedy);
    if Positive(rs) && CatchesUp(rs) {
      MergedMeans(rs, greedy, out);
    }
  }

  lemma {:induction false} MergeStarts(rs: seq<SeekRead>, greedy: nat)
    ensures Merged(rs, 0, greedy, [])
  {
  }

  lemma {:induction false} MergedMeans(rs: seq<SeekRead>, greedy: nat, out: seq<SeekRead>)
    requires Merged(rs, |rs|, greedy, out)
    ensures MergeOf(rs, greedy, out)
  {
    assert rs[..|rs|] == rs;
  }

  /** The merger's loop invariant: out merges the first n entries and reaches past them all. */
  ghost predicate Merged(rs: seq<SeekRead>, n: nat, greedy: nat, out: seq<SeekRead>) {
    && n <= |rs|
    && MergeOf(rs[..n], greedy, out)
    && (out == [] <==> n == 0)
    && forall i :: 0 <= i < n ==> rs[i].End() <= out[|out| - 1].End()
  }

  /** One turn of the merger keeps its promise. */
  lemma {:induction false} MergeStep(rs: seq<SeekRead>, n: nat, greedy: nat, before: seq<SeekRead>)
    requires n < |rs| && Positive(rs) && CatchesUp(rs)
    requires Merged(rs, n, greedy, before)
    ensures Merged(rs, n + 1, greedy, MergeOne(before, rs[n], greedy))
  {
    MergeOneStaysSeparated(before, rs[n], greedy);
    forall k | 0 <= k < |MergeOne(before, rs[n], greedy)|
      ensures StartsEntry(rs[..n + 1], MergeOne(before, rs[n], greedy)[k].fpos)
    {
      MergeOneStarts(rs, n, greedy, before, k);
    }
    MergeOneCovers(rs, n, greedy, before);
    MergeOneOverreads(rs, n, greedy, before);
  }

  lemma {:induction false} MergeOneCovers(rs: seq<SeekRead>, n: nat, greedy: nat, before: seq<SeekRead>)
    requires n < |rs| && Positive(rs) && CatchesUp(rs)
    requires MergeOf(rs[..n], greedy, before)
    ensures forall p :: Covered(rs[..n + 1], p) ==> Covered(MergeOne(before, rs[n], greedy), p)
  {
    forall p | Covered(rs[..n + 1], p)
      ensures Covered(MergeOne(before, rs[n], greedy), p)
    {
      CoveredPrefix(rs, n, p);
      if Covered(rs[..n], p) {
        MergeOneKeeps(before, rs[n], greedy, p);
      } else {
        MergeCoversNewEntry(rs, n, greedy, before, p);
      }
    }
  }

  lemma {:induction false} MergeOneOverreads(rs: seq<SeekRead>, n: nat, greedy: nat, before: seq<SeekRead>)
    requires n < |rs| && MergeOf(rs[..n], greedy, before)
    ensures var out := MergeOne(before, rs[n], greedy);
            forall k, p :: 0 <= k < |out| && out[k].Contains(p) && out[k].fpos + greedy <= p ==>
              Covered(rs[..n + 1], p)
  {
    var out := MergeOne(before, rs[n], greedy);
    forall k, p | 0 <= k < |out| && out[k].Contains(p) && out[k].fpos + greedy <= p
      ensures Covered(rs[..n + 1], p)
    {
      CoveredPrefix(rs, n, p);
      if k < |before| && before[k].Contains(p) {
        assert Covered(rs[..n], p);
      } else {
        assert rs[n].Contains(p);
      }
    }
  }

  lemma {:induction false} CoveredPrefix(rs: seq<SeekRead>, n: nat, p: int)
    requires n < |rs|
    ensures Covered(rs[..n + 1], p) <==> Covered(rs[..n], p) || rs[n].Contains(p)
  {
    if Covered(rs[..n], p) {
      var i :| 0 <= i < n && rs[..n][i].Contains(p);
      assert rs[..n + 1][i].Contains(p);
    }
    if rs[n].Contains(p) {
      assert rs[..n + 1][n].Contains(p);
    }
    if Covered(rs[..n + 1], p) {
      var i :| 0 <= i < n + 1 && rs[..n + 1][i].Contains(p);
      assert i < n ==> rs[..n][i].Contains(p);
    }
  }

  lemma {:induction false} MergeOneStaysSeparated(before: seq<SeekRead>, entry: SeekRead, greedy: nat)
    requires Separated(before) && entry.len > 0
    requires forall k :: 0 <= k < |before| ==> greedy <= before[k].len
    ensures var out := MergeOne(before, entry, greedy);
            && Separated(out) && |before| <= |out| <= |before| + 1
            && forall k :: 0 <= k < |out| ==> greedy <= out[k].len
  {
  }

  lemma {:induction false} MergeOneKeeps(before: seq<SeekRead>, entry: SeekRead, greedy: nat, p: int)
    requires Covered(before, p)
    ensures Covered(MergeOne(before, entry, greedy), p)
  {
    var k :| 0 <= k < |before| && before[k].Contains(p);
    assert MergeOne(before, entry, greedy)[k].Contains(p);
  }

  lemma {:induction false} MergeOneStarts(rs: seq<SeekRead>, n: nat, greedy: nat, before: seq<SeekRead>, k: nat)
    requires n < |rs| && MergeOf(rs[..n], greedy, before)
    requires k < |MergeOne(before, rs[n], greedy)|
    ensures var out := MergeOne(before, rs[n], greedy);
            StartsEntry(rs[..n + 1], out[k].fpos)
  {
    if k < |before| {
      assert StartsEntry(rs[..n], before[k].fpos);
      assert MergeOne(before, rs[n], greedy)[k].fpos == before[k].fpos;
      hide MergeOf, MergeOne;
      var i :| 0 <= i < |rs[..n]| && rs[..n][i].fpos == before[k].fpos;
      assert rs[..n + 1][i] == rs[..n][i];
    } else {
      hide MergeOf;
      assert rs[..n + 1][n] == rs[n];
    }
  }

  /** Every byte of the entry just taken is covered, even when the entry starts before the last
      merged entry: there an earlier entry contains it. */
  lemma {:induction false} MergeCoversNewEntry(rs: seq<SeekRead>, n: nat, greedy: nat, before: seq<SeekRead>, p: int)
    requires n < |rs| && Positive(rs) && CatchesUp(rs) && rs[n].Contains(p)
    requires MergeOf(rs[..n], greedy, before)
    ensures Covered(MergeOne(before, rs[n], greedy), p)
  {
    var out := MergeOne(before, rs[n], greedy);
    if out[|out| - 1].Contains(p) {
    } else {
      var i :| 0 <= i < |rs[..n]| && rs[..n][i].fpos == before[|before| - 1].fpos;
      assert p < rs[i].End();
      assert Covered(rs[..n], p);
      MergeOneKeeps(before, rs[n], greedy, p);
    }
  }

  /** With greedy 0 a merge covers exactly the input, so it is the normal form of the input. */
  lemma {:induction false} MergeOfZeroIsExact(rs: seq<SeekRead>, out: seq<SeekRead>, p: int)
    requires MergeOf(rs, 0, out)
    ensures Covered(out, p) <==> Covered(rs, p)
  {
    if Covered(out, p) {
      var k :| 0 <= k < |out| && out[k].Contains(p);
    }
  }

  // ---- What the merger makes of any list ----

  /** How far entries i up to j reach, the first of them read at least greedy long. */
  function Reach(rs: seq<SeekRead>, i: nat, j: nat, greedy: nat): nat
    requires i < j <= |rs|
  {
    if j == i + 1 then (if rs[i].len < greedy then rs[i].fpos + greedy else rs[i].End())
    else if rs[j - 1].End() < Reach(rs, i, j - 1, greedy) then Reach(rs, i, j - 1, greedy)
    else rs[j - 1].End()
  }

  /** The entry reads all from entry i on in one: it starts where that does, reaches as far as they all do, and
      none starts behind what those before it reach. */
  ghost predicate ReadsFrom(rs: seq<SeekRead>, i: nat, greedy: nat, entry: SeekRead) {
    && i < |rs|
    && entry.fpos == rs[i].fpos && entry.End() == Reach(rs, i, |rs|, greedy)
    && forall n :: i < n < |rs| ==> rs[n].fpos <= Reach(rs, i, n, greedy)
  }

  /** The entries of out read rs in groups, one after the other, as few as can be. */
  ghost predicate InGroups(rs: seq<SeekRead>, greedy: nat, out: seq<SeekRead>)
    decreases out
  {
    if out == [] then rs == []
    else
      var before := out[..|out| - 1];
      exists i ::
        && 0 <= i < |rs| && ReadsFrom(rs, i, greedy, out[|out| - 1]) && InGroups(rs[..i], greedy, before)
        && (before != [] ==> before[|before| - 1].End() < rs[i].fpos)
  }

  /** The last group begins at entry i, behind what the groups before it reach. */
  ghost predicate LastGroup(rs: seq<SeekRead>, i: int, greedy: nat, before: seq<SeekRead>, last: SeekRead) {
    && 0 <= i < |rs| && ReadsFrom(rs, i, greedy, last) && InGroups(rs[..i], greedy, before)
    && (before != [] ==> before[|before| - 1].End() < rs[i].fpos)
  }

  lemma {:induction false} LastGroupIs(rs: seq<SeekRead>, greedy: nat, before: seq<SeekRead>, last: SeekRead)
    ensures InGroups(rs, greedy, before + [last]) <==> exists i :: LastGroup(rs, i, greedy, before, last)
  {
    hide ReadsFrom;
    assert (before + [last])[..|before|] == before;
    if InGroups(rs, greedy, before + [last]) {
      var i :|
        && 0 <= i < |rs| && ReadsFrom(rs, i, greedy, last) && InGroups(rs[..i], greedy, before)
        && (before != [] ==> before[|before| - 1].End() < rs[i].fpos);
      assert LastGroup(rs, i, greedy, before, last);
    }
  }

  lemma {:induction false} ReachInPrefix(rs: seq<SeekRead>, m: nat, i: nat, j: nat, greedy: nat)
    requires i < j <= m <= |rs|
    ensures Reach(rs[..m], i, j, greedy) == Reach(rs, i, j, greedy)
  {
    if j > i + 1 {
      ReachInPrefix(rs, m, i, j - 1, greedy);
    }
  }

  lemma {:induction false} ReachGrows(rs: seq<SeekRead>, i: nat, n: nat, greedy: nat)
    requires i < n < |rs|
    ensures Reach(rs[..n], i, n, greedy) == Reach(rs, i, n, greedy)
    ensures Reach(rs, i, n + 1, greedy) ==
            if rs[n].End() > Reach(rs, i, n, greedy) then rs[n].End() else Reach(rs, i, n, greedy)
    ensures forall x :: i < x < n ==> Reach(rs[..n], i, x, greedy) == Reach(rs, i, x, greedy)
  {
    forall x | i < x <= n
      ensures Reach(rs[..n], i, x, greedy) == Reach(rs, i, x, greedy)
    {
      ReachInPrefix(rs, n, i, x, greedy);
    }
  }

  function Joined(last: SeekRead, entry: SeekRead): SeekRead {
    if entry.End() > last.End() then SeekRead(last.fpos, entry.End() - last.fpos) else last
  }

  lemma {:induction false} JoinsLast(before: seq<SeekRead>, last: SeekRead, entry: SeekRead, greedy: nat)
    requires entry.fpos <= last.End()
    ensures MergeOne(before + [last], entry, greedy) == before + [Joined(last, entry)]
  {
    var out := before + [last];
    assert out[..|out| - 1] == before && out[|out| - 1] == last;
  }

  /** One entry more joins the last group. */
  lemma {:induction false} GroupGrows(rs: seq<SeekRead>, n: nat, i: nat, greedy: nat, last: SeekRead)
    requires n + 1 == |rs| && ReadsFrom(rs[..n], i, greedy, last) && rs[n].fpos <= last.End()
    ensures ReadsFrom(rs, i, greedy, Joined(last, rs[n]))
  {
    ReachGrows(rs, i, n, greedy);
    hide Reach;
    forall x | i < x < n
      ensures rs[x].fpos <= Reach(rs, i, x, greedy)
    {
      assert rs[..n][x] == rs[x];
    }
  }

  lemma {:induction false} GroupStarts(rs: seq<SeekRead>, n: nat, greedy: nat, out: seq<SeekRead>)
    requires n + 1 == |rs| && InGroups(rs[..n], greedy, out)
    requires out == [] || out[|out| - 1].End() < rs[n].fpos
    ensures InGroups(rs, greedy, MergeOne(out, rs[n], greedy))
  {
    var last := SeekRead(rs[n].fpos, AmountToRead(rs[n], greedy));
    assert ReadsFrom(rs, n, greedy, last);
    hide ReadsFrom, InGroups;
    assert LastGroup(rs, n, greedy, out, last);
    LastGroupIs(rs, greedy, out, last);
  }

  lemma {:induction false} LastGrows(rs: seq<SeekRead>, n: nat, i: int, greedy: nat, before: seq<SeekRead>,
                                     last: SeekRead)
    requires n + 1 == |rs| && LastGroup(rs[..n], i, greedy, before, last) && rs[n].fpos <= last.End()
    ensures LastGroup(rs, i, greedy, before, Joined(last, rs[n]))
  {
    GroupGrows(rs, n, i, greedy, last);
    assert rs[..n][..i] == rs[..i];
    hide ReadsFrom, InGroups, Joined;
  }

  lemma {:induction false} GroupGoesOn(rs: seq<SeekRead>, n: nat, greedy: nat, out: seq<SeekRead>)
    requires n + 1 == |rs| && InGroups(rs[..n], greedy, out)
    requires out != [] && rs[n].fpos <= out[|out| - 1].End()
    ensures InGroups(rs, greedy, MergeOne(out, rs[n], greedy))
  {
    var before, last := out[..|out| - 1], out[|out| - 1];
    assert out == before + [last];
    JoinsLast(before, last, rs[n], greedy);
    hide ReadsFrom, LastGroup, InGroups, MergeOne, Joined;
    LastGroupIs(rs[..n], greedy, before, last);
    var i: int :| LastGroup(rs[..n], i, greedy, before, last);
    LastGrows(rs, n, i, greedy, before, last);
    LastGroupIs(rs, greedy, before, Joined(last, rs[n]));
  }

  /** Whatever the list, also one of empty or unsorted entries: the merger reads it in groups. */
  lemma {:induction false} MergeAllGroups(rs: seq<SeekRead>, greedy: nat)
    ensures InGroups(rs, greedy, MergeAll(rs, greedy))
  {
    if rs != [] {
      var n := |rs| - 1;
      var before := MergeAll(rs[..n], greedy);
      MergeAllGroups(rs[..n], greedy);
      hide InGroups, MergeOne;
      if before == [] || before[|before| - 1].End() < rs[n].fpos {
        GroupStarts(rs, n, greedy, before);
      } else {
        GroupGoesOn(rs, n, greedy, before);
      }
    }
  }

  lemma {:induction false} PrefixOfGroup(rs: seq<SeekRead>, i: int, x: nat, greedy: nat, before: seq<SeekRead>,
                                         last: SeekRead)
    returns (shorter: SeekRead)
    requires LastGroup(rs, i, greedy, before, last) && i < x < |rs|
    ensures LastGroup(rs[..x], i, greedy, before, shorter) && rs[x].fpos <= shorter.End()
  {
    hide InGroups;
    ReachesStart(rs, i, x, greedy);
    shorter := SeekRead(rs[i].fpos, Reach(rs, i, x, greedy) - rs[i].fpos);
    assert rs[..x][..i] == rs[..i];
    forall n | i < n <= x
      ensures Reach(rs[..x], i, n, greedy) == Reach(rs, i, n, greedy)
    {
      ReachInPrefix(rs, x, i, n, greedy);
    }
    assert forall n :: i <= n < x ==> rs[..x][n] == rs[n];
  }

  lemma {:induction false} ReachesStart(rs: seq<SeekRead>, i: nat, j: nat, greedy: nat)
    requires i < j <= |rs|
    ensures rs[i].fpos <= Reach(rs, i, j, greedy)
  {
    if j > i + 1 {
      ReachesStart(rs, i, j - 1, greedy);
    }
  }

  /** Two ways to group a list begin the last group at the same entry. */
  lemma {:induction false} GroupsMeet(rs: seq<SeekRead>, greedy: nat, i: int, a: seq<SeekRead>, x: SeekRead, j: int,
                                      b: seq<SeekRead>, y: SeekRead)
    requires LastGroup(rs, i, greedy, a, x) && LastGroup(rs, j, greedy, b, y)
    ensures j <= i
    decreases |rs|, 0
  {
    if i < j {
      var shorter := PrefixOfGroup(rs, i, j, greedy, a, x);
      LastGroupIs(rs[..j], greedy, a, shorter);
      GroupsAreUnique(rs[..j], greedy, a + [shorter], b);
    }
  }

  lemma {:induction false} HasLastGroup(rs: seq<SeekRead>, greedy: nat, out: seq<SeekRead>) returns (i: int)
    requires InGroups(rs, greedy, out) && rs != []
    ensures out != [] && out == out[..|out| - 1] + [out[|out| - 1]]
    ensures LastGroup(rs, i, greedy, out[..|out| - 1], out[|out| - 1])
  {
    var before, last := out[..|out| - 1], out[|out| - 1];
    assert out == before + [last];
    LastGroupIs(rs, greedy, before, last);
    hide InGroups, ReadsFrom;
    i :| LastGroup(rs, i, greedy, before, last);
  }

  lemma {:induction false} SameLastGroup(rs: seq<SeekRead>, greedy: nat, i: int, a: seq<SeekRead>, x: SeekRead,
                                         b: seq<SeekRead>, y: SeekRead)
    requires LastGroup(rs, i, greedy, a, x) && LastGroup(rs, i, greedy, b, y)
    ensures 0 <= i < |rs| && InGroups(rs[..i], greedy, a) && InGroups(rs[..i], greedy, b) && x == y
  {
    hide InGroups, Reach;
    assert x.fpos == y.fpos && x.End() == y.End();
  }

  /** There is one way to read a list in groups. */
  lemma {:induction false} GroupsAreUnique(rs: seq<SeekRead>, greedy: nat, a: seq<SeekRead>, b: seq<SeekRead>)
    requires InGroups(rs, greedy, a) && InGroups(rs, greedy, b)
    ensures a == b
    decreases |rs|, 1
  {
    if rs != [] {
      var i := HasLastGroup(rs, greedy, a);
      var j := HasLastGroup(rs, greedy, b);
      hide *;
      var m, n := |a| - 1, |b| - 1;
      GroupsMeet(rs, greedy, i, a[..m], a[m], j, b[..n], b[n]);
      GroupsMeet(rs, greedy, j, b[..n], b[n], i, a[..m], a[m]);
      SameLastGroup(rs, greedy, i, a[..m], a[m], b[..n], b[n]);
      GroupsAreUnique(rs[..i], greedy, a[..m], b[..n]);
    }
  }

  // ---- Merging once more ----

  lemma {:induction false} MergeAllMerges(rs: seq<SeekRead>, n: nat, greedy: nat)
    requires Positive(rs) && CatchesUp(rs) && n <= |rs|
    ensures Merged(rs, n, greedy, MergeAll(rs[..n], greedy))
  {
    hide Merged, Positive, CatchesUp, MergeOne;
    if n == 0 {
      MergeStarts(rs, greedy);
    } else {
      MergeAllMerges(rs, n - 1, greedy);
      assert rs[..n][..n - 1] == rs[..n - 1];
      MergeStep(rs, n - 1, greedy, MergeAll(rs[..n - 1], greedy));
    }
  }

  lemma {:induction false} MergeAllIsMerge(rs: seq<SeekRead>, greedy: nat)
    requires Positive(rs) && CatchesUp(rs)
    ensures MergeOf(rs, greedy, MergeAll(rs, greedy))
  {
    assert rs[..|rs|] == rs;
    MergeAllMerges(rs, |rs|, greedy);
    MergedMeans(rs, greedy, MergeAll(rs, greedy));
  }

  /** An entry that lengthens the last one may be joined to it beforehand. */
  lemma {:induction false} JoinedFirst(out: seq<SeekRead>, last: SeekRead, entry: SeekRead, greedy: nat)
    requires last.fpos <= entry.fpos <= last.End() < entry.End()
    ensures MergeOne(MergeOne(out, last, greedy), entry, greedy) ==
            MergeOne(out, SeekRead(last.fpos, entry.End() - last.fpos), greedy)
  {
    var next := MergeOne(out, last, greedy);
    if out == [] || last.fpos > out[|out| - 1].End() {
      assert next[..|out|] == out;
    } else {
      assert next[..|out| - 1] == out[..|out| - 1];
    }
    hide AmountToRead;
    if out == [] || last.fpos > out[|out| - 1].End() {
      JoinedEntry(last, entry, greedy);
    }
  }

  lemma {:induction false} JoinedEntry(last: SeekRead, entry: SeekRead, greedy: nat)
    requires last.fpos <= entry.fpos <= last.End() < entry.End()
    ensures AmountToRead(SeekRead(last.fpos, entry.End() - last.fpos), greedy) ==
            (if entry.End() > last.fpos + AmountToRead(last, greedy) then entry.End() - last.fpos
             else AmountToRead(last, greedy))
    ensures last.len <= AmountToRead(last, greedy)
  {
  }

  /** An entry that does not reach past the last one is dropped. */
  lemma {:induction false} DroppedAfter(out: seq<SeekRead>, last: SeekRead, entry: SeekRead, greedy: nat)
    requires entry.End() <= last.End()
    ensures MergeOne(MergeOne(out, last, greedy), entry, greedy) == MergeOne(out, last, greedy)
  {
  }

  /** An entry that lengthens the last run starts inside it or right behind it. */
  lemma {:induction false} StartsInLastRun(rs: seq<SeekRead>, n: nat, runs: seq<SeekRead>)
    requires n < |rs| && Positive(rs) && CatchesUp(rs) && Merged(rs, n, 0, runs) && runs != []
    requires rs[n].fpos <= runs[|runs| - 1].End() < rs[n].End()
    ensures runs[|runs| - 1].fpos <= rs[n].fpos
  {
    var last := runs[|runs| - 1];
    var x := last.fpos - 1;
    assert !Covered(runs, x);
    assert !Covered(rs[..n], x);
    assert StartsEntry(rs[..n], last.fpos);
    var i :| 0 <= i < |rs[..n]| && rs[..n][i].fpos == last.fpos;
    assert rs[i] == rs[..n][i] && rs[i].len > 0;
  }

  /** Merging greedily what was merged exactly before is merging greedily. */
  lemma {:induction false} MergeOfMerge(rs: seq<SeekRead>, n: nat, greedy: nat)
    requires Positive(rs) && CatchesUp(rs) && n <= |rs|
    ensures MergeAll(rs[..n], greedy) == MergeAll(MergeAll(rs[..n], 0), greedy)
  {
    hide *;
    if n == 0 {
      NothingToMerge(0);
      NothingToMerge(greedy);
      assert rs[..n] == [];
    } else {
      var m, entry := n - 1, rs[n - 1];
      var runs := MergeAll(rs[..m], 0);
      MergeAllMerges(rs, m, 0);
      MergeOfMerge(rs, m, greedy);
      if runs == [] || entry.fpos > runs[|runs| - 1].End() {
        MergeStartsRun(rs, n, runs, greedy);
      } else {
        if entry.End() > runs[|runs| - 1].End() {
          StartsInLastRun(rs, m, runs);
        }
        MergeLengthens(rs, n, runs, greedy);
      }
    }
  }

  lemma {:induction false} NothingToMerge(greedy: nat)
    ensures MergeAll([], greedy) == []
  {
  }

  lemma {:induction false} MergeStartsRun(rs: seq<SeekRead>, n: nat, runs: seq<SeekRead>, greedy: nat)
    requires 0 < n <= |rs| && runs == MergeAll(rs[..n - 1], 0)
    requires MergeAll(rs[..n - 1], greedy) == MergeAll(runs, greedy)
    requires runs == [] || rs[n - 1].fpos > runs[|runs| - 1].End()
    ensures MergeAll(rs[..n], greedy) == MergeAll(MergeAll(rs[..n], 0), greedy)
  {
    assert rs[..n][..n - 1] == rs[..n - 1];
    assert MergeOne(runs, rs[n - 1], 0) == runs + [rs[n - 1]];
    assert (runs + [rs[n - 1]])[..|runs|] == runs;
    hide MergeOne;
  }

  lemma {:induction false} MergeAllSnoc(before: seq<SeekRead>, last: SeekRead, greedy: nat)
    ensures MergeAll(before + [last], greedy) == MergeOne(MergeAll(before, greedy), last, greedy)
  {
    assert (before + [last])[..|before|] == before;
  }

  lemma {:induction false} MergeLengthens(rs: seq<SeekRead>, n: nat, runs: seq<SeekRead>, greedy: nat)
    requires 0 < n <= |rs| && runs != [] && runs == MergeAll(rs[..n - 1], 0)
    requires MergeAll(rs[..n - 1], greedy) == MergeAll(runs, greedy)
    requires rs[n - 1].fpos <= runs[|runs| - 1].End()
    requires rs[n - 1].End() > runs[|runs| - 1].End() ==> runs[|runs| - 1].fpos <= rs[n - 1].fpos
    ensures MergeAll(rs[..n], greedy) == MergeAll(MergeAll(rs[..n], 0), greedy)
  {
    hide MergeAll, MergeOne, Joined;
    var entry, before, last := rs[n - 1], runs[..|runs| - 1], runs[|runs| - 1];
    var joined := Joined(last, entry);
    assert rs[..n] == rs[..n - 1] + [entry] && runs == before + [last];
    MergeAllSnoc(rs[..n - 1], entry, greedy);
    MergeAllSnoc(rs[..n - 1], entry, 0);
    MergeAllSnoc(before, last, greedy);
    MergeAllSnoc(before, joined, greedy);
    JoinsLast(before, last, entry, 0);
    JoinedOnce(MergeAll(before, greedy), last, entry, greedy);
  }

  /** Joining an entry to the last one beforehand changes nothing. */
  lemma {:induction false} JoinedOnce(out: seq<SeekRead>, last: SeekRead, entry: SeekRead, greedy: nat)
    requires entry.End() > last.End() ==> last.fpos <= entry.fpos <= last.End()
    ensures MergeOne(MergeOne(out, last, greedy), entry, greedy) == MergeOne(out, Joined(last, entry), greedy)
  {
    hide MergeOne;
    if entry.End() <= last.End() {
      DroppedAfter(out, last, entry, greedy);
    } else {
      JoinedFirst(out, last, entry, greedy);
    }
  }

  lemma {:induction false} SeparatedCatchesUp(rs: seq<SeekRead>)
    requires Separated(rs)
    ensures CatchesUp(rs)
  {
  }

  // ---- Sorting requests ----

  /** The order of std::pair: file position first, then length. */
  predicate Precedes(a: SeekRead, b: SeekRead) {
    a.fpos < b.fpos || (a.fpos == b.fpos && a.len <= b.len)
  }

  ghost predicate Ascending(rs: seq<SeekRead>) {
    forall i, j :: 0 <= i < j < |rs| ==> rs[i].fpos <= rs[j].fpos
  }

  ghost predicate SortedByPair(rs: seq<SeekRead>) {
    forall i, j :: 0 <= i < j < |rs| ==> Precedes(rs[i], rs[j])
  }

  function InsertSorted(rs: seq<SeekRead>, r: SeekRead): (out: seq<SeekRead>)
    ensures multiset(out) == multiset(rs) + multiset{r}
  {
    if rs == [] || Precedes(r, rs[0]) then [r] + rs
    else
      assert rs == [rs[0]] + rs[1..];
      [rs[0]] + InsertSorted(rs[1..], r)
  }

  lemma {:induction false} InsertSortedIsSorted(rs: seq<SeekRead>, r: SeekRead)
    requires SortedByPair(rs)
    ensures SortedByPair(InsertSorted(rs, r))
  {
    if rs == [] || Precedes(r, rs[0]) {
    } else {
      InsertSortedIsSorted(rs[1..], r);
      var rest := InsertSorted(rs[1..], r);
      forall x | x in rest
        ensures Precedes(rs[0], x)
      {
        assert x in multiset(rest);
        assert x in multiset(rs[1..]) || x == r;
      }
    }
  }

  /** std::sort on the requests. */
  function Sort(rs: seq<SeekRead>): (out: seq<SeekRead>)
    ensures SortedByPair(out)
    ensures forall i, j :: 0 <= i < j < |out| ==>
              out[i].fpos < out[j].fpos || (out[i].fpos == out[j].fpos && out[i].len <= out[j].len)
    ensures multiset(out) == multiset(rs)
  {
    if rs == [] then []
    else
      assert rs == [rs[0]] + rs[1..];
      InsertSortedIsSorted(Sort(rs[1..]), rs[0]);
      InsertSorted(Sort(rs[1..]), rs[0])
  }

  lemma {:induction false} SameElements(a: seq<SeekRead>, b: seq<SeekRead>, p: int)
    requires multiset(a) == multiset(b)
    ensures Covered(a, p) <==> Covered(b, p)
    ensures Positive(a) <==> Positive(b)
  {
    assert forall x :: x in a <==> x in multiset(a);
    assert forall x :: x in b <==> x in multiset(b);
    assert Covered(a, p) <==> exists x :: x in a && x.Contains(p);
    assert Covered(b, p) <==> exists x :: x in b && x.Contains(p);
    assert Positive(a) <==> forall x :: x in a ==> x.len > 0;
    assert Positive(b) <==> forall x :: x in b ==> x.len > 0;
  }
}
