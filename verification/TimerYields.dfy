/** Which timers one yield fires, which it steps over, and when it loses its cursor. */
module TimerYields {
  import opened MultiTimers

  // ---------- the due entries are the front of a sorted list

  /** In a sorted list the due entries are the first ones. */
  lemma {:induction false} DueFront(l: seq<Entry>, now: nat)
    requires Sorted(l)
    ensures Overdue(l, now) <= |l|
    ensures forall i :: 0 <= i < |l| ==> (l[i].deadline <= now <==> i < Overdue(l, now))
  {
    if l != [] {
      var t := l[1..];
      assert forall i :: 0 <= i < |t| ==> t[i] == l[i + 1];
      DueFront(t, now);
      if l[0].deadline > now && t != [] {
        assert t[0].deadline > now;
      }
      forall i | 0 <= i < |l| ensures l[i].deadline <= now <==> i < Overdue(l, now) {
        assert i == 0 || t[i - 1] == l[i];
      }
    }
  }

  /** Firing the entry at the cursor ends the yield when its next deadline is behind every other one: it is then put
      back last, with a null link. */
  predicate EndsTheYield(e: Entry, last: nat, now: nat) {
    e.Again() && now + e.Delay() >= last
  }

  /** The first due entry, the third and so on, up to the first one that ends the yield. */
  function FiredOf(due: seq<Entry>, last: nat, now: nat): (fired: seq<Entry>)
    ensures |fired| <= |due| && (due != [] ==> fired != [] && fired[0] == due[0])
    ensures |due| >= 2 ==> |fired| < |due|
  {
    if due == [] then []
    else if |due| == 1 || EndsTheYield(due[0], last, now) then [due[0]]
    else [due[0]] + FiredOf(due[2..], last, now)
  }

  /** The due entries from the cursor on. */
  function DueFrom(l: seq<Entry>, c: nat, now: nat): seq<Entry> {
    if c <= Overdue(l, now) <= |l| then l[c..Overdue(l, now)] else []
  }

  /** What firing the entry at `c` keeps when the cursor goes on: the entries before it, the due ones behind it, one
      place further up, and the last deadline. */
  predicate Keeps(l: seq<Entry>, c: nat, d: nat, m: seq<Entry>) {
    && c < d <= |l| && |m| >= d - 1 && m != []
    && m[|m| - 1].deadline == l[|l| - 1].deadline
    && (forall i :: 0 <= i < c ==> m[i] == l[i])
    && (forall i :: c <= i < d - 1 ==> m[i] == l[i + 1])
  }

  lemma OneShotPass(l: seq<Entry>, c: nat, d: nat, now: nat)
    requires c < d <= |l| && Due(now, l[c].deadline) && !l[c].Again()
    ensures var m := Step(l, c, now);
      if c + 1 == |l| then m.Halt? else m.Advance? && m.cursor == c + 1 && Keeps(l, c, d, m.list)
  {
    CutAt(l, c);
    hide Due;
  }

  lemma PeriodicPass(l: seq<Entry>, c: nat, d: nat, now: nat)
    requires Sorted(l) && c < d <= |l| && Due(now, l[c].deadline) && l[c].Again()
    requires Restarted(l[c], now).deadline == now + l[c].Delay() > now
    requires forall i :: 0 <= i < d ==> l[i].deadline <= now
    ensures var m := Step(l, c, now);
      if EndsTheYield(l[c], l[|l| - 1].deadline, now) then m.Halt?
      else m.Advance? && m.cursor == c + 1 && Keeps(l, c, d, m.list)
  {
    var rest, r := Without(l, c), Restarted(l[c], now);
    CutAt(l, c);
    hide Due, Restarted;
    var p := Place(rest, r.deadline);
    InsertedAt(rest, r);
    hide Inserted, Place, Without;
    if c + 1 == |l| {
      assert p == |rest|;
    } else {
      assert rest[|rest| - 1] == l[|l| - 1];
      forall j | 0 <= j < d - 1 ensures rest[j].deadline <= now {
        assert rest[j] == if j < c then l[j] else l[j + 1];
      }
    }
  }

  lemma FiringPass(l: seq<Entry>, c: nat, now: nat)
    requires Sorted(l) && NoWrap(l, now) && c < |l| && l[c].deadline <= now
    ensures var m := Step(l, c, now);
      if c + 1 == |l| || EndsTheYield(l[c], l[|l| - 1].deadline, now) then m.Halt?
      else m.Advance? && m.cursor == c + 1 && Keeps(l, c, Overdue(l, now), m.list)
  {
    assert l[c] in l;
    DueWhenPassed(l[c], now);
    DueFront(l, now);
    hide Step, Due, Overdue, NoWrapEntry, Restarted, Keeps;
    if !l[c].Again() {
      OneShotPass(l, c, Overdue(l, now), now);
    } else {
      PeriodicPass(l, c, Overdue(l, now), now);
    }
  }

  /** Exactly which timers a yield fires, on any sorted list off the wrap: of the due ones in their order the first,
      the third and so on, and none behind the first one that starts again and is put back last. */
  lemma {:induction false} YieldFires(l: seq<Entry>, c: nat, now: nat)
    requires Sorted(l) && Distinct(l) && NoWrap(l, now) && c <= |l|
    ensures Walk(l, c, now).Done?
    ensures Walk(l, c, now).fired == FiredOf(DueFrom(l, c, now), if l == [] then 0 else l[|l| - 1].deadline, now)
    decreases |l| - c
  {
    hide Walk, Step, Becomes, FiredOf, DueFrom, Overdue, Sorted, Distinct, NoWrap;
    FiredUnfolds(DueFrom(l, c, now), if l == [] then 0 else l[|l| - 1].deadline, now);
    if c == |l| || l[c].deadline > now {
      NothingDue(l, c, now);
    } else {
      var m := Step(l, c, now);
      FiringWalk(l, c, now);
      FiringPass(l, c, now);
      DueAtCursor(l, c, now);
      if m.Advance? {
        YieldFires(m.list, m.cursor, now);
        DueAfterPass(l, c, now);
        LastStays(l, c, Overdue(l, now), m.list);
      }
    }
  }

  lemma NothingDue(l: seq<Entry>, c: nat, now: nat)
    requires Sorted(l) && NoWrap(l, now) && c <= |l| && (c == |l| || l[c].deadline > now)
    ensures Walk(l, c, now) == Done(l, []) && DueFrom(l, c, now) == []
  {
    DueFront(l, now);
    hide Overdue;
    if c < |l| {
      assert l[c] in l;
      DueWhenPassed(l[c], now);
    }
  }

  lemma DueAtCursor(l: seq<Entry>, c: nat, now: nat)
    requires Sorted(l) && c < |l| && l[c].deadline <= now
    ensures var due := DueFrom(l, c, now); due != [] && due[0] == l[c] && (c + 1 == |l| ==> |due| == 1)
  {
    DueFront(l, now);
    hide Overdue;
  }

  lemma LastStays(l: seq<Entry>, c: nat, d: nat, m: seq<Entry>)
    requires Keeps(l, c, d, m)
    ensures m != [] && l != [] && m[|m| - 1].deadline == l[|l| - 1].deadline
  {
  }

  lemma FiringWalk(l: seq<Entry>, c: nat, now: nat)
    requires Sorted(l) && Distinct(l) && NoWrap(l, now) && c < |l| && l[c].deadline <= now
    ensures var m := Step(l, c, now);
      && (m.Advance? ==> Sorted(m.list) && Distinct(m.list) && NoWrap(m.list, now))
      && (m.Halt? ==> Walk(l, c, now) == Done(m.list, [l[c]]))
      && (m.Advance? && Walk(m.list, m.cursor, now).Done? ==>
          Walk(l, c, now).Done? && Walk(l, c, now).fired == [l[c]] + Walk(m.list, m.cursor, now).fired)
  {
    hide Step, Becomes, Sorted, Distinct, NoWrap;
    StepIsRight(l, c, now);
    var m := Step(l, c, now);
    if m.Advance? {
      BecomesKeeps(l, m.fired, m.list, now);
    }
  }

  lemma FiredUnfolds(due: seq<Entry>, last: nat, now: nat)
    ensures FiredOf(due, last, now) == if due == [] then [] else if |due| == 1 || EndsTheYield(due[0], last, now) then [due[0]] else [due[0]] + FiredOf(due[2..], last, now)
    ensures FiredOf([], last, now) == []
  {
  }

  /** Behind the entry that fired and the one that is stepped over, the due entries are the same. */
  lemma DueAfterPass(l: seq<Entry>, c: nat, now: nat)
    requires Sorted(l) && Distinct(l) && NoWrap(l, now) && c < |l| && l[c].deadline <= now && Step(l, c, now).Advance?
    ensures var m, due := Step(l, c, now), DueFrom(l, c, now);
      due != [] && due[0] == l[c] && DueFrom(m.list, c + 1, now) == if |due| == 1 then [] else due[2..]
  {
    hide Step, Sorted, Distinct, NoWrap, Overdue, Keeps;
    DueFront(l, now);
    StepIsRight(l, c, now);
    FiringPass(l, c, now);
    var m, d := Step(l, c, now).list, Overdue(l, now);
    DueFront(m, now);
    assert Overdue(m, now) == d - 1;
    if c + 2 <= d {
      KeptDue(l, c, d, m);
    }
  }

  lemma KeptDue(l: seq<Entry>, c: nat, d: nat, m: seq<Entry>)
    requires Keeps(l, c, d, m) && c + 2 <= d
    ensures m[c + 1..d - 1] == l[c..d][2..]
  {
    var x, y := m[c + 1..d - 1], l[c..d][2..];
    forall i | 0 <= i < |x| ensures x[i] == y[i] {
      assert x[i] == m[c + 1 + i] && y[i] == l[c + 2 + i];
    }
  }

  /** One yield fires every due timer exactly when at most one is due. */
  lemma OneYieldFiresAll(l: seq<Entry>, now: nat)
    requires Sorted(l) && Distinct(l) && NoWrap(l, now)
    ensures var o := Walk(l, 0, now); o.Done? && (Overdue(o.list, now) == 0 <==> Overdue(l, now) <= 1)
  {
    hide Walk, FiredOf, Overdue, Sorted, Distinct, NoWrap;
    DueFront(l, now);
    WalkIsRight(l, 0, now);
    YieldFires(l, 0, now);
  }

  /** Two due one-shot timers behind a due periodic one: it is put back last, its link is null, and the yield ends
      with both still due. */
  lemma PutBackLastEndsTheYield(a: MultiTimer, b: MultiTimer, d: MultiTimer)
    ensures var p, x, y := Entry(a, 5, 100, Quiet), Entry(b, 6, 0, Quiet), Entry(d, 7, 0, Quiet);
      Walk([p, x, y], 0, 10) == Done([x, y, p.(deadline := 110)], [p]) && Due(10, x.deadline) && Due(10, y.deadline)
  {
    var p, x, y := Entry(a, 5, 100, Quiet), Entry(b, 6, 0, Quiet), Entry(d, 7, 0, Quiet);
    var l := [p, x, y];
    assert Without(l, 0) == [x, y];
    PlaceIs([x, y], 110, 2);
    hide Place;
    assert Restarted(p, 10) == p.(deadline := 110) && Inserted([x, y], p.(deadline := 110)) == [x, y, p.(deadline := 110)];
    hide Inserted, Without, Restarted;
    assert Step(l, 0, 10) == Halt([x, y, p.(deadline := 110)], [p]);
  }

  // ---------- what the cursor skips

  /** After a pass that fires the entry at `c` and goes on, the entries before the cursor are all due exactly when at
      least two entries are due from `c` on: the one behind the fired entry is stepped over unlooked-at. */
  lemma SteppedOverAreDue(l: seq<Entry>, c: nat, now: nat)
    requires Sorted(l) && Distinct(l) && NoWrap(l, now) && c <= |l| && Step(l, c, now).Advance?
    ensures var m := Step(l, c, now);
      (forall i :: 0 <= i < m.cursor ==> m.list[i].deadline <= now) <==> Overdue(l, now) >= c + 2
  {
    hide Step, Sorted, Distinct, NoWrap, Overdue, Keeps;
    StepIsRight(l, c, now);
    FiringPass(l, c, now);
    var m := Step(l, c, now);
    DueFront(m.list, now);
    assert Overdue(m.list, now) == Overdue(l, now) - 1;
    assert m.list[c].deadline <= now <==> c < Overdue(m.list, now);
  }

  /** A due one-shot timer in front of two that lie ahead: after the pass one that is not due stands before the
      cursor. */
  lemma SteppedOverNotDue(a: MultiTimer, b: MultiTimer, d: MultiTimer)
    ensures var x, y, z := Entry(a, 5, 0, Quiet), Entry(b, 20, 0, Quiet), Entry(d, 30, 0, Quiet);
      Step([x, y, z], 0, 10) == Advance([y, z], 1, [x]) && !Due(10, y.deadline)
  {
    StepOverOneShot([Entry(a, 5, 0, Quiet), Entry(b, 20, 0, Quiet), Entry(d, 30, 0, Quiet)], 0, 10);
  }

  predicate OneShots(l: seq<Entry>) {
    forall e :: e in l ==> !e.Again()
  }

  /** The first entry, the third and so on. */
  function Alternate(l: seq<Entry>): seq<Entry> {
    if l == [] then [] else [l[0]] + Others(l[1..])
  }

  /** The second, the fourth and so on. */
  function Others(l: seq<Entry>): seq<Entry> {
    if l == [] then [] else Alternate(l[1..])
  }

  lemma StepOverOneShot(l: seq<Entry>, c: nat, now: nat)
    requires c + 1 < |l| && Due(now, l[c].deadline) && !l[c].Again()
    ensures Step(l, c, now) == Advance(Without(l, c), c + 1, [l[c]])
  {
  }

  /** On one-shot timers that are all due, one yield fires the first, the third, the fifth and so on: the cursor
      steps over each entry that follows one it takes out. The others stay for the next yield. */
  lemma {:induction false} OneShotsFireAlternately(done: seq<Entry>, l: seq<Entry>, now: nat)
    requires OneShots(l) && forall e :: e in l ==> Due(now, e.deadline)
    ensures Walk(done + l, |done|, now) == Done(done + Others(l), Alternate(l))
    decreases |l|
  {
    hide Step, Due, Walk, Alternate, Others, Without;
    var all, c := done + l, |done|;
    if |l| <= 1 {
      LastOneShot(done, l, now);
    } else {
      assert all[c] == l[0] && l[0] in l;
      StepOverOneShot(all, c, now);
      SkipOne(done, l);
      WalkAdvances(all, c, now);
      OneShotsFireAlternately(done + [l[1]], l[2..], now);
    }
  }

  lemma Uncons(l: seq<Entry>)
    requires l != []
    ensures l == [l[0]] + l[1..]
  {
  }

  lemma TwoOff(l: seq<Entry>)
    requires |l| >= 2
    ensures Others(l) == [l[1]] + Others(l[2..]) && Alternate(l) == [l[0]] + Alternate(l[2..])
    ensures l == [l[0]] + ([l[1]] + l[2..])
  {
    Uncons(l);
    Uncons(l[1..]);
    var t := l[1..];
    assert Alternate(l) == [l[0]] + Others(t) && Others(l) == Alternate(t);
    assert Alternate(t) == [t[0]] + Others(t[1..]) && Others(t) == Alternate(t[1..]);
    hide Alternate, Others;
    assert t[1..] == l[2..];
  }

  lemma WithoutMiddle(a: seq<Entry>, x: Entry, b: seq<Entry>)
    ensures Without(a + ([x] + b), |a|) == a + b
  {
    var all := a + ([x] + b);
    assert all[..|a|] == a && all[|a| + 1..] == b;
  }

  lemma SkipOne(done: seq<Entry>, l: seq<Entry>)
    requires |l| >= 2
    ensures Without(done + l, |done|) == (done + [l[1]]) + l[2..]
    ensures (done + [l[1]]) + Others(l[2..]) == done + Others(l) && Alternate(l) == [l[0]] + Alternate(l[2..])
  {
    hide Others, Alternate, Without;
    TwoOff(l);
    WithoutMiddle(done, l[0], [l[1]] + l[2..]);
    Regroup(done, l[1], l[2..]);
    Regroup(done, l[1], Others(l[2..]));
  }

  lemma WalkAdvances(l: seq<Entry>, c: nat, now: nat)
    requires c <= |l| && Step(l, c, now).Advance?
    ensures var m := Step(l, c, now); Walk(l, c, now) == Fire(m.fired, Walk(m.list, m.cursor, now))
  {
    hide Step;
  }

  lemma LastOneShot(done: seq<Entry>, l: seq<Entry>, now: nat)
    requires |l| <= 1 && OneShots(l) && forall e :: e in l ==> Due(now, e.deadline)
    ensures Walk(done + l, |done|, now) == Done(done, l) && Others(l) == [] && done + Others(l) == done && Alternate(l) == l
  {
    if l == [] {
      assert done + l == done;
    } else {
      assert l[0] in l && (done + l)[|done|] == l[0];
      assert Without(done + l, |done|) == done && l == [l[0]];
    }
  }

  // ---------- across the wrap

  /** Exactly when a pass loses the cursor: the last entry is due and starts again, and its next deadline, in 32 bits, is
      before that of the entry whose link the cursor is. */
  lemma CursorIsLost(l: seq<Entry>, c: nat, now: nat)
    requires Sorted(l) && c <= |l|
    ensures Step(l, c, now).Lost? <==>
      0 < c == |l| - 1 && Due(now, l[c].deadline) && l[c].Again() && (now + l[c].Delay()) % TWO32 < l[c - 1].deadline
  {
    if c + 1 == |l| {
      var rest, r := Without(l, c), Restarted(l[c], now);
      assert rest == l[..c];
      hide Due;
      var p := Place(rest, r.deadline);
      assert p < |rest| ==> rest[p].deadline <= rest[|rest| - 1].deadline;
    }
  }

  /** A timer alone in the list: a yield before its deadline leaves it, a yield from then on fires it once; a one-shot timer
      is then gone, a periodic one is due its period after the yield, and one that its callback starts again is due the
      callback's delay after it. */
  lemma OneTimer(t: MultiTimer, deadline: nat, period: nat, callback: Callback, now: nat)
    requires now < TWO32 && deadline < TWO32 && now - deadline < 0x8000_0000 && deadline - now <= 0x8000_0000
    ensures var e := Entry(t, deadline, period, callback);
      Walk([e], 0, now) ==
        if now < deadline then Done([e], [])
        else if callback.Restarts? then Done([Entry(t, (now + callback.delay) % TWO32, period, callback)], [e])
        else if period > 0 then Done([Entry(t, (now + period) % TWO32, period, callback)], [e])
        else Done([], [e])
  {
    DueExactly(now, deadline);
    var e := Entry(t, deadline, period, callback);
    assert Without([e], 0) == [];
    hide Due;
  }

  /** Across the wrap the cursor can be lost: a due timer at the end, restarted with a wrapped deadline, goes in
      front of the skipped entry that the cursor hangs on. */
  lemma WrapLosesTheCursor(a: MultiTimer, b: MultiTimer, d: MultiTimer)
    ensures var now := TWO32 - 2;
      var l := [Entry(a, TWO32 - 11, 0, Quiet), Entry(b, TWO32 - 10, 0, Quiet), Entry(d, TWO32 - 5, 100, Quiet)];
      Sorted(l) && Walk(l, 0, now) == Stuck
  {
    var now := TWO32 - 2;
    var x, y, z := Entry(a, TWO32 - 11, 0, Quiet), Entry(b, TWO32 - 10, 0, Quiet), Entry(d, TWO32 - 5, 100, Quiet);
    DueExactly(now, x.deadline);
    DueExactly(now, z.deadline);
    StuckBehindTwo(x, y, z, now);
    hide Walk;
  }

  lemma StuckBehindTwo(x: Entry, y: Entry, z: Entry, now: nat)
    requires x.deadline <= y.deadline <= z.deadline && Due(now, x.deadline) && Due(now, z.deadline)
    requires !x.Again() && z.Again() && (now + z.Delay()) % TWO32 < y.deadline
    ensures Walk([x, y, z], 0, now) == Stuck
  {
    hide Step, Walk, Due;
    var l, m := [x, y, z], [y, z];
    assert Without(l, 0) == m && Sorted(m);
    hide Without;
    StepOverOneShot(l, 0, now);
    CursorIsLost(m, 1, now);
    WalkAdvances(l, 0, now);
    WalkIsStuck(m, 1, now);
  }

  lemma WalkIsStuck(l: seq<Entry>, c: nat, now: nat)
    requires c <= |l| && Step(l, c, now).Lost?
    ensures Walk(l, c, now) == Stuck
  {
    hide Step;
  }
}
