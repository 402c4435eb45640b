/** The sorted timer list: start, stop and yield edit a singly linked list through a cursor that points at a
    link, and yield keeps walking while it edits. */
module MultiTimers {

  const TWO32 := 0x1_0000_0000
  const MULTIMER_MAX_TIMEOUT := 0x7FFF_FFFF

  /** What a timer's callback does with the list: nothing, or start its own timer again. */
  datatype Callback = Missing | Quiet | Restarts(delay: nat)

  class MultiTimer {
    var next: MultiTimer?
    var deadline: nat
    var period: nat
    var callback: Callback

    constructor ()
      ensures next == null && deadline == 0 && period == 0 && callback == Missing
    {
      next, deadline, period, callback := null, 0, 0, Missing;
    }

    /** MultiTimerInit; the callback must be given. */
    method Init(period: nat, callback: Callback) returns (rt: int)
      modifies this
      ensures rt == if callback == Missing then -1 else 0
      ensures callback != Missing ==> this.period == period && this.callback == callback
      ensures callback == Missing ==> this.period == old(this.period) && this.callback == old(this.callback)
      ensures next == old(next) && deadline == old(deadline)
    {
      if callback == Missing {
        return -1;
      }
      this.callback, this.period := callback, period;
      rt := 0;
    }
  }

  // ---------- the list as a sequence

  datatype Entry = Entry(timer: MultiTimer, deadline: nat, period: nat, callback: Callback) {
    /** A fired timer comes back if it is periodic or its callback starts it again. */
    predicate Again() {
      period > 0 || callback.Restarts?
    }

    /** After what time: the callback has the last word. */
    function Delay(): nat {
      if callback.Restarts? then callback.delay else period
    }

    function Calls(): seq<MultiTimer> {
      if callback == Missing then [] else [timer]
    }
  }

  /** CHECK_TIME_LESS_THAN, negated: the difference in 32 bits is at most half the range. */
  predicate Due(now: nat, deadline: nat) {
    (now - deadline) % TWO32 <= MULTIMER_MAX_TIMEOUT
  }

  /** Exactly when a timer is due: its deadline has passed by less than half the range, or lies more than half
      the range ahead. */
  lemma DueExactly(now: nat, deadline: nat)
    requires now < TWO32 && deadline < TWO32
    ensures Due(now, deadline) <==> (deadline <= now && now - deadline < 0x8000_0000) || deadline - now > 0x8000_0000
  {
  }

  predicate Sorted(l: seq<Entry>) {
    forall i, j :: 0 <= i < j < |l| ==> l[i].deadline <= l[j].deadline
  }

  predicate Distinct(l: seq<Entry>) {
    forall i, j :: 0 <= i < j < |l| ==> l[i].timer != l[j].timer
  }

  /** Where a timer is, or the length. */
  function IndexOf(l: seq<Entry>, t: MultiTimer): (i: nat)
    ensures i <= |l|
    ensures i < |l| ==> l[i].timer == t
    ensures forall j :: 0 <= j < i ==> l[j].timer != t
  {
    if l == [] || l[0].timer == t then 0 else 1 + IndexOf(l[1..], t)
  }

  function Removed(l: seq<Entry>, t: MultiTimer): seq<Entry> {
    var i := IndexOf(l, t);
    if i == |l| then l else l[..i] + l[i + 1..]
  }

  /** How many entries a new deadline goes behind: those up to the first that is strictly later. */
  function Place(l: seq<Entry>, deadline: nat): (p: nat)
    ensures p <= |l|
    ensures p < |l| ==> deadline < l[p].deadline
    ensures forall j :: 0 <= j < p ==> l[j].deadline <= deadline
  {
    if l == [] || deadline < l[0].deadline then 0 else 1 + Place(l[1..], deadline)
  }

  function Inserted(l: seq<Entry>, e: Entry): seq<Entry> {
    var p := Place(l, e.deadline);
    l[..p] + [e] + l[p..]
  }

  lemma PlaceIs(l: seq<Entry>, deadline: nat, p: nat)
    requires p <= |l| && (p < |l| ==> deadline < l[p].deadline) && forall j :: 0 <= j < p ==> l[j].deadline <= deadline
    ensures Place(l, deadline) == p
  {
  }

  lemma IndexIs(l: seq<Entry>, t: MultiTimer, i: nat)
    requires i <= |l| && (i < |l| ==> l[i].timer == t) && forall j :: 0 <= j < i ==> l[j].timer != t
    ensures IndexOf(l, t) == i
  {
  }

  /** Starting a timer keeps the list sorted and free of duplicates, whether or not the timer was in it. */
  lemma StartKeepsOrder(l: seq<Entry>, e: Entry)
    requires Sorted(l) && Distinct(l)
    ensures var m := Inserted(Removed(l, e.timer), e); Sorted(m) && Distinct(m) && e in m
    ensures forall x :: x in Inserted(Removed(l, e.timer), e) <==> x == e || (x in l && x.timer != e.timer)
  {
    var r := Removed(l, e.timer);
    RemovedMembers(l, e.timer);
    InsertedKeepsOrder(r, e);
  }

  lemma RemovedMembers(l: seq<Entry>, t: MultiTimer)
    requires Sorted(l) && Distinct(l)
    ensures var r := Removed(l, t); Sorted(r) && Distinct(r) && forall x :: x in r <==> x in l && x.timer != t
  {
    var i := IndexOf(l, t);
    if i < |l| {
      RemovalMembers(l, i);
    }
  }

  lemma RemovalMembers(l: seq<Entry>, i: nat)
    requires i < |l| && Sorted(l) && Distinct(l)
    ensures var r := l[..i] + l[i + 1..]; Sorted(r) && Distinct(r) && forall x :: x in r <==> x in l && x.timer != l[i].timer
  {
    var r := l[..i] + l[i + 1..];
    assert forall j :: 0 <= j < |r| ==> r[j] == if j < i then l[j] else l[j + 1];
    forall x ensures x in r <==> x in l && x.timer != l[i].timer {
      if x in l && x.timer != l[i].timer {
        var j :| 0 <= j < |l| && l[j] == x;
        assert x == if j < i then r[j] else r[j - 1];
      }
    }
  }

  lemma CutAt<T>(s: seq<T>, k: nat)
    requires k < |s|
    ensures var m := s[..k] + s[k + 1..];
      |m| == |s| - 1 && (forall j :: 0 <= j < k ==> m[j] == s[j]) && forall j :: k <= j < |m| ==> m[j] == s[j + 1]
  {
    var m := s[..k] + s[k + 1..];
    forall j | k <= j < |m| ensures m[j] == s[j + 1] {
      assert m[j] == s[k + 1..][j - k];
    }
  }

  lemma SpliceAt<T>(s: seq<T>, p: nat, x: T)
    requires p <= |s|
    ensures var m := s[..p] + [x] + s[p..];
      |m| == |s| + 1 && m[p] == x && (forall j :: 0 <= j < p ==> m[j] == s[j]) && forall j :: p < j < |m| ==> m[j] == s[j - 1]
  {
    var front := s[..p] + [x];
    var m := front + s[p..];
    forall j | p < j < |m| ensures m[j] == s[j - 1] {
      assert m[j] == s[p..][j - |front|];
    }
  }

  lemma InsertedAt(l: seq<Entry>, e: Entry)
    ensures var p := Place(l, e.deadline); var m := Inserted(l, e);
      |m| == |l| + 1 && m[p] == e && (forall j :: 0 <= j < p ==> m[j] == l[j]) && forall j :: p < j < |m| ==> m[j] == l[j - 1]
  {
    hide Place;
    SpliceAt(l, Place(l, e.deadline), e);
  }

  lemma InsertedKeepsOrder(l: seq<Entry>, e: Entry)
    requires Sorted(l) && Distinct(l) && forall x :: x in l ==> x.timer != e.timer
    ensures Sorted(Inserted(l, e)) && Distinct(Inserted(l, e)) && e in Inserted(l, e)
    ensures forall x :: x in Inserted(l, e) <==> x == e || x in l
  {
    var p := Place(l, e.deadline);
    var m := Inserted(l, e);
    InsertedAt(l, e);
    hide Inserted, Place;
    forall i, j | 0 <= i < j < |m| ensures m[i].deadline <= m[j].deadline && m[i].timer != m[j].timer {
      var x, y := if i < p then i else i - 1, if j < p then j else j - 1;
      if i == p {
        assert m[j] == l[y] && l[p].deadline <= l[y].deadline;
      } else if j == p {
        assert m[i] == l[x];
      } else {
        assert m[i] == l[x] && m[j] == l[y];
      }
    }
    forall x ensures x in m <==> x == e || x in l {
      if x in l {
        var j :| 0 <= j < |l| && l[j] == x;
        assert x == if j < p then m[j] else m[j + 1];
      }
      if x in m {
        var j :| 0 <= j < |m| && m[j] == x;
        assert x == if j < p then l[j] else if j == p then e else l[j - 1];
      }
    }
  }

  // ---------- yield as a function of the list

  /** `Stuck` is a cursor whose link has become null when it is followed. */
  datatype Outcome = Done(list: seq<Entry>, fired: seq<Entry>) | Stuck

  function Restarted(e: Entry, now: nat): Entry {
    e.(deadline := (now + e.Delay()) % TWO32)
  }

  /** One pass of the loop, from cursor `c`: the entry behind the cursor fires if it is due; it is taken out, put
      back if it starts again, and the cursor moves past whatever then stands behind it. */
  datatype Move = Halt(list: seq<Entry>, fired: seq<Entry>) | Advance(list: seq<Entry>, cursor: nat, fired: seq<Entry>) | Lost

  function Step(l: seq<Entry>, c: nat, now: nat): (m: Move)
    requires c <= |l|
    ensures m.Advance? ==> m.cursor <= |m.list| && |m.list| - m.cursor < |l| - c
  {
    if c == |l| || !Due(now, l[c].deadline) then Halt(l, [])
    else
      var e := l[c];
      var rest := Without(l, c);
      if !e.Again() then
        if c == |rest| then Halt(rest, [e]) else Advance(rest, c + 1, [e])
      else
        var p := Place(rest, Restarted(e, now).deadline);
        var again := Inserted(rest, Restarted(e, now));
        if p == |rest| then Halt(again, [e])
        else if p >= c then Advance(again, c + 1, [e])
        else if c == |rest| then Lost
        else Advance(again, c + 2, [e])
  }

  function Walk(l: seq<Entry>, c: nat, now: nat): Outcome
    requires c <= |l|
    decreases |l| - c
  {
    match Step(l, c, now)
    case Halt(list, fired) => Done(list, fired)
    case Advance(list, cursor, fired) => Fire(fired, Walk(list, cursor, now))
    case Lost => Stuck
  }

  function Fire(first: seq<Entry>, o: Outcome): Outcome {
    match o
    case Done(l, fired) => Done(l, first + fired)
    case Stuck => Stuck
  }

  /** No deadline lies across the wrap of the tick counter, nor would a restarted one. */
  predicate NoWrap(l: seq<Entry>, now: nat) {
    forall e :: e in l ==> NoWrapEntry(e, now)
  }

  predicate NoWrapEntry(e: Entry, now: nat) {
    && e.deadline < TWO32
    && (e.deadline <= now ==> now - e.deadline < 0x8000_0000)
    && (e.deadline > now ==> e.deadline - now <= 0x8000_0000)
    && (e.Again() ==> now + e.Delay() < TWO32 && 0 < e.Delay() <= 0x8000_0000)
  }

  /** The number of entries that are due. */
  function Overdue(l: seq<Entry>, now: nat): nat {
    if l == [] then 0 else (if l[0].deadline <= now then 1 else 0) + Overdue(l[1..], now)
  }

  lemma {:induction false} OverdueSplits(a: seq<Entry>, b: seq<Entry>, now: nat)
    ensures Overdue(a + b, now) == Overdue(a, now) + Overdue(b, now)
  {
    if a == [] {
      assert a + b == b;
    } else {
      assert (a + b)[1..] == a[1..] + b;
      OverdueSplits(a[1..], b, now);
    }
  }

  lemma OverdueRemoved(l: seq<Entry>, i: nat, now: nat)
    requires i < |l|
    ensures Overdue(l[..i] + l[i + 1..], now) == Overdue(l, now) - if l[i].deadline <= now then 1 else 0
  {
    assert l == l[..i] + ([l[i]] + l[i + 1..]);
    OverdueSplits(l[..i], [l[i]] + l[i + 1..], now);
    OverdueSplits([l[i]], l[i + 1..], now);
    OverdueSplits(l[..i], l[i + 1..], now);
  }

  lemma OverdueInserted(l: seq<Entry>, e: Entry, now: nat)
    ensures Overdue(Inserted(l, e), now) == Overdue(l, now) + if e.deadline <= now then 1 else 0
  {
    var p := Place(l, e.deadline);
    assert l == l[..p] + l[p..];
    OverdueSplits(l[..p], l[p..], now);
    OverdueSplits(l[..p] + [e], l[p..], now);
    OverdueSplits(l[..p], [e], now);
  }

  /** What firing `fired` makes of a list. */
  ghost predicate Becomes(l: seq<Entry>, fired: seq<Entry>, m: seq<Entry>, now: nat) {
    && Sorted(m) && Distinct(m) && NoWrap(m, now)
    && (forall x :: x in fired ==> x in l && x.deadline <= now)
    && (forall x :: x in l && x !in fired ==> x in m)
    && (forall f :: f in fired && f.Again() ==> Restarted(f, now) in m)
    && (forall x :: x in m ==> (x in l && x !in fired) || RestartOf(x, fired, now))
    && Overdue(m, now) == Overdue(l, now) - |fired|
  }

  /** A timer that fired and comes back, with its new deadline. */
  ghost predicate RestartOf(x: Entry, fired: seq<Entry>, now: nat) {
    exists f :: f in fired && f.Again() && x == Restarted(f, now)
  }

  lemma DueWhenPassed(e: Entry, now: nat)
    requires NoWrapEntry(e, now)
    ensures Due(now, e.deadline) <==> e.deadline <= now
    ensures e.Again() ==> Restarted(e, now).deadline == now + e.Delay() > now && NoWrapEntry(Restarted(e, now), now)
  {
  }

  /** The list without entry `c`. */
  function Without(l: seq<Entry>, c: nat): seq<Entry>
    requires c < |l|
  {
    l[..c] + l[c + 1..]
  }

  lemma WithoutMembers(l: seq<Entry>, c: nat)
    requires Sorted(l) && Distinct(l) && c < |l|
    ensures var r := Without(l, c); Sorted(r) && Distinct(r)
    ensures forall x :: x in Without(l, c) <==> x in l && x != l[c]
    ensures forall x :: x in Without(l, c) ==> x.timer != l[c].timer
  {
    RemovalMembers(l, c);
    forall x | x in l && x != l[c] ensures x.timer != l[c].timer {
      var j :| 0 <= j < |l| && l[j] == x;
    }
  }

  /** Firing a due one-shot timer. */
  lemma OneShotFires(l: seq<Entry>, c: nat, now: nat)
    requires Sorted(l) && Distinct(l) && NoWrap(l, now) && c < |l| && l[c].deadline <= now && !l[c].Again()
    ensures Becomes(l, [l[c]], Without(l, c), now)
  {
    OverdueRemoved(l, c, now);
    WithoutMembers(l, c);
    assert l[c] in l;
    hide Without, Overdue, NoWrapEntry, Restarted, Sorted, Distinct;
  }

  /** A restarted timer goes behind the cursor's place, never before it. */
  lemma RestartedGoesBehind(l: seq<Entry>, c: nat, now: nat)
    requires Sorted(l) && NoWrap(l, now) && c < |l| && l[c].deadline <= now && l[c].Again()
    ensures Place(Without(l, c), Restarted(l[c], now).deadline) >= c
  {
    assert l[c] in l;
    DueWhenPassed(l[c], now);
    hide NoWrapEntry, Restarted;
    var rest := Without(l, c);
    assert forall j :: 0 <= j < c ==> rest[j] == l[j];
    var p := Place(rest, Restarted(l[c], now).deadline);
  }

  lemma OverdueAfterRestart(l: seq<Entry>, c: nat, now: nat)
    requires NoWrap(l, now) && c < |l| && l[c].deadline <= now && l[c].Again()
    ensures Overdue(Inserted(Without(l, c), Restarted(l[c], now)), now) == Overdue(l, now) - 1
  {
    assert l[c] in l;
    DueWhenPassed(l[c], now);
    OverdueRemoved(l, c, now);
    hide NoWrapEntry, Restarted, Inserted, Overdue;
    OverdueInserted(Without(l, c), Restarted(l[c], now), now);
  }

  /** Firing a due timer that comes back. */
  lemma PeriodicFires(l: seq<Entry>, c: nat, now: nat)
    requires Sorted(l) && Distinct(l) && NoWrap(l, now) && c < |l| && l[c].deadline <= now && l[c].Again()
    ensures Becomes(l, [l[c]], Inserted(Without(l, c), Restarted(l[c], now)), now)
  {
    hide Without, Overdue, Place, Sorted, Distinct, NoWrapEntry, Restarted;
    var e := l[c];
    var r := Restarted(e, now);
    assert e in l;
    OverdueAfterRestart(l, c, now);
    WithoutMembers(l, c);
    DueWhenPassed(e, now);
    RestartedTimer(e, now);
    var rest := Without(l, c);
    InsertedKeepsOrder(rest, r);
    var m := Inserted(rest, r);
    assert e in [e] && RestartOf(r, [e], now);
    assert forall x :: x in m ==> x == r || x in rest;
    forall x | x in m ensures (x in l && x !in [e]) || RestartOf(x, [e], now) {
      assert x == r || x in rest;
    }
  }

  lemma RestartedTimer(e: Entry, now: nat)
    ensures Restarted(e, now).timer == e.timer && Restarted(e, now).period == e.period && Restarted(e, now).callback == e.callback
  {
  }

  /** A pass never loses the cursor; when it fires an entry, that entry and all before it are due. */
  lemma StepIsRight(l: seq<Entry>, c: nat, now: nat)
    requires Sorted(l) && Distinct(l) && NoWrap(l, now) && c <= |l|
    ensures var m := Step(l, c, now);
      && !m.Lost? && Becomes(l, m.fired, m.list, now)
      && m.fired == (if c < |l| && l[c].deadline <= now then [l[c]] else [])
      && (m.Advance? ==> m.fired != [])
    ensures c < |l| && l[c].deadline <= now ==> forall j :: 0 <= j <= c ==> l[j].deadline <= now
  {
    if c < |l| {
      var e := l[c];
      assert e in l;
      DueWhenPassed(e, now);
      if e.deadline <= now {
        if !e.Again() {
          OneShotFires(l, c, now);
        } else {
          PeriodicFires(l, c, now);
          RestartedGoesBehind(l, c, now);
        }
      }
    }
    hide Overdue, NoWrapEntry, Inserted, Place, Restarted;
  }

  lemma BecomesTwice(l: seq<Entry>, f: seq<Entry>, m: seq<Entry>, g: seq<Entry>, n: seq<Entry>, now: nat)
    requires NoWrap(l, now) && Becomes(l, f, m, now) && Becomes(m, g, n, now)
    ensures Becomes(l, f + g, n, now)
  {
    hide Overdue, Sorted, Distinct;
    forall x | x in f && x.Again() ensures Restarted(x, now).deadline > now {
      assert x in l;
      DueWhenPassed(x, now);
    }
    hide NoWrapEntry, Restarted;
    forall x | x in g ensures x in l && x !in f {
      assert x in m && !RestartOf(x, f, now);
    }
    forall x | x in n ensures (x in l && x !in f + g) || RestartOf(x, f + g, now) {
      if x in m && x !in g {
        if RestartOf(x, f, now) {
          var y :| y in f && y.Again() && x == Restarted(y, now);
          assert y in f + g;
        }
      } else {
        var y :| y in g && y.Again() && x == Restarted(y, now);
        assert y in f + g;
      }
    }
    forall y | y in f + g && y.Again() ensures Restarted(y, now) in n {
      if y in f {
        assert Restarted(y, now) in m && Restarted(y, now) !in g;
      }
    }
  }

  /** Yield on any sorted list whose deadlines do not cross the wrap: the cursor is never lost; the list stays
      sorted and free of duplicates; only timers whose deadline has passed fire, one-shot ones leave, those that start again
      ones stay with the next deadline, all others stay as they were; and as many fire as the overdue count
      falls. */
  lemma {:induction false} WalkIsRight(l: seq<Entry>, c: nat, now: nat)
    requires Sorted(l) && Distinct(l) && NoWrap(l, now) && c <= |l|
    ensures var o := Walk(l, c, now); o.Done? && Becomes(l, o.fired, o.list, now)
    decreases |l| - c
  {
    hide Becomes, Step, Sorted, Distinct, NoWrap;
    StepIsRight(l, c, now);
    var m := Step(l, c, now);
    if m.Advance? {
      BecomesKeeps(l, m.fired, m.list, now);
      WalkIsRight(m.list, m.cursor, now);
      var o := Walk(m.list, m.cursor, now);
      BecomesTwice(l, m.fired, m.list, o.fired, o.list, now);
    }
  }

  lemma BecomesKeeps(l: seq<Entry>, fired: seq<Entry>, m: seq<Entry>, now: nat)
    requires Becomes(l, fired, m, now)
    ensures Sorted(m) && Distinct(m) && NoWrap(m, now)
  {
  }

  /** An expired head always fires, first. */
  lemma ExpiredHeadFires(l: seq<Entry>, now: nat)
    requires Sorted(l) && Distinct(l) && NoWrap(l, now) && l != [] && l[0].deadline <= now
    ensures var o := Walk(l, 0, now); o.Done? && o.fired != [] && o.fired[0] == l[0]
  {
    hide Becomes, Step, Sorted, Distinct, NoWrap;
    StepIsRight(l, 0, now);
    WalkIsRight(l, 0, now);
  }

  function Yields(l: seq<Entry>, now: nat, n: nat): Outcome {
    if n == 0 then Done(l, [])
    else
      match Yields(l, now, n - 1)
      case Stuck => Stuck
      case Done(m, fired) => Fire(fired, Walk(m, 0, now))
  }

  lemma {:induction false} OverdueHead(l: seq<Entry>, now: nat)
    requires Sorted(l)
    ensures Overdue(l, now) == 0 <==> l == [] || l[0].deadline > now
    ensures Overdue(l, now) == 0 ==> forall e :: e in l ==> e.deadline > now
  {
    if l != [] && l[0].deadline > now {
      assert forall i, j :: 0 <= i < j < |l[1..]| ==> l[1..][i].deadline <= l[1..][j].deadline;
      OverdueHead(l[1..], now);
      assert l[1..] != [] ==> l[1..][0] == l[1];
    }
  }

  /** Repeated yields at one time fire every overdue timer: n yields leave at most the count less n, and once
      none is left every remaining deadline lies ahead. */
  lemma {:induction false} YieldsDrain(l: seq<Entry>, now: nat, n: nat)
    requires Sorted(l) && Distinct(l) && NoWrap(l, now)
    ensures var o := Yields(l, now, n);
      && o.Done? && Sorted(o.list) && Distinct(o.list) && NoWrap(o.list, now)
      && Overdue(o.list, now) <= (if n <= Overdue(l, now) then Overdue(l, now) - n else 0)
      && (n >= Overdue(l, now) ==> forall e :: e in o.list ==> e.deadline > now)
    decreases n
  {
    hide Step, Sorted, Distinct, NoWrap, Overdue;
    if n == 0 {
      OverdueHead(l, now);
    } else {
      YieldsDrain(l, now, n - 1);
      var m := Yields(l, now, n - 1).list;
      WalkIsRight(m, 0, now);
      OverdueHead(m, now);
      if m != [] && m[0].deadline <= now {
        ExpiredHeadFires(m, now);
      }
      OverdueHead(Walk(m, 0, now).list, now);
    }
  }

  lemma Regroup<T>(a: seq<T>, x: T, b: seq<T>)
    ensures (a + [x]) + b == a + ([x] + b)
  {
  }

  // ---------- the linked list

  class TimerList {
    var head: MultiTimer?
    ghost var spine: seq<MultiTimer>
    ghost var calls: seq<MultiTimer>

    constructor ()
      ensures Valid() && spine == [] && calls == []
    {
      head, spine, calls := null, [], [];
    }

    static ghost function At(s: seq<MultiTimer>, i: int): MultiTimer? {
      if 0 <= i < |s| then s[i] else null
    }

    static ghost function Just(t: MultiTimer?): set<MultiTimer> {
      if t == null then {} else {t}
    }

    /** The list from the head on is `spine`, with no timer twice. */
    ghost predicate Linked()
      reads `head, `spine, spine`next
    {
      && head == At(spine, 0)
      && (forall i {:trigger spine[i].next} :: 0 <= i < |spine| ==> spine[i].next == At(spine, i + 1))
      && (forall i, j :: 0 <= i < j < |spine| ==> spine[i] != spine[j])
    }

    static ghost function EntriesOf(s: seq<MultiTimer>): (l: seq<Entry>)
      reads s`deadline, s`period, s`callback
      ensures |l| == |s|
      ensures forall i :: 0 <= i < |l| ==> l[i] == Entry(s[i], s[i].deadline, s[i].period, s[i].callback)
    {
      if s == [] then [] else [Entry(s[0], s[0].deadline, s[0].period, s[0].callback)] + EntriesOf(s[1..])
    }

    ghost function Entries(): (l: seq<Entry>)
      reads `spine, spine`deadline, spine`period, spine`callback
      ensures |l| == |spine|
      ensures forall i :: 0 <= i < |l| ==> l[i] == Entry(spine[i], spine[i].deadline, spine[i].period, spine[i].callback)
    {
      EntriesOf(spine)
    }

    /** The link of the entry before place c, or the head, points at the entry at c. */
    lemma LinkAt(prev: MultiTimer?, c: nat)
      requires Linked() && c <= |spine| && prev == At(spine, c - 1)
      ensures (if prev == null then head else prev.next) == At(spine, c)
    {
    }

    lemma NextOf(c: nat)
      requires Linked() && c < |spine|
      ensures spine[c].next == At(spine, c + 1)
    {
    }

    lemma DistinctEntries()
      requires Linked()
      ensures Distinct(Entries())
    {
      hide EntriesOf;
    }

    lemma OnlyOnce(c: nat)
      requires Linked() && c < |spine|
      ensures spine[c] !in spine[..c] + spine[c + 1..]
    {
    }

    /** Linked and sorted by deadline. */
    ghost predicate Valid()
      reads `head, `spine, spine
    {
      Linked() && Sorted(Entries())
    }

    /** *nextTimer = next of the timer it points at, the link being that of `prev`, or the head when it is null. */
    method Unlink(prev: MultiTimer?, entry: MultiTimer, ghost k: nat)
      requires Linked() && k < |spine| && entry == spine[k] && prev == At(spine, k - 1)
      modifies this`head, this`spine, Just(prev)`next
      ensures Linked() && spine == old(spine[..k] + spine[k + 1..]) && Entries() == Without(old(Entries()), k)
      ensures entry.next == old(entry.next)
    {
      ghost var l := Entries();
      if prev == null {
        head := entry.next;
      } else {
        prev.next := entry.next;
      }
      ghost var all := spine;
      CutAt(all, k);
      spine := all[..k] + all[k + 1..];
      Rejoined(all, k, entry, prev);
      EntriesCut(all, l, k);
    }

    /** The list without its entry at `k`, whose predecessor now points behind it. */
    lemma Rejoined(all: seq<MultiTimer>, k: nat, entry: MultiTimer, prev: MultiTimer?)
      requires k < |all| && spine == all[..k] + all[k + 1..] && (forall i, j :: 0 <= i < j < |all| ==> all[i] != all[j])
      requires prev == At(all, k - 1) && head == (if k == 0 then At(all, 1) else all[0]) && (k > 0 ==> all[k - 1].next == At(all, k + 1))
      requires forall i {:trigger all[i].next} :: 0 <= i < |all| && i != k - 1 ==> all[i].next == At(all, i + 1)
      ensures Linked()
    {
      CutAt(all, k);
      forall i {:trigger spine[i].next} | 0 <= i < |spine| ensures spine[i].next == At(spine, i + 1) {
        if i >= k {
          assert spine[i] == all[i + 1];
        } else {
          assert spine[i] == all[i];
        }
      }
    }

    lemma EntriesCut(was: seq<MultiTimer>, l: seq<Entry>, k: nat)
      requires |l| == |was| && forall j :: 0 <= j < |l| ==> l[j] == Entry(was[j], was[j].deadline, was[j].period, was[j].callback)
      requires k < |was| && spine == was[..k] + was[k + 1..]
      ensures Entries() == Without(l, k)
    {
      hide EntriesOf;
      CutAt(l, k);
      CutAt(was, k);
      var m := Without(l, k);
      hide Without;
      forall j | 0 <= j < |spine| ensures Entries()[j] == m[j] { }
    }

    /** *nextTimer = timer, in front of what the link pointed at. */
    method LinkIn(prev: MultiTimer?, timer: MultiTimer, ghost p: nat)
      requires Linked() && p <= |spine| && prev == At(spine, p - 1) && timer !in spine
      modifies this`head, this`spine, timer`next, Just(prev)`next
      ensures Linked() && spine == old(spine[..p] + [timer] + spine[p..])
    {
      ghost var all := spine;
      timer.next := if prev == null then head else prev.next;
      if prev == null {
        head := timer;
      } else {
        prev.next := timer;
      }
      SpliceAt(all, p, timer);
      spine := all[..p] + [timer] + all[p..];
    }

    /** The first loop of start and the loop of stop: takes the timer out if it is there. */
    method Take(timer: MultiTimer)
      requires Linked()
      modifies this`head, this`spine, spine`next
      ensures Linked() && Entries() == Removed(old(Entries()), timer) && timer !in spine && timer.next == old(timer.next)
      ensures forall t :: t in spine ==> t in old(spine)
      ensures var i := IndexOf(old(Entries()), timer);
        spine == if i == |old(spine)| then old(spine) else old(spine)[..i] + old(spine)[i + 1..]
    {
      ghost var l := Entries();
      var prev: MultiTimer? := null;
      var entry := head;
      ghost var k := 0;
      while entry != null && entry != timer
        invariant k <= |spine| && entry == At(spine, k) && prev == At(spine, k - 1)
        invariant forall j :: 0 <= j < k ==> spine[j] != timer
        decreases |spine| - k
      {
        prev, entry, k := entry, entry.next, k + 1;
      }
      IndexIs(l, timer, k);
      if entry != null {
        Unlink(prev, entry, k);
      }
    }

    /** The second loop of start: in behind every timer that is not strictly later. */
    method Insert(timer: MultiTimer)
      requires Linked() && timer !in spine
      modifies this`head, this`spine, spine`next, timer`next
      ensures Linked()
      ensures Entries() == Inserted(old(Entries()), Entry(timer, timer.deadline, timer.period, timer.callback))
      ensures var p := Place(old(Entries()), timer.deadline); spine == old(spine)[..p] + [timer] + old(spine)[p..]
    {
      ghost var l := Entries();
      var prev: MultiTimer? := null;
      var entry := head;
      ghost var k := 0;
      while entry != null && entry.deadline <= timer.deadline
        invariant k <= |spine| && entry == At(spine, k) && prev == At(spine, k - 1)
        invariant forall j :: 0 <= j < k ==> l[j].deadline <= timer.deadline
        decreases |spine| - k
      {
        prev, entry, k := entry, entry.next, k + 1;
      }
      PlaceIs(l, timer.deadline, k);
      ghost var was := spine;
      LinkIn(prev, timer, k);
      EntriesInserted(timer, was, l);
    }

    lemma EntriesInserted(timer: MultiTimer, was: seq<MultiTimer>, l: seq<Entry>)
      requires |l| == |was| && forall j :: 0 <= j < |l| ==> l[j] == Entry(was[j], was[j].deadline, was[j].period, was[j].callback)
      requires var p := Place(l, timer.deadline); spine == was[..p] + [timer] + was[p..]
      ensures Entries() == Inserted(l, Entry(timer, timer.deadline, timer.period, timer.callback))
    {
      var e := Entry(timer, timer.deadline, timer.period, timer.callback);
      InsertedAt(l, e);
      SpliceAt(was, Place(l, timer.deadline), timer);
      hide Place, Inserted;
      var p, m := Place(l, timer.deadline), Inserted(l, e);
      forall j | 0 <= j < |spine| ensures Entries()[j] == m[j] {
        if j < p {
          assert spine[j] == was[j] && m[j] == l[j];
        } else if j > p {
          assert spine[j] == was[j - 1] && m[j] == l[j - 1];
        }
      }
    }

    method SetDeadline(timer: MultiTimer, deadline: nat)
      requires Linked() && timer !in spine
      modifies timer`deadline
      ensures timer.deadline == deadline && Linked() && Entries() == old(Entries())
    {
      timer.deadline := deadline;
    }

    /** MultiTimerStart at time `now`: out of the list if it is in it, then in at its place. */
    method Start(timer: MultiTimer, startTime: nat, now: nat) returns (rt: int)
      requires Linked()
      modifies this`head, this`spine, spine`next, timer`next, timer`deadline
      ensures Linked() && rt == 0 && timer.deadline == (now + startTime) % TWO32
      ensures Entries() == Inserted(Removed(old(Entries()), timer), Entry(timer, timer.deadline, timer.period, timer.callback))
      ensures old(Valid()) ==> Valid()
      ensures var i := IndexOf(old(Entries()), timer);
        var left := if i == |old(spine)| then old(spine) else old(spine)[..i] + old(spine)[i + 1..];
        var p := Place(Removed(old(Entries()), timer), timer.deadline);
        timer !in left && |left| == |Removed(old(Entries()), timer)| && spine == left[..p] + [timer] + left[p..]
    {
      hide Inserted, Place, Sorted, IndexOf, Removed, Linked, EntriesOf, Distinct;
      DistinctEntries();
      ghost var l, was := Entries(), spine;
      Take(timer);
      ghost var r := Entries();
      SetDeadline(timer, (now + startTime) % TWO32);
      Insert(timer);
      StartSorts(l, Entry(timer, timer.deadline, timer.period, timer.callback));
      if timer !in was {
        NotThere(l, timer);
      }
      rt := 0;
    }

    lemma NotThere(l: seq<Entry>, t: MultiTimer)
      requires forall j :: 0 <= j < |l| ==> l[j].timer != t
      ensures IndexOf(l, t) == |l| && Removed(l, t) == l
    {
      IndexIs(l, t, |l|);
    }

    lemma StartSorts(l: seq<Entry>, e: Entry)
      requires Distinct(l)
      ensures Sorted(l) ==> Sorted(Inserted(Removed(l, e.timer), e))
    {
      if Sorted(l) {
        StartKeepsOrder(l, e);
      }
    }

    /** MultiTimerStop */
    method Stop(timer: MultiTimer) returns (rt: int)
      requires Valid()
      modifies this`head, this`spine, spine`next
      ensures Valid() && rt == 0 && Entries() == Removed(old(Entries()), timer) && timer !in spine
    {
      ghost var l := Entries();
      Take(timer);
      RemovedMembers(l, timer);
      rt := 0;
    }

    /** The callbacks that a run of fired entries makes. */
    static ghost function Called(fired: seq<Entry>): seq<MultiTimer> {
      if fired == [] then []
      else
        var e := fired[|fired| - 1];
        Called(fired[..|fired| - 1]) + e.Calls()
    }

    static lemma CalledNone()
      ensures Called([]) == []
    {
    }

    static lemma CalledOne(fired: seq<Entry>, e: Entry)
      ensures Called(fired + [e]) == Called(fired) + e.Calls()
    {
      assert (fired + [e])[..|fired|] == fired;
    }

    /** The entry behind the cursor leaves the list. */
    method TakeOut(prev: MultiTimer?, entry: MultiTimer, ghost c: nat)
      requires Linked() && c < |spine| && entry == spine[c] && prev == At(spine, c - 1)
      modifies `head, `spine, spine`next
      ensures Linked() && entry !in spine && forall i :: 0 <= i < |spine| ==> spine[i] in old(spine)
      ensures Entries() == Without(old(Entries()), c) && |spine| == |Without(old(Entries()), c)| && c <= |spine|
      ensures prev == At(spine, c - 1) && (entry.next == null <==> c == |spine|)
    {
      hide Without, Sorted, EntriesOf, Linked;
      NextOf(c);
      OnlyOnce(c);
      CutAt(spine, c);
      Unlink(prev, entry, c);
    }

    /** The timer was put into the list `left`, with entries `l`, to be due `delay` ticks from now; `prev` was the entry
        before place `c`. */
    ghost predicate Back(prev: MultiTimer?, entry: MultiTimer, c: int, now: nat, delay: nat, left: seq<MultiTimer>, l: seq<Entry>)
      reads this, spine, entry
    {
      && entry.deadline == (now + delay) % TWO32
      && Entries() == Inserted(l, Entry(entry, entry.deadline, entry.period, entry.callback))
      && var p := Place(l, entry.deadline);
        |spine| == |left| + 1 && prev == At(spine, if p < c then c else c - 1) && (entry.next == null <==> p == |left|)
    }

    /** A timer starts (again) in the list that it was taken out of: for its period, and then, if the callback says so,
        for the callback's delay. */
    method PutBack(prev: MultiTimer?, entry: MultiTimer, ghost c: nat, now: nat, delay: nat, ghost left: seq<MultiTimer>, ghost l: seq<Entry>)
      requires Linked() && On(l, left) && c <= |left| && prev == At(left, c - 1) && entry !in left
      requires Left(Entries(), spine, entry, l, left)
      modifies `head, `spine, spine`next, entry`next, entry`deadline
      ensures Linked() && forall i :: 0 <= i < |spine| ==> spine[i] == entry || spine[i] in left
      ensures Left(Entries(), spine, entry, l, left) && Back(prev, entry, c, now, delay, left, l)
    {
      hide Inserted, Place, EntriesOf, Linked, Left;
      StartIn(entry, now, delay, left, l);
      ghost var p := Place(l, entry.deadline);
      InsertedThenLeft(l, Entry(entry, entry.deadline, entry.period, entry.callback), spine, left);
      SpliceAt(left, p, entry);
      NextOf(p);
    }

    /** Starting a timer, seen from the list without it. */
    method StartIn(entry: MultiTimer, now: nat, delay: nat, ghost left: seq<MultiTimer>, ghost l: seq<Entry>)
      requires Linked() && Left(Entries(), spine, entry, l, left)
      modifies `head, `spine, spine`next, entry`next, entry`deadline
      ensures Linked() && entry.deadline == (now + delay) % TWO32
      ensures Entries() == Inserted(l, Entry(entry, entry.deadline, entry.period, entry.callback))
      ensures var p := Place(l, entry.deadline); |l| == |left| && spine == left[..p] + [entry] + left[p..]
    {
      hide Inserted, Place, Removed, IndexOf, EntriesOf, Linked;
      var rt := Start(entry, delay, now);
    }

    static ghost predicate On(l: seq<Entry>, timers: seq<MultiTimer>) {
      |l| == |timers| && forall j :: 0 <= j < |l| ==> l[j].timer == timers[j]
    }

    /** Without the timer the list is `l`, on the timers `left`. */
    static ghost predicate Left(all: seq<Entry>, spine: seq<MultiTimer>, timer: MultiTimer, l: seq<Entry>, left: seq<MultiTimer>) {
      && |all| == |spine| && Removed(all, timer) == l
      && var i := IndexOf(all, timer); left == if i == |spine| then spine else spine[..i] + spine[i + 1..]
    }

    static lemma InsertedThenLeft(l: seq<Entry>, e: Entry, spine: seq<MultiTimer>, left: seq<MultiTimer>)
      requires On(l, left) && e.timer !in left
      requires var p := Place(l, e.deadline); spine == left[..p] + [e.timer] + left[p..]
      ensures Left(Inserted(l, e), spine, e.timer, l, left)
    {
      var p, m := Place(l, e.deadline), Inserted(l, e);
      InsertedAt(l, e);
      SpliceThenCut(left, p, e.timer);
      SpliceThenCut(l, p, e);
      hide Place;
      assert forall j :: 0 <= j < p ==> m[j].timer == left[j];
      IndexIs(m, e.timer, p);
      hide IndexOf;
    }

    lemma EntriesOn()
      ensures On(Entries(), spine)
    {
      hide EntriesOf;
    }

    static lemma SpliceThenCut<T>(s: seq<T>, p: nat, x: T)
      requires p <= |s|
      ensures var m := s[..p] + [x] + s[p..]; |m| == |s| + 1 && m[..p] + m[p + 1..] == s
    {
      var m := s[..p] + [x] + s[p..];
      assert m[..p] == s[..p] && m[p + 1..] == s[p..];
    }

    static lemma NothingToRemove(l: seq<Entry>, timer: MultiTimer, left: seq<MultiTimer>)
      requires On(l, left) && timer !in left
      ensures Left(l, left, timer, l, left)
    {
      IndexIs(l, timer, |l|);
    }

    /** Back in the list, the timer's entry is the restarted one. */
    lemma BackRestarted(prev: MultiTimer?, e: Entry, c: int, now: nat, left: seq<MultiTimer>, l: seq<Entry>)
      requires Back(prev, e.timer, c, now, e.Delay(), left, l) && e.timer.period == e.period && e.timer.callback == e.callback
      ensures var p := Place(l, Restarted(e, now).deadline);
        && Entries() == Inserted(l, Restarted(e, now)) && |spine| == |left| + 1
        && prev == At(spine, if p < c then c else c - 1) && (e.timer.next == null <==> p == |left|)
    {
      hide Inserted, Place, EntriesOf;
    }

    /** The call of the callback, if there is one. */
    method Call(entry: MultiTimer)
      requires Linked()
      modifies `calls
      ensures Linked() && Entries() == old(Entries())
      ensures calls == old(calls) + if entry.callback == Missing then [] else [entry]
    {
      if entry.callback != Missing {
        calls := calls + [entry];
      }
    }

    /** What follows the deadline check: the entry leaves the list and comes back if it is periodic or its callback starts
        it again. The link of `prev` then points behind the entry's old place, and the entry's own link is null only at
        the end. */
    method Requeue(prev: MultiTimer?, entry: MultiTimer, ghost c: nat, now: nat)
      requires Linked() && c < |spine| && entry == spine[c] && prev == At(spine, c - 1)
      modifies `head, `spine, `calls, spine`next, spine`deadline
      ensures Linked() && forall i :: 0 <= i < |spine| ==> spine[i] in old(spine)
      ensures calls == old(calls) + old(Entries()[c].Calls())
      ensures var e := old(Entries())[c]; var rest := Without(old(Entries()), c);
        if !e.Again() then (Entries() == rest && |spine| == |rest| && prev == At(spine, c - 1) && (entry.next == null <==> c == |rest|))
        else (
          var p := Place(rest, Restarted(e, now).deadline);
          && Entries() == Inserted(rest, Restarted(e, now)) && |spine| == |rest| + 1
          && prev == At(spine, if p < c then c else c - 1) && (entry.next == null <==> p == |rest|))
    {
      hide Inserted, Place, Without, EntriesOf, Linked, Restarted, Left, On, Back;
      ghost var e := Entries()[c];
      TakeOut(prev, entry, c);
      ghost var left, rest := spine, Entries();
      ComeBack(prev, entry, c, now);
      assert Again(entry) == e.Again() && DelayOf(entry) == e.Delay();
      if e.Again() {
        BackRestarted(prev, e, c, now, left, rest);
      }
      hide Again, DelayOf;
      Call(entry);
    }

    /** The timer that was taken out starts again: for its period, and then, from its callback, for the callback's delay. */
    method ComeBack(prev: MultiTimer?, entry: MultiTimer, ghost c: nat, now: nat)
      requires Linked() && c <= |spine| && prev == At(spine, c - 1) && entry !in spine
      requires !Again(entry) ==> (entry.next == null <==> c == |spine|)
      modifies `head, `spine, spine`next, entry`next, entry`deadline
      ensures Linked() && forall i :: 0 <= i < |spine| ==> spine[i] == entry || spine[i] in old(spine)
      ensures if !Again(entry) then Entries() == old(Entries()) && spine == old(spine) && entry.next == old(entry.next)
        else Back(prev, entry, c, now, DelayOf(entry), old(spine), old(Entries()))
    {
      hide Inserted, Place, EntriesOf, Linked, Left, On, Back;
      ghost var left, l := spine, Entries();
      EntriesOn();
      NothingToRemove(l, entry, left);
      if entry.period != 0 {
        PutBack(prev, entry, c, now, entry.period, left, l);
      }
      if entry.callback.Restarts? {
        PutBack(prev, entry, c, now, entry.callback.delay, left, l);
      }
    }

    static ghost predicate Again(timer: MultiTimer)
      reads timer`period, timer`callback
    {
      Entry(timer, 0, timer.period, timer.callback).Again()
    }

    static ghost function DelayOf(timer: MultiTimer): nat
      reads timer`period, timer`callback
    {
      Entry(timer, 0, timer.period, timer.callback).Delay()
    }

    /** One pass with an entry that is due: `go` unless its own link is null afterwards. */
    method Pass(prev: MultiTimer?, ghost c: nat, now: nat) returns (go: bool, next: MultiTimer?)
      requires Linked() && c < |spine| && prev == At(spine, c - 1)
      requires Due(now, Entries()[c].deadline) && !Step(Entries(), c, now).Lost?
      modifies `head, `spine, `calls, spine`next, spine`deadline
      ensures Linked() && forall i :: 0 <= i < |spine| ==> spine[i] in old(spine)
      ensures calls == old(calls) + old(Entries()[c].Calls())
      ensures var m := Step(old(Entries()), c, now);
        && Entries() == m.list && go == m.Advance?
        && (go ==> m.cursor <= |spine| && next == At(spine, m.cursor - 1) && (if next == null then head else next.next) == At(spine, m.cursor))
    {
      hide Step, Due, EntriesOf, Linked;
      LinkAt(prev, c);
      var entry := if prev == null then head else prev.next;
      ghost var l := Entries();
      FireEntry(prev, entry, c, now);
      if entry.next == null {
        return false, null;
      }
      Behind(prev, l, c, now);
      next := if prev == null then head else prev.next;
      go := true;
    }

    /** The entry that is due leaves its place, and its callback is called. */
    method FireEntry(prev: MultiTimer?, entry: MultiTimer, ghost c: nat, now: nat)
      requires Linked() && c < |spine| && entry == spine[c] && prev == At(spine, c - 1)
      requires Due(now, Entries()[c].deadline) && !Step(Entries(), c, now).Lost?
      modifies `head, `spine, `calls, spine`next, spine`deadline
      ensures Linked() && forall i :: 0 <= i < |spine| ==> spine[i] in old(spine)
      ensures calls == old(calls) + old(Entries()[c].Calls())
      ensures var m := Step(old(Entries()), c, now);
        && Entries() == m.list && (entry.next != null <==> m.Advance?)
        && (m.Advance? ==> m.cursor > 0 && prev == At(spine, m.cursor - 2))
    {
      hide Step, Inserted, Place, Due, EntriesOf, Linked, Without, Restarted;
      StepMoves(Entries(), c, now);
      WithoutLength(Entries(), c);
      Requeue(prev, entry, c, now);
    }

    /** Where the cursor is after a pass that goes on. */
    lemma Behind(prev: MultiTimer?, l: seq<Entry>, c: nat, now: nat)
      requires Linked() && c < |l| && Step(l, c, now).Advance? && Entries() == Step(l, c, now).list
      requires prev == At(spine, Step(l, c, now).cursor - 2) && Step(l, c, now).cursor > 0
      ensures var m := Step(l, c, now); var next := if prev == null then head else prev.next;
        m.cursor <= |spine| && next == At(spine, m.cursor - 1) && (if next == null then head else next.next) == At(spine, m.cursor)
    {
      hide Step, Linked, EntriesOf;
      var k := Step(l, c, now).cursor;
      LinkAt(prev, k - 1);
      LinkAt(At(spine, k - 1), k);
    }

    static lemma WithoutLength(l: seq<Entry>, c: nat)
      requires c < |l|
      ensures |Without(l, c)| == |l| - 1
      ensures forall e :: |Inserted(Without(l, c), e)| == |l|
    {
    }

    /** A pass as part of a walk that started with the list `l0`. */
    method Turn(prev: MultiTimer?, ghost c: nat, now: nat, ghost l0: seq<Entry>, ghost fired: seq<Entry>, ghost calls0: seq<MultiTimer>)
      returns (go: bool, next: MultiTimer?, ghost c': nat, ghost fired': seq<Entry>)
      requires Linked() && c < |spine| && prev == At(spine, c - 1) && Due(now, Entries()[c].deadline)
      requires Walk(l0, 0, now).Done? && Walk(l0, 0, now) == Fire(fired, Walk(Entries(), c, now)) && calls == calls0 + Called(fired)
      modifies `head, `spine, `calls, spine`next, spine`deadline
      ensures Linked() && forall i :: 0 <= i < |spine| ==> spine[i] in old(spine)
      ensures calls == calls0 + Called(fired')
      ensures go ==> (
        && c' <= |spine| && next == At(spine, c' - 1) && (if next == null then head else next.next) == At(spine, c')
        && |spine| - c' < |old(spine)| - c && Walk(l0, 0, now) == Fire(fired', Walk(Entries(), c', now)))
      ensures !go ==> Walk(l0, 0, now) == Done(Entries(), fired')
    {
      hide Walk, Step, Due, EntriesOf, Called, Linked, Fire;
      ghost var l := Entries();
      FiredOne(l, c, now, fired);
      CalledOne(fired, l[c]);
      go, next := Pass(prev, c, now);
      fired' := fired + [l[c]];
      c' := if go then Step(l, c, now).cursor else 0;
    }

    /** MultiTimerYield at time `now`, with callbacks that leave the list alone or start their own timer again. */
    method Yield(now: nat)
      requires Valid() && Walk(Entries(), 0, now).Done?
      modifies `head, `spine, `calls, spine`next, spine`deadline
      ensures Valid()
      ensures var o := Walk(old(Entries()), 0, now); Entries() == o.list && calls == old(calls) + Called(o.fired)
    {
      hide Walk, Step, Inserted, Place, Sorted, Distinct, Due, EntriesOf, Called, Linked, Fire;
      ghost var l0 := Entries();
      ghost var fired: seq<Entry> := [];
      var prev: MultiTimer? := null;
      ghost var c: nat := 0;
      FireNothing(Walk(l0, 0, now));
      CalledNone();
      DistinctEntries();
      WalkKeepsOrder(l0, 0, now);
      LinkAt(prev, c);
      while (if prev == null then head else prev.next) != null
        invariant Linked() && c <= |spine| && prev == At(spine, c - 1)
        invariant (if prev == null then head else prev.next) == At(spine, c)
        invariant forall i :: 0 <= i < |spine| ==> spine[i] in old(spine)
        invariant Walk(l0, 0, now) == Fire(fired, Walk(Entries(), c, now)) && calls == old(calls) + Called(fired)
        decreases |spine| - c
      {
        var entry := if prev == null then head else prev.next;
        ghost var l := Entries();
        if !Due(now, entry.deadline) {
          WalkStops(l, c, now);
          return;
        }
        var go, next;
        go, next, c, fired := Turn(prev, c, now, l0, fired, old(calls));
        if !go {
          return;
        }
        prev := next;
      }
      WalkStops(Entries(), c, now);
    }

    static lemma FireNothing(o: Outcome)
      ensures Fire([], o) == o
    {
    }

    static lemma WalkStops(l: seq<Entry>, c: nat, now: nat)
      requires c <= |l| && (c == |l| || !Due(now, l[c].deadline))
      ensures Walk(l, c, now) == Done(l, []) && forall fired :: Fire(fired, Done(l, [])) == Done(l, fired)
    {
      assert forall fired: seq<Entry> :: fired + [] == fired;
    }

    /** The passes of a due entry, by where it goes. */
    static lemma StepMoves(l: seq<Entry>, c: nat, now: nat)
      requires c < |l| && Due(now, l[c].deadline)
      ensures var e := l[c]; var rest := Without(l, c); var m := Step(l, c, now);
        if !e.Again() then m == (if c == |rest| then Halt(rest, [e]) else Advance(rest, c + 1, [e]))
        else (
          var p := Place(rest, Restarted(e, now).deadline);
          var again := Inserted(rest, Restarted(e, now));
          if p == |rest| then m == Halt(again, [e])
          else if p >= c then m == Advance(again, c + 1, [e])
          else if c == |rest| then m == Lost
          else m == Advance(again, c + 2, [e]))
    {
    }

    /** A walk keeps the list sorted and free of duplicates whatever the deadlines are. */
    static lemma {:induction false} WalkKeepsOrder(l: seq<Entry>, c: nat, now: nat)
      requires Sorted(l) && Distinct(l) && c <= |l|
      ensures var o := Walk(l, c, now); o.Done? ==> Sorted(o.list) && Distinct(o.list)
      decreases |l| - c
    {
      hide Sorted, Distinct;
      StepKeepsOrder(l, c, now);
      var m := Step(l, c, now);
      if m.Advance? {
        WalkKeepsOrder(m.list, m.cursor, now);
      }
    }

    static lemma StepKeepsOrder(l: seq<Entry>, c: nat, now: nat)
      requires Sorted(l) && Distinct(l) && c <= |l|
      ensures var m := Step(l, c, now); !m.Lost? ==> Sorted(m.list) && Distinct(m.list)
    {
      if c < |l| {
        WithoutMembers(l, c);
        RestartedTimer(l[c], now);
        InsertedKeepsOrder(Without(l, c), Restarted(l[c], now));
        hide Sorted, Distinct, Place, Without, Restarted;
      }
    }

    static lemma FiredOne(l: seq<Entry>, c: nat, now: nat, fired: seq<Entry>)
      requires c < |l| && Due(now, l[c].deadline)
      ensures var m := Step(l, c, now);
        && (m.Advance? ==> Fire(fired, Walk(l, c, now)) == Fire(fired + [l[c]], Walk(m.list, m.cursor, now)))
        && (m.Halt? ==> Fire(fired, Walk(l, c, now)) == Done(m.list, fired + [l[c]]))
        && (m.Lost? ==> Fire(fired, Walk(l, c, now)) == Stuck)
    {
      StepMoves(l, c, now);
      hide Step, Without, Inserted, Place, Restarted;
      var m := Step(l, c, now);
      if m.Advance? {
        var o := Walk(m.list, m.cursor, now);
        if o.Done? {
          Regroup(fired, l[c], o.fired);
        }
      }
    }

    /** MultiTimerActivated */
    method Activated(timer: MultiTimer) returns (active: bool)
      requires Valid()
      ensures active <==> timer in spine
    {
      var entry := head;
      ghost var k := 0;
      while entry != null
        invariant k <= |spine| && entry == At(spine, k)
        invariant forall j :: 0 <= j < k ==> spine[j] != timer
        decreases |spine| - k
      {
        if entry == timer {
          return true;
        }
        entry, k := entry.next, k + 1;
      }
      active := false;
    }
  }
}
