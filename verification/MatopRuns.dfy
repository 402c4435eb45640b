/** The request table as a state machine: requests, replies, raw replies and timeouts, with callbacks that send
    further requests while the table is being edited. Properties of every run. */
module MatopRuns {

  const OPRT_OK := 0
  const OPRT_COM_ERROR := -0x0001
  const OPRT_INVALID_PARM := -0x0002
  const OPRT_CJSON_PARSE_ERR := -0x0008
  const OPRT_CJSON_GET_ERR := -0x0009
  const OPRT_TIMEOUT := -0x0014

  const TWO32 := 0x1_0000_0000
  const TIMEOUT_MS_DEFAULT := 8000

  // ---------- state

  /** A request's identity is how many request calls came before it; its wire id is that number in 16 bits. */
  function WireId(serial: nat): nat {
    serial % 0x1_0000
  }

  /** What one call of request_async is given, and what happens around it: the tick count, and whether the
      publish succeeds. */
  datatype Request = Request(timeout: nat, notify: bool, ticks: nat, published: bool) {
    function Wait(): nat {
      if timeout == 0 then TIMEOUT_MS_DEFAULT else timeout
    }

    /** The tick at which it expires, in 32 bits. */
    function Deadline(): nat {
      (ticks + Wait()) % TWO32
    }
  }

  datatype Pending = Pending(serial: nat, timeout: nat, notify: bool) {
    function Id(): nat {
      WireId(serial)
    }
  }

  datatype Reason = Replied(id: nat, success: bool) | RawReplied(id: nat) | TimedOut(ticks: nat)

  /** A request leaves the table: `called` if it had a callback to be called. */
  datatype Notice = Notice(serial: nat, called: bool, reason: Reason)

  datatype State = State(calls: nat, pending: seq<Pending>, sent: seq<nat>, notices: seq<Notice>)

  const EMPTY := State(0, [], [], [])

  // ---------- steps

  /** matop_service_request_async: a failed publish uses up an id and leaves no entry. */
  function Send(s: State, r: Request): State {
    var k := s.calls + 1;
    if r.published then s.(calls := k, pending := s.pending + [Pending(k, r.Deadline(), r.notify)], sent := s.sent + [k])
    else s.(calls := k)
  }

  /** The requests that a callback makes, in order. */
  function SendAll(s: State, script: seq<Request>): State {
    if script == [] then s else Send(SendAll(s, script[..|script| - 1]), script[|script| - 1])
  }

  /** The callback runs while its entry is still in the table; then the entry is taken out. */
  function Complete(s: State, i: nat, reason: Reason, script: seq<Request>): State
    requires i < |s.pending|
  {
    var p := s.pending[i];
    var t := Noticed(s, i, reason, script);
    SendAllAppends(s.(notices := s.notices + [Notice(p.serial, p.notify, reason)]), script);
    t.(pending := t.pending[..i] + t.pending[i + 1..])
  }

  /** After the callback, before the removal. */
  function Noticed(s: State, i: nat, reason: Reason, script: seq<Request>): State
    requires i < |s.pending|
  {
    var p := s.pending[i];
    var t := s.(notices := s.notices + [Notice(p.serial, p.notify, reason)]);
    if p.notify then SendAll(t, script) else t
  }

  /** The first entry with a wire id, or the number of entries. */
  function Find(pending: seq<Pending>, id: nat): (i: nat)
    ensures i <= |pending|
    ensures i < |pending| ==> pending[i].Id() == id
    ensures forall j :: 0 <= j < i ==> pending[j].Id() != id
  {
    if pending == [] || pending[0].Id() == id then 0 else 1 + Find(pending[1..], id)
  }

  /** A JSON reply after parsing; `id` is the number's value as an int. */
  datatype Reply = NotJson | FieldsMissing | Reply(id: int, success: bool)

  /** matop_service_data_receive_cb: the id is cut to 16 bits before the search. */
  function ReceiveData(s: State, reply: Reply, script: seq<Request>): (State, int) {
    match reply
    case NotJson => (s, OPRT_CJSON_PARSE_ERR)
    case FieldsMissing => (s, OPRT_CJSON_GET_ERR)
    case Reply(id, success) =>
      var i := Find(s.pending, id % 0x1_0000);
      if i == |s.pending| then (s, OPRT_COM_ERROR)
      else (Complete(s, i, Replied(id % 0x1_0000, success), script), OPRT_OK)
  }

  /** The id at the front of a raw reply, big-endian. */
  function RawId(input: seq<bv8>): nat
    requires |input| >= 4
  {
    0x100_0000 * input[0] as nat + 0x1_0000 * input[1] as nat + 0x100 * input[2] as nat + input[3] as nat
  }

  /** matop_service_file_rawdata_receive_cb: all 32 bits of the id are compared. */
  function ReceiveRaw(s: State, input: seq<bv8>, script: seq<Request>): (State, int) {
    if |input| < 4 then (s, OPRT_INVALID_PARM)
    else
      var i := Find(s.pending, RawId(input));
      if i == |s.pending| then (s, OPRT_COM_ERROR) else (Complete(s, i, RawReplied(RawId(input)), script), OPRT_OK)
  }

  /** The first entry whose deadline the clock has passed; `ticks(k)` is the clock when entry k is looked at. */
  function FirstExpired(pending: seq<Pending>, ticks: nat -> nat, from: nat): (i: nat)
    requires from <= |pending|
    ensures from <= i <= |pending|
    ensures i < |pending| ==> ticks(i) > pending[i].timeout
    ensures forall j :: from <= j < i ==> ticks(j) <= pending[j].timeout
    decreases |pending| - from
  {
    if from == |pending| || ticks(from) > pending[from].timeout then from else FirstExpired(pending, ticks, from + 1)
  }

  /** matop_serice_yield: at most one entry expires. */
  function Yield(s: State, ticks: nat -> nat, script: seq<Request>): (State, int) {
    var i := FirstExpired(s.pending, ticks, 0);
    if i == |s.pending| then (s, OPRT_OK) else (Complete(s, i, TimedOut(ticks(i)), script), OPRT_TIMEOUT)
  }

  // ---------- runs

  datatype Event =
    | Requested(request: Request)
    | Answered(reply: Reply, script: seq<Request>)
    | RawAnswered(input: seq<bv8>, script: seq<Request>)
    | Yielded(ticks: nat -> nat, script: seq<Request>)

  function Next(s: State, e: Event): State {
    match e
    case Requested(r) => Send(s, r)
    case Answered(reply, script) => ReceiveData(s, reply, script).0
    case RawAnswered(input, script) => ReceiveRaw(s, input, script).0
    case Yielded(ticks, script) => Yield(s, ticks, script).0
  }

  function Run(events: seq<Event>): State {
    if events == [] then EMPTY else Next(Run(events[..|events| - 1]), events[|events| - 1])
  }

  // ---------- callbacks only append

  /** The entries that a callback's requests leave, when `calls` requests were made before. */
  function Appended(calls: nat, script: seq<Request>): seq<Pending> {
    if script == [] then []
    else
      var r := script[|script| - 1];
      Appended(calls, script[..|script| - 1]) + (if r.published then [Pending(calls + |script|, r.Deadline(), r.notify)] else [])
  }

  lemma {:induction false} SendAllAppends(s: State, script: seq<Request>)
    ensures var t := SendAll(s, script);
      t.calls == s.calls + |script| && t.pending == s.pending + Appended(s.calls, script) && t.notices == s.notices
  {
    if script != [] {
      SendAllAppends(s, script[..|script| - 1]);
    }
  }

  /** Of the old entries only the completed one is gone and the others keep their order; the requests that the
      callback made follow them, none lost, in the order in which it made them. */
  lemma CompleteKeepsOrder(s: State, i: nat, reason: Reason, script: seq<Request>)
    requires i < |s.pending|
    ensures var t := Complete(s, i, reason, script);
      && t.pending == s.pending[..i] + s.pending[i + 1..] + (if s.pending[i].notify then Appended(s.calls, script) else [])
      && t.notices == s.notices + [Notice(s.pending[i].serial, s.pending[i].notify, reason)]
  {
    SendAllAppends(s.(notices := s.notices + [Notice(s.pending[i].serial, s.pending[i].notify, reason)]), script);
  }

  // ---------- the invariant of every run

  function Serials(pending: seq<Pending>): (r: seq<nat>)
    ensures |r| == |pending| && forall i :: 0 <= i < |r| ==> r[i] == pending[i].serial
  {
    seq(|pending|, i requires 0 <= i < |pending| => pending[i].serial)
  }

  function Done(notices: seq<Notice>): (r: seq<nat>)
    ensures |r| == |notices| && forall i :: 0 <= i < |r| ==> r[i] == notices[i].serial
  {
    seq(|notices|, i requires 0 <= i < |notices| => notices[i].serial)
  }

  predicate Increasing(s: seq<nat>, top: nat) {
    && (forall i, j :: 0 <= i < j < |s| ==> s[i] < s[j])
    && (forall i :: 0 <= i < |s| ==> 0 < s[i] <= top)
  }

  /** A reply is given to a request under that request's own id. */
  predicate OwnId(n: Notice) {
    match n.reason
    case Replied(id, _) => id == WireId(n.serial)
    case RawReplied(id) => id == WireId(n.serial)
    case TimedOut(_) => true
  }

  function Count(s: seq<nat>, k: nat): nat {
    multiset(s)[k]
  }

  lemma CountAppend(a: seq<nat>, b: seq<nat>, k: nat)
    ensures Count(a + b, k) == Count(a, k) + Count(b, k)
  {
  }

  lemma CountOne(x: nat, k: nat)
    ensures Count([x], k) == if k == x then 1 else 0
  {
  }

  /** `extra`, unless it is negative, is the request both in the table and noticed, while its callback runs. */
  ghost predicate Balanced(sent: seq<nat>, pending: seq<nat>, done: seq<nat>, extra: int) {
    forall k: nat :: Count(sent, k) + (if k == extra then 1 else 0) == Count(pending, k) + Count(done, k)
  }

  ghost predicate ConsistentBut(s: State, extra: int) {
    && Increasing(s.sent, s.calls)
    && Increasing(Serials(s.pending), s.calls)
    && Balanced(s.sent, Serials(s.pending), Done(s.notices), extra)
    && (forall i :: 0 <= i < |s.notices| ==> OwnId(s.notices[i]))
  }

  const NOBODY: int := -1

  ghost predicate Consistent(s: State) {
    ConsistentBut(s, NOBODY)
  }

  lemma IncreasingAppend(s: seq<nat>, top: nat)
    requires Increasing(s, top)
    ensures Increasing(s + [top + 1], top + 1) && Increasing(s, top + 1)
  {
  }

  lemma SendIsConsistent(s: State, r: Request, extra: int)
    requires ConsistentBut(s, extra)
    ensures ConsistentBut(Send(s, r), extra)
  {
    hide Count, Increasing, Serials, Done, OwnId;
    var k := s.calls + 1;
    IncreasingAppend(s.sent, s.calls);
    IncreasingAppend(Serials(s.pending), s.calls);
    if r.published {
      assert Serials(Send(s, r).pending) == Serials(s.pending) + [k];
      forall x: nat ensures Count(s.sent + [k], x) == Count(s.sent, x) + Count([k], x)
        && Count(Serials(s.pending) + [k], x) == Count(Serials(s.pending), x) + Count([k], x) {
        CountAppend(s.sent, [k], x);
        CountAppend(Serials(s.pending), [k], x);
      }
    }
  }

  lemma {:induction false} SendAllIsConsistent(s: State, script: seq<Request>, extra: int)
    requires ConsistentBut(s, extra)
    ensures ConsistentBut(SendAll(s, script), extra)
  {
    hide ConsistentBut;
    if script != [] {
      SendAllIsConsistent(s, script[..|script| - 1], extra);
      SendIsConsistent(SendAll(s, script[..|script| - 1]), script[|script| - 1], extra);
    }
  }

  lemma RemovalSerials(pending: seq<Pending>, i: nat, x: nat)
    requires i < |pending|
    ensures var all, rest := Serials(pending), Serials(pending[..i] + pending[i + 1..]);
      && rest == all[..i] + all[i + 1..]
      && Count(all, x) == Count(rest, x) + Count([pending[i].serial], x)
  {
    hide Count;
    var all := Serials(pending);
    assert Serials(pending[..i] + pending[i + 1..]) == all[..i] + all[i + 1..];
    assert all == all[..i] + ([all[i]] + all[i + 1..]);
    CountAppend(all[..i], [all[i]] + all[i + 1..], x);
    CountAppend([all[i]], all[i + 1..], x);
    CountAppend(all[..i], all[i + 1..], x);
  }

  lemma RemovalIsConsistent(s: State, i: nat)
    requires i < |s.pending| && ConsistentBut(s, s.pending[i].serial)
    ensures Consistent(s.(pending := s.pending[..i] + s.pending[i + 1..]))
  {
    hide Count, Serials, Done, OwnId;
    RemovalSerials(s.pending, i, 0);
    forall x: nat ensures Count(s.sent, x) == Count(Serials(s.pending[..i] + s.pending[i + 1..]), x) + Count(Done(s.notices), x) {
      RemovalSerials(s.pending, i, x);
      CountOne(s.pending[i].serial, x);
    }
  }

  lemma NoticeIsConsistent(s: State, n: Notice)
    requires Consistent(s) && OwnId(n)
    ensures ConsistentBut(s.(notices := s.notices + [n]), n.serial)
  {
    hide Count, Increasing, Serials, Done, OwnId;
    assert Done(s.notices + [n]) == Done(s.notices) + [n.serial];
    forall x: nat ensures Count(Done(s.notices) + [n.serial], x) == Count(Done(s.notices), x) + Count([n.serial], x) {
      CountAppend(Done(s.notices), [n.serial], x);
    }
    forall x: nat ensures Count([n.serial], x) == if x == n.serial then 1 else 0 {
      CountOne(n.serial, x);
    }
  }

  lemma CompleteIsConsistent(s: State, i: nat, reason: Reason, script: seq<Request>)
    requires Consistent(s) && i < |s.pending|
    requires OwnId(Notice(s.pending[i].serial, s.pending[i].notify, reason))
    ensures Consistent(Complete(s, i, reason, script))
  {
    hide SendAll, ConsistentBut;
    var n := Notice(s.pending[i].serial, s.pending[i].notify, reason);
    var t := s.(notices := s.notices + [n]);
    NoticeIsConsistent(s, n);
    SendAllAppends(t, script);
    SendAllIsConsistent(t, script, n.serial);
    RemovalIsConsistent(Noticed(s, i, reason, script), i);
  }

  lemma RequestIsConsistent(s: State, r: Request)
    requires Consistent(s)
    ensures Consistent(Send(s, r))
  {
    SendIsConsistent(s, r, NOBODY);
  }

  lemma NextIsConsistent(s: State, e: Event)
    requires Consistent(s)
    ensures Consistent(Next(s, e))
  {
    hide Complete, Consistent;
    match e
    case Requested(r) =>
      RequestIsConsistent(s, r);
    case Answered(Reply(id, success), script) =>
      var i := Find(s.pending, id % 0x1_0000);
      if i < |s.pending| {
        CompleteIsConsistent(s, i, Replied(id % 0x1_0000, success), script);
      }
    case Answered(_, _) =>
    case RawAnswered(input, script) =>
      if |input| >= 4 {
        var i := Find(s.pending, RawId(input));
        if i < |s.pending| {
          CompleteIsConsistent(s, i, RawReplied(RawId(input)), script);
        }
      }
    case Yielded(ticks, script) =>
      var i := FirstExpired(s.pending, ticks, 0);
      if i < |s.pending| {
        CompleteIsConsistent(s, i, TimedOut(ticks(i)), script);
      }
  }

  lemma {:induction false} EveryRunIsConsistent(events: seq<Event>)
    ensures Consistent(Run(events))
  {
    hide Consistent, Next;
    if events == [] {
      EmptyIsConsistent();
    } else {
      EveryRunIsConsistent(events[..|events| - 1]);
      NextIsConsistent(Run(events[..|events| - 1]), events[|events| - 1]);
    }
  }

  lemma EmptyIsConsistent()
    ensures Consistent(EMPTY)
  {
  }

  // ---------- what follows for every run

  lemma {:induction false} DistinctCounts(s: seq<nat>, top: nat, k: nat)
    requires Increasing(s, top)
    ensures Count(s, k) == if k in s then 1 else 0
  {
    if s != [] {
      var front, last := s[..|s| - 1], s[|s| - 1];
      assert s == front + [last];
      DistinctCounts(front, top, k);
    }
  }

  /** In every run, a request that was sent is in the table exactly once and not noticed, or is not in the table
      and has been noticed exactly once; any other request is in neither. */
  lemma SentOncePendingOrNoticed(events: seq<Event>, k: nat)
    ensures var s := Run(events);
      var p, n := Count(Serials(s.pending), k), Count(Done(s.notices), k);
      if k in s.sent then p + n == 1 else p == n == 0
  {
    hide Run, Serials, Done, Count;
    var s := Run(events);
    EveryRunIsConsistent(events);
    DistinctCounts(s.sent, s.calls, k);
  }

  lemma CountIsMember(s: seq<nat>, k: nat)
    ensures Count(s, k) > 0 <==> k in s
  {
  }

  /** In every run the table holds the requests still to be answered in the order in which they were sent. */
  lemma TableIsInSendingOrder(events: seq<Event>)
    ensures var s := Run(events); Serials(s.pending) == Without(s.sent, Done(s.notices))
  {
    hide Run, Serials, Done;
    var s := Run(events);
    EveryRunIsConsistent(events);
    WithoutIs(s.sent, Done(s.notices), s.calls);
    forall k ensures k in Serials(s.pending) <==> k in Without(s.sent, Done(s.notices)) {
      DistinctCounts(s.sent, s.calls, k);
      DistinctCounts(Serials(s.pending), s.calls, k);
      CountIsMember(Done(s.notices), k);
    }
    SameIncreasing(Serials(s.pending), Without(s.sent, Done(s.notices)), s.calls);
  }

  /** The elements of `s` that are not in `gone`, in their order. */
  function Without(s: seq<nat>, gone: seq<nat>): seq<nat> {
    if s == [] then []
    else
      var front := Without(s[..|s| - 1], gone);
      if s[|s| - 1] in gone then front else front + [s[|s| - 1]]
  }

  lemma {:induction false} WithoutIs(s: seq<nat>, gone: seq<nat>, top: nat)
    requires Increasing(s, top)
    ensures Increasing(Without(s, gone), top)
    ensures forall k :: k in Without(s, gone) <==> k in s && k !in gone
  {
    if s != [] {
      var front, last := s[..|s| - 1], s[|s| - 1];
      assert s == front + [last];
      WithoutIs(front, gone, top);
      var w := Without(front, gone);
      forall i | 0 <= i < |w| ensures w[i] < last {
        assert w[i] in w;
      }
    }
  }

  lemma {:induction false} SameIncreasing(a: seq<nat>, b: seq<nat>, top: nat)
    requires Increasing(a, top) && Increasing(b, top) && forall k :: k in a <==> k in b
    ensures a == b
  {
    assert a == [] || a[0] in a;
    assert b == [] || b[0] in b;
    if a != [] && b != [] {
      var x, y := a[|a| - 1], b[|b| - 1];
      var a', b' := a[..|a| - 1], b[..|b| - 1];
      LastIsLargest(a, top);
      LastIsLargest(b, top);
      assert x in a && y in b;
      assert x == y;
      forall k ensures k in a' <==> k in b' {
        assert k in a' <==> k in a && k != x;
        assert k in b' <==> k in b && k != y;
      }
      SameIncreasing(a', b', top);
    }
  }

  lemma LastIsLargest(s: seq<nat>, top: nat)
    requires Increasing(s, top) && s != []
    ensures var x := s[|s| - 1]; var front := s[..|s| - 1];
      s == front + [x] && Increasing(front, top) && (forall k :: k in s ==> k <= x) && forall k :: k in front <==> k in s && k != x
  {
    var x := s[|s| - 1];
    var front := s[..|s| - 1];
    assert s == front + [x];
    forall k | k in front ensures k < x {
      var i :| 0 <= i < |front| && front[i] == k;
      assert s[i] < s[|s| - 1];
    }
  }

  /** While fewer than 65536 ids lie between the oldest pending request and the newest, pending requests have
      different ids. */
  lemma IdsInFlightAreDistinct(events: seq<Event>, i: nat, j: nat)
    requires var s := Run(events); i < j < |s.pending| && s.calls - s.pending[0].serial < 0x1_0000
    ensures var s := Run(events); s.pending[i].Id() != s.pending[j].Id()
  {
    hide Run;
    EveryRunIsConsistent(events);
    var s := Run(events);
    var ks := Serials(s.pending);
    assert 0 <= ks[0] <= ks[i] < ks[j] <= s.calls;
  }

  lemma RunOne(events: seq<Event>, e: Event)
    ensures Run(events + [e]) == Next(Run(events), e)
  {
    assert (events + [e])[..|events|] == events;
    hide Next;
  }

  lemma FoundExactly(pending: seq<Pending>, at: nat)
    requires at < |pending|
    ensures Find(pending, pending[at].Id()) <= at
    ensures Find(pending, pending[at].Id()) == at <==>
      forall j :: 0 <= j < at ==> pending[j].serial % 0x1_0000 != pending[at].serial % 0x1_0000
  {
    var i := Find(pending, pending[at].Id());
    assert forall j :: 0 <= j < at ==> (pending[j].Id() == pending[at].Id() <==> pending[j].serial % 0x1_0000 == pending[at].serial % 0x1_0000);
  }

  lemma SameNotice(notices: seq<Notice>, x: Notice, y: Notice)
    ensures notices + [x] == notices + [y] <==> x == y
  {
    assert (notices + [x])[|notices|] == x && (notices + [y])[|notices|] == y;
  }

  lemma CompleteNotices(s: State, i: nat, reason: Reason, script: seq<Request>)
    requires i < |s.pending|
    ensures Complete(s, i, reason, script).notices == s.notices + [Notice(s.pending[i].serial, s.pending[i].notify, reason)]
  {
    hide Complete;
    CompleteKeepsOrder(s, i, reason, script);
  }

  /** A reply that finds an entry gives that entry's notice. */
  lemma ReplyGivesNotice(s: State, id: nat, ok: bool, script: seq<Request>)
    requires id < 0x1_0000 && Find(s.pending, id) < |s.pending|
    ensures var q := s.pending[Find(s.pending, id)];
      Next(s, Answered(Reply(id, ok), script)).notices == s.notices + [Notice(q.serial, q.notify, Replied(id, ok))]
  {
    assert id % 0x1_0000 == id;
    hide Complete, Find;
    CompleteNotices(s, Find(s.pending, id), Replied(id, ok), script);
  }

  lemma RawReplyGivesNotice(s: State, input: seq<bv8>, script: seq<Request>)
    requires |input| >= 4 && Find(s.pending, RawId(input)) < |s.pending|
    ensures var id := RawId(input); var q := s.pending[Find(s.pending, id)];
      Next(s, RawAnswered(input, script)).notices == s.notices + [Notice(q.serial, q.notify, RawReplied(id))]
  {
    hide Complete, Find, RawId;
    CompleteNotices(s, Find(s.pending, RawId(input)), RawReplied(RawId(input)), script);
  }

  /** A reply, JSON or raw, that carries the id of the pending request k gives exactly one notice, under that id. It
      is k's exactly when no older pending request has the same 16-bit id. */
  lemma ReplyReachesItsSender(events: seq<Event>, at: nat, ok: bool, script: seq<Request>, input: seq<bv8>)
    requires at < |Run(events).pending|
    requires |input| >= 4 && RawId(input) == Run(events).pending[at].Id()
    ensures var s := Run(events); var p := s.pending[at];
      var t, u := Run(events + [Answered(Reply(p.Id(), ok), script)]), Run(events + [RawAnswered(input, script)]);
      var alone := forall j :: 0 <= j < at ==> s.pending[j].serial % 0x1_0000 != p.serial % 0x1_0000;
      && |t.notices| == |u.notices| == |s.notices| + 1
      && (t.notices == s.notices + [Notice(p.serial, p.notify, Replied(p.Id(), ok))] <==> alone)
      && (u.notices == s.notices + [Notice(p.serial, p.notify, RawReplied(p.Id()))] <==> alone)
  {
    hide Run, Consistent, Find, Next, RawId;
    var s := Run(events);
    var p := s.pending[at];
    FoundExactly(s.pending, at);
    var i := Find(s.pending, p.Id());
    var q := s.pending[i];
    RunOne(events, Answered(Reply(p.Id(), ok), script));
    ReplyGivesNotice(s, p.Id(), ok, script);
    RunOne(events, RawAnswered(input, script));
    RawReplyGivesNotice(s, input, script);
    SameNotice(s.notices, Notice(q.serial, q.notify, Replied(p.Id(), ok)), Notice(p.serial, p.notify, Replied(p.Id(), ok)));
    SameNotice(s.notices, Notice(q.serial, q.notify, RawReplied(p.Id())), Notice(p.serial, p.notify, RawReplied(p.Id())));
    if i != at {
      OlderSerial(events, i, at);
    }
  }

  lemma OlderSerial(events: seq<Event>, i: nat, at: nat)
    requires i < at < |Run(events).pending|
    ensures Run(events).pending[i].serial < Run(events).pending[at].serial
  {
    hide Run;
    EveryRunIsConsistent(events);
    var ks := Serials(Run(events).pending);
    assert ks[i] < ks[at];
  }

  /** In every run with fewer than 65536 ids in flight, a reply with the id of a pending request gives that request's
      notice and no other. */
  lemma RepliesReachTheirSenders(events: seq<Event>, at: nat, ok: bool, script: seq<Request>, input: seq<bv8>)
    requires var s := Run(events); at < |s.pending| && s.calls - s.pending[0].serial < 0x1_0000
    requires |input| >= 4 && RawId(input) == Run(events).pending[at].Id()
    ensures var s := Run(events); var p := s.pending[at];
      && Run(events + [Answered(Reply(p.Id(), ok), script)]).notices == s.notices + [Notice(p.serial, p.notify, Replied(p.Id(), ok))]
      && Run(events + [RawAnswered(input, script)]).notices == s.notices + [Notice(p.serial, p.notify, RawReplied(p.Id()))]
  {
    hide Run;
    ReplyReachesItsSender(events, at, ok, script, input);
    var s := Run(events);
    forall j | 0 <= j < at ensures s.pending[j].Id() != s.pending[at].Id() {
      IdsInFlightAreDistinct(events, j, at);
    }
  }

  const ASKED := Request(0, true, 0, true)

  /** That many requests, all published. */
  function Burst(n: nat): (events: seq<Event>)
    ensures |events| == n
  {
    seq(n, _ => Requested(ASKED))
  }

  lemma {:induction false} BurstIsPending(n: nat)
    ensures var s := Run(Burst(n));
      s.calls == |s.pending| == n && s.notices == [] && forall i :: 0 <= i < n ==> s.pending[i] == Pending(i + 1, 8000, true)
  {
    if n > 0 {
      BurstIsPending(n - 1);
      assert Burst(n) == Burst(n - 1) + [Requested(ASKED)];
      RunOne(Burst(n - 1), Requested(ASKED));
      hide Burst, Run;
    }
  }

  /** With 65537 requests in flight the reply meant for the last one, which is pending, completes the first. */
  lemma OlderRequestTakesTheReply(ok: bool)
    ensures var s := Run(Burst(65537));
      && |s.pending| == 65537 && s.pending[65536].serial == 65537
      && Run(Burst(65537) + [Answered(Reply(WireId(65537), ok), [])]).notices == [Notice(1, true, Replied(WireId(65537), ok))]
  {
    BurstIsPending(65537);
    var s := Run(Burst(65537));
    RunOne(Burst(65537), Answered(Reply(WireId(65537), ok), []));
    hide Burst, Run, Complete;
    assert s.pending[0].Id() == 1 == WireId(65537);
    CompleteKeepsOrder(s, 0, Replied(1, ok), []);
  }

  /** The two callbacks differ on ids of more than 16 bits: a JSON reply finds the entry of the low half, a raw
      reply finds none. */
  lemma LongIds(s: State, input: seq<bv8>, success: bool, script: seq<Request>)
    requires |input| >= 4 && RawId(input) >= 0x1_0000
    ensures ReceiveRaw(s, input, script) == (s, OPRT_COM_ERROR)
    ensures ReceiveData(s, Reply(RawId(input), success), script) == ReceiveData(s, Reply(RawId(input) % 0x1_0000, success), script)
  {
    hide Complete;
  }

  // ---------- timeouts

  function Expired(pending: seq<Pending>, now: nat): nat {
    if pending == [] then 0 else (if now > pending[0].timeout then 1 else 0) + Expired(pending[1..], now)
  }

  lemma {:induction false} ExpiredSplits(a: seq<Pending>, b: seq<Pending>, now: nat)
    ensures Expired(a + b, now) == Expired(a, now) + Expired(b, now)
  {
    if a == [] {
      assert a + b == b;
    } else {
      assert (a + b)[1..] == a[1..] + b;
      ExpiredSplits(a[1..], b, now);
    }
  }

  lemma {:induction false} NoneExpired(pending: seq<Pending>, now: nat)
    ensures Expired(pending, now) == 0 <==> forall i :: 0 <= i < |pending| ==> now <= pending[i].timeout
  {
    if pending != [] {
      NoneExpired(pending[1..], now);
      assert forall i :: 1 <= i < |pending| ==> pending[1..][i - 1] == pending[i];
    }
  }

  /** Yields at a fixed time whose callbacks send nothing. */
  function Yields(s: State, now: nat, n: nat): State {
    if n == 0 then s else Yield(Yields(s, now, n - 1), k => now, []).0
  }

  lemma YieldExpiresOne(s: State, now: nat)
    ensures var (t, rt) := Yield(s, k => now, []);
      if Expired(s.pending, now) == 0 then t == s && rt == OPRT_OK
      else (rt == OPRT_TIMEOUT && Expired(t.pending, now) == Expired(s.pending, now) - 1
            && |t.notices| == |s.notices| + 1 && |t.pending| == |s.pending| - 1)
  {
    NoneExpired(s.pending, now);
    var i := FirstExpired(s.pending, k => now, 0);
    if i < |s.pending| {
      CompleteKeepsOrder(s, i, TimedOut(now), []);
      assert s.pending == s.pending[..i] + ([s.pending[i]] + s.pending[i + 1..]);
      ExpiredSplits(s.pending[..i], [s.pending[i]] + s.pending[i + 1..], now);
      ExpiredSplits([s.pending[i]], s.pending[i + 1..], now);
      ExpiredSplits(s.pending[..i], s.pending[i + 1..], now);
    } else {
      assert forall j :: 0 <= j < |s.pending| ==> now <= s.pending[j].timeout;
    }
  }

  /** As many yields as there are expired entries notice them all; the next yields change nothing. */
  lemma {:induction false} YieldsDrainTheExpired(s: State, now: nat, n: nat)
    ensures var e := Expired(s.pending, now);
      Expired(Yields(s, now, n).pending, now) == if n <= e then e - n else 0
    ensures n >= Expired(s.pending, now) ==> Yields(s, now, n) == Yields(s, now, Expired(s.pending, now))
    decreases n
  {
    hide Yield, Expired;
    if n > 0 {
      YieldsDrainTheExpired(s, now, n - 1);
      YieldExpiresOne(Yields(s, now, n - 1), now);
    }
  }

  /** Exactly when a request is taken as expired, at a clock value not before it was sent, although its time has not
      passed: when the tick at which it should expire lies across the wrap of the tick counter, and then at once. The
      time of a request that asks for none is 8000. */
  lemma EarlyAcrossTheWrap(r: Request, now: nat)
    requires r.ticks <= now < TWO32 && r.timeout < TWO32
    ensures var last := r.ticks + if r.timeout == 0 then 8000 else r.timeout;
      && (now > r.Deadline() && now <= last <==> last >= TWO32)
      && (now > r.Deadline() <==> now > last || last >= TWO32)
  {
    var d := r.ticks + r.Wait();
    assert d >= TWO32 ==> d % TWO32 == d - TWO32;
  }

  /** A request times out only after its deadline. */
  lemma NoEarlyTimeout(s: State, ticks: nat -> nat, script: seq<Request>)
    ensures var (t, rt) := Yield(s, ticks, script);
      if rt == OPRT_TIMEOUT then
        exists i :: 0 <= i < |s.pending| && ticks(i) > s.pending[i].timeout
          && t.notices == s.notices + [Notice(s.pending[i].serial, s.pending[i].notify, TimedOut(ticks(i)))]
      else t == s && forall i :: 0 <= i < |s.pending| ==> ticks(i) <= s.pending[i].timeout
  {
    var i := FirstExpired(s.pending, ticks, 0);
    if i < |s.pending| {
      CompleteKeepsOrder(s, i, TimedOut(ticks(i)), script);
    }
  }
}
