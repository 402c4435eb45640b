/** Requests and their times, over every run: each entry of the table is the request that was made, and expires when that
    request's time has passed. */
module MatopTimes {
  import opened MatopRuns

  // ---------- the requests of a run

  /** The callback's requests, if entry `i` is there and has a callback. */
  function ByCallback(s: State, i: nat, script: seq<Request>): seq<Request> {
    if i < |s.pending| && s.pending[i].notify then script else []
  }

  /** The requests that an event makes, in order. */
  function Made(s: State, e: Event): seq<Request> {
    match e
    case Requested(r) => [r]
    case Answered(reply, script) => if reply.Reply? then ByCallback(s, Find(s.pending, reply.id % 0x1_0000), script) else []
    case RawAnswered(input, script) => if |input| >= 4 then ByCallback(s, Find(s.pending, RawId(input)), script) else []
    case Yielded(ticks, script) => ByCallback(s, FirstExpired(s.pending, ticks, 0), script)
  }

  /** All requests of a run, in the order of their calls. */
  function Requests(events: seq<Event>): seq<Request> {
    if events == [] then []
    else
      var front := events[..|events| - 1];
      Requests(front) + Made(Run(front), events[|events| - 1])
  }

  /** The tick behind which a request has waited long enough. */
  function LastTick(r: Request): nat {
    r.ticks + if r.timeout == 0 then 8000 else r.timeout
  }

  /** An entry is the request of its number. */
  predicate IsRequest(p: Pending, asked: seq<Request>) {
    && 0 < p.serial <= |asked|
    && var r := asked[p.serial - 1]; r.published && p.timeout == LastTick(r) % TWO32 && p.notify == r.notify
  }

  /** A notice is to the request of its number, and if it timed out, it did so late enough. */
  predicate IsFor(n: Notice, asked: seq<Request>) {
    && 0 < n.serial <= |asked|
    && var r := asked[n.serial - 1];
      r.published && n.called == r.notify && (n.reason.TimedOut? ==> n.reason.ticks > LastTick(r) % TWO32)
  }

  ghost predicate Remembers(s: State, asked: seq<Request>) {
    && |asked| == s.calls
    && (forall i :: 0 <= i < |s.pending| ==> IsRequest(s.pending[i], asked))
    && (forall i :: 0 <= i < |s.notices| ==> IsFor(s.notices[i], asked))
  }

  lemma Longer(s: State, asked: seq<Request>, more: seq<Request>)
    requires Remembers(s, asked)
    ensures forall i :: 0 <= i < |s.pending| ==> IsRequest(s.pending[i], asked + more)
    ensures forall i :: 0 <= i < |s.notices| ==> IsFor(s.notices[i], asked + more)
  {
    forall i | 0 <= i < |s.pending| ensures IsRequest(s.pending[i], asked + more) {
      assert IsRequest(s.pending[i], asked);
    }
    forall i | 0 <= i < |s.notices| ensures IsFor(s.notices[i], asked + more) {
      assert IsFor(s.notices[i], asked);
    }
  }

  lemma SendRemembers(s: State, asked: seq<Request>, r: Request)
    requires Remembers(s, asked)
    ensures Remembers(Send(s, r), asked + [r])
  {
    Longer(s, asked, [r]);
    var t := Send(s, r);
    assert r.published ==> IsRequest(Pending(s.calls + 1, r.Deadline(), r.notify), asked + [r]);
    hide IsRequest, IsFor;
  }

  lemma {:induction false} SendAllRemembers(s: State, asked: seq<Request>, script: seq<Request>)
    requires Remembers(s, asked)
    ensures Remembers(SendAll(s, script), asked + script)
  {
    hide Remembers, Send;
    if script == [] {
      assert asked + script == asked;
    } else {
      var n := |script| - 1;
      SendAllRemembers(s, asked, script[..n]);
      SendRemembers(SendAll(s, script[..n]), asked + script[..n], script[n]);
      assert asked + script == asked + script[..n] + [script[n]];
    }
  }

  lemma CompleteRemembers(s: State, asked: seq<Request>, i: nat, reason: Reason, script: seq<Request>)
    requires Remembers(s, asked) && i < |s.pending| && (reason.TimedOut? ==> reason.ticks > s.pending[i].timeout)
    ensures Remembers(Complete(s, i, reason, script), asked + ByCallback(s, i, script))
  {
    hide SendAll;
    var n := Notice(s.pending[i].serial, s.pending[i].notify, reason);
    var u := s.(notices := s.notices + [n]);
    assert IsRequest(s.pending[i], asked);
    assert IsFor(n, asked);
    assert Remembers(u, asked) by { hide IsFor, IsRequest; }
    SendAllRemembers(u, asked, script);
    assert asked + [] == asked;
    var t := Noticed(s, i, reason, script);
    SendAllAppends(u, script);
    assert Remembers(t, asked + ByCallback(s, i, script));
    Shorter(t, asked + ByCallback(s, i, script), i);
  }

  lemma Shorter(s: State, asked: seq<Request>, i: nat)
    requires Remembers(s, asked) && i < |s.pending|
    ensures Remembers(s.(pending := s.pending[..i] + s.pending[i + 1..]), asked)
  {
    hide IsFor, IsRequest;
    var rest := s.pending[..i] + s.pending[i + 1..];
    assert forall j :: 0 <= j < |rest| ==> rest[j] == s.pending[if j < i then j else j + 1];
  }

  lemma NextRemembers(s: State, asked: seq<Request>, e: Event)
    requires Remembers(s, asked)
    ensures Remembers(Next(s, e), asked + Made(s, e))
  {
    hide Remembers, Complete, Send, Find, FirstExpired;
    assert asked + [] == asked;
    match e
    case Requested(r) => SendRemembers(s, asked, r);
    case Answered(Reply(id, success), script) =>
      var i := Find(s.pending, id % 0x1_0000);
      if i < |s.pending| {
        CompleteRemembers(s, asked, i, Replied(id % 0x1_0000, success), script);
      }
    case Answered(_, _) =>
    case RawAnswered(input, script) =>
      if |input| >= 4 {
        var i := Find(s.pending, RawId(input));
        if i < |s.pending| {
          CompleteRemembers(s, asked, i, RawReplied(RawId(input)), script);
        }
      }
    case Yielded(ticks, script) =>
      var i := FirstExpired(s.pending, ticks, 0);
      if i < |s.pending| {
        CompleteRemembers(s, asked, i, TimedOut(ticks(i)), script);
      }
  }

  /** In every run, each entry of the table is a published request, under the number of its call, with the tick at which
      that request expires and its callback; each notice is to such a request, and a timeout comes after its tick. */
  lemma {:induction false} EntriesAreRequests(events: seq<Event>)
    ensures Remembers(Run(events), Requests(events))
  {
    hide Remembers, Next, Made;
    if events == [] {
      NothingYet();
    } else {
      EntriesAreRequests(events[..|events| - 1]);
      NextRemembers(Run(events[..|events| - 1]), Requests(events[..|events| - 1]), events[|events| - 1]);
    }
  }

  lemma NothingYet()
    ensures Remembers(EMPTY, [])
  {
  }

  // ---------- when requests time out

  /** Off the wrap, the entry of a request expires right behind the time that the request asked for. */
  lemma DeadlineAsAsked(s: State, r: Request)
    requires r.published && r.ticks + r.timeout + 8000 < TWO32
    ensures Send(s, r).pending
      == s.pending + [Pending(s.calls + 1, r.ticks + (if r.timeout == 0 then 8000 else r.timeout), r.notify)]
  {
  }

  /** The request that entry `i` of a run's table stands for. */
  function RequestOf(events: seq<Event>, i: nat): Request
    requires i < |Run(events).pending|
  {
    EntriesAreRequests(events);
    assert IsRequest(Run(events).pending[i], Requests(events));
    Requests(events)[Run(events).pending[i].serial - 1]
  }

  /** After every run, at every clock value: while no pending request's time crosses the wrap, a yield times out exactly
      when some pending request has waited longer than it asked for, or than 8000 ticks if it asked for no time. */
  lemma YieldTimesOutExactly(events: seq<Event>, now: nat, script: seq<Request>)
    requires forall i :: 0 <= i < |Run(events).pending| ==> LastTick(RequestOf(events, i)) < TWO32
    ensures Yield(Run(events), _ => now, script).1 == OPRT_TIMEOUT
      <==> exists i :: 0 <= i < |Run(events).pending| && now > LastTick(RequestOf(events, i))
  {
    EntriesAreRequests(events);
    var s := Run(events);
    hide Run, Requests, Complete;
    forall i | 0 <= i < |s.pending| ensures s.pending[i].timeout == LastTick(RequestOf(events, i)) {
      assert IsRequest(s.pending[i], Requests(events));
    }
    var i := FirstExpired(s.pending, _ => now, 0);
  }

  /** A request alone in the table after any run: a yield times it out exactly behind the time it asked for. */
  lemma AloneTimesOutExactly(events: seq<Event>, now: nat, script: seq<Request>)
    requires |Run(events).pending| == 1
    requires var r := RequestOf(events, 0); r.ticks + (if r.timeout == 0 then 8000 else r.timeout) < TWO32
    ensures var r := RequestOf(events, 0);
      Yield(Run(events), _ => now, script).1 == OPRT_TIMEOUT <==> now > r.ticks + (if r.timeout == 0 then 8000 else r.timeout)
  {
    hide Run, RequestOf, Yield;
    YieldTimesOutExactly(events, now, script);
    if now > LastTick(RequestOf(events, 0)) {
      assert 0 < |Run(events).pending|;
    }
  }

  /** The time that a firmware query asks for: not timed out at tick 10000, but at the next. */
  lemma QueryWaitsTenSeconds(now: nat)
    ensures var s := Run([Requested(Request(10000, true, 0, true))]);
      Yield(s, _ => now, []).1 == OPRT_TIMEOUT <==> now > 10000
  {
    var events := [Requested(Request(10000, true, 0, true))];
    assert events[..0] == [];
    assert Run(events).pending == [Pending(1, 10000, true)];
  }

  // ---------- ids on the wire

  /** The first request has id 1, and a reply with that id completes it. */
  lemma FirstIdIsOne(r: Request, ok: bool)
    requires r.published
    ensures Run([Requested(r)]).pending[0].Id() == 1
    ensures Run([Requested(r), Answered(Reply(1, ok), [])]).notices == [Notice(1, r.notify, Replied(1, ok))]
  {
    var events := [Requested(r), Answered(Reply(1, ok), [])];
    assert events[..1] == [Requested(r)] && [Requested(r)][..0] == [];
    assert Run([Requested(r)]) == Send(EMPTY, r);
  }

  /** The raw reply's id is read from its first four bytes, high byte first. */
  lemma RawIdIsBigEndian(id: nat, data: seq<bv8>)
    requires |data| >= 4 && data[0] as nat == id / 0x100_0000 && data[1] as nat == id / 0x1_0000 % 0x100
    requires data[2] as nat == id / 0x100 % 0x100 && data[3] as nat == id % 0x100
    ensures RawId(data) == id
  {
    FourDigits(id / 0x100_0000, id / 0x1_0000, id / 0x100, id);
  }

  lemma FourDigits(a: nat, b: nat, c: nat, d: nat)
    requires c == d / 0x100 && b == d / 0x1_0000 && a == d / 0x100_0000
    ensures 0x100_0000 * a + 0x1_0000 * (b % 0x100) + 0x100 * (c % 0x100) + d % 0x100 == d
  {
    assert d == 0x100 * c + d % 0x100;
    assert b == c / 0x100 && c == 0x100 * b + c % 0x100;
    assert a == b / 0x100 && b == 0x100 * a + b % 0x100;
  }
}
