/** Body assembly: the body of a chunked response is compacted in place, over the chunk headers between its
    parts, while the parser goes on reading behind it. */
module HttpBody {

  /** `arrived` is what the network put into the buffer, as it came; `joined` the body parts as they came; `cur` is
      the parse position. */
  datatype State = State(buffer: seq<bv8>, started: bool, body: nat, bodyLen: nat, cur: nat, arrived: seq<bv8>, joined: seq<bv8>)

  datatype Event = Arrived(at: nat, data: seq<bv8>) | Part(loc: nat, length: nat)

  function Overwrite(b: seq<bv8>, at: nat, data: seq<bv8>): (r: seq<bv8>)
    requires at + |data| <= |b|
    ensures |r| == |b|
  {
    b[..at] + (data + b[at + |data|..])
  }

  /** The parser's promise: body parts lie in the buffer, at or behind the parse position; the network writes
      there too. */
  predicate Enabled(s: State, e: Event) {
    |s.buffer| == |s.arrived| &&
    match e
    case Arrived(at, data) => s.cur <= at && at + |data| <= |s.buffer|
    case Part(loc, length) => s.cur <= loc && loc + length <= |s.buffer|
  }

  /** httpParserOnBodyCallback, and a read from the network. */
  function Step(s: State, e: Event): State
    requires Enabled(s, e)
  {
    match e
    case Arrived(at, data) => s.(buffer := Overwrite(s.buffer, at, data), arrived := Overwrite(s.arrived, at, data))
    case Part(loc, length) =>
      var t := if s.started then s else s.(started := true, body := loc, bodyLen := 0);
      var write := t.body + t.bodyLen;
      var moved := if loc > write then Overwrite(t.buffer, write, t.buffer[loc..loc + length]) else t.buffer;
      t.(buffer := moved, bodyLen := t.bodyLen + length, cur := loc + length, joined := t.joined + s.arrived[loc..loc + length])
  }

  /** What holds between callbacks: the body so far stands before the parse position and is the parts as they
      came; nothing at or behind the parse position has been changed. */
  predicate Assembled(s: State) {
    && |s.buffer| == |s.arrived| && s.cur <= |s.buffer|
    && s.buffer[s.cur..] == s.arrived[s.cur..]
    && (s.started ==> s.body + s.bodyLen <= s.cur && s.buffer[s.body..s.body + s.bodyLen] == s.joined)
    && (!s.started ==> s.joined == [])
  }

  lemma SliceOfPrefix(b: seq<bv8>, n: nat, i: nat, j: nat)
    requires i <= j <= n <= |b|
    ensures b[..n][i..j] == b[i..j]
  {
  }

  lemma SuffixOfSuffix(b: seq<bv8>, n: nat, i: nat)
    requires n <= i <= |b|
    ensures b[n..][i - n..] == b[i..]
  {
  }

  lemma OverwriteParts(b: seq<bv8>, at: nat, data: seq<bv8>)
    requires at + |data| <= |b|
    ensures var r := Overwrite(b, at, data); r[..at] == b[..at] && r[at..at + |data|] == data && r[at + |data|..] == b[at + |data|..]
  {
  }

  /** What lies outside the overwritten stretch is as it was. */
  lemma OverwriteOutside(b: seq<bv8>, at: nat, data: seq<bv8>, i: nat, j: nat)
    requires at + |data| <= |b| && i <= j
    ensures j <= at ==> Overwrite(b, at, data)[i..j] == b[i..j]
    ensures at + |data| <= i <= |b| ==> Overwrite(b, at, data)[i..] == b[i..]
  {
    var r := Overwrite(b, at, data);
    OverwriteParts(b, at, data);
    hide Overwrite;
    if j <= at {
      SliceOfPrefix(r, at, i, j);
      SliceOfPrefix(b, at, i, j);
    }
    if at + |data| <= i <= |b| {
      SuffixOfSuffix(r, at + |data|, i);
      SuffixOfSuffix(b, at + |data|, i);
    }
  }

  lemma ArrivalKeeps(s: State, at: nat, data: seq<bv8>)
    requires Assembled(s) && Enabled(s, Arrived(at, data))
    ensures Assembled(Step(s, Arrived(at, data)))
  {
    OverwriteParts(s.buffer, at, data);
    OverwriteParts(s.arrived, at, data);
    hide Overwrite;
    var b, a := Overwrite(s.buffer, at, data), Overwrite(s.arrived, at, data);
    TailAfter(s.buffer, b, s.cur, at, data);
    TailAfter(s.arrived, a, s.cur, at, data);
    SameTail(s.buffer, s.arrived, s.cur, at);
    SameTail(s.buffer, s.arrived, s.cur, at + |data|);
    assert s.buffer[s.cur..at] == s.arrived[s.cur..at];
  }

  lemma TailAfter(b: seq<bv8>, r: seq<bv8>, cur: nat, at: nat, data: seq<bv8>)
    requires cur <= at && at + |data| <= |b| == |r|
    requires r[..at] == b[..at] && r[at..at + |data|] == data && r[at + |data|..] == b[at + |data|..]
    ensures r[cur..] == b[cur..at] + (data + b[at + |data|..])
  {
    assert r[cur..at] == r[..at][cur..at] && b[cur..at] == b[..at][cur..at];
    assert r[cur..] == r[cur..at] + (r[at..at + |data|] + r[at + |data|..]);
  }

  lemma SameTail(b: seq<bv8>, a: seq<bv8>, cur: nat, i: nat)
    requires cur <= i <= |b| == |a| && b[cur..] == a[cur..]
    ensures b[i..] == a[i..] && b[cur..i] == a[cur..i]
  {
    assert b[i..] == b[cur..][i - cur..] && a[i..] == a[cur..][i - cur..];
    assert b[cur..i] == b[cur..][..i - cur] && a[cur..i] == a[cur..][..i - cur];
  }

  /** A part behind the body moves up to the body's end, whether or not the two places overlap. */
  lemma Compacted(b: seq<bv8>, body: nat, write: nat, loc: nat, length: nat)
    requires body <= write <= loc && loc + length <= |b|
    ensures var part := b[loc..loc + length]; var r := if loc > write then Overwrite(b, write, part) else b;
      r[body..write + length] == b[body..write] + part && r[loc + length..] == b[loc + length..]
  {
    var part := b[loc..loc + length];
    if loc > write {
      OverwriteParts(b, write, part);
      OverwriteOutside(b, write, part, body, write);
      OverwriteOutside(b, write, part, loc + length, |b|);
      var r := Overwrite(b, write, part);
      hide Overwrite;
      assert r[body..write + length] == r[body..write] + r[write..write + length];
    } else {
      assert b[body..write + length] == b[body..write] + b[write..write + length];
    }
  }

  lemma PartAsItCame(s: State, loc: nat, length: nat)
    requires Assembled(s) && Enabled(s, Part(loc, length))
    ensures s.buffer[loc..loc + length] == s.arrived[loc..loc + length]
    ensures s.buffer[loc + length..] == s.arrived[loc + length..]
  {
    SameTail(s.buffer, s.arrived, s.cur, loc);
    SameTail(s.buffer, s.arrived, loc, loc + length);
  }

  lemma FirstPart(s: State, loc: nat, length: nat)
    requires Assembled(s) && Enabled(s, Part(loc, length)) && !s.started
    ensures Assembled(Step(s, Part(loc, length)))
  {
    PartAsItCame(s, loc, length);
    var part := s.arrived[loc..loc + length];
    assert [] + part == part;
  }

  lemma LaterPart(s: State, loc: nat, length: nat)
    requires Assembled(s) && Enabled(s, Part(loc, length)) && s.started
    ensures Assembled(Step(s, Part(loc, length)))
  {
    hide Overwrite;
    PartAsItCame(s, loc, length);
    var b, write := s.buffer, s.body + s.bodyLen;
    Compacted(b, s.body, write, loc, length);
    var r := if loc > write then Overwrite(b, write, b[loc..loc + length]) else b;
    var t := Step(s, Part(loc, length));
    assert t == s.(buffer := r, bodyLen := s.bodyLen + length, cur := loc + length,
                   joined := s.joined + s.arrived[loc..loc + length]);
    assert r[s.body..write + length] == s.joined + s.arrived[loc..loc + length];
  }

  lemma PartKeeps(s: State, loc: nat, length: nat)
    requires Assembled(s) && Enabled(s, Part(loc, length))
    ensures Assembled(Step(s, Part(loc, length)))
    ensures s.buffer[loc..loc + length] == s.arrived[loc..loc + length]
  {
    PartAsItCame(s, loc, length);
    if s.started {
      LaterPart(s, loc, length);
    } else {
      FirstPart(s, loc, length);
    }
    hide Assembled, Step;
  }

  lemma StepKeeps(s: State, e: Event)
    requires Assembled(s) && Enabled(s, e)
    ensures Assembled(Step(s, e))
  {
    match e
    case Arrived(at, data) => ArrivalKeeps(s, at, data);
    case Part(loc, length) => PartKeeps(s, loc, length);
  }

  function Run(s: State, events: seq<Event>): (t: State)
    requires AllEnabled(s, events)
    decreases |events|
  {
    if events == [] then s else Run(Step(s, events[0]), events[1..])
  }

  predicate AllEnabled(s: State, events: seq<Event>)
    decreases |events|
  {
    events == [] || (Enabled(s, events[0]) && AllEnabled(Step(s, events[0]), events[1..]))
  }

  /** The body parts of a run, cut from the bytes as they came. */
  function PartsOf(arrived: seq<bv8>, events: seq<Event>): seq<bv8>
    requires PartsInside(arrived, events)
    decreases |events|
  {
    if events == [] then []
    else
      match events[0]
      case Arrived(at, data) => PartsOf(Overwrite(arrived, at, data), events[1..])
      case Part(loc, length) => arrived[loc..loc + length] + PartsOf(arrived, events[1..])
  }

  predicate PartsInside(arrived: seq<bv8>, events: seq<Event>)
    decreases |events|
  {
    events == [] ||
    match events[0]
    case Arrived(at, data) => at + |data| <= |arrived| && PartsInside(Overwrite(arrived, at, data), events[1..])
    case Part(loc, length) => loc + length <= |arrived| && PartsInside(arrived, events[1..])
  }

  /** For any run of network reads and body callbacks at increasing positions: the body is the parts of the
      arrived bytes, joined, and no byte at or behind the parse position has changed. */
  lemma {:induction false} EveryRunAssembles(s: State, events: seq<Event>)
    requires Assembled(s) && AllEnabled(s, events)
    ensures var t := Run(s, events);
      && Assembled(t) && PartsInside(s.arrived, events) && t.joined == s.joined + PartsOf(s.arrived, events)
    decreases |events|
  {
    if events == [] {
      assert s.joined + [] == s.joined;
    } else {
      StepKeeps(s, events[0]);
      StepJoins(s, events[0]);
      var t := Step(s, events[0]);
      hide Assembled, Step, Enabled;
      EveryRunAssembles(t, events[1..]);
      if events[0].Part? {
        var part := s.arrived[events[0].loc..events[0].loc + events[0].length];
        Regroup(s.joined, part, PartsOf(s.arrived, events[1..]));
      }
    }
  }

  lemma Regroup(a: seq<bv8>, b: seq<bv8>, c: seq<bv8>)
    ensures (a + b) + c == a + (b + c)
  {
  }

  lemma StepJoins(s: State, e: Event)
    requires Enabled(s, e)
    ensures e.Arrived? ==> e.at + |e.data| <= |s.arrived|
    ensures e.Arrived? ==> Step(s, e).joined == s.joined && Step(s, e).arrived == Overwrite(s.arrived, e.at, e.data)
    ensures e.Part? ==> e.loc + e.length <= |s.arrived| && Step(s, e).arrived == s.arrived
    ensures e.Part? ==> Step(s, e).joined == s.joined + s.arrived[e.loc..e.loc + e.length]
  {
  }

  /** From a buffer with no body yet: the body that the application is given is the joined parts. */
  lemma BodyIsTheJoinedParts(buffer: seq<bv8>, cur: nat, events: seq<Event>)
    requires cur <= |buffer| && AllEnabled(State(buffer, false, 0, 0, cur, buffer, []), events)
    ensures var t := Run(State(buffer, false, 0, 0, cur, buffer, []), events);
      && PartsInside(buffer, events) && t.joined == PartsOf(buffer, events)
      && |t.buffer| == |t.arrived| && t.cur <= |t.buffer| && t.buffer[t.cur..] == t.arrived[t.cur..]
      && (t.started ==> t.body + t.bodyLen <= t.cur && t.buffer[t.body..t.body + t.bodyLen] == PartsOf(buffer, events))
  {
    EveryRunAssembles(State(buffer, false, 0, 0, cur, buffer, []), events);
  }

  // ---------- the callback in place

  class Response {
    const buffer: array<bv8>
    var body: int
    var bodyLen: nat
    var bufferCur: nat
    ghost var state: State

    /** pBody is null: -1 here. */
    constructor (size: nat, cur: nat)
      requires cur <= size
      ensures Valid() && state == State(buffer[..], false, 0, 0, cur, buffer[..], []) && fresh(buffer) && buffer.Length == size
    {
      buffer := new bv8[size];
      body, bodyLen, bufferCur := -1, 0, cur;
      new;
      state := State(buffer[..], false, 0, 0, cur, buffer[..], []);
    }

    ghost predicate Valid()
      reads this, buffer
    {
      && buffer[..] == state.buffer && bufferCur == state.cur && Assembled(state)
      && (if state.started then body == state.body && bodyLen == state.bodyLen else body == -1)
    }

    /** memmove within the buffer. */
    method MemMove(dest: nat, source: nat, length: nat)
      requires dest + length <= buffer.Length && source + length <= buffer.Length
      modifies buffer
      ensures buffer[..] == Overwrite(old(buffer[..]), dest, old(buffer[source..source + length]))
    {
      forall i | 0 <= i < length { buffer[dest + i] := buffer[source + i]; }
      assert buffer[..] == Overwrite(old(buffer[..]), dest, old(buffer[source..source + length]));
    }

    /** pBody[0..bodyLen) */
    ghost function Contents(): seq<bv8>
      requires Valid()
      reads this, buffer
    {
      if body < 0 then [] else buffer[..][body..body + bodyLen]
    }

    lemma ContentsAreTheParts()
      requires Valid()
      ensures Contents() == state.joined
    {
    }

    /** httpParserOnBodyCallback: the body grows by the part, wherever its bytes stood. */
    method OnBody(loc: nat, length: nat)
      requires Valid() && Enabled(state, Part(loc, length))
      modifies this, buffer
      ensures Valid() && state == Step(old(state), Part(loc, length))
      ensures body >= 0 && Contents() == old(Contents()) + old(buffer[loc..loc + length])
    {
      hide Overwrite, Assembled;
      BeforePart(loc, length);
      ContentsAreTheParts();
      PartKeeps(state, loc, length);
      if body < 0 {
        body, bodyLen := loc, 0;
      }
      var write := body + bodyLen;
      if loc > write {
        MemMove(write, loc, length);
      }
      bodyLen := bodyLen + length;
      bufferCur := loc + length;
      state := Step(state, Part(loc, length));
      ContentsAreTheParts();
    }

    lemma BeforePart(loc: nat, length: nat)
      requires Valid() && Enabled(state, Part(loc, length))
      ensures body >= 0 ==> body + bodyLen <= loc
      ensures buffer[..][loc..loc + length] == buffer[loc..loc + length]
    {
    }

    /** The next read from the network, behind the parse position. */
    method Receive(at: nat, data: seq<bv8>)
      requires Valid() && Enabled(state, Arrived(at, data))
      modifies this`state, buffer
      ensures Valid() && state == Step(old(state), Arrived(at, data))
    {
      ArrivalKeeps(state, at, data);
      forall i | 0 <= i < |data| { buffer[at + i] := data[i]; }
      assert buffer[..] == Overwrite(old(buffer[..]), at, data);
      state := Step(state, Arrived(at, data));
    }
  }
}
