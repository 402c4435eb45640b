/** Header assembly from parser callbacks: a field or a value may arrive in any number of adjacent pieces, and
    each complete pair is reported once. */
module HttpHeaders {

  /** A stretch of the response buffer: where it starts and how long it is. */
  datatype Span = Span(start: nat, length: nat)
  datatype Option<T> = None | Some(value: T)

  /** `field` and `value` are the pair being assembled, `log` the pairs reported to the application. */
  datatype State = State(field: Option<Span>, value: Option<Span>, log: seq<(Span, Span)>, count: nat, headers: Option<nat>, cur: nat)

  datatype Event = Field(piece: Span) | Value(piece: Span) | Complete

  /** processCompleteHeader */
  function ProcessComplete(s: State): State {
    if s.field.Some? && s.value.Some? then
      s.(log := s.log + [(s.field.value, s.value.value)], count := s.count + 1, field := None, value := None)
    else s
  }

  function Longer(o: Option<Span>, piece: Span): Option<Span> {
    match o
    case None => Some(piece)
    case Some(w) => Some(Span(w.start, w.length + piece.length))
  }

  function Step(s: State, e: Event): State {
    match e
    case Field(p) =>
      var t := ProcessComplete(s.(headers := if s.headers.None? then Some(p.start) else s.headers, cur := p.start + p.length));
      t.(field := Longer(t.field, p))
    case Value(p) => s.(cur := p.start + p.length, value := Longer(s.value, p))
    case Complete => ProcessComplete(s)
  }

  function Run(s: State, events: seq<Event>): State {
    if events == [] then s else Step(Run(s, events[..|events| - 1]), events[|events| - 1])
  }

  lemma {:induction false} RunSplits(s: State, a: seq<Event>, b: seq<Event>)
    ensures Run(s, a + b) == Run(Run(s, a), b)
    decreases |b|
  {
    if b == [] {
      assert a + b == a;
    } else {
      assert (a + b)[..|a + b| - 1] == a + b[..|b| - 1];
      RunSplits(s, a, b[..|b| - 1]);
    }
  }

  // ---------- headers in pieces

  /** At least one piece, each starting where the one before it ends. */
  ghost predicate Adjacent(pieces: seq<Span>) {
    pieces != [] && forall i :: 0 < i < |pieces| ==> pieces[i].start == pieces[i - 1].start + pieces[i - 1].length
  }

  function TotalLength(pieces: seq<Span>): nat {
    if pieces == [] then 0 else TotalLength(pieces[..|pieces| - 1]) + pieces[|pieces| - 1].length
  }

  /** The stretch that adjacent pieces cover. */
  function Whole(pieces: seq<Span>): Span
    requires pieces != []
  {
    Span(pieces[0].start, TotalLength(pieces))
  }

  lemma LengthUnfolds(pieces: seq<Span>)
    requires pieces != []
    ensures var n := |pieces| - 1; TotalLength(pieces) == TotalLength(pieces[..n]) + pieces[n].length
  {
  }

  lemma LengthOfOne(w: Span)
    ensures TotalLength([w]) == w.length
  {
    assert [w][..0] == [];
    LengthUnfolds([w]);
  }

  lemma FrontIsAdjacent(pieces: seq<Span>)
    requires Adjacent(pieces) && |pieces| > 1
    ensures var n := |pieces| - 1; var front := pieces[..n];
      && Adjacent(front) && front[0] == pieces[0] && front[n - 1] == pieces[n - 1]
      && pieces[n].start == front[n - 1].start + front[n - 1].length
  {
    var n := |pieces| - 1;
    var front := pieces[..n];
    assert pieces[n].start == pieces[n - 1].start + pieces[n - 1].length;
    forall i | 0 < i < |front| ensures front[i].start == front[i - 1].start + front[i - 1].length {
      assert front[i] == pieces[i] && front[i - 1] == pieces[i - 1];
    }
  }

  lemma {:induction false} WholeEnds(pieces: seq<Span>)
    requires Adjacent(pieces)
    ensures var w, last := Whole(pieces), pieces[|pieces| - 1]; w.start + w.length == last.start + last.length
    decreases |pieces|
  {
    var n := |pieces| - 1;
    if n > 0 {
      FrontIsAdjacent(pieces);
      WholeEnds(pieces[..n]);
      LengthUnfolds(pieces);
    } else {
      assert pieces == [pieces[0]];
      LengthOfOne(pieces[0]);
    }
  }

  /** The stretch of all pieces is that of the front, made longer by the last. */
  lemma WholeGrows(pieces: seq<Span>)
    requires |pieces| > 1
    ensures var n := |pieces| - 1; var w := Whole(pieces[..n]); Whole(pieces) == Span(w.start, w.length + pieces[n].length)
  {
    LengthUnfolds(pieces);
    assert pieces[..|pieces| - 1][0] == pieces[0];
  }

  datatype Header = Header(field: seq<Span>, value: seq<Span>) {
    ghost predicate Valid() {
      Adjacent(field) && Adjacent(value)
    }
  }

  function FieldEvents(pieces: seq<Span>): seq<Event> {
    seq(|pieces|, i requires 0 <= i < |pieces| => Field(pieces[i]))
  }

  function ValueEvents(pieces: seq<Span>): seq<Event> {
    seq(|pieces|, i requires 0 <= i < |pieces| => Value(pieces[i]))
  }

  /** The callbacks for a header: its field's pieces, then its value's. */
  function EventsOf(h: Header): seq<Event> {
    FieldEvents(h.field) + ValueEvents(h.value)
  }

  function AllEvents(hs: seq<Header>): seq<Event> {
    if hs == [] then [] else AllEvents(hs[..|hs| - 1]) + EventsOf(hs[|hs| - 1])
  }

  /** The same headers with nothing split. */
  function Unsplit(h: Header): Header
    requires h.Valid()
  {
    Header([Whole(h.field)], [Whole(h.value)])
  }

  ghost predicate AllValid(hs: seq<Header>) {
    forall i :: 0 <= i < |hs| ==> hs[i].Valid()
  }

  function AllUnsplit(hs: seq<Header>): seq<Header>
    requires AllValid(hs)
  {
    seq(|hs|, i requires 0 <= i < |hs| => Unsplit(hs[i]))
  }

  function Pairs(hs: seq<Header>): seq<(Span, Span)>
    requires AllValid(hs)
  {
    seq(|hs|, i requires 0 <= i < |hs| => (Whole(hs[i].field), Whole(hs[i].value)))
  }

  /** Between headers: either nothing is being assembled, or a complete pair waits for the next callback. */
  predicate Between(s: State) {
    s.field.None? <==> s.value.None?
  }

  lemma RunOne(s: State, events: seq<Event>, e: Event)
    ensures Run(s, events + [e]) == Step(Run(s, events), e)
  {
    assert (events + [e])[..|events|] == events;
  }

  lemma RunOnlyOne(s: State, e: Event)
    ensures Run(s, [e]) == Step(s, e)
  {
    RunNothing(s);
    assert [] + [e] == [e];
    RunOne(s, [], e);
  }

  lemma FieldEventsGrow(pieces: seq<Span>)
    requires pieces != []
    ensures var n := |pieces| - 1; FieldEvents(pieces) == FieldEvents(pieces[..n]) + [Field(pieces[n])]
  {
  }

  lemma ValueEventsGrow(pieces: seq<Span>)
    requires pieces != []
    ensures var n := |pieces| - 1; ValueEvents(pieces) == ValueEvents(pieces[..n]) + [Value(pieces[n])]
  {
  }

  /** A field piece that goes on where the field so far ends makes it longer. */
  lemma FieldGrows(s: State, w: Span, p: Span)
    requires Between(s) && p.start == w.start + w.length
    ensures Step(Step(s, Field(w)), Field(p)) == Step(s, Field(Span(w.start, w.length + p.length)))
  {
  }

  lemma ValueGrows(s: State, w: Span, p: Span)
    requires s.value.None? && p.start == w.start + w.length
    ensures Step(Step(s, Value(w)), Value(p)) == Step(s, Value(Span(w.start, w.length + p.length)))
  {
  }

  lemma {:induction false} FieldPieces(s: State, pieces: seq<Span>)
    requires Between(s) && Adjacent(pieces)
    ensures Run(s, FieldEvents(pieces)) == Step(s, Field(Whole(pieces)))
    decreases |pieces|
  {
    hide Run, Step;
    var n := |pieces| - 1;
    if n == 0 {
      assert pieces == [pieces[0]] && FieldEvents(pieces) == [Field(pieces[0])];
      LengthOfOne(pieces[0]);
      RunOnlyOne(s, Field(pieces[0]));
    } else {
      var front := pieces[..n];
      FrontIsAdjacent(pieces);
      FieldPieces(s, front);
      WholeEnds(front);
      WholeGrows(pieces);
      hide FieldEvents, Whole;
      FieldEventsGrow(pieces);
      RunOne(s, FieldEvents(front), Field(pieces[n]));
      FieldGrows(s, Whole(front), pieces[n]);
    }
  }

  lemma {:induction false} ValuePieces(s: State, pieces: seq<Span>)
    requires s.value.None? && Adjacent(pieces)
    ensures Run(s, ValueEvents(pieces)) == Step(s, Value(Whole(pieces)))
    decreases |pieces|
  {
    hide Run, Step;
    var n := |pieces| - 1;
    if n == 0 {
      assert pieces == [pieces[0]] && ValueEvents(pieces) == [Value(pieces[0])];
      LengthOfOne(pieces[0]);
      RunOnlyOne(s, Value(pieces[0]));
    } else {
      var front := pieces[..n];
      FrontIsAdjacent(pieces);
      ValuePieces(s, front);
      WholeEnds(front);
      WholeGrows(pieces);
      hide ValueEvents, Whole;
      ValueEventsGrow(pieces);
      RunOne(s, ValueEvents(front), Value(pieces[n]));
      ValueGrows(s, Whole(front), pieces[n]);
    }
  }

  /** However a header is cut, it leaves the state that it leaves uncut: its pair waits, the pair before it is
      reported. */
  lemma OneHeader(s: State, h: Header)
    requires Between(s) && h.Valid()
    ensures var t := Run(s, EventsOf(h));
      && t == Run(s, EventsOf(Unsplit(h)))
      && t.field == Some(Whole(h.field)) && t.value == Some(Whole(h.value))
      && t.log == ProcessComplete(s).log && t.count == ProcessComplete(s).count
      && t.cur == Whole(h.value).start + Whole(h.value).length
      && t.headers == (if s.headers.None? then Some(h.field[0].start) else s.headers)
  {
    var f, v := [Whole(h.field)], [Whole(h.value)];
    hide Run, Whole, FieldEvents, ValueEvents;
    RunSplits(s, FieldEvents(h.field), ValueEvents(h.value));
    FieldPieces(s, h.field);
    ValuePieces(Step(s, Field(Whole(h.field))), h.value);
    RunSplits(s, FieldEvents(f), ValueEvents(v));
    FieldPieces(s, f);
    WholeOfOne(Whole(h.field));
    WholeOfOne(Whole(h.value));
    ValuePieces(Step(s, Field(Whole(h.field))), v);
    WholeStarts(h.field);
  }

  lemma WholeOfOne(w: Span)
    ensures Whole([w]) == w
  {
    LengthOfOne(w);
  }

  lemma WholeStarts(pieces: seq<Span>)
    requires pieces != []
    ensures Whole(pieces).start == pieces[0].start
  {
  }

  /** After the headers so far: all pairs but the last are reported, the last one waits. */
  lemma {:induction false} HeadersSoFar(s: State, hs: seq<Header>)
    requires s.field.None? && s.value.None? && AllValid(hs)
    ensures var t := Run(s, AllEvents(hs));
      Between(t) && ProcessComplete(t).log == s.log + Pairs(hs) && ProcessComplete(t).count == s.count + |hs|
    ensures Run(s, AllEvents(AllUnsplit(hs))) == Run(s, AllEvents(hs))
  {
    hide Run, Whole, EventsOf;
    if hs == [] {
      RunNothing(s);
      assert AllUnsplit(hs) == [];
    } else {
      var front, h := hs[..|hs| - 1], hs[|hs| - 1];
      HeadersSoFar(s, front);
      RunSplits(s, AllEvents(front), EventsOf(h));
      OneHeader(Run(s, AllEvents(front)), h);
      assert AllUnsplit(hs)[..|hs| - 1] == AllUnsplit(front);
      RunSplits(s, AllEvents(AllUnsplit(front)), EventsOf(Unsplit(h)));
      assert Pairs(hs) == Pairs(front) + [(Whole(h.field), Whole(h.value))];
    }
  }

  lemma RunNothing(s: State)
    ensures Run(s, []) == s
  {
  }

  /** Fragmentation does not matter: however each field and value of a header list is cut into adjacent pieces,
      the whole run, to the end of the headers, reports the same pairs in the same order, counts them, and ends in
      the same state as the run with nothing cut. */
  lemma FragmentationInvariance(s: State, hs: seq<Header>)
    requires s.field.None? && s.value.None? && AllValid(hs)
    ensures var t := Run(s, AllEvents(hs) + [Complete]);
      && t == Run(s, AllEvents(AllUnsplit(hs)) + [Complete])
      && t.log == s.log + Pairs(hs) && t.count == s.count + |hs| && t.field.None? && t.value.None?
  {
    HeadersSoFar(s, hs);
    RunOne(s, AllEvents(hs), Complete);
    RunOne(s, AllEvents(AllUnsplit(hs)), Complete);
  }

  // ---------- the callbacks

  const CONTINUE_PARSING := 0
  const STOP_PARSING := 1

  class ParsingContext {
    var lastHeaderField: Option<nat>
    var lastHeaderFieldLen: nat
    var lastHeaderValue: Option<nat>
    var lastHeaderValueLen: nat
    var bufferCur: nat
    var headers: Option<nat>
    var headersLen: nat
    var headerCount: nat
    var statusCode: nat
    var isHeadResponse: bool
    var reported: seq<(Span, Span)>

    constructor (isHeadResponse: bool)
      ensures Abstract() == State(None, None, [], 0, None, 0) && this.isHeadResponse == isHeadResponse && headersLen == 0
    {
      lastHeaderField, lastHeaderFieldLen, lastHeaderValue, lastHeaderValueLen := None, 0, None, 0;
      bufferCur, headers, headersLen, headerCount, statusCode := 0, None, 0, 0, 0;
      this.isHeadResponse, reported := isHeadResponse, [];
    }

    ghost function Abstract(): State
      reads this
    {
      State(if lastHeaderField.None? then None else Some(Span(lastHeaderField.value, lastHeaderFieldLen)),
            if lastHeaderValue.None? then None else Some(Span(lastHeaderValue.value, lastHeaderValueLen)),
            reported, headerCount, headers, bufferCur)
    }

    method ProcessCompleteHeader()
      modifies this
      ensures Abstract() == ProcessComplete(old(Abstract())) && isHeadResponse == old(isHeadResponse) && headersLen == old(headersLen)
    {
      if lastHeaderField.Some? && lastHeaderValue.Some? {
        headerCount := headerCount + 1;
        reported := reported + [(Span(lastHeaderField.value, lastHeaderFieldLen), Span(lastHeaderValue.value, lastHeaderValueLen))];
        lastHeaderField, lastHeaderFieldLen, lastHeaderValue, lastHeaderValueLen := None, 0, None, 0;
      }
    }

    /** httpParserOnStatusCallback */
    method OnStatus(loc: nat, length: nat, status: nat) returns (r: int)
      modifies this
      ensures r == CONTINUE_PARSING && statusCode == status % 0x1_0000
      ensures Abstract() == old(Abstract()).(field := None, value := None, cur := loc + length)
    {
      bufferCur := loc + length;
      lastHeaderField, lastHeaderFieldLen, lastHeaderValue, lastHeaderValueLen := None, 0, None, 0;
      statusCode := status % 0x1_0000;
      r := CONTINUE_PARSING;
    }

    /** httpParserOnHeaderFieldCallback */
    method OnHeaderField(loc: nat, length: nat) returns (r: int)
      modifies this
      ensures r == CONTINUE_PARSING && Abstract() == Step(old(Abstract()), Field(Span(loc, length)))
    {
      if headers.None? {
        headers := Some(loc);
      }
      bufferCur := loc + length;
      ProcessCompleteHeader();
      if lastHeaderField.None? {
        lastHeaderField, lastHeaderFieldLen := Some(loc), length;
      } else {
        lastHeaderFieldLen := lastHeaderFieldLen + length;
      }
      r := CONTINUE_PARSING;
    }

    /** httpParserOnHeaderValueCallback */
    method OnHeaderValue(loc: nat, length: nat) returns (r: int)
      requires lastHeaderField.Some?
      modifies this
      ensures r == CONTINUE_PARSING && Abstract() == Step(old(Abstract()), Value(Span(loc, length)))
    {
      bufferCur := loc + length;
      if lastHeaderValue.None? {
        lastHeaderValue, lastHeaderValueLen := Some(loc), length;
      } else {
        lastHeaderValueLen := lastHeaderValueLen + length;
      }
      r := CONTINUE_PARSING;
    }

    /** httpParserOnHeadersCompleteCallback: a response to HEAD stops the parser here. */
    method OnHeadersComplete() returns (r: int)
      requires headers.Some? ==> headers.value < bufferCur
      modifies this
      ensures r == if old(isHeadResponse) then STOP_PARSING else CONTINUE_PARSING
      ensures Abstract() == Step(old(Abstract()), Complete)
      ensures headersLen == if headers.Some? then bufferCur - headers.value else 0
    {
      headersLen := if headers.Some? then bufferCur - headers.value else 0;
      r := if isHeadResponse then STOP_PARSING else CONTINUE_PARSING;
      ProcessCompleteHeader();
    }
  }
}
