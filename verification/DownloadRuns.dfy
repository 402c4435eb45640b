/** Properties of every run of the downloader: what starts and stops keep and break, which data is reported, when a
    run ends, and what the failure counter counts. */
module DownloadRuns {
  import opened FileDownload

  // ---------- what is reported

  /** The data notices of a log, in order. */
  function DataOf(log: seq<Notice>): seq<Notice> {
    if log == [] then []
    else
      var front := DataOf(log[..|log| - 1]);
      if log[|log| - 1].Data? then front + [log[|log| - 1]] else front
  }

  /** Each data notice starts where the one before it ends, the first at 0, and they end at `n`; and each brings the
      bytes of its own place in the file. */
  predicate Tiles(d: seq<Notice>, n: nat) {
    if d == [] then n == 0
    else
      var last := d[|d| - 1];
      && last.Data? && last.length > 0 && last.offset + last.length == n && last.from == last.offset
      && Tiles(d[..|d| - 1], last.offset)
  }

  predicate Right(s: State) {
    Tiles(DataOf(s.log), s.received)
  }

  lemma DataOfAppend(log: seq<Notice>, n: Notice)
    ensures DataOf(log + [n]) == if n.Data? then DataOf(log) + [n] else DataOf(log)
  {
    assert (log + [n])[..|log|] == log;
  }

  lemma TilesAppend(d: seq<Notice>, n: nat, length: nat)
    requires Tiles(d, n) && length > 0
    ensures Tiles(d + [Data(n, length, n)], n + length)
  {
    assert (d + [Data(n, length, n)])[..|d|] == d;
  }

  lemma WrongBytes(d: seq<Notice>, n: nat, offset: nat, length: nat, from: nat)
    requires from != offset
    ensures !Tiles(d + [Data(offset, length, from)], n)
  {
    assert (d + [Data(offset, length, from)])[|d|] == Data(offset, length, from);
  }

  /** What a yield does to the data notices: nothing. */
  lemma YieldReports(s: State, sent: bool)
    ensures var t := Yield(s, sent); DataOf(t.log) == DataOf(s.log) && t.received == s.received
  {
    DataOfAppend(s.log, Begun);
    DataOfAppend(s.log, Finish);
    DataOfAppend(s.log, Failed);
    DataOfAppend(s.log, Filesize(s.fileSize));
    DataOfAppend(s.log + [Begun], Filesize(s.fileSize));
    DataOfAppend(s.log + [Filesize(s.fileSize)], Finish);
    DataOfAppend(s.log + [Begun] + [Filesize(s.fileSize)], Finish);
    hide DataOf;
  }

  /** A good reply whose range starts at the received size keeps the data right. */
  lemma RightPrepared(s: State, e: Event)
    requires s.handler && Right(s) && Enabled(s, e) && e.Replied? && (e.ok ==> s.asked[e.i].lo == s.received)
    ensures Right(Prepared(s, e)) && Prepared(s, e).received == s.received + if e.ok then e.length else 0
  {
    if e.ok {
      DataOfAppend(s.log, Data(s.received, e.length, s.received));
      TilesAppend(DataOf(s.log), s.received, e.length);
      hide DataOf, Tiles;
    }
  }

  // ---------- the invariant of runs with a handler

  /** The outstanding requests, and the retry timer, which will make one. */
  function UnderWay(s: State): nat {
    |s.asked| + if s.timer then 1 else 0
  }

  /** A yield in this state comes to requesting a range. */
  predicate Tries(s: State) {
    s.received < s.fileSize && (s.phase == Start || s.phase == FilesizeGet || s.phase == DateGet)
  }

  /** The outstanding range starts at the received size, has the size to request, and lies inside the file. */
  predicate AskedRight(s: State, q: Ask) {
    && s.received < s.fileSize && q.RangeQuery? && q.lo == s.received && q.hi < s.fileSize
    && q.hi - q.lo + 1 == RequestSize(s)
  }

  /** What the phases, the current one and the one to start in, stand for. */
  predicate PhaseFits(s: State) {
    match s.phase
    case Idle => true
    case DateGet => UnderWay(s) == 1
    case Complete => s.received == s.fileSize && Finish in s.log
    case Fault => s.retry > MAX_DL_RETRY_TIMES && Failed in s.log
    case _ => false
  }

  predicate NextFits(s: State) {
    match s.nextPhase
    case Idle => true
    case Start => true
    case DateGet => true
    case Complete => s.received == s.fileSize && (s.phase == Idle || s.phase == Complete)
    case Fault => s.retry > MAX_DL_RETRY_TIMES && UnderWay(s) == 0 && (s.phase == Idle || s.phase == Fault)
    case _ => false
  }

  predicate Sound(s: State) {
    && s.handler && s.fileSize > 0 && s.range > 0 && s.received <= s.fileSize && Right(s)
    && UnderWay(s) <= 1 && (s.asked != [] ==> AskedRight(s, s.asked[0]))
    && (UnderWay(s) == 1 ==> s.received < s.fileSize && (s.phase == DateGet || s.phase == Idle))
    && (Finish in s.log ==> s.received == s.fileSize)
    && PhaseFits(s) && NextFits(s)
  }

  /** A start, or a yield of the application's own, that does not disturb: if it comes to requesting a range, no
      request is outstanding and the retry timer is not running. (With the timer running it does no harm either if the
      request cannot be sent: then the timer is only started again.) */
  predicate Calm(s: State, e: Event) {
    (e.Started? || e.Yielded?) && Tries(Prepared(s, e)) ==> s.asked == [] && !(s.timer && e.sent)
  }

  predicate AllCalm(s: State, events: seq<Event>) {
    events == [] || (AllCalm(s, events[..|events| - 1]) && Calm(Run(s, events[..|events| - 1]), events[|events| - 1]))
  }

  /** At every moment of a run at most one thing is under way. */
  predicate OneByOne(s: State, events: seq<Event>) {
    UnderWay(Run(s, events)) <= 1 && (events == [] || OneByOne(s, events[..|events| - 1]))
  }

  /** Ready to yield: all of the invariant but that something is under way. */
  predicate Ready(s: State, sent: bool) {
    && s.handler && s.fileSize > 0 && s.range > 0 && s.received <= s.fileSize && Right(s)
    && UnderWay(s) <= 1 && (s.asked != [] ==> AskedRight(s, s.asked[0]))
    && (Finish in s.log ==> s.received == s.fileSize) && NextFits(s)
    && (Tries(s) ==> s.asked == [] && !(s.timer && sent))
    && match s.phase
       case Start => UnderWay(s) == 1 ==> s.received < s.fileSize
       case DateGet => UnderWay(s) == 1 ==> s.received < s.fileSize
       case Complete => s.received == s.fileSize && UnderWay(s) == 0
       case Fault => s.retry > MAX_DL_RETRY_TIMES && UnderWay(s) == 0
       case Idle => UnderWay(s) == 1 ==> s.received < s.fileSize
       case _ => false
  }

  lemma YieldIsSound(s: State, sent: bool)
    requires Ready(s, sent)
    ensures Sound(Yield(s, sent))
  {
    YieldReports(s, sent);
    hide Tiles, DataOf;
  }

  lemma OnlyReply(asked: seq<Ask>, i: nat)
    requires i < |asked| <= 1
    ensures i == 0 && Without(asked, i) == []
  {
  }

  lemma StepIsSound(s: State, e: Event)
    requires Sound(s) && Enabled(s, e) && Calm(s, e)
    ensures Sound(Step(s, e))
  {
    hide Tiles, DataOf, Yield;
    var t := Prepared(s, e);
    if e.Replied? {
      RightPrepared(s, e);
      OnlyReply(s.asked, e.i);
      if e.ok {
        YieldIsSound(t, e.sent);
      }
    } else if !e.Stopped? {
      YieldIsSound(t, e.sent);
    }
  }

  /** A start or yield that is not calm has two things under way. */
  lemma NotCalm(s: State, e: Event)
    requires Sound(s) && !Calm(s, e)
    ensures UnderWay(Step(s, e)) == 2
  {
    hide Tiles, DataOf;
  }

  lemma InitIsSound(fileSize: nat, range: nat)
    requires fileSize > 0
    ensures Sound(Init(true, fileSize, range))
  {
  }

  /** Every run, with starts, stops and yields at any time, in which those are calm: the outstanding range starts at
      the received size and lies inside the file; the data notices tile the file from 0 in order with its own bytes;
      FINISH is reported only at the full size. */
  lemma {:induction false} EveryRunIsSafe(fileSize: nat, range: nat, events: seq<Event>)
    requires var s := Init(true, fileSize, range); fileSize > 0 && Legal(s, events) && AllCalm(s, events)
    ensures Sound(Run(Init(true, fileSize, range), events))
  {
    hide Sound, Step, Init, Calm;
    var s := Init(true, fileSize, range);
    if events == [] {
      InitIsSound(fileSize, range);
    } else {
      EveryRunIsSafe(fileSize, range, events[..|events| - 1]);
      StepIsSound(Run(s, events[..|events| - 1]), events[|events| - 1]);
    }
  }

  /** Exactly when at most one thing is under way at every moment of a run: when every start, and every yield of the
      application's own, is calm. Then the data is right too. */
  lemma {:induction false} OneByOneExactly(fileSize: nat, range: nat, events: seq<Event>)
    requires fileSize > 0 && Legal(Init(true, fileSize, range), events)
    ensures var s := Init(true, fileSize, range);
      && (OneByOne(s, events) <==> AllCalm(s, events))
      && (AllCalm(s, events) ==> Right(Run(s, events)))
  {
    var s := Init(true, fileSize, range);
    InitIsSound(fileSize, range);
    hide Step, Init, Calm, Right, UnderWay;
    if events != [] {
      var front, e := events[..|events| - 1], events[|events| - 1];
      OneByOneExactly(fileSize, range, front);
      if AllCalm(s, front) {
        EveryRunIsSafe(fileSize, range, front);
        if Calm(Run(s, front), e) {
          StepIsSound(Run(s, front), e);
        } else {
          NotCalm(Run(s, front), e);
        }
      }
    }
  }

  /** A start that resumes a download keeps things one by one, whether or not its request can be sent, exactly when it
      finds no request outstanding and the retry timer not running. */
  lemma StartWhateverIsSent(s: State)
    requires Sound(s) && Tries(s.(phase := s.nextPhase))
    ensures (forall sent :: UnderWay(Step(s, Started(sent))) <= 1) <==> s.asked == [] && !s.timer
  {
    hide Step, Sound, UnderWay;
    forall sent ensures UnderWay(Step(s, Started(sent))) <= 1 <==> s.asked == [] && !(s.timer && sent) {
      if Calm(s, Started(sent)) {
        StepIsSound(s, Started(sent));
        OneThing(Step(s, Started(sent)));
      } else {
        NotCalm(s, Started(sent));
      }
    }
    assert UnderWay(Step(s, Started(true))) <= 1 <==> s.asked == [] && !s.timer;
  }

  lemma OneThing(s: State)
    requires Sound(s)
    ensures UnderWay(s) <= 1
  {
  }

  // ---------- what a disturbing start does to the data

  /** Replies and the timer, with no start, stop or yield of the application's own. */
  predicate Undisturbed(events: seq<Event>) {
    forall i :: 0 <= i < |events| ==> events[i].Replied? || events[i].TimerFired?
  }

  lemma OneMoreUndisturbed(s: State, events: seq<Event>, e: Event)
    requires Legal(s, events) && Undisturbed(events) && Enabled(Run(s, events), e) && (e.Replied? || e.TimerFired?)
    ensures Legal(s, events + [e]) && Undisturbed(events + [e]) && Run(s, events + [e]) == Step(Run(s, events), e)
  {
    hide Step, Run, Legal, Enabled;
    OneMore(s, events, e);
  }

  /** Two outstanding ranges from the same place. */
  predicate Doubled(s: State) {
    && s.handler && s.range > 0 && s.phase == DateGet && s.received < s.fileSize && |s.asked| == 2
    && s.asked[0].RangeQuery? && s.asked[0].lo == s.received <= s.asked[0].hi
    && s.asked[1].RangeQuery? && s.asked[1].lo == s.received <= s.asked[1].hi
  }

  /** One good byte for each of them: the second is counted behind the first, and it is the wrong byte. */
  lemma BothCount(s: State, n: nat)
    requires Doubled(s) && n == s.received
    ensures var a, b := Replied(0, true, 1, n, true), Replied(0, true, 1, n + 1, true);
      Enabled(s, a) && Enabled(Step(s, a), b) && !Right(Step(Step(s, a), b))
  {
    var a, b := Replied(0, true, 1, n, true), Replied(0, true, 1, n + 1, true);
    var u := Step(s, a);
    assert u.asked[0] == s.asked[1] && u.received == n + 1;
    var v := Prepared(u, b);
    DataOfAppend(u.log, Data(n + 1, 1, n));
    WrongBytes(DataOf(u.log), v.received, n + 1, 1, n);
    YieldReports(v, true);
    hide Yield, Tiles, DataOf;
  }

  lemma DoubledGoesWrong(s: State, events: seq<Event>) returns (more: seq<Event>)
    requires Legal(s, events) && Undisturbed(events) && Doubled(Run(s, events))
    ensures Legal(s, more) && Undisturbed(more) && !Right(Run(s, more))
  {
    hide Step, Run, Legal, Doubled, Right, Enabled;
    var n := Run(s, events).received;
    var a, b := Replied(0, true, 1, n, true), Replied(0, true, 1, n + 1, true);
    BothCount(Run(s, events), n);
    OneMoreUndisturbed(s, events, a);
    OneMoreUndisturbed(s, events + [a], b);
    more := events + [a] + [b];
  }

  /** After a start that resumes: the request it sent is the last one outstanding, from the received size. */
  predicate Resumed(s: State, retry: nat, timer: bool, asked: nat) {
    && s.handler && s.range > 0 && s.phase == DateGet && s.received < s.fileSize && s.retry == retry && s.timer == timer
    && |s.asked| == asked && (forall q :: q in s.asked ==> q.RangeQuery? && q.lo == s.received <= q.hi)
  }

  lemma StartResumes(s: State)
    requires Sound(s) && Tries(s.(phase := s.nextPhase))
    ensures var u := Step(s, Started(true));
      Resumed(u, if s.nextPhase == Start then 0 else s.retry, s.timer, |s.asked| + 1) && u.received == s.received && u.fileSize == s.fileSize
    ensures Right(Step(s, Started(true)))
  {
    YieldReports(s.(phase := s.nextPhase), true);
    hide Tiles, DataOf;
  }

  /** With the timer running besides the request, the range can be asked for twice: at once if the timer still retries,
      or after a byte of it has come, which resets the failures, if the file has more than that byte left. */
  lemma TimerDoubles(s: State, retry: nat) returns (events: seq<Event>)
    requires Resumed(s, retry, true, 1) && (retry <= MAX_DL_RETRY_TIMES || s.received + 1 < s.fileSize)
    ensures Legal(s, events) && Undisturbed(events) && Doubled(Run(s, events))
  {
    assert s.asked == [s.asked[0]] && s.asked[0] in s.asked;
    events := [];
    if retry > MAX_DL_RETRY_TIMES {
      var a := Replied(0, true, 1, s.received, true);
      OneMoreUndisturbed(s, [], a);
      events := [] + [a];
      assert Run(s, events) == Step(s, a);
    }
    TimerAsks(Run(s, events));
    OneMoreUndisturbed(s, events, TimerFired(true));
    events := events + [TimerFired(true)];
  }

  lemma TimerAsks(s: State)
    requires s.handler && s.range > 0 && s.phase == DateGet && s.received < s.fileSize && s.timer && s.retry <= MAX_DL_RETRY_TIMES
    requires |s.asked| == 1 && s.asked[0].RangeQuery? && s.asked[0].lo == s.received <= s.asked[0].hi
    ensures Enabled(s, TimerFired(true)) && Doubled(Step(s, TimerFired(true)))
  {
  }

  /** The one start beside a running timer that does the data no harm: the failures are used up, so the timer makes a
      fault, and the one byte that is missing can only come once. */
  predicate LastByte(s: State) {
    && s.handler && Right(s) && s.range > 0 && s.fileSize > 0
    && if s.received == s.fileSize then s.asked == [] && (s.phase == Complete || s.phase == Fault)
       else
         && s.received + 1 == s.fileSize && |s.asked| <= 1 && (s.asked != [] ==> s.asked[0] == RangeQuery(s.received, s.received))
         && (s.phase == Fault || (s.phase == DateGet && (s.asked != [] && s.timer ==> s.retry > MAX_DL_RETRY_TIMES)))
  }

  lemma LastByteYield(s: State, sent: bool)
    requires LastByte(s) || (s.received == s.fileSize && s.asked == [] && s.phase == DateGet && s.handler && s.range > 0 && s.fileSize > 0 && Right(s))
    requires s.phase == DateGet && s.received < s.fileSize ==> s.asked == [] && !s.timer
    ensures LastByte(Yield(s, sent))
  {
    YieldReports(s, sent);
    hide Tiles, DataOf;
  }

  lemma LastByteStep(s: State, e: Event)
    requires LastByte(s) && Enabled(s, e) && (e.Replied? || e.TimerFired?)
    ensures LastByte(Step(s, e))
  {
    var p := Prepared(s, e);
    if e.Replied? {
      OnlyReply(s.asked, e.i);
      RightPrepared(s, e);
    }
    hide Yield, Right, Without;
    if e.TimerFired? || e.ok {
      LastByteYield(p, e.sent);
    }
  }

  lemma {:induction false} LastByteRun(s: State, events: seq<Event>)
    requires LastByte(s) && Legal(s, events) && Undisturbed(events)
    ensures LastByte(Run(s, events))
  {
    hide LastByte, Step, Enabled;
    if events != [] {
      LastByteRun(s, events[..|events| - 1]);
      LastByteStep(Run(s, events[..|events| - 1]), events[|events| - 1]);
    }
  }

  lemma {:induction false} SoundRun(s: State, events: seq<Event>)
    requires Sound(s) && Legal(s, events) && Undisturbed(events)
    ensures Sound(Run(s, events))
  {
    hide Sound, Step, Enabled;
    if events != [] {
      SoundRun(s, events[..|events| - 1]);
      StepIsSound(Run(s, events[..|events| - 1]), events[|events| - 1]);
    }
  }

  /** For every file: after a start that resumes a download and sends its request, every undisturbed run reports the
      right data exactly when the start found no request outstanding and the retry timer not running, or the timer
      running with its failures used up and one byte of the file left. */
  lemma StartHarmsTheData(s: State)
    requires Sound(s) && Tries(s.(phase := s.nextPhase))
    ensures var u := Step(s, Started(true));
      (forall events :: Legal(u, events) && Undisturbed(events) ==> Right(Run(u, events)))
      <==> s.asked == [] && (!s.timer || (s.nextPhase == DateGet && s.retry > MAX_DL_RETRY_TIMES && s.received + 1 == s.fileSize))
  {
    var u := Step(s, Started(true));
    StartResumes(s);
    if s.asked == [] && !s.timer {
      StepIsSound(s, Started(true));
      forall events | Legal(u, events) && Undisturbed(events) ensures Right(Run(u, events)) {
        SoundRun(u, events);
      }
    } else if s.asked == [] && s.nextPhase == DateGet && s.retry > MAX_DL_RETRY_TIMES && s.received + 1 == s.fileSize {
      assert LastByte(u);
      forall events | Legal(u, events) && Undisturbed(events) ensures Right(Run(u, events)) {
        LastByteRun(u, events);
      }
    } else if s.asked != [] {
      assert Doubled(Run(u, []));
      var events := DoubledGoesWrong(u, []);
    } else {
      var events := TimerDoubles(u, if s.nextPhase == Start then 0 else s.retry);
      var more := DoubledGoesWrong(u, events);
    }
  }

  /** A file that fits one range, started again before its request is answered: it is asked for twice and reported
      twice, the second time behind its end. */
  lemma StartAgainCountsTwice(fileSize: nat, range: nat)
    requires 0 < fileSize <= range
    ensures var s := Step(Step(Step(Init(true, fileSize, range), Started(true)), Stopped), Started(true));
      var t := Step(Step(s, Replied(0, true, fileSize, 0, true)), Replied(0, true, fileSize, fileSize, true));
      && s.asked == [RangeQuery(0, fileSize - 1), RangeQuery(0, fileSize - 1)]
      && t.log == [Begun, Filesize(fileSize), Data(0, fileSize, 0), Finish, Data(fileSize, fileSize, 0), Finish]
  {
    var b := Step(Init(true, fileSize, range), Started(true));
    assert b.asked == [RangeQuery(0, fileSize - 1)] && b.log == [Begun, Filesize(fileSize)];
    var s := Step(Step(b, Stopped), Started(true));
    assert s.asked == [RangeQuery(0, fileSize - 1), RangeQuery(0, fileSize - 1)];
    var u := Step(s, Replied(0, true, fileSize, 0, true));
    assert u.asked == [RangeQuery(0, fileSize - 1)] && u.phase == Complete && u.received == fileSize;
  }

  // ---------- stopping

  /** A stop whose outstanding request is answered before the next start changes nothing. */
  lemma StopAndStart(s: State, length: nat, left: nat, sent: bool)
    requires Sound(s) && s.phase == DateGet && Enabled(s, Replied(0, true, length, left, sent))
    ensures var t := Step(Step(Step(s, Stopped), Replied(0, true, length, left, true)), Started(sent));
      t == Step(s, Replied(0, true, length, left, sent)).(nextPhase := DateGet) && Sound(t)
  {
    var r := Replied(0, true, length, left, sent);
    var p := Prepared(s, r);
    StepIsSound(s, r);
    SoundWhateverNext(Step(s, r));
    StoppedReply(s, length, left);
    ReplyYields(s, r);
    IdleStarts(p, sent);
    hide Sound, Step, YieldData;
  }

  lemma ReplyYields(s: State, r: Event)
    requires s.phase == DateGet && Enabled(s, r) && r.Replied? && r.ok
    ensures Step(s, r) == YieldData(Prepared(s, r), r.sent)
    ensures Step(s, r).phase == DateGet || Step(s, r).phase == Complete
  {
  }

  lemma IdleStarts(p: State, sent: bool)
    ensures Step(p.(phase := Idle, nextPhase := DateGet), Started(sent)) == YieldData(p.(phase := DateGet), sent).(nextPhase := DateGet)
  {
  }

  lemma StoppedReply(s: State, length: nat, left: nat)
    requires s.phase == DateGet && s.asked != [] && s.asked[0].RangeQuery?
    ensures Step(Step(s, Stopped), Replied(0, true, length, left, true))
      == Prepared(s, Replied(0, true, length, left, true)).(phase := Idle, nextPhase := DateGet)
    ensures Prepared(s, Replied(0, true, length, left, true)).phase == DateGet
  {
  }

  lemma SoundWhateverNext(s: State)
    requires Sound(s)
    ensures s.phase != Idle && s.phase != Fault ==> Sound(s.(nextPhase := DateGet))
  {
    hide Tiles, DataOf;
  }

  /** A stop whose request fails and whose retry timer has fired before the next start changes nothing either, up to the
      eighth failure. */
  lemma StopFailAndStart(s: State, sent: bool)
    requires Sound(s) && s.phase == DateGet && s.asked != [] && s.retry < 8
    ensures var f := Replied(0, false, 0, 0, true);
      var t := Step(Step(Step(Step(s, Stopped), f), TimerFired(true)), Started(sent));
      t == Step(Step(s, f), TimerFired(sent)).(nextPhase := DateGet) && Sound(t)
  {
    var f := Replied(0, false, 0, 0, true);
    StepIsSound(s, f);
    StepIsSound(Step(s, f), TimerFired(sent));
    SoundWhateverNext(Step(Step(s, f), TimerFired(sent)));
    var p := Failure(Prepared(s, f)).(timer := false);
    StoppedFailure(s);
    FailureYields(s, sent);
    IdleStarts(p, sent);
    hide Sound, Step, YieldData, Prepared;
  }

  lemma StoppedFailure(s: State)
    requires s.phase == DateGet && s.asked != [] && s.asked[0].RangeQuery? && s.retry < 8
    ensures var f := Replied(0, false, 0, 0, true);
      Step(Step(Step(s, Stopped), f), TimerFired(true)) == Failure(Prepared(s, f)).(timer := false, phase := Idle, nextPhase := DateGet)
    ensures Failure(Prepared(s, Replied(0, false, 0, 0, true))).phase == DateGet
  {
  }

  lemma FailureYields(s: State, sent: bool)
    requires s.phase == DateGet && s.asked != [] && s.asked[0].RangeQuery? && s.retry < 8
    ensures var f := Replied(0, false, 0, 0, true);
      && Step(Step(s, f), TimerFired(sent)) == YieldData(Failure(Prepared(s, f)).(timer := false), sent)
      && (Step(Step(s, f), TimerFired(sent)).phase == DateGet || Step(Step(s, f), TimerFired(sent)).phase == Complete)
  {
  }

  /** Nothing is ever asked for again, and FINISH is not reported. */
  predicate Dead(s: State) {
    (s.phase == Idle || s.phase == Fault) && (s.nextPhase == Idle || s.nextPhase == Fault)
  }

  lemma DeadYield(s: State, sent: bool)
    requires s.phase == Idle || s.phase == Fault
    ensures var t := Yield(s, sent);
      t.phase == s.phase && t.nextPhase == s.nextPhase && t.asked == s.asked && (Finish in t.log <==> Finish in s.log)
  {
  }

  lemma DeadStep(s: State, e: Event)
    requires Dead(s)
    ensures var t := Step(s, e); Dead(t) && |t.asked| <= |s.asked| && (Finish in t.log <==> Finish in s.log)
  {
    if Delivered(s, e) {
      DeadYield(Prepared(s, e), true);
      DeadYield(Prepared(s, e), false);
    }
    hide Yield;
  }

  /** A stop that finds the download stopped, or not yet started, ends it for good: whatever is done then, no start
      resumes it. */
  lemma {:induction false} StoppedTwice(s: State, events: seq<Event>)
    requires s.phase == Idle
    ensures var t := Step(s, Stopped); var u := Run(t, events);
      Dead(u) && |u.asked| <= |s.asked| && (Finish in u.log <==> Finish in s.log)
  {
    var t := Step(s, Stopped);
    if events != [] {
      StoppedTwice(s, events[..|events| - 1]);
      DeadStep(Run(t, events[..|events| - 1]), events[|events| - 1]);
      hide Step, Dead;
    }
  }

  /** The phase that the last stop of a run found; a download that was not stopped starts from the beginning. */
  function LastStop(s: State, events: seq<Event>): Phase {
    if events == [] then s.nextPhase
    else if events[|events| - 1].Stopped? then Run(s, events[..|events| - 1]).phase
    else LastStop(s, events[..|events| - 1])
  }

  lemma {:induction false} NextIsLastStop(s: State, events: seq<Event>)
    ensures Run(s, events).nextPhase == LastStop(s, events)
  {
    if events != [] {
      NextIsLastStop(s, events[..|events| - 1]);
      KeepsNext(Run(s, events[..|events| - 1]), events[|events| - 1]);
      hide Step;
    }
  }

  lemma YieldKeepsNext(s: State, sent: bool)
    ensures Yield(s, sent).nextPhase == s.nextPhase
  {
  }

  lemma KeepsNext(s: State, e: Event)
    ensures Step(s, e).nextPhase == if e.Stopped? then s.phase else s.nextPhase
  {
    if Delivered(s, e) {
      YieldKeepsNext(Prepared(s, e), true);
      YieldKeepsNext(Prepared(s, e), false);
    }
    hide Yield;
  }

  /** A fault is reported again by the next start exactly when a stop has come between; otherwise the start takes the
      fault back, and goes on where the last stop before the fault found the download. */
  lemma FaultIsForgotten(s: State, events: seq<Event>, sent: bool)
    requires Run(s, events).phase == Fault
    ensures var t := Run(s, events); var u := Step(t, Started(sent));
      && (u.phase == Fault <==> LastStop(s, events) == Fault)
      && (LastStop(s, events) == Fault ==> u == Notify(t, Failed))
  {
    NextIsLastStop(s, events);
    hide Run;
  }

  // ---------- runs without stops

  /** A run that is started once and then left alone. */
  predicate Plain(events: seq<Event>) {
    events != [] && events[0].Started? && Undisturbed(events[1..])
  }

  lemma PlainFront(events: seq<Event>)
    requires Plain(events) && |events| > 1
    ensures var e := events[|events| - 1]; Plain(events[..|events| - 1]) && (e.Replied? || e.TimerFired?)
  {
    var front := events[..|events| - 1];
    assert events[|events| - 1] == events[1..][|events| - 2];
    assert forall i :: 0 <= i < |front[1..]| ==> front[1..][i] == events[1..][i];
  }

  /** Left alone after its start, a download is never idle, and its fault is final. */
  predicate LeftAlone(s: State) {
    && s.handler && (s.phase == DateGet || s.phase == Complete || s.phase == Fault) && s.nextPhase == Start && s.retry <= 9
    && (s.phase == DateGet && !s.timer ==> s.retry <= 8) && (s.phase == Fault ==> s.retry == 9)
    && (Failed in s.log ==> s.phase == Fault)
  }

  predicate Steady(s: State) {
    Sound(s) && LeftAlone(s)
  }

  lemma YieldAlone(s: State, sent: bool)
    requires LeftAlone(s) && (s.phase == DateGet ==> s.retry <= 8)
    ensures LeftAlone(Yield(s, sent))
  {
  }

  lemma PreparedAlone(s: State, e: Event)
    requires LeftAlone(s) && s.phase == DateGet && Enabled(s, e) && (e.Replied? || e.TimerFired?)
    ensures var p := Prepared(s, e);
      if e.TimerFired? || e.ok then LeftAlone(p.(timer := false)) && p.retry <= (if p.phase == DateGet then 8 else 9)
      else LeftAlone(Failure(p)) || s.retry == 9
  {
  }

  lemma SteadyStep(s: State, e: Event)
    requires Steady(s) && Enabled(s, e) && (e.Replied? || e.TimerFired?)
    ensures Steady(Step(s, e))
  {
    StepIsSound(s, e);
    SteadyParts(s);
    PreparedAlone(s, e);
    hide Sound, Yield, Prepared;
    if e.TimerFired? || e.ok {
      YieldAlone(Prepared(s, e), e.sent);
    }
  }

  lemma SteadyParts(s: State)
    requires Steady(s)
    ensures s.handler && s.fileSize > 0 && s.received <= s.fileSize && UnderWay(s) <= 1
    ensures UnderWay(s) == 1 ==> s.phase == DateGet && s.received < s.fileSize
    ensures s.phase == DateGet || s.phase == Complete || s.phase == Fault
  {
    hide Tiles, DataOf;
  }

  lemma FirstStart(fileSize: nat, range: nat, sent: bool)
    requires fileSize > 0
    ensures Steady(Step(Init(true, fileSize, range), Started(sent)))
  {
    InitIsSound(fileSize, range);
    StepIsSound(Init(true, fileSize, range), Started(sent));
    hide Tiles, DataOf;
  }

  lemma {:induction false} PlainRunIsSteady(fileSize: nat, range: nat, events: seq<Event>)
    requires fileSize > 0 && Legal(Init(true, fileSize, range), events) && Plain(events)
    ensures Steady(Run(Init(true, fileSize, range), events))
  {
    hide Steady, Step, Init;
    var s := Init(true, fileSize, range);
    if |events| == 1 {
      assert events[..0] == [];
      FirstStart(fileSize, range, events[0].sent);
    } else {
      PlainFront(events);
      PlainRunIsSteady(fileSize, range, events[..|events| - 1]);
      SteadyStep(Run(s, events[..|events| - 1]), events[|events| - 1]);
    }
  }

  // ---------- such a run ends

  /** Bytes left, then failures left, then whether the timer still has to fire. */
  function Measure(s: State): (int, int, int) {
    (s.fileSize - s.received, 9 - s.retry, if s.timer then 1 else 0)
  }

  predicate Below(a: (int, int, int), b: (int, int, int)) {
    a.0 < b.0 || (a.0 == b.0 && (a.1 < b.1 || (a.1 == b.1 && a.2 < b.2)))
  }

  /** Each step makes the measure smaller. */
  lemma StepDecreases(s: State, e: Event)
    requires Steady(s) && Enabled(s, e) && (e.Replied? || e.TimerFired?)
    ensures Below(Measure(Step(s, e)), Measure(s)) && Step(s, e).fileSize == s.fileSize
    ensures Measure(Step(s, e)).0 >= 0 && Measure(Step(s, e)).1 >= 0
  {
    SteadyStep(s, e);
    hide Tiles, DataOf;
  }

  function Weight(s: State): int {
    20 * (s.fileSize - s.received) + 2 * (9 - s.retry) + (if s.timer then 1 else 0)
  }

  lemma OneStepLess(s: State, e: Event)
    requires Steady(s) && Enabled(s, e) && (e.Replied? || e.TimerFired?)
    ensures Weight(Step(s, e)) < Weight(s)
  {
    StepDecreases(s, e);
    SteadyStep(s, e);
    hide Step, Tiles, DataOf;
  }

  lemma {:induction false} WeightFalls(fileSize: nat, range: nat, events: seq<Event>)
    requires fileSize > 0 && Legal(Init(true, fileSize, range), events) && Plain(events)
    ensures Weight(Run(Init(true, fileSize, range), events)) + |events| <= 20 * fileSize + 20
  {
    hide Steady, Step;
    var s := Init(true, fileSize, range);
    if |events| == 1 {
      assert events[..0] == [];
      FirstWeight(fileSize, range, events[0].sent);
    } else {
      PlainFront(events);
      WeightFalls(fileSize, range, events[..|events| - 1]);
      PlainRunIsSteady(fileSize, range, events[..|events| - 1]);
      OneStepLess(Run(s, events[..|events| - 1]), events[|events| - 1]);
    }
  }

  lemma FirstWeight(fileSize: nat, range: nat, sent: bool)
    requires fileSize > 0
    ensures Weight(Step(Init(true, fileSize, range), Started(sent))) <= 20 * fileSize + 19
  {
  }

  /** No run that is left alone is longer than the file's size allows, and one that can go no further is complete, with
      FINISH reported, or at fault, with the fault reported. */
  lemma EveryRunEnds(fileSize: nat, range: nat, events: seq<Event>)
    requires fileSize > 0 && Legal(Init(true, fileSize, range), events) && Plain(events)
    ensures |events| <= 20 * fileSize + 20
    ensures var s := Run(Init(true, fileSize, range), events);
      (forall e :: Enabled(s, e) ==> !e.Replied? && !e.TimerFired?) ==>
        (s.phase == Complete && Finish in s.log) || (s.phase == Fault && Failed in s.log)
  {
    PlainRunIsSteady(fileSize, range, events);
    WeightFalls(fileSize, range, events);
    var s := Run(Init(true, fileSize, range), events);
    hide Run, Legal, Init, Tiles, DataOf;
    if s.phase == DateGet {
      if s.timer {
        assert Enabled(s, TimerFired(true));
      } else {
        assert Enabled(s, Replied(0, false, 0, 0, true));
      }
    }
  }

  // ---------- failures

  /** What a step makes of `n` failures in a row. */
  function Counted(s: State, e: Event, n: nat): nat {
    if e.Stopped? || !Delivered(s, e) then n
    else if e.Replied? && !e.ok then n + 1
    else
      var p := Prepared(s, e);
      (if e.Replied? || p.phase == Start || p.phase == FilesizeGet then 0 else n) + (if Tries(p) && !e.sent then 1 else 0)
  }

  /** The failures in a row, over the events: failed replies, and requests that could not be sent. Good data and a
      start from the beginning end the row. */
  function InARow(s: State, events: seq<Event>): nat {
    if events == [] then 0
    else Counted(Run(s, events[..|events| - 1]), events[|events| - 1], InARow(s, events[..|events| - 1]))
  }

  lemma YieldCounts(s: State, sent: bool)
    requires s.fileSize > 0
    ensures var t, n := Yield(s, sent), if s.phase == Start || s.phase == FilesizeGet then 0 else s.retry;
      t.fileSize == s.fileSize && t.retry == if Tries(s) && !sent then (n + 1) % 256 else n
  {
  }

  lemma OneMoreCounted(n: nat)
    ensures (n % 256 + 1) % 256 == (n + 1) % 256
  {
  }

  lemma StepCounts(s: State, e: Event, n: nat)
    requires s.fileSize > 0 && Enabled(s, e) && s.retry == n % 256
    ensures Step(s, e).fileSize == s.fileSize && Step(s, e).retry == Counted(s, e, n) % 256
  {
    OneMoreCounted(n);
    if !e.Stopped? {
      YieldCounts(Prepared(s, e), e.sent);
    }
    hide Yield, Tries;
  }

  /** In every run, whatever is started and stopped, the counter is the number of failures in a row, in 8 bits. */
  lemma {:induction false} CounterCountsFailures(s: State, events: seq<Event>)
    requires s.fileSize > 0 && s.retry == 0 && Legal(s, events)
    ensures Run(s, events).retry == InARow(s, events) % 256 && Run(s, events).fileSize == s.fileSize
  {
    hide Step, Counted;
    if events != [] {
      CounterCountsFailures(s, events[..|events| - 1]);
      StepCounts(Run(s, events[..|events| - 1]), events[|events| - 1], InARow(s, events[..|events| - 1]));
    }
  }

  /** In every calm run, a fault needs nine failures in a row. */
  lemma FaultNeedsNine(fileSize: nat, range: nat, events: seq<Event>)
    requires var s := Init(true, fileSize, range); fileSize > 0 && Legal(s, events) && AllCalm(s, events)
    requires Run(Init(true, fileSize, range), events).phase == Fault
    ensures InARow(Init(true, fileSize, range), events) >= 9
  {
    hide Run, InARow, Legal, Sound, Init, AllCalm;
    InitRetry(fileSize, range);
    EveryRunIsSafe(fileSize, range, events);
    CounterCountsFailures(Init(true, fileSize, range), events);
    FaultRetry(Run(Init(true, fileSize, range), events));
  }

  lemma InitRetry(fileSize: nat, range: nat)
    ensures Init(true, fileSize, range).retry == 0 && Init(true, fileSize, range).fileSize == fileSize
  {
  }

  lemma FaultRetry(s: State)
    requires Sound(s) && s.phase == Fault
    ensures s.retry >= 9
  {
  }

  lemma SteadyRetry(s: State)
    requires Steady(s)
    ensures s.retry <= 9 && (s.phase == Fault ==> s.retry == 9) && (s.phase == DateGet && s.retry == 9 ==> s.timer)
    ensures s.timer ==> s.handler && s.phase == DateGet && s.asked == [] && s.received < s.fileSize
  {
  }

  /** What the timer makes of `n` failures in a row: nine are a fault; with fewer the same range is asked for again, and
      if the request cannot be sent, that is one more failure. */
  predicate TimerDecides(s: State, n: nat, sent: bool)
    requires s.received < s.fileSize
  {
    var t := Step(s, TimerFired(sent));
    if n == 9 then t.phase == Fault && t.log == s.log + [Failed]
    else
      && t.phase == DateGet && t.received == s.received && t.log == s.log
      && if sent then t.asked == [RangeQuery(s.received, s.received + RequestSize(s) - 1)] else t.timer
  }

  lemma TimerStep(s: State, sent: bool)
    requires s.handler && s.phase == DateGet && s.timer && s.asked == [] && s.received < s.fileSize && s.retry <= 9
    ensures TimerDecides(s, s.retry, sent)
  {
  }

  /** In a run that is left alone there are never more than nine failures in a row, and the timer decides as they say. */
  lemma NineFailures(fileSize: nat, range: nat, events: seq<Event>, sent: bool)
    requires fileSize > 0 && Legal(Init(true, fileSize, range), events) && Plain(events)
    ensures var s0 := Init(true, fileSize, range); var s, n := Run(s0, events), InARow(s0, events);
      && s.retry == n <= 9 && (s.phase == Fault ==> n == 9) && (s.phase == DateGet && n == 9 ==> s.timer)
      && (s.timer ==> s.received < s.fileSize && TimerDecides(s, n, sent))
  {
    hide Run, InARow, Legal, Init, Steady, TimerDecides;
    var s := Run(Init(true, fileSize, range), events);
    PlainRunIsSteady(fileSize, range, events);
    RowIsCounted(fileSize, range, events);
    SteadyRetry(s);
    if s.timer {
      TimerStep(s, sent);
    }
  }

  lemma {:induction false} RowIsCounted(fileSize: nat, range: nat, events: seq<Event>)
    requires fileSize > 0 && Legal(Init(true, fileSize, range), events) && Plain(events)
    ensures Run(Init(true, fileSize, range), events).retry == InARow(Init(true, fileSize, range), events) <= 9
  {
    hide Run, InARow, Init, Steady, Counted;
    var s0 := Init(true, fileSize, range);
    InitRetry(fileSize, range);
    PlainRunIsSteady(fileSize, range, events);
    SteadyRetry(Run(s0, events));
    CounterCountsFailures(s0, events);
    RowGrows(s0, events);
    if |events| == 1 {
      assert events[..0] == [];
      NoRow(s0);
    } else {
      PlainFront(events);
      RowIsCounted(fileSize, range, events[..|events| - 1]);
    }
  }

  lemma NoRow(s: State)
    ensures InARow(s, []) == 0
  {
  }

  lemma RowGrows(s: State, events: seq<Event>)
    requires events != []
    ensures InARow(s, events) <= InARow(s, events[..|events| - 1]) + 1
  {
    hide Run, Prepared, Tries;
  }

  // ---------- without a handler

  /** Without a handler the event's offset is never set; `r` is the range length that was asked for. */
  predicate Blind(s: State, r: nat) {
    && !s.handler && s.fileSize > 0 && 0 < s.range <= r && s.offset == 0 && s.received <= r
    && (forall q :: q in s.asked ==> q.RangeQuery? && q.lo <= q.hi && q.hi - q.lo + 1 <= r)
    && (s.phase == Complete || s.nextPhase == Complete ==> s.fileSize <= r)
  }

  lemma BlindYield(s: State, sent: bool, r: nat)
    requires Blind(s, r)
    ensures Blind(Yield(s, sent), r) && Yield(s, sent).fileSize == s.fileSize
  {
  }

  lemma BlindStep(s: State, e: Event, r: nat)
    requires Blind(s, r) && Enabled(s, e)
    ensures Blind(Step(s, e), r) && Step(s, e).fileSize == s.fileSize
  {
    var p := Prepared(s, e);
    if e.Replied? {
      assert s.asked[e.i] in s.asked;
      assert forall q :: q in Without(s.asked, e.i) ==> q in s.asked;
    }
    hide Yield;
    BlindYield(p, true, r);
    BlindYield(p, false, r);
  }

  lemma {:induction false} BlindRun(s: State, events: seq<Event>, r: nat)
    requires Blind(s, r) && Legal(s, events)
    ensures Blind(Run(s, events), r) && Run(s, events).fileSize == s.fileSize
  {
    hide Blind, Step, Enabled;
    if events != [] {
      BlindRun(s, events[..|events| - 1], r);
      BlindStep(Run(s, events[..|events| - 1]), events[|events| - 1], r);
    }
  }

  /** Without an event handler every range after the first is counted from zero again, so a download can complete,
      however it is started and stopped, exactly when the file fits in one range. */
  lemma BlindDownloads(fileSize: nat, range: nat)
    requires fileSize > 0
    ensures var s := Init(false, fileSize, range);
      (exists events :: Legal(s, events) && Run(s, events).phase == Complete) <==> fileSize <= s.range
  {
    var s := Init(false, fileSize, range);
    forall events | Legal(s, events) && Run(s, events).phase == Complete ensures fileSize <= s.range {
      BlindRun(s, events, s.range);
    }
    if fileSize <= s.range {
      var a, b := Started(true), Replied(0, true, fileSize, 0, true);
      OneMore(s, [], a);
      assert Run(s, [] + [a]) == Step(s, a);
      assert Enabled(Step(s, a), b) && Step(Step(s, a), b).phase == Complete;
      OneMore(s, [] + [a], b);
      assert exists events :: Legal(s, events) && Run(s, events).phase == Complete;
    }
  }
}
