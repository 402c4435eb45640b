/** The range downloader: requests one range at a time, retries on a timer, and reports data to the application. The
    steps of a download, and the context that takes them in place. */
module FileDownload {

  datatype Phase = Idle | Start | FilesizeGet | DateGet | Complete | Suspend | Fault
  datatype Status = Success | EAgain

  /** A request that was sent and is still to be answered. */
  datatype Ask = SizeQuery | RangeQuery(lo: nat, hi: int)

  /** `from` is where in the file the reported bytes come from: the start of the range that was asked for. */
  datatype Notice = Begun | Filesize(size: nat) | Data(offset: nat, length: nat, from: nat) | Finish | Failed

  const RANGE_REQUEST_LENGTH_DEFAULT := 1024
  const MAX_DL_RETRY_TIMES := 8

  /** `handler` says whether the application registered an event handler; `offset` is the event's offset field;
      `asked` are the outstanding requests, in the order in which they were sent; `timer` is the retry timer. */
  datatype State = State(handler: bool, phase: Phase, nextPhase: Phase, fileSize: nat, range: nat, received: nat, offset: nat,
                         retry: nat, timer: bool, asked: seq<Ask>, log: seq<Notice>)

  function Init(handler: bool, fileSize: nat, range: nat): State {
    State(handler, Idle, Start, fileSize, if range == 0 then RANGE_REQUEST_LENGTH_DEFAULT else range, 0, 0, 0, false, [], [])
  }

  function Notify(s: State, n: Notice): State {
    if s.handler then s.(log := s.log + [n]) else s
  }

  /** A failure: count it, in 8 bits, and start the retry timer. */
  function Failure(s: State): State {
    s.(retry := (s.retry + 1) % 256, timer := true)
  }

  /** file_download_yield; `sent` says whether the request could be sent. */
  function Yield(s: State, sent: bool): State {
    match s.phase
    case Start => YieldFilesize(Notify(s, Begun).(phase := FilesizeGet), sent)
    case FilesizeGet => YieldFilesize(s, sent)
    case DateGet => YieldData(s, sent)
    case Complete => Notify(s, Finish)
    case Fault => Notify(s, Failed)
    case _ => s
  }

  function YieldFilesize(s: State, sent: bool): State {
    if s.fileSize == 0 then s.(asked := if sent then s.asked + [SizeQuery] else s.asked)
    else
      var t := s.(range := if s.fileSize < s.range then s.fileSize else s.range);
      YieldData(Notify(t, Filesize(s.fileSize)).(retry := 0, phase := DateGet), sent)
  }

  function YieldData(s: State, sent: bool): State {
    if s.received < s.fileSize then
      if sent then s.(asked := s.asked + [RangeQuery(s.received, s.received + RequestSize(s) - 1)]) else Failure(s)
    else
      Notify(s.(phase := Complete), Finish)
  }

  function RequestSize(s: State): nat
    requires s.received < s.fileSize
  {
    if s.fileSize - s.received > s.range then s.range else s.fileSize - s.received
  }

  // ---------- what happens to a download

  /** What the application, the service and the timer do. A reply answers the outstanding request `i`; `left` is the
      offset that the handler leaves in the event. */
  datatype Event =
    | Started(sent: bool)
    | Stopped
    | Yielded(sent: bool)
    | Replied(i: nat, ok: bool, length: nat, left: nat, sent: bool)
    | TimerFired(sent: bool)

  function Without<T>(s: seq<T>, i: nat): seq<T>
    requires i < |s|
  {
    s[..i] + s[i + 1..]
  }

  /** A reply that no request waits for is not delivered. */
  predicate Delivered(s: State, e: Event) {
    e.Replied? ==> e.i < |s.asked|
  }

  /** What an event does before it yields, if it does. */
  function Prepared(s: State, e: Event): State
    requires Delivered(s, e)
  {
    match e
    case Started(_) => s.(phase := s.nextPhase)
    case Stopped => s.(nextPhase := s.phase, phase := Idle)
    case Yielded(_) => s
    case Replied(i, ok, length, left, _) =>
      var t := s.(asked := Without(s.asked, i));
      if ok && s.asked[i].RangeQuery? then Received(t, length, left, s.asked[i].lo) else t
    case TimerFired(_) =>
      var t := s.(timer := false);
      if t.retry > MAX_DL_RETRY_TIMES then t.(phase := Fault) else t
  }

  /** A failing reply for a range is a failure; the size's reply is not looked at; everything else but a stop yields. */
  function Step(s: State, e: Event): State {
    if !Delivered(s, e) then s
    else
      var t := Prepared(s, e);
      if e.Stopped? then t
      else if e.Replied? && !e.ok && s.asked[e.i].RangeQuery? then Failure(t)
      else Yield(t, e.sent)
  }

  /** file_download_data_on: without a handler the offset stays what it was. */
  function Received(s: State, length: nat, left: nat, from: nat): State {
    var t := if s.handler then s.(log := s.log + [Data(s.received, length, from)], offset := left) else s;
    t.(received := t.offset + length, retry := 0)
  }

  // ---------- runs

  /** The application may start, stop and yield at any time. A reply answers an outstanding range, a good one with 1
      byte up to what was asked, and the handler keeps the offset; the timer fires when it runs. */
  predicate Enabled(s: State, e: Event) {
    match e
    case Replied(i, ok, length, left, _) =>
      && i < |s.asked| && s.asked[i].RangeQuery?
      && (ok ==> 1 <= length <= s.asked[i].hi - s.asked[i].lo + 1 && (s.handler ==> left == s.received))
    case TimerFired(_) => s.timer
    case _ => true
  }

  function Run(s: State, events: seq<Event>): State {
    if events == [] then s else Step(Run(s, events[..|events| - 1]), events[|events| - 1])
  }

  predicate Legal(s: State, events: seq<Event>) {
    events == [] || (Legal(s, events[..|events| - 1]) && Enabled(Run(s, events[..|events| - 1]), events[|events| - 1]))
  }

  lemma OneMore(s: State, events: seq<Event>, e: Event)
    requires Legal(s, events) && Enabled(Run(s, events), e)
    ensures Legal(s, events + [e]) && Run(s, events + [e]) == Step(Run(s, events), e)
  {
    assert (events + [e])[..|events|] == events;
    hide Step, Enabled;
  }

  // ---------- the context

  class Context {
    const handler: bool
    var phase: Phase
    var nextPhase: Phase
    const fileSize: nat
    var rangeLength: nat
    var receivedSize: nat
    var offset: nat
    var retry: nat
    var timer: bool
    var asked: seq<Ask>
    var log: seq<Notice>

    /** file_download_init */
    constructor (handler: bool, fileSize: nat, range: nat)
      ensures Abstract() == Init(handler, fileSize, range)
    {
      this.handler, this.fileSize := handler, fileSize;
      rangeLength := if range == 0 then RANGE_REQUEST_LENGTH_DEFAULT else range;
      phase, nextPhase, receivedSize, offset, retry, timer, asked, log := Idle, Start, 0, 0, 0, false, [], [];
    }

    ghost function Abstract(): State
      reads this
    {
      State(handler, phase, nextPhase, fileSize, rangeLength, receivedSize, offset, retry, timer, asked, log)
    }

    method Tell(n: Notice)
      modifies this
      ensures Abstract() == Notify(old(Abstract()), n)
    {
      if handler {
        log := log + [n];
      }
    }

    /** retry++ and MultiTimerStart */
    method Retry()
      modifies this
      ensures Abstract() == Failure(old(Abstract()))
    {
      retry := (retry + 1) % 256;
      timer := true;
    }

    /** file_download_yield; the cases fall through as far as they can. */
    method YieldNow(sent: bool) returns (status: Status)
      modifies this
      ensures Abstract() == Yield(old(Abstract()), sent)
      ensures status == if Abstract().phase == Complete then Success else EAgain
    {
      status := EAgain;
      match phase {
        case Start =>
          Tell(Begun);
          phase := FilesizeGet;
          status := YieldFilesizeNow(sent);
        case FilesizeGet => status := YieldFilesizeNow(sent);
        case DateGet => status := YieldDataNow(sent);
        case Complete =>
          Tell(Finish);
          status := Success;
        case Fault => Tell(Failed);
        case _ =>
      }
    }

    method YieldFilesizeNow(sent: bool) returns (status: Status)
      requires phase == FilesizeGet
      modifies this
      ensures Abstract() == YieldFilesize(old(Abstract()), sent)
      ensures status == if Abstract().phase == Complete then Success else EAgain
    {
      if fileSize == 0 {
        if sent {
          asked := asked + [SizeQuery];
        }
        return EAgain;
      }
      if fileSize < rangeLength {
        rangeLength := fileSize;
      }
      Tell(Filesize(fileSize));
      retry := 0;
      phase := DateGet;
      status := YieldDataNow(sent);
    }

    method YieldDataNow(sent: bool) returns (status: Status)
      requires phase == DateGet
      modifies this
      ensures Abstract() == YieldData(old(Abstract()), sent)
      ensures status == if Abstract().phase == Complete then Success else EAgain
    {
      if receivedSize < fileSize {
        var requestSize := if fileSize - receivedSize > rangeLength then rangeLength else fileSize - receivedSize;
        if !sent {
          Retry();
          return EAgain;
        }
        asked := asked + [RangeQuery(receivedSize, receivedSize + requestSize - 1)];
        return EAgain;
      }
      phase := Complete;
      Tell(Finish);
      status := Success;
    }

    /** file_donwload_data_recv_cb and file_download_data_on, for the outstanding range `i`. */
    method DataReceived(i: nat, ok: bool, length: nat, left: nat, sent: bool)
      requires i < |asked| && asked[i].RangeQuery?
      modifies this
      ensures Abstract() == Step(old(Abstract()), Replied(i, ok, length, left, sent))
    {
      hide Yield;
      var from := asked[i].lo;
      asked := Without(asked, i);
      if !ok {
        Retry();
        return;
      }
      if handler {
        Tell(Data(receivedSize, length, from));
        offset := left;
      }
      receivedSize := offset + length;
      retry := 0;
      var status := YieldNow(sent);
    }

    /** file_size_result_recv_cb: the reply is not looked at. */
    method SizeReceived(i: nat, ok: bool, sent: bool)
      requires i < |asked| && asked[i].SizeQuery?
      modifies this
      ensures Abstract() == Step(old(Abstract()), Replied(i, ok, 0, 0, sent))
    {
      hide Yield;
      asked := Without(asked, i);
      var status := YieldNow(sent);
    }

    /** file_download_retry_timer_cb */
    method RetryTimer(sent: bool)
      modifies this
      ensures Abstract() == Step(old(Abstract()), TimerFired(sent))
    {
      timer := false;
      if retry > MAX_DL_RETRY_TIMES {
        phase := Fault;
      }
      var status := YieldNow(sent);
    }

    /** file_download_start */
    method StartNow(sent: bool) returns (status: Status)
      modifies this
      ensures Abstract() == Step(old(Abstract()), Started(sent))
    {
      phase := nextPhase;
      status := YieldNow(sent);
    }

    /** file_download_stop and file_download_suspend */
    method StopNow()
      modifies this
      ensures Abstract() == Step(old(Abstract()), Stopped)
    {
      nextPhase := phase;
      phase := Idle;
    }
  }
}
