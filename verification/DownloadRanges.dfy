/** Which ranges a download asks for, over every run, and how many replies a download without failures needs. */
module DownloadRanges {
  import opened FileDownload

  /** The range length that the configuration stands for. */
  function Length(range: nat): nat {
    if range == 0 then 1024 else range
  }

  /** An outstanding range has that length, or ends with the file. */
  predicate RangeFits(q: Ask, fileSize: nat, length: nat) {
    q.RangeQuery? && q.lo < fileSize && q.hi + 1 == if q.lo + length < fileSize then q.lo + length else fileSize
  }

  ghost predicate Ranged(s: State, fileSize: nat, length: nat) {
    && s.fileSize == fileSize > 0 && length > 0
    && (s.range == length || s.range == fileSize < length)
    && forall i :: 0 <= i < |s.asked| ==> RangeFits(s.asked[i], fileSize, length)
  }

  lemma YieldDataAsks(s: State, sent: bool, fileSize: nat, length: nat)
    requires Ranged(s, fileSize, length)
    ensures Ranged(YieldData(s, sent), fileSize, length)
  {
    AskFits(s, fileSize, length);
    hide RangeFits, RequestSize;
  }

  lemma YieldAsks(s: State, sent: bool, fileSize: nat, length: nat)
    requires Ranged(s, fileSize, length)
    ensures Ranged(Yield(s, sent), fileSize, length)
  {
    hide RangeFits, YieldData;
    var t := if s.phase == Start then Notify(s, Begun).(phase := FilesizeGet) else s;
    var u := t.(range := if t.fileSize < t.range then t.fileSize else t.range);
    YieldDataAsks(s, sent, fileSize, length);
    YieldDataAsks(Notify(u, Filesize(t.fileSize)).(retry := 0, phase := DateGet), sent, fileSize, length);
  }

  lemma AskFits(s: State, fileSize: nat, length: nat)
    requires s.fileSize == fileSize && length > 0 && (s.range == length || s.range == fileSize < length)
    ensures s.received < fileSize ==> RangeFits(RangeQuery(s.received, s.received + RequestSize(s) - 1), fileSize, length)
  {
  }

  lemma PreparedAsks(s: State, e: Event, fileSize: nat, length: nat)
    requires Ranged(s, fileSize, length) && Delivered(s, e)
    ensures Ranged(Prepared(s, e), fileSize, length)
  {
    hide RangeFits;
    if e.Replied? {
      var rest := Without(s.asked, e.i);
      assert forall i :: 0 <= i < |rest| ==> rest[i] == s.asked[if i < e.i then i else i + 1];
    }
  }

  lemma StepAsks(s: State, e: Event, fileSize: nat, length: nat)
    requires Ranged(s, fileSize, length)
    ensures Ranged(Step(s, e), fileSize, length)
  {
    if Delivered(s, e) {
      PreparedAsks(s, e, fileSize, length);
      if !e.Stopped? {
        YieldAsks(Prepared(s, e), e.sent, fileSize, length);
      }
    }
    hide Yield, Prepared, RangeFits;
  }

  /** Over every run, whatever is started, stopped, answered and lost: each outstanding request is for the configured
      length, 1024 when none is configured, or for what is left of the file. */
  lemma {:induction false} EveryRangeFits(handler: bool, fileSize: nat, range: nat, events: seq<Event>)
    requires fileSize > 0
    ensures Ranged(Run(Init(handler, fileSize, range), events), fileSize, Length(range))
  {
    hide Step, RangeFits;
    if events != [] {
      var front := events[..|events| - 1];
      EveryRangeFits(handler, fileSize, range, front);
      StepAsks(Run(Init(handler, fileSize, range), front), events[|events| - 1], fileSize, Length(range));
      hide Ranged;
    }
  }

  // ---------- downloads without failures

  /** The answer with all of the range that was asked for; the handler keeps the offset. */
  predicate FullReply(s: State, e: Event) {
    && e.Replied? && e.ok && e.sent && e.i < |s.asked| && s.asked[e.i].RangeQuery?
    && e.length == s.asked[e.i].hi - s.asked[e.i].lo + 1 && e.left == s.received
  }

  /** A start, and then nothing but full answers. */
  predicate Smooth(s: State, events: seq<Event>) {
    events != [] &&
    if |events| == 1 then events[0] == Started(true)
    else Smooth(s, events[..|events| - 1]) && FullReply(Run(s, events[..|events| - 1]), events[|events| - 1])
  }

  function Least(a: nat, b: nat): nat {
    if a < b then a else b
  }

  /** After `n` full answers. */
  ghost predicate Answered(s: State, fileSize: nat, length: nat, n: nat) {
    && s.handler && s.fileSize == fileSize && s.received == Least(n * length, fileSize)
    && (s.range == length || s.range == fileSize < length)
    && if n * length < fileSize then s.phase == DateGet && s.asked == [RangeQuery(n * length, Least((n + 1) * length, fileSize) - 1)]
       else s.phase == Complete && s.asked == [] && Finish in s.log
  }

  lemma OneMoreAnswer(s: State, e: Event, fileSize: nat, length: nat, n: nat)
    requires length > 0 && Answered(s, fileSize, length, n) && FullReply(s, e)
    ensures n * length < fileSize && Answered(Step(s, e), fileSize, length, n + 1)
  {
    assert (n + 1) * length == n * length + length && (n + 2) * length == n * length + 2 * length;
  }

  lemma FirstRequest(fileSize: nat, range: nat)
    requires fileSize > 0
    ensures Answered(Step(Init(true, fileSize, range), Started(true)), fileSize, Length(range), 0)
  {
  }

  lemma {:induction false} SmoothRun(fileSize: nat, range: nat, events: seq<Event>)
    requires fileSize > 0 && Smooth(Init(true, fileSize, range), events)
    ensures Answered(Run(Init(true, fileSize, range), events), fileSize, Length(range), |events| - 1)
    ensures |events| > 1 ==> (|events| - 2) * Length(range) < fileSize
  {
    hide Step, Answered, Init;
    var s := Init(true, fileSize, range);
    if |events| == 1 {
      assert events[..0] == [];
      FirstRequest(fileSize, range);
    } else {
      var front := events[..|events| - 1];
      SmoothRun(fileSize, range, front);
      OneMoreAnswer(Run(s, front), events[|events| - 1], fileSize, Length(range), |front| - 1);
    }
  }

  /** A download without failures, for every file size and configured length: it is complete after exactly the rounded-up
      quotient of the two, in full answers, and has then reported FINISH. */
  lemma AnswersNeeded(fileSize: nat, range: nat, events: seq<Event>)
    requires fileSize > 0 && Smooth(Init(true, fileSize, range), events)
    ensures var s, n := Run(Init(true, fileSize, range), events), (fileSize + Length(range) - 1) / Length(range);
      |events| - 1 <= n && (s.phase == Complete <==> |events| - 1 == n) && (s.phase == Complete ==> Finish in s.log)
  {
    hide Run, Init;
    SmoothRun(fileSize, range, events);
    RoundedUp(fileSize, Length(range), |events| - 1);
    if |events| > 1 {
      RoundedUp(fileSize, Length(range), |events| - 2);
    }
  }

  lemma RoundedUp(a: nat, b: nat, n: nat)
    requires b > 0
    ensures n * b < a <==> n < (a + b - 1) / b
  {
    var q, r := (a + b - 1) / b, (a + b - 1) % b;
    assert a + b - 1 == q * b + r;
    if n < q {
      Times(n, q - 1, b);
      assert (q - 1) * b == q * b - b;
    } else {
      Times(q, n, b);
    }
  }

  lemma Times(m: nat, n: nat, b: nat)
    requires m <= n
    ensures m * b <= n * b
  {
  }

  /** A concrete file: of 4096 bytes by 1024, bytes 0 to 1023 are asked for first. */
  lemma FirstOfFour(handler: bool)
    ensures Step(Init(handler, 4096, 1024), Started(true)).asked == [RangeQuery(0, 1023)]
  {
  }
}
