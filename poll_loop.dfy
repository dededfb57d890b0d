/**
 * The body of `run`: a poll either raises a request error or yields a page,
 * the page is searched for the target CRN, and the pair
 * `(consecutive_failures, notified)` is updated. Each poll produces one
 * action: the single sleep that follows it, the notification it sends (if
 * any) and whether it logs "Class is full again.". The endless loop is cut
 * down to a finite sequence of polls; its end stands for the keyboard
 * interrupt.
 *
 * The code notifies on every poll that finds a seat open, whatever
 * `notified` says; the flag only decides when "full again" is logged.
 */
module PollLoop {
  import opened Wrappers
  import opened Extractor
  import opened Backoff

  /** What one call of `fetch_enrollment` ends in. */
  datatype Poll =
    | RequestError                 // `requests.RequestException`, including `raise_for_status`
    | Page(cells: seq<string>)     // the stripped `<td>` texts of the response

  datatype MonitorState = MonitorState(consecutiveFailures: nat, notified: bool)

  /** The content of one `notify` call: the spot count and the counts it quotes. */
  datatype Notice = Notice(spots: int, enrolled: int, limit: int)

  datatype Action = Action(sleepSeconds: nat, notice: Option<Notice>, fullAgain: bool)

  const Initial: MonitorState := MonitorState(0, false)

  function Wait(failures: nat): nat
  {
    BackoffWait(CheckIntervalSeconds, MaxBackoffSeconds, failures)
  }

  /** The `(enrolled, limit)` a poll yields; `None` for both failure paths. */
  function PollResult(p: Poll): (r: Option<(int, int)>)
    ensures r.Some? ==> p.Page?
  {
    match p
    case RequestError => None
    case Page(cells) => ExtractEnrollment(cells, TargetCrn)
  }

  /**
   * One iteration of the `while True` loop. Whatever the poll, the sleep is
   * at most the cap, a notice quotes a positive spot count and leaves
   * `notified` set, and "full again" is logged only when it clears the flag.
   */
  function Step(s: MonitorState, p: Poll): (r: (MonitorState, Action))
    ensures r.1.sleepSeconds <= MaxBackoffSeconds
    ensures r.1.notice.Some? ==> r.1.notice.value.spots > 0 && r.0.notified
    ensures r.1.fullAgain ==> s.notified && !r.0.notified
    ensures r.0.consecutiveFailures == 0 <==> PollResult(p).Some?
  {
    match p
    case RequestError =>
      var failures := s.consecutiveFailures + 1;
      (MonitorState(failures, s.notified), Action(Wait(failures), None, false))
    case Page(cells) =>
      match ExtractEnrollment(cells, TargetCrn)
      case None =>
        var failures := s.consecutiveFailures + 1;
        (MonitorState(failures, s.notified), Action(Wait(failures), None, false))
      case Some((enrl, lim)) =>
        if enrl < lim then
          (MonitorState(0, true), Action(CheckIntervalSeconds, Some(Notice(lim - enrl, enrl, lim)), false))
        else
          (MonitorState(0, false), Action(CheckIntervalSeconds, None, s.notified))
  }

  /** The state after a run of polls from the initial state. */
  function StateAfter(polls: seq<Poll>): MonitorState
  {
    if polls == [] then Initial
    else Step(StateAfter(polls[..|polls| - 1]), polls[|polls| - 1]).0
  }

  /** The actions a run of polls produces, one per poll. */
  function Trace(polls: seq<Poll>): seq<Action>
  {
    if polls == [] then []
    else
      var prefix := polls[..|polls| - 1];
      Trace(prefix) + [Step(StateAfter(prefix), polls[|polls| - 1]).1]
  }

  /** The result of the most recent successful poll, if there was one. */
  function LastSuccess(polls: seq<Poll>): Option<(int, int)>
  {
    if polls == [] then None
    else if PollResult(polls[|polls| - 1]).Some? then PollResult(polls[|polls| - 1])
    else LastSuccess(polls[..|polls| - 1])
  }

  /** The number of failed polls since the last successful one. */
  function TrailingFailures(polls: seq<Poll>): nat
  {
    if polls == [] then 0
    else if PollResult(polls[|polls| - 1]).Some? then 0
    else 1 + TrailingFailures(polls[..|polls| - 1])
  }

  predicate IsOpen(r: Option<(int, int)>)
  {
    r.Some? && r.value.0 < r.value.1
  }

  /** A request exception and an unusable page have the same effect. */
  lemma FailurePathsAgree(s: MonitorState, cells: seq<string>)
    requires ExtractEnrollment(cells, TargetCrn).None?
    ensures Step(s, Page(cells)) == Step(s, RequestError)
  {
  }

  /**
   * A failed poll counts one more failure, sleeps the backoff for the new
   * count instead of the base interval, sends nothing and leaves `notified`.
   */
  lemma StepOnFailure(s: MonitorState, p: Poll)
    requires PollResult(p).None?
    ensures Step(s, p).0 == MonitorState(s.consecutiveFailures + 1, s.notified)
    ensures Step(s, p).1 == Action(Wait(s.consecutiveFailures + 1), None, false)
    ensures Step(s, p).1.sleepSeconds <= MaxBackoffSeconds
  {
  }

  /**
   * A successful poll clears the failure count, sleeps the base interval,
   * sets `notified` to whether a seat is open, notifies exactly when a seat
   * is open (with a positive spot count) and logs "full again" exactly on
   * an open-to-full change.
   */
  lemma StepOnSuccess(s: MonitorState, p: Poll, enrl: int, lim: int)
    requires PollResult(p) == Some((enrl, lim))
    ensures Step(s, p).0 == MonitorState(0, enrl < lim)
    ensures Step(s, p).1.sleepSeconds == CheckIntervalSeconds
    ensures Step(s, p).1.notice.Some? <==> enrl < lim
    ensures Step(s, p).1.notice.Some? ==>
      Step(s, p).1.notice.value == Notice(lim - enrl, enrl, lim) && lim - enrl > 0
    ensures Step(s, p).1.fullAgain <==> s.notified && enrl >= lim
  {
  }

  /** Running one more poll extends the trace by that poll's action. */
  lemma RunOneMore(polls: seq<Poll>, p: Poll)
    ensures StateAfter(polls + [p]) == Step(StateAfter(polls), p).0
    ensures Trace(polls + [p]) == Trace(polls) + [Step(StateAfter(polls), p).1]
  {
  }

  /** The same, for the prefixes of one run of polls. */
  lemma RunPrefixStep(polls: seq<Poll>, k: nat)
    requires k < |polls|
    ensures StateAfter(polls[..k + 1]) == Step(StateAfter(polls[..k]), polls[k]).0
    ensures Trace(polls[..k + 1]) == Trace(polls[..k]) + [Step(StateAfter(polls[..k]), polls[k]).1]
  {
    assert polls[..k + 1] == polls[..k] + [polls[k]];
    RunOneMore(polls[..k], polls[k]);
  }

  lemma {:induction false} TraceLength(polls: seq<Poll>)
    ensures |Trace(polls)| == |polls|
  {
    if polls != [] {
      TraceLength(polls[..|polls| - 1]);
    }
  }

  /** The k-th action is the step of the k-th poll from the state the earlier polls left. */
  lemma {:induction false} TraceAt(polls: seq<Poll>, k: nat)
    requires k < |polls|
    ensures |Trace(polls)| == |polls|
    ensures Trace(polls)[k] == Step(StateAfter(polls[..k]), polls[k]).1
  {
    TraceLength(polls);
    var prefix := polls[..|polls| - 1];
    if k < |polls| - 1 {
      TraceAt(prefix, k);
      assert prefix[..k] == polls[..k];
      assert prefix[k] == polls[k];
    } else {
      assert prefix == polls[..k];
    }
  }

  /**
   * The state is determined by history: the failure count is the number of
   * failures since the last success, and `notified` says whether that
   * success saw an open seat.
   */
  lemma {:induction false} StateAfterSummary(polls: seq<Poll>)
    ensures StateAfter(polls) == MonitorState(TrailingFailures(polls), IsOpen(LastSuccess(polls)))
  {
    if polls != [] {
      StateAfterSummary(polls[..|polls| - 1]);
    }
  }

  /**
   * Level-triggered notification: poll k notifies exactly when it finds a
   * seat open, whatever came before, and the notice carries its counts.
   */
  lemma NotifiesOnEveryOpenPoll(polls: seq<Poll>, k: nat)
    requires k < |polls|
    ensures |Trace(polls)| == |polls|
    ensures Trace(polls)[k].notice.Some? <==> IsOpen(PollResult(polls[k]))
    ensures Trace(polls)[k].notice.Some? ==>
      var (enrl, lim) := PollResult(polls[k]).value;
      Trace(polls)[k].notice.value == Notice(lim - enrl, enrl, lim) && lim - enrl > 0
  {
    TraceAt(polls, k);
  }

  /** "Full again" is logged at poll k exactly when it finds the class full and the last earlier success found it open. */
  lemma FullAgainOnOpenToFull(polls: seq<Poll>, k: nat)
    requires k < |polls|
    ensures |Trace(polls)| == |polls|
    ensures Trace(polls)[k].fullAgain <==>
      PollResult(polls[k]).Some? && !IsOpen(PollResult(polls[k])) && IsOpen(LastSuccess(polls[..k]))
  {
    TraceAt(polls, k);
    StateAfterSummary(polls[..k]);
  }

  /**
   * Poll k is followed by exactly one sleep: the base interval after a
   * success, otherwise the backoff for the failures counted since the last
   * success, never more than the cap.
   */
  lemma SleepSchedule(polls: seq<Poll>, k: nat)
    requires k < |polls|
    ensures |Trace(polls)| == |polls|
    ensures Trace(polls)[k].sleepSeconds ==
      if PollResult(polls[k]).Some? then CheckIntervalSeconds
      else Wait(TrailingFailures(polls[..k]) + 1)
    ensures Trace(polls)[k].sleepSeconds <= MaxBackoffSeconds
  {
    TraceAt(polls, k);
    StateAfterSummary(polls[..k]);
    BackoffBounded(CheckIntervalSeconds, MaxBackoffSeconds, TrailingFailures(polls[..k]) + 1);
  }

  /** Full and then open: the second poll notifies once, quoting two spots. */
  lemma FullThenOpen(p1: Poll, p2: Poll)
    requires PollResult(p1) == Some((10, 10)) && PollResult(p2) == Some((8, 10))
    ensures Trace([p1, p2]) == [
      Action(CheckIntervalSeconds, None, false),
      Action(CheckIntervalSeconds, Some(Notice(2, 8, 10)), false)]
    ensures StateAfter([p1, p2]) == MonitorState(0, true)
  {
    StepOnSuccess(Initial, p1, 10, 10);
    StepOnSuccess(MonitorState(0, false), p2, 8, 10);
    RunOneMore([], p1);
    assert [] + [p1] == [p1];
    assert StateAfter([p1]) == MonitorState(0, false) && Trace([p1]) == [Action(CheckIntervalSeconds, None, false)];
    RunOneMore([p1], p2);
    assert [p1] + [p2] == [p1, p2];
  }

  /** Open and then full: the flag clears, "full again" is logged, nothing is sent. */
  lemma OpenThenFull(p1: Poll, p2: Poll)
    requires PollResult(p1) == Some((8, 10)) && PollResult(p2) == Some((10, 10))
    ensures Trace([p1, p2]) == [
      Action(CheckIntervalSeconds, Some(Notice(2, 8, 10)), false),
      Action(CheckIntervalSeconds, None, true)]
    ensures StateAfter([p1, p2]) == MonitorState(0, false)
  {
    StepOnSuccess(Initial, p1, 8, 10);
    StepOnSuccess(MonitorState(0, true), p2, 10, 10);
    RunOneMore([], p1);
    assert [] + [p1] == [p1];
    assert StateAfter([p1]) == MonitorState(0, true) && Trace([p1]) == [Action(CheckIntervalSeconds, Some(Notice(2, 8, 10)), false)];
    RunOneMore([p1], p2);
    assert [p1] + [p2] == [p1, p2];
  }

  /** Two open polls in a row notify twice: the flag does not suppress repeats. */
  lemma OpenTwiceNotifiesTwice(p1: Poll, p2: Poll)
    requires PollResult(p1) == Some((8, 10)) && PollResult(p2) == Some((8, 10))
    ensures Trace([p1, p2]) == [
      Action(CheckIntervalSeconds, Some(Notice(2, 8, 10)), false),
      Action(CheckIntervalSeconds, Some(Notice(2, 8, 10)), false)]
  {
    StepOnSuccess(Initial, p1, 8, 10);
    StepOnSuccess(MonitorState(0, true), p2, 8, 10);
    RunOneMore([], p1);
    assert [] + [p1] == [p1];
    assert StateAfter([p1]) == MonitorState(0, true) && Trace([p1]) == [Action(CheckIntervalSeconds, Some(Notice(2, 8, 10)), false)];
    RunOneMore([p1], p2);
    assert [p1] + [p2] == [p1, p2];
  }

  /** Three failures in a row from the start back off 600, 1200 and 1800 seconds. */
  lemma ThreeFailures()
    ensures Trace([RequestError, RequestError, RequestError]) ==
      [Action(600, None, false), Action(1200, None, false), Action(1800, None, false)]
    ensures StateAfter([RequestError, RequestError, RequestError]) == MonitorState(3, false)
  {
    var e := RequestError;
    ConfiguredSchedule(3);
    RunOneMore([], e);
    assert [e] == [] + [e];
    assert StateAfter([e]) == MonitorState(1, false);
    RunOneMore([e], e);
    assert [e, e] == [e] + [e];
    assert StateAfter([e, e]) == MonitorState(2, false);
    RunOneMore([e, e], e);
    assert [e, e, e] == [e, e] + [e];
  }

  /** After three failures a success resets the count and sleeps the base interval. */
  lemma FailuresThenSuccess(enrl: int, lim: int, p: Poll)
    requires PollResult(p) == Some((enrl, lim))
    ensures Trace([RequestError, RequestError, RequestError, p]) == [
      Action(600, None, false), Action(1200, None, false), Action(1800, None, false),
      Action(CheckIntervalSeconds, if enrl < lim then Some(Notice(lim - enrl, enrl, lim)) else None, false)]
    ensures StateAfter([RequestError, RequestError, RequestError, p]) == MonitorState(0, enrl < lim)
  {
    var e := RequestError;
    ThreeFailures();
    StepOnSuccess(MonitorState(3, false), p, enrl, lim);
    RunOneMore([e, e, e], p);
    assert [e, e, e, p] == [e, e, e] + [p];
  }

  /**
   * One pass of the body of `run`'s loop, on the locals
   * `consecutive_failures` and `notified`: it updates them as the code does
   * and reports the action of the iteration.
   */
  method HandlePoll(consecutiveFailures0: nat, notified0: bool, p: Poll)
    returns (consecutiveFailures: nat, notified: bool, action: Action)
    ensures (MonitorState(consecutiveFailures, notified), action)
      == Step(MonitorState(consecutiveFailures0, notified0), p)
  {
    ghost var before := MonitorState(consecutiveFailures0, notified0);
    consecutiveFailures, notified := consecutiveFailures0, notified0;
    match p {
      case RequestError =>
        consecutiveFailures := consecutiveFailures + 1;
        action := Action(Wait(consecutiveFailures), None, false);
        StepOnFailure(before, p);
      case Page(cells) =>
        var result := ExtractEnrollment(cells, TargetCrn);
        if result.None? {
          consecutiveFailures := consecutiveFailures + 1;
          action := Action(Wait(consecutiveFailures), None, false);
          StepOnFailure(before, p);
        } else {
          consecutiveFailures := 0;
          var (enrl, lim) := result.value;
          var notice: Option<Notice> := None;
          var fullAgain := false;
          if enrl < lim {
            notice := Some(Notice(lim - enrl, enrl, lim));
            if !notified {
              notified := true;
            }
          } else {
            if notified {
              fullAgain := true;
              notified := false;
            }
          }
          action := Action(CheckIntervalSeconds, notice, fullAgain);
          StepOnSuccess(before, p, enrl, lim);
        }
    }
  }

  /**
   * `run` with its `while True` cut to the given polls: the locals
   * `consecutive_failures` and `notified` start at `0` and `False` and are
   * updated poll by poll.
   */
  method Run(polls: seq<Poll>) returns (final: MonitorState, actions: seq<Action>)
    ensures final == StateAfter(polls) && actions == Trace(polls)
    ensures |actions| == |polls|
    ensures final.consecutiveFailures == TrailingFailures(polls)
    ensures final.notified == IsOpen(LastSuccess(polls))
  {
    var consecutiveFailures: nat := 0;
    var notified := false;
    actions := [];
    var k := 0;
    while k < |polls|
      invariant 0 <= k <= |polls|
      invariant MonitorState(consecutiveFailures, notified) == StateAfter(polls[..k])
      invariant actions == Trace(polls[..k])
    {
      var action: Action;
      consecutiveFailures, notified, action := HandlePoll(consecutiveFailures, notified, polls[k]);
      RunPrefixStep(polls, k);
      actions := actions + [action];
      k := k + 1;
    }
    assert polls[..k] == polls;
    final := MonitorState(consecutiveFailures, notified);
    TraceLength(polls);
    StateAfterSummary(polls);
  }
}
