/**
 * The desync logger and the per-frame event handler of src/main.rs. The
 * rollback session queues events; each frame the handler first reports and
 * clears the "since last report" counter when the logging timer is due,
 * then drains the events: a disconnect or network interruption asks the app
 * to exit, a detected desync bumps both counters, anything else is only
 * logged.
 */
module Desync {
  import opened Wrappers

  /** `LogDesync` without its timer: the timer enters as a boolean per frame. */
  datatype LogDesync = LogDesync(total: nat, sinceReset: nat)

  /** The counters' invariant: desyncs since the last report are among all desyncs. */
  predicate Valid(log: LogDesync) {
    log.sinceReset <= log.total
  }

  /** `LogDesync::new`: no desyncs seen, none since the last report. */
  function New(): (log: LogDesync)
    ensures Valid(log)
    ensures log.total == 0 && log.sinceReset == 0
  {
    LogDesync(0, 0)
  }

  /** `LogDesync::increment`: one more desync, counted in both counters. */
  function Increment(log: LogDesync): (log': LogDesync)
    ensures log'.total == log.total + 1
    ensures log'.sinceReset == log.sinceReset + 1
    ensures Valid(log) ==> Valid(log')
  {
    LogDesync(log.total + 1, log.sinceReset + 1)
  }

  /** The session events; the handler ignores their payloads. */
  datatype GgrsEvent = Disconnected | NetworkInterrupted | DesyncDetected | OtherEvent(name: string)

  /** The three arms of the handler's `match`. */
  datatype Reaction = RequestExit | CountDesync | LogOnly

  function Classify(e: GgrsEvent): (r: Reaction)
    ensures r == RequestExit <==> e.Disconnected? || e.NetworkInterrupted?
    ensures r == CountDesync <==> e.DesyncDetected?
  {
    match e
    case Disconnected => RequestExit
    case NetworkInterrupted => RequestExit
    case DesyncDetected => CountDesync
    case OtherEvent(_) => LogOnly
  }

  /** How many events of a sequence get a given reaction. */
  ghost function Count(events: seq<GgrsEvent>, reaction: Reaction): (n: nat)
    ensures n <= |events|
  {
    if |events| == 0 then 0
    else (if Classify(events[0]) == reaction then 1 else 0) + Count(events[1..], reaction)
  }

  /** The debug line written when the counter is reported: the totals before clearing. */
  datatype Report = Report(total: nat, sinceReset: nat)

  datatype ResetOutcome = ResetOutcome(log: LogDesync, report: Option<Report>)

  /**
   * The reporting step at the top of `handle_ggrs_events`: when the timer is
   * due and some desyncs arrived since the last report, the counters are
   * reported and `sinceReset` is cleared; otherwise nothing changes.
   */
  function ResetStep(log: LogDesync, timerDue: bool): (r: ResetOutcome)
    ensures r.log.total == log.total
    ensures r.report.Some? <==> timerDue && log.sinceReset > 0
    ensures r.report.Some? ==> r.report.value == Report(log.total, log.sinceReset) && r.log.sinceReset == 0
    ensures r.report.None? ==> r.log == log
    ensures Valid(log) ==> Valid(r.log)
  {
    if timerDue && log.sinceReset > 0 then
      ResetOutcome(log.(sinceReset := 0), Some(Report(log.total, log.sinceReset)))
    else
      ResetOutcome(log, None)
  }

  /** The counters after draining events, and how many exit requests were sent. */
  datatype Dispatched = Dispatched(log: LogDesync, exits: nat)

  /** The reaction to one event. */
  function React(log: LogDesync, e: GgrsEvent): Dispatched {
    match Classify(e)
    case RequestExit => Dispatched(log, 1)
    case CountDesync => Dispatched(Increment(log), 0)
    case LogOnly => Dispatched(log, 0)
  }

  /**
   * The loop over `s.events()`, in queue order. Each desync adds one to both
   * counters, each disconnect or interruption sends one exit request, and
   * nothing else touches the counters.
   */
  function Dispatch(log: LogDesync, events: seq<GgrsEvent>): (r: Dispatched)
    ensures r.log.total == log.total + Count(events, CountDesync)
    ensures r.log.sinceReset == log.sinceReset + Count(events, CountDesync)
    ensures r.exits == Count(events, RequestExit)
    ensures Valid(log) ==> Valid(r.log)
    decreases |events|
  {
    if |events| == 0 then
      Dispatched(log, 0)
    else
      var first := React(log, events[0]);
      var rest := Dispatch(first.log, events[1..]);
      Dispatched(rest.log, first.exits + rest.exits)
  }

  /** Which kind of rollback session is running; only peer-to-peer sessions are drained. */
  datatype SessionKind = P2P | SyncTest | Spectator

  /** What one run of the handler leaves behind. */
  datatype Handled = Handled(log: LogDesync, report: Option<Report>, exits: nat)

  /** `handle_ggrs_events`: the reporting step, then the event loop for a peer-to-peer session. */
  function HandleGgrsEvents(log: LogDesync, timerDue: bool, session: SessionKind, events: seq<GgrsEvent>): (r: Handled)
    ensures Valid(log) ==> Valid(r.log)
    ensures r.log.total >= log.total
    ensures r.log.total == log.total + (if session == P2P then Count(events, CountDesync) else 0)
    ensures r.log.sinceReset ==
      (if timerDue && log.sinceReset > 0 then 0 else log.sinceReset)
      + (if session == P2P then Count(events, CountDesync) else 0)
    ensures r.exits == (if session == P2P then Count(events, RequestExit) else 0)
    ensures r.report.Some? <==> timerDue && log.sinceReset > 0
    ensures r.report.Some? ==> r.report.value == Report(log.total, log.sinceReset)
  {
    var reset := ResetStep(log, timerDue);
    if session == P2P then
      var d := Dispatch(reset.log, events);
      Handled(d.log, reset.report, d.exits)
    else
      Handled(reset.log, reset.report, 0)
  }

  /** A reaction happens in a sequence exactly when some event in it has that reaction. */
  lemma {:induction false} CountPositive(events: seq<GgrsEvent>, reaction: Reaction)
    ensures Count(events, reaction) > 0 <==> exists i :: 0 <= i < |events| && Classify(events[i]) == reaction
  {
    if |events| > 0 {
      CountPositive(events[1..], reaction);
      if Classify(events[0]) != reaction && Count(events[1..], reaction) == 0 {
        forall i | 0 <= i < |events|
          ensures Classify(events[i]) != reaction
        {
          if i > 0 {
            assert events[i] == events[1..][i - 1];
          }
        }
      } else if Classify(events[0]) != reaction {
        var j :| 0 <= j < |events[1..]| && Classify(events[1..][j]) == reaction;
        assert events[j + 1] == events[1..][j];
      }
    }
  }

  /** The app is asked to exit iff a peer-to-peer session queued a disconnect or an interruption. */
  lemma ExitIffDisconnect(log: LogDesync, timerDue: bool, session: SessionKind, events: seq<GgrsEvent>)
    ensures HandleGgrsEvents(log, timerDue, session, events).exits > 0 <==>
      session == P2P && exists i :: 0 <= i < |events| && (events[i].Disconnected? || events[i].NetworkInterrupted?)
  {
    CountPositive(events, RequestExit);
  }

  /** Counting distributes over concatenation. */
  lemma {:induction false} CountAppend(a: seq<GgrsEvent>, b: seq<GgrsEvent>, reaction: Reaction)
    ensures Count(a + b, reaction) == Count(a, reaction) + Count(b, reaction)
  {
    if |a| > 0 {
      assert (a + b)[1..] == a[1..] + b;
      CountAppend(a[1..], b, reaction);
    } else {
      assert a + b == b;
    }
  }

  /** Draining a queue in two batches gives the same counters and exits as draining it at once. */
  lemma DispatchAppend(log: LogDesync, a: seq<GgrsEvent>, b: seq<GgrsEvent>)
    ensures Dispatch(Dispatch(log, a).log, b).log == Dispatch(log, a + b).log
    ensures Dispatch(log, a).exits + Dispatch(Dispatch(log, a).log, b).exits == Dispatch(log, a + b).exits
  {
    CountAppend(a, b, CountDesync);
    CountAppend(a, b, RequestExit);
  }

  /** One frame's inputs to the handler. */
  datatype Frame = Frame(timerDue: bool, session: SessionKind, events: seq<GgrsEvent>)

  /** The handler run once per frame, from a given logger. */
  ghost function Run(log: LogDesync, frames: seq<Frame>): LogDesync
    decreases |frames|
  {
    if |frames| == 0 then log
    else Run(HandleGgrsEvents(log, frames[0].timerDue, frames[0].session, frames[0].events).log, frames[1..])
  }

  /** All desyncs a peer-to-peer session reported over a run. */
  ghost function DesyncsSeen(frames: seq<Frame>): nat
    decreases |frames|
  {
    if |frames| == 0 then 0
    else (if frames[0].session == P2P then Count(frames[0].events, CountDesync) else 0) + DesyncsSeen(frames[1..])
  }

  /**
   * Over any run starting from `LogDesync::new`, the total is the number of
   * desyncs reported, and the counters' invariant holds throughout.
   */
  lemma {:induction false} RunCountsEveryDesync(log: LogDesync, frames: seq<Frame>)
    requires Valid(log)
    ensures Valid(Run(log, frames))
    ensures Run(log, frames).total == log.total + DesyncsSeen(frames)
    decreases |frames|
  {
    if |frames| > 0 {
      var next := HandleGgrsEvents(log, frames[0].timerDue, frames[0].session, frames[0].events).log;
      RunCountsEveryDesync(next, frames[1..]);
    }
  }

  lemma RunFromNew(frames: seq<Frame>)
    ensures Valid(Run(New(), frames))
    ensures Run(New(), frames).total == DesyncsSeen(frames)
  {
    RunCountsEveryDesync(New(), frames);
  }
}
