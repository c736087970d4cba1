/**
 * `process_queue`: the worker that takes the queued videos in order through
 * `process_video`. It ends when the queue is exhausted, when a stop is seen
 * before a video, or when a video raises; whether the run is reported as
 * complete, and whether the progress bar returns to "ready", depends on one
 * more stop check each.
 *
 * What processing a video does is given as its outcome. The stop button is
 * cleared when the worker starts and is then seen through the worker's own
 * checks: the check before video `i` is check `i`, so a check after a video
 * that returned early because of a stop sees the stop.
 */
module Runner {
  import Queue
  import Pipeline

  /** The message boxes the worker shows. */
  datatype Dialog = QueueEmpty | Interrupted | AllDone | ProcessError(reason: Pipeline.Failure)

  /** The progress-bar states the worker sets itself. */
  datatype Bar = Complete | Ready

  /** How the loop over the queue ends. */
  datatype LoopEnd = Exhausted | InterruptedAt(index: nat) | RaisedAt(index: nat, reason: Pipeline.Failure)

  /** The loop from video `i` on: the stop check first, then the video, which may raise. */
  function LoopSpec(outcomes: seq<Pipeline.Outcome>, stop: Pipeline.StopOracle, i: nat): (e: LoopEnd)
    requires i <= |outcomes|
    ensures e.InterruptedAt? ==> i <= e.index < |outcomes|
    ensures e.RaisedAt? ==> i <= e.index < |outcomes|
    decreases |outcomes| - i
  {
    if i == |outcomes| then Exhausted
    else if stop.SetAt(i) then InterruptedAt(i)
    else if outcomes[i].Failed? then RaisedAt(i, outcomes[i].reason)
    else LoopSpec(outcomes, stop, i + 1)
  }

  /** How many videos were handed to `process_video`. */
  function Started(e: LoopEnd, n: nat): nat
  {
    match e
    case Exhausted => n
    case InterruptedAt(i) => i
    case RaisedAt(i, _) => i + 1
  }

  /** The stop checks the loop made. */
  function LoopChecks(e: LoopEnd, n: nat): nat
  {
    match e
    case Exhausted => n
    case InterruptedAt(i) => i + 1
    case RaisedAt(i, _) => i + 1
  }

  /** The dialogs after the loop: the interruption or the error, and "all done" when no stop is seen after it. */
  function EndDialogs(e: LoopEnd, stop: Pipeline.StopOracle, n: nat): seq<Dialog>
  {
    var c := LoopChecks(e, n);
    match e
    case RaisedAt(_, reason) => [ProcessError(reason)]
    case InterruptedAt(_) => [Interrupted] + (if stop.SetAt(c) then [] else [AllDone])
    case Exhausted => if stop.SetAt(c) then [] else [AllDone]
  }

  /** The bar states after the loop: "complete" with "all done", then "ready" when no stop is seen at the end. */
  function EndBars(e: LoopEnd, stop: Pipeline.StopOracle, n: nat): seq<Bar>
  {
    var c := LoopChecks(e, n);
    if e.RaisedAt? then (if stop.SetAt(c) then [] else [Ready])
    else (if stop.SetAt(c) then [] else [Complete]) + (if stop.SetAt(c + 1) then [] else [Ready])
  }

  /**
   * The stop flag is shared with `process_video` and never cleared during a
   * run: a video that returned early because of a stop leaves it set for
   * the worker's next check, which is check `k + 1` after video `k`.
   */
  predicate StopSticks(outcomes: seq<Pipeline.Outcome>, stop: Pipeline.StopOracle)
  {
    forall k :: 0 <= k < |outcomes| && outcomes[k] == Pipeline.Stopped ==> stop.SetAt(k + 1)
  }

  /** The worker's view of the window: buttons, dialogs, progress bar, and the videos processed. */
  class QueueRun {
    var buttonsEnabled: bool
    var dialogs: seq<Dialog>
    var bar: seq<Bar>
    var processed: seq<Queue.Job>

    constructor()
      ensures buttonsEnabled && dialogs == [] && bar == [] && processed == []
    {
      buttonsEnabled := true;
      dialogs := [];
      bar := [];
      processed := [];
    }

    /**
     * Runs the queue: the buttons are disabled for the run and enabled again
     * at its end; an empty queue only shows a message.
     */
    method ProcessQueue(queue: seq<Queue.Job>, outcomes: seq<Pipeline.Outcome>, stop: Pipeline.StopOracle)
      requires |outcomes| == |queue|
      requires StopSticks(outcomes, stop)
      modifies this
      ensures buttonsEnabled
      ensures queue == [] ==> processed == old(processed) && dialogs == old(dialogs) + [QueueEmpty] && bar == old(bar)
      ensures queue != [] ==>
        var e := LoopSpec(outcomes, stop, 0);
        Started(e, |queue|) <= |queue| &&
        processed == old(processed) + queue[..Started(e, |queue|)] &&
        dialogs == old(dialogs) + EndDialogs(e, stop, |queue|) &&
        bar == old(bar) + EndBars(e, stop, |queue|)
    {
      buttonsEnabled := false;
      if queue == [] {
        dialogs := dialogs + [QueueEmpty];
        buttonsEnabled := true;
        return;
      }
      var end := Exhausted;
      var i := 0;
      while i < |queue|
        invariant i <= |queue|
        invariant LoopSpec(outcomes, stop, 0) == LoopSpec(outcomes, stop, i)
        invariant processed == old(processed) + queue[..i]
        invariant dialogs == old(dialogs) && bar == old(bar)
      {
        if stop.SetAt(i) {
          end := InterruptedAt(i);
          break;
        }
        processed := processed + [queue[i]];
        if outcomes[i].Failed? {
          end := RaisedAt(i, outcomes[i].reason);
          break;
        }
        i := i + 1;
      }
      Finish(end, stop, |queue|);
    }

    /** After the loop: the interruption or error dialog, the completion report, and the final bar. */
    method Finish(end: LoopEnd, stop: Pipeline.StopOracle, n: nat)
      modifies this`dialogs, this`bar, this`buttonsEnabled
      ensures dialogs == old(dialogs) + EndDialogs(end, stop, n)
      ensures bar == old(bar) + EndBars(end, stop, n)
      ensures buttonsEnabled
    {
      var c := LoopChecks(end, n);
      if end.RaisedAt? {
        dialogs := dialogs + [ProcessError(end.reason)];
      } else {
        if end.InterruptedAt? {
          dialogs := dialogs + [Interrupted];
        }
        if !stop.SetAt(c) {
          dialogs := dialogs + [AllDone];
          bar := bar + [Complete];
        }
        c := c + 1;
      }
      buttonsEnabled := true;
      if !stop.SetAt(c) {
        bar := bar + [Ready];
      }
    }
  }

  /**
   * "All done" is shown exactly when every video ran without raising and no
   * stop was seen, before any video or after the last one.
   */
  lemma {:induction false} AllDoneExactly(outcomes: seq<Pipeline.Outcome>, stop: Pipeline.StopOracle, i: nat)
    requires i <= |outcomes|
    ensures AllDone in EndDialogs(LoopSpec(outcomes, stop, i), stop, |outcomes|) <==>
      (forall j :: i <= j < |outcomes| ==> !outcomes[j].Failed?) && !stop.SetAt(|outcomes|)
    decreases |outcomes| - i
  {
    if i < |outcomes| {
      if stop.SetAt(i) {
        assert stop.SetAt(i + 1);
        if forall j :: i <= j < |outcomes| ==> !outcomes[j].Failed? {
          assert stop.SetAt(|outcomes|);
        }
      } else if outcomes[i].Failed? {
      } else {
        AllDoneExactly(outcomes, stop, i + 1);
      }
    }
  }

  /** Without a stop and without an error, every video is processed. */
  lemma {:induction false} UninterruptedRunsAll(outcomes: seq<Pipeline.Outcome>, i: nat)
    requires i <= |outcomes|
    requires forall j :: i <= j < |outcomes| ==> !outcomes[j].Failed?
    ensures LoopSpec(outcomes, Pipeline.Never, i) == Exhausted
    decreases |outcomes| - i
  {
    if i < |outcomes| {
      UninterruptedRunsAll(outcomes, i + 1);
    }
  }

  /**
   * A video that returned early because of a stop is the last one handed
   * to `process_video`: the check before the next one sees the stop.
   */
  lemma {:induction false} NothingAfterStop(outcomes: seq<Pipeline.Outcome>, stop: Pipeline.StopOracle, i: nat, k: nat)
    requires StopSticks(outcomes, stop)
    requires i <= k < |outcomes| && outcomes[k] == Pipeline.Stopped
    ensures Started(LoopSpec(outcomes, stop, i), |outcomes|) <= k + 1
    decreases |outcomes| - i
  {
    if i <= k && !stop.SetAt(i) && !outcomes[i].Failed? {
      if i == k {
        assert stop.SetAt(k + 1);
        if k + 1 < |outcomes| {
          assert LoopSpec(outcomes, stop, k + 1) == InterruptedAt(k + 1);
        }
      } else {
        NothingAfterStop(outcomes, stop, i + 1, k);
      }
    }
  }

  /** A video that returned because of a stop keeps "all done" from being shown. */
  lemma StoppedHidesAllDone(outcomes: seq<Pipeline.Outcome>, stop: Pipeline.StopOracle, k: nat)
    requires StopSticks(outcomes, stop) && k < |outcomes| && outcomes[k] == Pipeline.Stopped
    ensures AllDone !in EndDialogs(LoopSpec(outcomes, stop, 0), stop, |outcomes|)
  {
    AllDoneExactly(outcomes, stop, 0);
    assert stop.SetAt(k + 1);
  }

  /** An error ends the run at the first video that raises, and none after it is processed. */
  lemma {:induction false} FirstErrorEnds(outcomes: seq<Pipeline.Outcome>, stop: Pipeline.StopOracle, i: nat)
    requires i <= |outcomes| && LoopSpec(outcomes, stop, i).RaisedAt?
    ensures var e := LoopSpec(outcomes, stop, i);
      outcomes[e.index].Failed? && e.reason == outcomes[e.index].reason &&
      (forall j :: i <= j < e.index ==> !outcomes[j].Failed?) &&
      !stop.SetAt(e.index)
    decreases |outcomes| - i
  {
    if !stop.SetAt(i) && !outcomes[i].Failed? {
      FirstErrorEnds(outcomes, stop, i + 1);
    }
  }
}
