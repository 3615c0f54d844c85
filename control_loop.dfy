// The order of steps in jackwsmeter's main loop: read_peaks first and
// unconditionally, then the pacing gate, then poll() and the libwebsockets
// service calls. The clock, poll() and the service calls are inputs of each
// iteration; the audio callback, which really runs on its own thread, is
// placed once before each read.
module ControlLoop {
  import opened Peaks
  import opened Pacing

  /** What the world supplies to one iteration of the loop. */
  datatype Tick = Tick(
    forceExit: bool,        // `force_exit` as the loop test reads it
    nowUs: uint32,          // `(unsigned int)tv.tv_usec` from gettimeofday
    audio: seq<Port>,       // the process_peak callback run since the previous read
    nframes: nat,           // its block length
    polled: int,            // the result of poll()
    serviceFdFailed: bool,  // some libwebsocket_service_fd call returned a negative value
    serviced: int)          // the result of libwebsocket_service

  /** What the loop does, step by step. `Broadcast` is the call to
      libwebsocket_callback_on_writable_all_protocol, with the time it fired
      and the meters' `sent_peaks` at the time of the request; the frames
      themselves are built later, when the writable callbacks run. */
  datatype Step = ReadPeaks | Broadcast(atUs: uint32, snapshot: seq<real>) | Poll | ServiceFds | Service

  /** The outcome of one iteration: its steps, the new `oldus`, the new `n`,
      and whether it left through `goto done`. */
  datatype Round = Round(steps: seq<Step>, oldus: uint32, n: int, done: bool)

  /** The audio callback of a tick covers the `num_meters` ports, each block of
      a registered port holding `nframes` samples. */
  ghost predicate TickFits(t: Tick, numMeters: nat)
  {
    |t.audio| == numMeters &&
    forall p :: 0 <= p < numMeters && t.audio[p].Registered? ==> |t.audio[p].samples| == t.nframes
  }

  ghost predicate WellFormed(ticks: seq<Tick>, numMeters: nat)
  {
    forall k :: 0 <= k < |ticks| ==> TickFits(ticks[k], numMeters)
  }

  /** The first steps of an iteration: read_peaks, then a broadcast if the gate
      fires, then poll(). `sent` is what read_peaks copied to `sent_peaks`. */
  function Gated(t: Tick, oldus: uint32, sent: seq<real>, numMeters: nat): seq<Step>
    requires numMeters <= |sent|
  {
    [ReadPeaks] + (if Fires(t.nowUs, oldus) then [Broadcast(t.nowUs, sent[..numMeters])] else []) + [Poll]
  }

  /** The service steps after poll(): none when poll() failed, ServiceFds when
      it reported activity, then libwebsocket_service unless a descriptor's
      service failed. */
  function Serviced(t: Tick): seq<Step>
  {
    if t.polled < 0 then []
    else if t.polled != 0 && t.serviceFdFailed then [ServiceFds]
    else (if t.polled != 0 then [ServiceFds] else []) + [Service]
  }

  /** One pass through the loop body, from the peaks left by the previous one. */
  function Iteration(t: Tick, oldus: uint32, peaks: seq<real>, numMeters: nat): Round
    requires |peaks| == MaxMeters && numMeters <= MaxMeters && |t.audio| <= MaxMeters
  {
    var steps := Gated(t, oldus, ProcessedPeaks(peaks, t.audio), numMeters) + Serviced(t);
    var rearmed := Rearmed(t.nowUs, oldus);
    if t.polled < 0 then Round(steps, rearmed, t.polled, false)
    else if t.polled != 0 && t.serviceFdFailed then Round(steps, rearmed, t.polled, true)
    else Round(steps, rearmed, t.serviced, false)
  }

  /** The steps of the loop over the ticks from position k on, while
      `n >= 0 && !force_exit` and no service call failed. */
  function Trace(ticks: seq<Tick>, k: nat, oldus: uint32, peaks: seq<real>, numMeters: nat): seq<Step>
    requires k <= |ticks| && |peaks| == MaxMeters && numMeters <= MaxMeters && WellFormed(ticks, numMeters)
    decreases |ticks| - k
  {
    if k == |ticks| || ticks[k].forceExit then []
    else
      assert TickFits(ticks[k], numMeters);
      var r := Iteration(ticks[k], oldus, peaks, numMeters);
      r.steps + (if r.done || r.n < 0 then [] else Trace(ticks, k + 1, r.oldus, Zeros(MaxMeters), numMeters))
  }

  /** `sent_peaks` after the loop over the ticks from position k on, from
      `peaks` and `sent`: the copy made by the read_peaks of the last iteration
      that runs, or `sent` when none runs. */
  function LastSent(ticks: seq<Tick>, k: nat, oldus: uint32, peaks: seq<real>, sent: seq<real>, numMeters: nat): seq<real>
    requires k <= |ticks| && |peaks| == MaxMeters && numMeters <= MaxMeters && WellFormed(ticks, numMeters)
    decreases |ticks| - k
  {
    if k == |ticks| || ticks[k].forceExit then sent
    else
      assert TickFits(ticks[k], numMeters);
      var r := Iteration(ticks[k], oldus, peaks, numMeters);
      var read := ProcessedPeaks(peaks, ticks[k].audio);
      if r.done || r.n < 0 then read else LastSent(ticks, k + 1, r.oldus, Zeros(MaxMeters), read, numMeters)
  }

  /** One pass through the body of the main loop: the audio callback, read_peaks,
      the pacing gate, poll() and the service calls. `r.done` is `goto done`. */
  method RunIteration(buffer: PeakBuffer, t: Tick, oldus: uint32, numMeters: nat) returns (r: Round)
    requires buffer.Valid() && numMeters <= MaxMeters && TickFits(t, numMeters)
    modifies buffer.peaks, buffer.sentPeaks
    ensures buffer.Valid()
    ensures r == Iteration(t, oldus, old(buffer.peaks[..]), numMeters)
    ensures buffer.sentPeaks[..] == ProcessedPeaks(old(buffer.peaks[..]), t.audio)
    ensures buffer.peaks[..] == Zeros(MaxMeters)
  {
    // the audio thread's callback, placed before the read
    buffer.ProcessPeak(t.audio, t.nframes);
    buffer.ReadPeaks();
    var steps := [ReadPeaks];
    var newOldus := oldus;
    if Fires(t.nowUs, oldus) {
      steps := steps + [Broadcast(t.nowUs, buffer.sentPeaks[..numMeters])];
      newOldus := t.nowUs;
    }
    var n := t.polled;
    steps := steps + [Poll];
    if n < 0 {
      return Round(steps, newOldus, n, false);
    }
    if n != 0 {
      steps := steps + [ServiceFds];
      if t.serviceFdFailed {
        return Round(steps, newOldus, n, true);
      }
    }
    n := t.serviced;
    steps := steps + [Service];
    return Round(steps, newOldus, n, false);
  }

  /** The main loop of jackwsmeter over the ticks, from `oldus == 0` and `n == 0`. */
  method RunLoop(buffer: PeakBuffer, numMeters: nat, ticks: seq<Tick>) returns (log: seq<Step>)
    requires buffer.Valid() && 1 <= numMeters <= MaxMeters && WellFormed(ticks, numMeters)
    modifies buffer.peaks, buffer.sentPeaks
    ensures buffer.Valid()
    ensures log == Trace(ticks, 0, 0, old(buffer.peaks[..]), numMeters)
    ensures buffer.sentPeaks[..] == LastSent(ticks, 0, 0, old(buffer.peaks[..]), old(buffer.sentPeaks[..]), numMeters)
    ensures ticks != [] && !ticks[0].forceExit ==> buffer.peaks[..] == Zeros(MaxMeters)
    ensures ticks == [] || ticks[0].forceExit ==>
      buffer.peaks[..] == old(buffer.peaks[..]) && buffer.sentPeaks[..] == old(buffer.sentPeaks[..])
  {
    ghost var goal := Trace(ticks, 0, 0, buffer.peaks[..], numMeters);
    ghost var goalSent := LastSent(ticks, 0, 0, buffer.peaks[..], buffer.sentPeaks[..], numMeters);
    var oldus: uint32 := 0;
    var n := 0;
    var k := 0;
    log := [];
    while n >= 0 && k < |ticks| && !ticks[k].forceExit
      invariant buffer.Valid()
      invariant 0 <= k <= |ticks|
      invariant Remaining(ticks, numMeters, k, oldus, n, buffer.peaks[..], buffer.sentPeaks[..], log, goal, goalSent)
      invariant k == 0 ==> n == 0 && buffer.peaks[..] == old(buffer.peaks[..]) && buffer.sentPeaks[..] == old(buffer.sentPeaks[..])
      invariant k > 0 ==> !ticks[0].forceExit && buffer.peaks[..] == Zeros(MaxMeters)
      decreases |ticks| - k
    {
      LoopStep(ticks, numMeters, k, oldus, n, buffer.peaks[..], buffer.sentPeaks[..], log, goal, goalSent);
      var r := RunIteration(buffer, ticks[k], oldus, numMeters);
      log := log + r.steps;
      oldus := r.oldus;
      n := r.n;
      k := k + 1;
      if r.done {
        break;  // goto done
      }
    }
  }

  /** What is left of the loop at tick k, with `oldus`, `n`, the buffer's
      `peaks` and `sent_peaks`, and the steps logged so far: once `n` is
      negative the log and `sent_peaks` are final; before that, the loop from
      tick k completes both. */
  ghost predicate Remaining(ticks: seq<Tick>, numMeters: nat, k: nat, oldus: uint32, n: int,
                            peaks: seq<real>, sent: seq<real>, log: seq<Step>, goal: seq<Step>, goalSent: seq<real>)
  {
    && k <= |ticks| && |peaks| == MaxMeters && numMeters <= MaxMeters && WellFormed(ticks, numMeters)
    && (n < 0 ==> log == goal && sent == goalSent)
    && (n >= 0 ==> log + Trace(ticks, k, oldus, peaks, numMeters) == goal
                   && LastSent(ticks, k, oldus, peaks, sent, numMeters) == goalSent)
  }

  /** The loop from tick k is that tick's iteration followed, unless it ended
      the loop, by the loop from tick k + 1 with the peaks zeroed: so after the
      iteration either `goto done` leaves the log and the read of `sent_peaks`
      final, or what is left is the loop from tick k + 1. */
  lemma LoopStep(ticks: seq<Tick>, numMeters: nat, k: nat, oldus: uint32, n: int,
                 peaks: seq<real>, sent: seq<real>, log: seq<Step>, goal: seq<Step>, goalSent: seq<real>)
    requires k < |ticks| && !ticks[k].forceExit && n >= 0
    requires Remaining(ticks, numMeters, k, oldus, n, peaks, sent, log, goal, goalSent)
    ensures TickFits(ticks[k], numMeters)
    ensures var r := Iteration(ticks[k], oldus, peaks, numMeters);
      var read := ProcessedPeaks(peaks, ticks[k].audio);
      && (r.done ==> log + r.steps == goal && read == goalSent)
      && (!r.done ==> Remaining(ticks, numMeters, k + 1, r.oldus, r.n, Zeros(MaxMeters), read, log + r.steps, goal, goalSent))
  {
    assert TickFits(ticks[k], numMeters);
    var r := Iteration(ticks[k], oldus, peaks, numMeters);
    var tail := if r.done || r.n < 0 then [] else Trace(ticks, k + 1, r.oldus, Zeros(MaxMeters), numMeters);
    assert Trace(ticks, k, oldus, peaks, numMeters) == r.steps + tail;
    assert log + r.steps + tail == goal;
    if r.done {
      assert r.steps + tail == r.steps;
    }
  }

  /** The steps appear in the loop's order: every iteration starts with
      ReadPeaks, whether or not it broadcasts; a Broadcast comes right after
      ReadPeaks; Poll comes right after ReadPeaks or Broadcast; ServiceFds right
      after Poll; Service right after Poll or ServiceFds; and an iteration is
      never cut short before its Poll. */
  ghost predicate InLoopOrder(log: seq<Step>)
  {
    && (log != [] ==> log[0] == ReadPeaks && AfterPoll(log[|log| - 1]))
    && (forall i :: 0 < i < |log| ==> Follows(log[i - 1], log[i]))
  }

  /** A step an iteration can end with: poll() or one of the service calls. */
  predicate AfterPoll(s: Step)
  {
    s == Poll || s == ServiceFds || s == Service
  }

  /** Which step may come right before which. */
  predicate Follows(prev: Step, next: Step)
  {
    match next
    case ReadPeaks => AfterPoll(prev)
    case Broadcast(_, _) => prev == ReadPeaks
    case Poll => prev == ReadPeaks || prev.Broadcast?
    case ServiceFds => prev == Poll
    case Service => prev == Poll || prev == ServiceFds
  }

  /** Two runs of whole iterations in loop order make one. */
  lemma ConcatInLoopOrder(a: seq<Step>, b: seq<Step>)
    requires InLoopOrder(a) && InLoopOrder(b)
    ensures InLoopOrder(a + b)
  {
    var ab := a + b;
    assert forall i :: |a| <= i < |ab| ==> ab[i] == b[i - |a|];
  }

  /** Every iteration is in loop order. */
  lemma IterationInLoopOrder(t: Tick, oldus: uint32, peaks: seq<real>, numMeters: nat)
    requires |peaks| == MaxMeters && numMeters <= MaxMeters && |t.audio| <= MaxMeters
    ensures InLoopOrder(Iteration(t, oldus, peaks, numMeters).steps)
  {
    var g := Gated(t, oldus, ProcessedPeaks(peaks, t.audio), numMeters);
    var b := if Fires(t.nowUs, oldus) then [g[1]] else [];
    assert g == [ReadPeaks] + b + [Poll];
    assert Iteration(t, oldus, peaks, numMeters).steps == [ReadPeaks] + b + [Poll] + Serviced(t);
  }

  /** The whole loop is in loop order. */
  lemma {:induction false} TraceInLoopOrder(ticks: seq<Tick>, k: nat, oldus: uint32, peaks: seq<real>, numMeters: nat)
    requires k <= |ticks| && |peaks| == MaxMeters && numMeters <= MaxMeters && WellFormed(ticks, numMeters)
    ensures InLoopOrder(Trace(ticks, k, oldus, peaks, numMeters))
    decreases |ticks| - k
  {
    if k < |ticks| && !ticks[k].forceExit {
      assert TickFits(ticks[k], numMeters);
      var r := Iteration(ticks[k], oldus, peaks, numMeters);
      IterationInLoopOrder(ticks[k], oldus, peaks, numMeters);
      if !(r.done || r.n < 0) {
        TraceInLoopOrder(ticks, k + 1, r.oldus, Zeros(MaxMeters), numMeters);
        ConcatInLoopOrder(r.steps, Trace(ticks, k + 1, r.oldus, Zeros(MaxMeters), numMeters));
      } else {
        assert r.steps + [] == r.steps;
      }
    }
  }

  /** The time of the last Broadcast among the steps, or `init` if there is none:
      the value `oldus` holds after those steps. */
  function LastBroadcastAt(steps: seq<Step>, init: uint32): uint32
  {
    if steps == [] then init
    else if steps[|steps| - 1].Broadcast? then steps[|steps| - 1].atUs
    else LastBroadcastAt(steps[..|steps| - 1], init)
  }

  lemma {:induction false} LastBroadcastConcat(a: seq<Step>, b: seq<Step>, init: uint32)
    ensures LastBroadcastAt(a + b, init) == LastBroadcastAt(b, LastBroadcastAt(a, init))
    decreases |b|
  {
    if b == [] {
      assert a + b == a;
    } else {
      assert (a + b)[..|a + b| - 1] == a + b[..|b| - 1];
      LastBroadcastConcat(a, b[..|b| - 1], init);
    }
  }

  /** The gate steps broadcast exactly when the gate fires, recording `sent`,
      and end with `oldus` at the time of that broadcast, if any. */
  lemma GatedBroadcast(t: Tick, oldus: uint32, sent: seq<real>, numMeters: nat)
    requires numMeters <= |sent|
    ensures var s := Gated(t, oldus, sent, numMeters);
      && (Fires(t.nowUs, oldus) <==> exists i :: 0 <= i < |s| && s[i].Broadcast?)
      && (forall i :: 0 <= i < |s| && s[i].Broadcast? ==> i == 1 && s[i] == Broadcast(t.nowUs, sent[..numMeters]))
      && LastBroadcastAt(s, oldus) == Rearmed(t.nowUs, oldus)
  {
    var s := Gated(t, oldus, sent, numMeters);
    if Fires(t.nowUs, oldus) {
      assert s[1].Broadcast?;
      assert s[..|s| - 1] == [ReadPeaks, s[1]];
    } else {
      assert s == [ReadPeaks, Poll];
      assert s[..1] == [ReadPeaks] && [ReadPeaks][..0] == [];
      assert LastBroadcastAt([ReadPeaks], oldus) == oldus;
    }
  }

  /** One iteration broadcasts exactly when the gate fires, recording the
      `sent_peaks` that read_peaks has just copied, and leaves `oldus` at the
      time of its broadcast, if any. */
  lemma IterationGate(t: Tick, oldus: uint32, peaks: seq<real>, numMeters: nat)
    requires |peaks| == MaxMeters && numMeters <= MaxMeters && |t.audio| <= MaxMeters
    ensures var r := Iteration(t, oldus, peaks, numMeters);
      && (Fires(t.nowUs, oldus) <==> exists i :: 0 <= i < |r.steps| && r.steps[i].Broadcast?)
      && (forall i :: 0 <= i < |r.steps| && r.steps[i].Broadcast? ==>
            i == 1 && r.steps[i] == Broadcast(t.nowUs, ProcessedPeaks(peaks, t.audio)[..numMeters]))
      && r.oldus == LastBroadcastAt(r.steps, oldus)
  {
    var sent := ProcessedPeaks(peaks, t.audio);
    var g := Gated(t, oldus, sent, numMeters);
    var v := Serviced(t);
    var s := Iteration(t, oldus, peaks, numMeters).steps;
    assert s == g + v;
    GatedBroadcast(t, oldus, sent, numMeters);
    ServicedNoBroadcast(t);
    forall i | 0 <= i < |s| && s[i].Broadcast?
      ensures i == 1 && s[i] == Broadcast(t.nowUs, sent[..numMeters])
    {
      assert s[i] == g[i];
    }
    if Fires(t.nowUs, oldus) {
      assert s[1] == g[1];
    }
    LastBroadcastConcat(g, v, oldus);
    NoBroadcastKeeps(v, LastBroadcastAt(g, oldus));
  }

  /** One iteration is paced: its broadcast, if any, fires against `oldus`. */
  lemma IterationPaced(t: Tick, oldus: uint32, peaks: seq<real>, numMeters: nat)
    requires |peaks| == MaxMeters && numMeters <= MaxMeters && |t.audio| <= MaxMeters
    ensures Paced(Iteration(t, oldus, peaks, numMeters).steps, oldus)
  {
    var s := Iteration(t, oldus, peaks, numMeters).steps;
    IterationGate(t, oldus, peaks, numMeters);
    if Fires(t.nowUs, oldus) {
      assert s[..1] == [ReadPeaks] && [ReadPeaks][..0] == [];
      assert LastBroadcastAt(s[..1], oldus) == oldus;
    }
  }

  /** No service step is a broadcast. */
  lemma ServicedNoBroadcast(t: Tick)
    ensures forall i :: 0 <= i < |Serviced(t)| ==> !Serviced(t)[i].Broadcast?
  {
  }

  lemma {:induction false} NoBroadcastKeeps(steps: seq<Step>, init: uint32)
    requires forall i :: 0 <= i < |steps| ==> !steps[i].Broadcast?
    ensures LastBroadcastAt(steps, init) == init
    decreases |steps|
  {
    if steps != [] {
      NoBroadcastKeeps(steps[..|steps| - 1], init);
    }
  }

  /** Pacing over the whole loop: every Broadcast fires the gate against the
      time of the previous Broadcast (or the initial `oldus`), so that, away
      from a wrap of the clock field, two broadcasts are more than 100 ms
      apart. */
  lemma {:induction false} TracePaced(ticks: seq<Tick>, k: nat, oldus: uint32, peaks: seq<real>, numMeters: nat)
    requires k <= |ticks| && |peaks| == MaxMeters && numMeters <= MaxMeters && WellFormed(ticks, numMeters)
    ensures Paced(Trace(ticks, k, oldus, peaks, numMeters), oldus)
    decreases |ticks| - k
  {
    if k < |ticks| && !ticks[k].forceExit {
      assert TickFits(ticks[k], numMeters);
      var r := Iteration(ticks[k], oldus, peaks, numMeters);
      IterationGate(ticks[k], oldus, peaks, numMeters);
      IterationPaced(ticks[k], oldus, peaks, numMeters);
      if r.done || r.n < 0 {
        assert Trace(ticks, k, oldus, peaks, numMeters) == r.steps + [];
        PacedConcat(r.steps, [], oldus);
      } else {
        TracePaced(ticks, k + 1, r.oldus, Zeros(MaxMeters), numMeters);
        PacedConcat(r.steps, Trace(ticks, k + 1, r.oldus, Zeros(MaxMeters), numMeters), oldus);
      }
    }
  }

  /** Every Broadcast among the steps fires the gate against the time of the
      Broadcast before it, or against `init` for the first one. */
  ghost predicate Paced(log: seq<Step>, init: uint32)
  {
    forall j :: 0 <= j < |log| && log[j].Broadcast? ==> Fires(log[j].atUs, LastBroadcastAt(log[..j], init))
  }

  /** Paced steps followed by steps paced from where they left `oldus` are paced. */
  lemma PacedConcat(a: seq<Step>, b: seq<Step>, init: uint32)
    requires Paced(a, init) && Paced(b, LastBroadcastAt(a, init))
    ensures Paced(a + b, init)
  {
    var ab := a + b;
    forall j | 0 <= j < |ab| && ab[j].Broadcast?
      ensures Fires(ab[j].atUs, LastBroadcastAt(ab[..j], init))
    {
      if j < |a| {
        assert ab[j] == a[j] && ab[..j] == a[..j];
      } else {
        var j' := j - |a|;
        assert ab[j] == b[j'] && ab[..j] == a + b[..j'];
        LastBroadcastConcat(a, b[..j'], init);
      }
    }
  }

  /** From the second iteration on the peaks start at zero, so a broadcast request
      records, for each meter before the first unregistered port, the largest
      |sample| of the block processed since the previous read (0 for an empty
      block), and 0 for the other meters. */
  lemma BroadcastIsIntervalPeak(t: Tick, oldus: uint32, numMeters: nat)
    requires numMeters <= MaxMeters && TickFits(t, numMeters) && Fires(t.nowUs, oldus)
    ensures var s := Iteration(t, oldus, Zeros(MaxMeters), numMeters).steps[1];
      && s.Broadcast? && |s.snapshot| == numMeters
      && (forall c, i :: 0 <= c < FirstUnregistered(t.audio) && 0 <= i < t.nframes ==>
            Abs(t.audio[c].samples[i]) <= s.snapshot[c])
      && (forall c :: 0 <= c < FirstUnregistered(t.audio) ==>
            s.snapshot[c] == 0.0 || exists i :: 0 <= i < t.nframes && s.snapshot[c] == Abs(t.audio[c].samples[i]))
      && (forall c :: FirstUnregistered(t.audio) <= c < numMeters ==> s.snapshot[c] == 0.0)
  {
    ProcessedIsRunningMax(Zeros(MaxMeters), t.audio);
  }
}
