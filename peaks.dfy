// The shared peak buffer of jackwsmeter: `peaks`, the running maximum of the
// absolute sample values of each channel since the last read, written by the
// audio callback process_peak, and `sent_peaks`, the copy read_peaks hands to
// the broadcaster before zeroing `peaks`.
module Peaks {

  /** MAX_METERS: the number of channel slots in both arrays. */
  const MaxMeters: nat := 10

  /** An entry of `input_ports`: not yet registered (a null pointer), or a
      registered port together with the block of samples that
      `jack_port_get_buffer` yields for it in this callback. */
  datatype Port = Unregistered | Registered(samples: seq<real>)

  /** `fabs` */
  function Abs(x: real): real
  {
    if x < 0.0 then -x else x
  }

  /** All channels at zero, as after `memset(peaks, 0, sizeof(peaks))`. */
  function Zeros(n: nat): seq<real>
  {
    seq(n, _ => 0.0)
  }

  /** The value the inner loop of process_peak leaves in `peaks[port]`,
      starting from `acc` and going through `block` in order. */
  function Raise(acc: real, block: seq<real>): real
  {
    if block == [] then acc
    else
      var prev := Raise(acc, block[..|block| - 1]);
      var s := Abs(block[|block| - 1]);
      if s > prev then s else prev
  }

  /** The running value is the maximum of the starting value and every |sample|:
      it bounds them all and is one of them. */
  lemma {:induction false} RaiseIsMax(acc: real, block: seq<real>)
    ensures acc <= Raise(acc, block)
    ensures forall i :: 0 <= i < |block| ==> Abs(block[i]) <= Raise(acc, block)
    ensures Raise(acc, block) == acc || exists i :: 0 <= i < |block| && Raise(acc, block) == Abs(block[i])
  {
    if block != [] {
      var front := block[..|block| - 1];
      RaiseIsMax(acc, front);
      assert forall i :: 0 <= i < |front| ==> block[i] == front[i];
      if Raise(acc, block) != acc && Raise(acc, block) != Abs(block[|block| - 1]) {
        var i :| 0 <= i < |front| && Raise(acc, front) == Abs(front[i]);
        assert Raise(acc, block) == Abs(block[i]);
      }
    }
  }

  /** The index of the first unregistered port, where process_peak stops, or the
      number of ports when all are registered. */
  function FirstUnregistered(ports: seq<Port>): (k: nat)
    ensures k <= |ports|
    ensures forall i :: 0 <= i < k ==> ports[i].Registered?
    ensures k < |ports| ==> ports[k].Unregistered?
  {
    if ports == [] || ports[0].Unregistered? then 0
    else 1 + FirstUnregistered(ports[1..])
  }

  /** The peaks after one process_peak callback over `ports`, the first
      `num_meters` entries of `input_ports`. */
  function ProcessedPeaks(peaks: seq<real>, ports: seq<Port>): seq<real>
    requires |ports| <= |peaks|
  {
    var k := FirstUnregistered(ports);
    seq(|peaks|, p requires 0 <= p < |peaks| =>
      if p < k then Raise(peaks[p], ports[p].samples) else peaks[p])
  }

  /** What one callback does to each channel: a channel before the first
      unregistered port ends at the maximum of its old value and every |sample|
      of its block; every other channel keeps its value. No channel decreases. */
  lemma ProcessedIsRunningMax(peaks: seq<real>, ports: seq<Port>)
    requires |ports| <= |peaks|
    ensures |ProcessedPeaks(peaks, ports)| == |peaks|
    ensures forall p :: 0 <= p < |peaks| ==> peaks[p] <= ProcessedPeaks(peaks, ports)[p]
    ensures forall p :: FirstUnregistered(ports) <= p < |peaks| ==> ProcessedPeaks(peaks, ports)[p] == peaks[p]
    ensures forall p, i :: 0 <= p < FirstUnregistered(ports) && 0 <= i < |ports[p].samples| ==>
      Abs(ports[p].samples[i]) <= ProcessedPeaks(peaks, ports)[p]
    ensures forall p :: 0 <= p < FirstUnregistered(ports) ==>
      ProcessedPeaks(peaks, ports)[p] == peaks[p] ||
      exists i :: 0 <= i < |ports[p].samples| && ProcessedPeaks(peaks, ports)[p] == Abs(ports[p].samples[i])
  {
    var r := ProcessedPeaks(peaks, ports);
    forall p | 0 <= p < FirstUnregistered(ports)
      ensures peaks[p] <= r[p]
      ensures forall i :: 0 <= i < |ports[p].samples| ==> Abs(ports[p].samples[i]) <= r[p]
      ensures r[p] == peaks[p] || exists i :: 0 <= i < |ports[p].samples| && r[p] == Abs(ports[p].samples[i])
    {
      RaiseIsMax(peaks[p], ports[p].samples);
    }
  }

  /** The peak arrays. Both have MAX_METERS slots and hold absolute values. */
  class PeakBuffer {
    const peaks: array<real>
    const sentPeaks: array<real>

    ghost predicate Valid()
      reads peaks, sentPeaks
    {
      peaks.Length == MaxMeters && sentPeaks.Length == MaxMeters && peaks != sentPeaks &&
      (forall i :: 0 <= i < MaxMeters ==> 0.0 <= peaks[i]) &&
      (forall i :: 0 <= i < MaxMeters ==> 0.0 <= sentPeaks[i])
    }

    /** Both arrays start zeroed, as C globals do. */
    constructor ()
      ensures Valid() && fresh(peaks) && fresh(sentPeaks)
      ensures peaks[..] == Zeros(MaxMeters) && sentPeaks[..] == Zeros(MaxMeters)
    {
      peaks := new real[MaxMeters](_ => 0.0);
      sentPeaks := new real[MaxMeters](_ => 0.0);
    }

    /** read_peaks: copy every peak to `sent_peaks`, then zero every peak. */
    method ReadPeaks()
      requires Valid()
      modifies peaks, sentPeaks
      ensures Valid()
      ensures sentPeaks[..] == old(peaks[..])
      ensures peaks[..] == Zeros(MaxMeters)
    {
      forall i | 0 <= i < MaxMeters {
        sentPeaks[i] := peaks[i];
      }
      forall i | 0 <= i < MaxMeters {
        peaks[i] := 0.0;
      }
    }

    /** process_peak: for each port in order, stopping at the first one that is
        not registered, raise its peak to every |sample| of its block of
        `nframes` samples that exceeds it. `sent_peaks` is never touched. */
    method ProcessPeak(ports: seq<Port>, nframes: nat)
      requires Valid() && |ports| <= MaxMeters
      requires forall p :: 0 <= p < |ports| && ports[p].Registered? ==> |ports[p].samples| == nframes
      modifies peaks
      ensures Valid()
      ensures peaks[..] == ProcessedPeaks(old(peaks[..]), ports)
    {
      var port := 0;
      while port < |ports|
        invariant Valid()
        invariant 0 <= port <= FirstUnregistered(ports)
        invariant forall q :: 0 <= q < port ==> peaks[q] == Raise(old(peaks[q]), ports[q].samples)
        invariant forall q :: port <= q < MaxMeters ==> peaks[q] == old(peaks[q])
      {
        // a null entry ends the walk over the ports
        if ports[port].Unregistered? {
          break;
        }
        var block := ports[port].samples;
        var i := 0;
        while i < nframes
          invariant Valid()
          invariant 0 <= i <= nframes
          invariant peaks[port] == Raise(old(peaks[port]), block[..i])
          invariant forall q :: port < q < MaxMeters ==> peaks[q] == old(peaks[q])
          invariant forall q :: 0 <= q < port ==> peaks[q] == Raise(old(peaks[q]), ports[q].samples)
        {
          var s := Abs(block[i]);
          assert block[..i + 1][..i] == block[..i];
          if s > peaks[port] {
            peaks[port] := s;
          }
          i := i + 1;
        }
        assert block[..i] == block;
        port := port + 1;
      }
      assert peaks[..] == ProcessedPeaks(old(peaks[..]), ports);
    }
  }
}
