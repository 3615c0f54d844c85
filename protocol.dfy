// The SERVER_WRITEABLE case of callback_meter: the text frame sent to a meter
// client, built channel by channel from `sent_peaks`, and the length handed to
// libwebsocket_write.
module Protocol {

  /** C `strlen`: the number of characters before the first NUL. */
  function StrLen(s: string): (n: nat)
    ensures n <= |s|
    ensures forall i :: 0 <= i < n ==> s[i] != '\0'
    ensures n < |s| ==> s[n] == '\0'
  {
    if s == [] || s[0] == '\0' then 0 else 1 + StrLen(s[1..])
  }

  /** The frame for the given peaks: their tokens, concatenated in channel
      order. The text of one channel, `snprintf("%f ", 20 * log10f(peak * bias))`,
      is abstracted as the function `token` of its peak. */
  function Frame(peaks: seq<real>, token: real -> string): string
  {
    if peaks == [] then [] else Frame(peaks[..|peaks| - 1], token) + token(peaks[|peaks| - 1])
  }

  /** The frame of two runs of channels is the frame of the first run followed
      by the frame of the second. */
  lemma {:induction false} FrameConcat(a: seq<real>, b: seq<real>, token: real -> string)
    ensures Frame(a + b, token) == Frame(a, token) + Frame(b, token)
  {
    if b == [] {
      assert a + b == a;
    } else {
      FrameConcat(a, b[..|b| - 1], token);
      assert (a + b)[..|a + b| - 1] == a + b[..|b| - 1];
    }
  }

  /** Channel i's token sits in the frame right after the tokens of channels
      0..i-1 and right before those of the later channels. */
  lemma {:induction false} FrameLayout(peaks: seq<real>, token: real -> string, i: nat)
    requires i < |peaks|
    ensures Frame(peaks, token) == Frame(peaks[..i], token) + token(peaks[i]) + Frame(peaks[i + 1..], token)
  {
    FrameConcat(peaks[..i], [peaks[i]], token);
    FrameConcat(peaks[..i + 1], peaks[i + 1..], token);
    assert peaks[..i] + [peaks[i]] == peaks[..i + 1];
    assert peaks[..i + 1] + peaks[i + 1..] == peaks;
    assert Frame([peaks[i]], token) == Frame([], token) + token(peaks[i]);
  }

  /** A frame built from NUL-free tokens holds no NUL. */
  lemma {:induction false} FrameNulFree(peaks: seq<real>, token: real -> string)
    requires forall x :: '\0' !in token(x)
    ensures '\0' !in Frame(peaks, token)
  {
    if peaks != [] {
      FrameNulFree(peaks[..|peaks| - 1], token);
    }
  }

  /** What the callback asks the connection to do next. */
  datatype Verdict = KeepOpen | Close

  /** SERVER_WRITEABLE: append the token of each of the first `numMeters`
      peaks to an empty string, send it with its terminating NUL
      (`strlen(p) + 1` bytes), and close the connection when the write reports
      a negative result. `written` is that result. */
  method ServerWriteable(sentPeaks: seq<real>, numMeters: nat, token: real -> string, written: int)
    returns (p: string, len: nat, verdict: Verdict)
    requires numMeters <= |sentPeaks|
    requires forall x :: '\0' !in token(x)
    ensures p == Frame(sentPeaks[..numMeters], token)
    ensures len == |p| + 1 && '\0' !in p
    ensures verdict == (if written < 0 then Close else KeepOpen)
  {
    p := [];
    var i := 0;
    while i < numMeters
      invariant 0 <= i <= numMeters
      invariant p == Frame(sentPeaks[..i], token)
    {
      assert sentPeaks[..i + 1][..i] == sentPeaks[..i];
      p := p + token(sentPeaks[i]);
      i := i + 1;
    }
    FrameNulFree(sentPeaks[..numMeters], token);
    len := StrLen(p) + 1;
    verdict := if written < 0 then Close else KeepOpen;
  }
}
