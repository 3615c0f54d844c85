# jackwsmeter core in Dafny

jackwsmeter is a JACK client that measures the peak level of up to ten audio
inputs and pushes the levels, as a line of text in dB, to every connected
websocket client about ten times a second. This project models the four
pieces of sequential, stateful logic in `jackwsmeter.c`.

- **Poll-descriptor registry** (`registry.dfy`, module `PollRegistry`). This is
  the ADD/DEL/SET_MODE/CLEAR_MODE_POLL_FD cases of `callback_http`.
  - It is a class with the two arrays `pollfds` and `fd_lookup` and the counter
    `count_pollfds`.
  - Its value view `Table` is specified by the functions `Added`, `Deleted`,
    `ModeSet` and `ModeCleared`.
  - Its invariant `Indexed` says that `fd_lookup[pollfds[i].fd] == i` for every
    live slot. `IndexedDistinct` proves that this makes the live descriptors
    distinct.
- **Peak buffer** (`peaks.dfy`, module `Peaks`). This is `read_peaks` and
  `process_peak`, on the two arrays `peaks` and `sent_peaks`.
  - `process_peak` runs nested loops. It is proved against `ProcessedPeaks`, a
    per-channel running maximum (`Raise`) that stops at the first unregistered
    port.
- **Broadcast pacing gate** (`pacing.dfy`, module `Pacing`). This is the test
  `((unsigned int)tv.tv_usec - oldus) > 100000`, with C unsigned subtraction
  written out as wrap-around modulo 2^32.
- **Main loop** (`control_loop.dfy`, module `ControlLoop`). This is the loop of
  `main`.
  - Each iteration runs `read_peaks`, the gate, `poll()` and the service calls.
    The world supplies what each iteration sees as a `Tick`: the clock field,
    the audio block processed since the last read, and the results of `poll()`
    and of the service calls.
  - RunLoop drives the real `PeakBuffer` and returns the log of steps. The log
    equals the function `Trace`.
  - Lemmas prove three things about `Trace`:
    - the steps come in the loop's order;
    - every broadcast fired the gate against the previous broadcast;
    - a broadcast request records the meters' `sent_peaks` at the time of the
      request, and those are the peaks of the interval since the previous read.
- **Meter frame** (`protocol.dfy`, module `Protocol`). This is the
  SERVER_WRITEABLE case of `callback_meter`. It is included because it is what
  a broadcast leads to.
  - The frame is the per-channel tokens concatenated in channel order.
  - It is sent with length `strlen + 1`.

## Model

| member | source | states |
|---|---|---|
| PollRegistry.Registry.AddPollFd | jackwsmeter.c:92-103 | When `count_pollfds >= max_poll_elements` it returns 1 and the arrays and count are unchanged. Otherwise it returns 0 and appends the record `(fd, len cut to 16 bits, revents 0)` at the old count, points `fd_lookup[fd]` at it and adds one to the count. The invariant holds afterwards exactly when the add was refused or `fd` was not already live. |
| PollRegistry.AddKeepsIndexed | jackwsmeter.c:99-102 | Adding a descriptor that is not live keeps `fd_lookup[pollfds[i].fd] == i`. The live descriptors become the old ones plus `fd`, and the count grows by one. |
| PollRegistry.AddDuplicateBreaksIndexed | jackwsmeter.c:92-103 | The add does not check for a descriptor that is already live. Adding one again breaks the invariant. |
| PollRegistry.Registry.DelPollFd | jackwsmeter.c:105-112 | For a live `fd`, the count drops by one. When records remain, the last record moves into the vacant slot and its lookup entry is repaired; the result is `Deleted`. The invariant is kept, and the live descriptors are the old ones minus `fd`. |
| PollRegistry.DeleteKeepsIndexed | jackwsmeter.c:105-112 | Deleting a live descriptor keeps the invariant, removes exactly `fd` from the live set and shrinks the table by one. The remaining records plus the removed one are a permutation of the old records. |
| PollRegistry.DeleteUndoesAdd | jackwsmeter.c:92-112 | Deleting a descriptor right after adding it restores the live records. |
| PollRegistry.IndexedDistinct | jackwsmeter.c:99-111 | Under the lookup invariant, no descriptor occupies two live slots. |
| PollRegistry.Registry.SetModePollFd | jackwsmeter.c:114-116 | The events of `fd`'s record become `events` OR `len` (16-bit), keeping the invariant. |
| PollRegistry.Registry.ClearModePollFd | jackwsmeter.c:118-120 | The events of `fd`'s record become `events` AND NOT `len` (16-bit), keeping the invariant. |
| PollRegistry.ModeSetKeepsIndexed | jackwsmeter.c:114-116 | SET_MODE keeps the invariant, `fd_lookup`, the count, the live descriptors and every other record. It ORs the bits into the record of `fd`. |
| PollRegistry.ModeClearedKeepsIndexed | jackwsmeter.c:118-120 | CLEAR_MODE keeps the invariant, `fd_lookup`, the count, the live descriptors and every other record. It ANDs the complement of the bits into the record of `fd`. |
| PollRegistry.Registry.RaiseEvents | jackwsmeter.c:115 | ORs the bits into the `events` of the record in slot `fd_lookup[fd]`; the table becomes `ModeSet` of the old one and the invariant is kept. |
| PollRegistry.Registry.LowerEvents | jackwsmeter.c:119 | ANDs the complement of the bits into the `events` of the record in slot `fd_lookup[fd]`; the table becomes `ModeCleared` of the old one and the invariant is kept. |
| PollRegistry.ModeSetBits | jackwsmeter.c:114-116 | After SET_MODE, the record in slot `fd_lookup[fd]` has every given bit on and agrees with the old record on every other bit. |
| PollRegistry.ModeClearedBits | jackwsmeter.c:118-120 | After CLEAR_MODE, the record in slot `fd_lookup[fd]` has every given bit off and agrees with the old record on every other bit. |
| Peaks.PeakBuffer.ReadPeaks | jackwsmeter.c:65-69 | `sent_peaks` becomes the old `peaks` and every `peaks[i]` becomes 0, for all MAX_METERS channels. |
| Peaks.PeakBuffer.ProcessPeak | jackwsmeter.c:211-234 | `peaks` becomes `ProcessedPeaks(old peaks, ports)`: a channel before the first unregistered port is raised by its block, and the others are untouched. `sent_peaks` is untouched. |
| Peaks.RaiseIsMax | jackwsmeter.c:224-229 | The inner loop's running value is the maximum of the start value and every abs(sample): it bounds them all and equals one of them. |
| Peaks.FirstUnregistered | jackwsmeter.c:216-221 | The ports before the returned index are registered, and the port at it (if any) is not. This is where the outer loop breaks. |
| Peaks.ProcessedIsRunningMax | jackwsmeter.c:211-231 | No channel decreases. A channel before the first unregistered port ends at the maximum of its old value and every abs(sample) of its block. Channels from that port on are unchanged. |
| Pacing.MinusIsModular | jackwsmeter.c:439 | C unsigned subtraction is subtraction modulo 2^32. |
| Pacing.Fires | jackwsmeter.c:439 | The gate fires exactly when `(tv_usec - oldus) mod 2^32 > 100000`. |
| Pacing.Rearmed | jackwsmeter.c:439-442 | `oldus` becomes the current value when the gate fires and is kept otherwise; either way the gate is shut at the current value afterwards. |
| Pacing.BackwardJumpFires | jackwsmeter.c:439-442 | When the microsecond field goes backwards, the gate fires and `oldus` is re-armed to the current value, so pacing never stalls. |
| Pacing.QuietWithinInterval | jackwsmeter.c:439-442 | Within 100000 µs without a wrap, the gate stays shut and `oldus` is kept. |
| Pacing.FiresAfterInterval | jackwsmeter.c:439-442 | More than 100000 µs later without a wrap, the gate fires and `oldus` becomes the current value. |
| Pacing.SecondBoundaryFiresEarly | jackwsmeter.c:439-442 | The gate compares only the microsecond field: whenever a second boundary lies between the last request and now, the gate fires and re-arms even if at most 100 ms have passed. |
| Protocol.StrLen | jackwsmeter.c:154 | `strlen` counts the characters before the first NUL. |
| Protocol.FrameConcat | jackwsmeter.c:148-152 | The frame of two runs of channels is the two frames concatenated. |
| Protocol.FrameLayout | jackwsmeter.c:148-152 | Channel i's token sits between the tokens of channels before it and those after it. |
| Protocol.FrameNulFree | jackwsmeter.c:148-152 | A frame of NUL-free tokens holds no NUL. |
| Protocol.ServerWriteable | jackwsmeter.c:147-160 | The text is the frame of the first `num_meters` sent peaks and the length sent is its length plus one. The connection is closed exactly when the write returns a negative value. |
| ControlLoop.RunIteration | jackwsmeter.c:427-457 | One pass of the loop body (audio callback, `read_peaks`, gate, `poll`, service calls) yields `Iteration` of the old peaks. It leaves `sent_peaks` equal to the old peaks raised by the tick's audio block and the peaks zeroed. |
| ControlLoop.RunLoop | jackwsmeter.c:424-458 | Starting from `n == 0` and `oldus == 0`, the loop's log of steps is `Trace` of the ticks. It leaves on `force_exit`, on `n < 0` (after `continue` from a failed `poll`) or on `goto done`. When at least one iteration ran, the peaks end zeroed and `sent_peaks` holds the last iteration's read (`LastSent`); otherwise both are unchanged. |
| ControlLoop.LoopStep | jackwsmeter.c:426-458 | The loop from one tick is that tick's iteration, then, unless it ended the loop, the loop from the next tick with zeroed peaks; the same holds for what the loop leaves in `sent_peaks`. |
| ControlLoop.IterationInLoopOrder | jackwsmeter.c:431-457 | One iteration's steps are in loop order. |
| ControlLoop.ConcatInLoopOrder | jackwsmeter.c:426-458 | Runs of whole iterations in loop order concatenate to a run in loop order. |
| ControlLoop.TraceInLoopOrder | jackwsmeter.c:426-458 | The whole log is in loop order. Every iteration starts with ReadPeaks whether or not it broadcasts. A Broadcast comes only right after ReadPeaks, Poll right after ReadPeaks or Broadcast, and the service steps only after Poll. |
| ControlLoop.GatedBroadcast | jackwsmeter.c:431-444 | The steps before the service calls broadcast exactly when the gate fires, at position 1 with the fresh `sent_peaks`, and leave `oldus` re-armed. |
| ControlLoop.IterationGate | jackwsmeter.c:431-457 | An iteration broadcasts exactly when the gate fires, only right after the read, with the `sent_peaks` just copied. The new `oldus` is the time of its broadcast, if any. |
| ControlLoop.IterationPaced | jackwsmeter.c:439-442 | An iteration's broadcast, if any, fires against the `oldus` it started with. |
| ControlLoop.LastBroadcastConcat | jackwsmeter.c:441 | The time of the last broadcast over two runs of steps is that of the second run, starting from the first run's. |
| ControlLoop.NoBroadcastKeeps | jackwsmeter.c:441 | Steps without a broadcast leave `oldus` as it was. |
| ControlLoop.PacedConcat | jackwsmeter.c:439-442 | Paced runs of steps concatenate to a paced run. |
| ControlLoop.TracePaced | jackwsmeter.c:426-458 | Over the whole loop, each Broadcast fires the gate against the time of the previous Broadcast, or the initial `oldus`. |
| ControlLoop.BroadcastIsIntervalPeak | jackwsmeter.c:65-69 | From the second iteration on, a broadcast request records as the `sent_peaks`, for each meter before the first unregistered port, the largest abs(sample) processed since the previous read (0 for an empty block), and 0 for the other meters. |

## Left out

- libwebsockets is not modelled: context creation, `libwebsocket_service`,
  `libwebsocket_service_fd`, `libwebsocket_callback_on_writable_all_protocol`,
  `libwebsocket_write` and HTTP file serving are foreign library calls.
  - In the loop, their results are inputs of a `Tick`: `polled`, `serviceFdFailed` and `serviced`.
  - The broadcast request is a logged step carrying the `sent_peaks` at the
    time of the request. The frames are built later, when libwebsockets runs
    the writable callbacks from the service calls; the model assumes they run
    within the same iteration, before the next `read_peaks`, so that they send
    what the request recorded.
  - The write result is the `written` parameter of `ServerWriteable`.
- The LWS_CALLBACK_HTTP and LWS_CALLBACK_HTTP_FILE_COMPLETION cases of `callback_http` only call into or answer libwebsockets, so they are not modelled.
- `poll()` and `gettimeofday()` are OS calls. The clock field and the `poll` result are inputs of each tick.
- The per-descriptor walk that calls `libwebsocket_service_fd` is collapsed to one flag that says whether some call failed. Which descriptors had `revents` is not modelled.
- The JACK plumbing is not modelled: client setup, port registration and connection, and `cleanup`. Port buffers are the `samples` of a `Registered` port.
- Startup is not modelled: option parsing, daemonizing, syslog, and the `malloc` of the poll tables, which the `Registry` constructor stands in for.
- The audio callback really runs on JACK's real-time thread and races with `read_peaks`. The model runs it sequentially, once per tick, before the read. The `force_exit` signal flag is a per-tick input.
- Samples and peaks are `real`. Only `fabs`, `>` and assignment are applied to them, so float rounding and NaN are not modelled.
- Protocol.ServerWriteable: the dB conversion `20 * log10f(peak * bias)` and the `"%f "` formatting are the uninterpreted per-channel `token`, assumed NUL-free. The 512-byte frame buffer and the 100-byte token buffer are not modelled.
- ControlLoop.RunLoop: requires `1 <= num_meters <= MAX_METERS`. Startup exits when no port is given, and the argument loop never checks the upper bound, which the model states as a precondition instead of reproducing the overflow.
- PollRegistry.Registry.AddPollFd: requires `0 <= fd < max_poll_elements`, the size of `fd_lookup`, which the source indexes without a check.
- PollRegistry.Registry.DelPollFd: requires `fd` to be live, since the source reads `fd_lookup[fd]` without a check; deleting an absent descriptor would corrupt the table.
- PollRegistry.Registry.SetModePollFd: requires `fd` to be live, for the same unchecked `fd_lookup[fd]`; a stale lookup entry is not modelled.
- PollRegistry.Registry.ClearModePollFd: requires `fd` to be live, for the same unchecked `fd_lookup[fd]`; a stale lookup entry is not modelled.
- PollRegistry.Registry.AddPollFd: the event argument, a `size_t` cast to `int`, is stored in the 16-bit `events` field as its low 16 bits (`EventBits`). The sign of `short` is not modelled.
