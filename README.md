# calico-test.py, modelled in Dafny

`calico-test.py` is a toy TCP server for testing graceful shutdown. It answers
every request with one of two canned HTTP-like replies:

- `IN-FLIGHT` when the request contains `inflight`; this reply is stalled for
  10 seconds before it is sent.
- `HEALTH OK` for every other request.

On the first SIGINT or SIGTERM it starts a 20-second timer. When the timer
runs, it sets `abort`, and the `select` loop stops at its next check.

The model has three modules:

- `Response` (`response.dfy`) models `make_response` and its two templates as
  pure functions. `StampDate` is `str.replace('%DATE%', date)`. The formatted
  clock reading is a parameter.
- `Shutdown` (`shutdown.dfy`) models `signal_handler` and `set_abort`.
  - `Flags`, `Step` and `Run` are a pure state machine over traces of signal
    and timer events.
  - The lemmas about that state machine cover every sequence of signals.
  - The class `Controller` holds the module-level flags. Its methods are
    proved against `Step`.
- `Registry` (`registry.dfy`) models the event loop of `server_program`.
  - The class `Server` holds `inputs`, `outputs` and `message_queues`. Each
    event handler is a method that updates them in place.
  - `Valid()` is the bookkeeping invariant, and every handler keeps it.
  - Three loop methods run one `select` iteration. `Serve` runs the `while`
    loop and checks the `abort` flag between iterations.
  - Sockets are abstract ids. What `select`, `accept` and `recv` return comes
    in as a `Round` value per iteration.

Two points about the code that the model makes explicit:

- `Server.Valid` keeps one direction only: a connection with a queued reply is
  in `outputs`. After its last reply is dequeued it stays in `outputs` until
  the next writable event finds the queue empty (calico-test.py:111-112).
- The loop guard `while inputs and not abort` cannot stop on an empty
  `inputs`, because the listening socket is never removed (`Valid` keeps
  `server in inputs`).

## Model

| member | source | states |
|---|---|---|
| `Response.MakeResponse` | calico-test.py:65-71 | The reply is the in-flight text when the request is non-empty and contains `inflight`, and the healthy text otherwise. In both cases the one date is in the Date and the Last-Modified field. |
| `Response.StampFill` | calico-test.py:11-27 | Replacing `%DATE%` in either template puts the same date into both timestamp fields and leaves every other character unchanged. |
| `Response.StampDate` | calico-test.py:70-71 | `str.replace('%DATE%', date)`: text that holds no `%` comes back unchanged. Where the placeholder is replaced is stated by `StampLiteral`, `StampPlaceholder` and `StampShape`. |
| `Response.StampLiteral` | calico-test.py:70-71 | `str.replace` copies text without a `%` unchanged and continues after it. |
| `Response.StampShape` | calico-test.py:70-71 | In text of the form piece, placeholder, piece, placeholder, piece, both placeholders become the date and the pieces are kept. |
| `Response.Stalls` | calico-test.py:115 | The writer's `"IN-FLIGHT" in msg` test. It has no contract of its own: `InFlightReplyStalls`, `HealthyReplyDoesNotStall` and `StallsIffAsksInFlight` state when it holds for a built reply. |
| `Response.StallsIffAsksInFlight` | calico-test.py:115 | The writer's `"IN-FLIGHT" in msg` test holds for a built reply exactly when the request asked for in-flight. This needs only that the date does not spell `IN-FLIGHT`. |
| `Response.InFlightReplyStalls` | calico-test.py:20-27 | Every in-flight reply contains `IN-FLIGHT`. |
| `Response.HealthyReplyDoesNotStall` | calico-test.py:11-18 | A healthy reply contains no `IN-FLIGHT` unless the date does. |
| `Response.NoPlaceholderLeft` | calico-test.py:66-71 | No `%DATE%` remains in a reply for a date without `%`, as every `strftime` result of the format is. |
| `Response.BodyMatchesContentLength` | calico-test.py:16-27 | Every reply is the stamped header block followed by a body of exactly 9 characters, `HEALTH OK` or `IN-FLIGHT`. |
| `Response.ContainsConcat` | calico-test.py:115 | An occurrence of a word in `a + b` lies inside `a` or inside `b` when a character at the seam is not in the word. |
| `Response.AbsentFromShape` | calico-test.py:115 | A template-shaped text holds the word only inside the stamp, when the fixed pieces lack one of its letters and the seams are characters it lacks. |
| `Shutdown.Step` | calico-test.py:44-58 | One signal or timer event preserves the flag invariant. `shutting_down` and `abort` are never cleared, and `abort` is set only by the timer after `shutting_down`. |
| `Shutdown.RunSignals` | calico-test.py:50-58 | After any trace, `shutting_down` is set exactly when a signal arrived. Exactly one timer was started then, and none otherwise. |
| `Shutdown.AbortOnlyThroughTimer` | calico-test.py:44-58 | After any trace, `abort` is set exactly when a timer run follows a signal. |
| `Shutdown.RunMonotone` | calico-test.py:44-58 | A flag set after a prefix of a trace is still set after the whole trace. The number of timers started never decreases. |
| `Shutdown.RepeatedSignalIgnored` | calico-test.py:57-58 | Once a signal has arrived, another one leaves the state exactly as it was. |
| `Shutdown.RunSnoc` | calico-test.py:50-58 | A trace one event longer is one more step. |
| `Shutdown.Controller.constructor` | calico-test.py:29-30 | Both flags start false and no timer has been started. |
| `Shutdown.Controller.SignalHandler` | calico-test.py:50-58 | `signal_handler` changes the flags as `Step` does for a signal. |
| `Shutdown.Controller.SetAbort` | calico-test.py:44-47 | `set_abort`, run by the pending timer, changes the flags as `Step` does for a timer run. |
| `Shutdown.Controller.Deliver` | calico-test.py:54-56 | Delivering either event changes the flags as `Step` does. |
| `Shutdown.Controller.DeliverAll` | calico-test.py:61-62 | After delivering a sequence of events, the flags are those of `Run` over the whole history. |
| `Registry.RemoveFirst` | calico-test.py:104-105 | `list.remove` drops one element. On a list without repeats, exactly `x` goes, every other element stays, and the list still has no repeats. |
| `Registry.RemoveFirstCuts` | calico-test.py:127 | `list.remove` cuts out the first occurrence and keeps the order of the rest. |
| `Registry.IndexOf` | calico-test.py:127 | The index found holds `x`, and no earlier index does. |
| `Registry.Ready` | calico-test.py:87 | `select` reports exactly the sockets of the given list that are ready (membership both ways), and without repeats when the list has none. The contract does not state the order; the body keeps the list order by filtering it. |
| `Registry.Server.constructor` | calico-test.py:82-84 | `inputs` is `[server]`, `outputs` and `message_queues` are empty, and the invariant holds. |
| `Registry.Server.Accept` | calico-test.py:89-94 | Appends the new connection to `inputs` and gives it a new empty queue. `outputs` and the other queues are unchanged, and the invariant holds. |
| `Registry.Server.Receive` | calico-test.py:96-107 | With data, one reply joins the back of that connection's queue and the connection is in `outputs` once. On a zero-length read, the connection leaves all three structures. No other connection changes. |
| `Registry.Server.Close` | calico-test.py:126-131 | Removes the connection from `inputs`, `outputs` and `message_queues`. Every other connection keeps its membership and its queue. |
| `Registry.Server.Writable` | calico-test.py:109-124 | An empty queue loses write interest. Otherwise the front reply is dequeued and returned (FIFO, one per event), the connection stays in `outputs`, and the stall flag is the writer's test. A socket without a queue changes nothing. |
| `Registry.Server.ReadPhase` | calico-test.py:88-107 | Across all readable sockets: the listener registers the accepted connection with an empty queue and no write interest; each connection with data gets exactly one reply at the back of its queue and write interest; each connection at end of stream is gone; sockets that were not readable keep their queue and their write interest. |
| `Registry.Server.ReadStage` | calico-test.py:88-107 | The read phase per connection, in terms of the round: a connection at end of stream is gone; any other keeps its queue plus the reply to what it sent, and has write interest when it had it or just got a reply. |
| `Registry.Server.WritePhase` | calico-test.py:109-124 | Across all writable sockets: each non-empty queue loses exactly its front reply, and each empty queue loses write interest; other sockets are untouched. The replies sent are exactly `Replies` of the writable sockets: the queue fronts, in order, at most one per socket, each with its stall flag. |
| `Registry.RepliesFronts` | calico-test.py:109-119 | Every reply the writable sockets send is the front of a non-empty queue with the writer's stall test, every such front is sent, and there are no more replies than writable sockets. |
| `Registry.RepliesOnePerSocket` | calico-test.py:109-119 | Writable sockets that `select` reports without repeats send at most one reply each. |
| `Registry.Server.ErrorPhase` | calico-test.py:126-131 | Across all exceptional sockets: exactly those leave `inputs` and `outputs`, and every remaining queue is unchanged. |
| `Registry.Server.Iterate` | calico-test.py:87-131 | One loop iteration keeps the invariant. The accepted connection is registered with an empty queue and no write interest. A connection with an exceptional condition or at end of stream is gone. Every other connection is still open, with the reply of its read (if any) at the back of its queue, and, when it was reported writable, its front reply sent or its write interest dropped. A connection `select` did not report keeps its queue and its write interest. Each reply sent is the front of such a queue, one per socket, with the writer's stall flag. No reply goes to a connection closed at end of stream. A writable connection that also has an exceptional condition still has its front reply sent before it is closed. |
| `Registry.Server.ReadWrite` | calico-test.py:87-124 | The read phase followed by the write phase, per connection: the same facts as `Iterate` before the exceptional sockets are closed, including that no reply goes to a connection closed at end of stream. |
| `Registry.RepliesAfterRead` | calico-test.py:109-119 | The replies of the writable sockets are the fronts of their queues after the read phase, for exactly the connections the read phase did not close, with the writer's stall flag. |
| `Registry.Server.Serve` | calico-test.py:86-131 | The loop keeps the invariant. The controller's flags are those of all events delivered so far. The loop runs an iteration only while `abort` is false, and stops before the last round only when `abort` is set. |

## Left out

- Sockets and the OS calls on them are not modelled: `socket`, `bind`, `listen`, `setblocking`, `select` with its 2-second timeout, `accept`, `recv(1024)`, `send` and `close`. Their results are the fields of `Round`, and `Writable` returns the reply it would send.
- Partial sends are not modelled. `send` may write only part of a reply and the code ignores the count, so the model treats a dequeued reply as sent.
- `time.sleep(10)` before an in-flight reply is left out. The model returns the stall decision as a flag instead.
- `threading.Timer` and its 20-second delay are left out. A timer run is an explicit `TimerFired` event.
- The concurrency between the signal path, the timer thread and the loop is not modelled. A round's events reach the controller after that round's iteration, one at a time.
- A `TimerFired` event with no started timer cannot happen in the program. `Step` treats it as changing nothing.
- `datetime.now()` and `strftime` are not modelled. The formatted date is a parameter, and one `Round` uses one date for all its replies.
- `bytes.decode()` and `str.encode()` are not modelled. Requests and replies are strings, and invalid UTF-8 is not modelled.
- `isinstance(data, bytes)` is always true for `recv` results and is dropped.
- The truthiness test `message_queues[s] and` is dropped. A `Queue` object is always truthy.
- Logging setup and `LOGGER` calls are left out. They have no effect on behaviour.
- Signal registration (`signal.signal`) is left out. Signals arrive as `Signal` events.
- `server.close()` after the loop is left out. Connections still open at that point are left to the OS.
- `OSError` from `accept` (calico-test.py:90), `recv` (:96) or `send` (:119), such as a peer reset or a broken pipe, is not modelled. The code catches only `KeyError` (:120), so such an error ends `server_program`. The model treats `accept` and `recv` as always returning a result, and `Writable` as always sending.
- `Registry.Server.Serve`: two crashes of the code are preconditions rather than modelled behaviour. An exceptional condition on the listening socket fails at `del message_queues[server]`. An exceptional condition on a connection closed at end of stream in the same iteration fails at `inputs.remove`.
- `Registry.Server.Iterate`: the same two crashes are preconditions of one iteration.
- `Registry.Server.Serve` also requires every accepted connection to be a socket never registered before.
