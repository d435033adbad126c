# Room-scoped pub/sub broker, modelled in Dafny

The program is a small HTTP server-sent-events broker (`main.go`). Clients
open a stream on `GET /infocenter/:room`. Publishers post a body to
`POST /infocenter/:room`. Every subscriber of that room receives the body as
one event frame.

The model covers the broker's logic once its goroutines and channels are set
aside:

- **`EventStream`** (`event_stream.dfy`): the `Message` record and the frame
  that `sendMessage` writes, in the Server-Sent Events format of the WHATWG
  HTML Living Standard, section 9.2.5 ("Parsing an event stream"). The frame
  is `id: <n>\n`, `event: <e>\n`, `data: <d>\n\n`. The module also holds a
  reader of one frame. It breaks lines at CRLF, LF or CR, as section 9.2.5
  does, and parses the id. A message reads back from its frame exactly when
  its event and data hold no line break. With a line break, the frame may be
  rejected by this reader (`"a\nb"`; a section 9.2.5 client ignores the line
  `b` as an unknown field and reads data `a`), or read as a different message
  (a trailing CR is lost).
- **`Membership`** (`membership.dfy`): the `Rooms` map from room name to the
  ordered list of channels, as values. It holds the join, leave and publish
  requests as functions over a `State` (rooms, next message id, channels
  closed so far), the broker invariant, and lemmas over whole runs of requests.
- **`Coordinator`** (`coordinator.dfy`): the `Broker` class, with the map
  and the counter as fields that its methods update in place. `Join` and
  `Leave` are the two cases of the coordinator goroutine. `Leave` keeps the
  source's range loop, including the in-place splice of the slice it is
  ranging over. `Publish` is the POST handler's fan-out loop and counter
  increment. `Coordinate` is the coordinator's loop over a run of requests.
  Each method is proved against the `Membership` functions.
- **`Sessions`** (`sessions.dfy`): the GET handler's session. It joins with a
  fresh channel and runs the `for`/`select` loop over an abstract event trace
  (`Incoming(m)`, `ClientClosed`, `Tick`). It sends the deferred leave exactly
  once when the loop is left.

A channel is an opaque identity (`Chan = nat`). A channel "made fresh" by
`make(chan Message)` is one that is neither listed in a room nor closed
(`Unused`). In a run of requests, it is a join whose channel no earlier
request named (`FreshJoins`).

Points to note about the code:

- The published event kind is `"msg"`.
- Delivery is a plain, blocking send to each channel.
- Rooms whose list becomes empty stay in the map.
- The timeout frame has id 0, event `"timeout"` and data `"30s"`. The ticker
  interval is 10 s, and it is not modelled.
- Message ids come from a counter outside the coordinator. It increases by
  one per POST, even when the room has no subscribers.

## Model

| member | source | states |
|---|---|---|
| `EventStream.Encode` | main.go:36-38 | the frame starts with `id: ` and ends with a blank line (`\n\n`) |
| `EventStream.NatDecimal` | main.go:36 | the id is printed as a non-empty string of decimal digits with no leading zero |
| `EventStream.IntDecimalRoundTrip` | main.go:36 | the printed id parses back to the same integer, negative ones included |
| `EventStream.IntDecimal` | main.go:36 | Go's `%v` of an int: a non-empty string without line breaks that starts with `-` exactly when the id is negative |
| `EventStream.Lines` | main.go:36-38 | the line breaking applied to a frame: a text without CR or LF is one line, and no line it yields holds a CR or LF |
| `EventStream.LinesEncode` | main.go:36-38 | when event and data hold no line break, a frame's lines are exactly the id line, event line, data line, the blank line and nothing after |
| `EventStream.DecodeEncode` | main.go:36-38 | reading a frame back (lines, field names, numeric id) recovers the message that was encoded, when event and data hold no CR or LF |
| `EventStream.DecodeEncodeIff` | main.go:36-38 | a message reads back from its frame if and only if its event and data hold no CR or LF |
| `EventStream.TrailingCarriageReturn` | main.go:38 | a body `d + "\r"` with no other line break reads back as the same message with body `d`: the CR and the frame's LF read as one CRLF |
| `EventStream.LineBreakInBody` | main.go:38 | the body is written raw, so a body with a line break (`"a\nb"`) splits the frame and it no longer reads back |
| `EventStream.Stream` | main.go:110 | what the client has received after the written frames: empty exactly when nothing was written, and otherwise ending in a blank line |
| `EventStream.TimeoutMessage` | main.go:115 | the timeout message `{0, "timeout", "30s"}` reads back from its own frame |
| `EventStream.TimeoutFrame` | main.go:115 | the timeout frame is exactly `id: 0\nevent: timeout\ndata: 30s\n\n` |
| `Membership.JoinRooms` | main.go:56-62 | a join appends the channel at the end of the room's list, or creates `[ch]` for an absent room; the keys gain only that room and every other room is unchanged |
| `Membership.IndexOf` | main.go:65-66 | the first position where the channel matches by identity: no earlier entry matches |
| `Membership.Remove` | main.go:67 | removal shortens the list by one exactly when the channel is present |
| `Membership.RemoveMultiset` | main.go:67 | removal takes out one copy of the channel and keeps every other entry |
| `Membership.RemoveSplice` | main.go:67 | removal is the splice `s[:i] ++ s[i+1:]` at the matching index, so the other channels keep their relative order |
| `Membership.RemoveDistinct` | main.go:65-67 | in a list without repeats, the channel is gone afterwards and the list still has no repeats |
| `Membership.RemoveAbsent` | main.go:65-66 | when the channel is not in the list, nothing is spliced |
| `Membership.LeaveRooms` | main.go:63-70 | a leave never deletes or adds a room key, changes no other room, and applies the removal to the room's list |
| `Membership.LeaveRemovesOnce` | main.go:63-70 | leaving a listed channel removes that one entry, shortens the list by one and closes the channel exactly once, and the channel was not closed before |
| `Membership.LeaveIdempotent` | main.go:63-70 | a second leave of the same channel changes nothing and closes nothing |
| `Membership.LeaveAbsent` | main.go:63-70 | a leave changes the broker exactly when the channel is listed in that room: leaving an unknown room or a channel that never joined changes nothing and closes nothing |
| `Membership.LeaveClears` | main.go:66-68 | when close runs, the channel is already out of every room and has not been closed before |
| `Membership.JoinPreservesInv` | main.go:56-62 | joining an unused channel keeps every room free of repeats, keeps each channel in at most one room, and keeps closed channels unlisted |
| `Membership.LeavePreservesInv` | main.go:63-70 | a leave keeps the invariant: no repeats, no channel in two rooms, no double close, no listed channel closed |
| `Membership.StepPreservesInv` | main.go:53-73 | every request keeps the invariant when joins bring unused channels |
| `Membership.JoinThenLeave` | main.go:98-104 | a session's join directly followed by its leave restores the room's list, keeps the room key (empty if it was new) and closes the channel once |
| `Membership.PostMessage` | main.go:83 | the literal `Message{messageId, "msg", body}`: when the body has no line break, its frame reads back as exactly `{messageId, "msg", body}` |
| `Membership.Next` | main.go:56-86 | one request: only a publish moves the counter, by one, and leaves the rooms alone; only a join adds a room key; the closed log only grows, by at most one channel, and only on a leave |
| `Membership.Deliveries` | main.go:82-84 | a join or leave sends nothing; a publish sends one message per channel of the room, in list order, stamped `{nextId, "msg", body}` |
| `Membership.FanOut` | main.go:82-84 | one delivery per channel of the list, in list order, each carrying the same message |
| `Membership.FanOutOnce` | main.go:82-84 | each listed channel receives exactly one copy and any other channel none |
| `Membership.PublishDelivers` | main.go:82-86 | a publish changes no room and closes nothing, advances the id by one, sends `{id, "msg", body}` exactly once to each subscriber of the room, and sends nothing to channels of other rooms |
| `Membership.RunNextId` | main.go:75-86 | after any run, the counter equals the number of publishes, starting from 0 |
| `Membership.PublishIds` | main.go:82-86 | the n-th publish of a run stamps id n on every copy it sends |
| `Membership.PublishesMonotone` | main.go:86 | in a run of atomic steps, a later publish carries a strictly larger id, so ids are never reused |
| `Membership.RunInv` | main.go:53-73 | over any run whose joins bring fresh channels, no room lists a channel twice, no channel is closed twice, and every listed or closed channel was named by a request |
| `Membership.GoneAfterLeave` | main.go:63-70 | once a leave has been processed, its channel never appears in that room again, whatever follows |
| `Membership.StepsRun` | main.go:53-104 | requests a session hands to the coordinator after a run of earlier requests continue that run, so the run lemmas cover them |
| `Membership.RunStepReady` | main.go:97 | in a run with fresh joins, every request meets a valid state and every join meets an unused channel |
| `Coordinator.Broker.constructor` | main.go:44-46 | the broker starts with no rooms, counter 0 and nothing closed, and the invariant holds |
| `Coordinator.Broker.Close` | main.go:68 | close is called only on a channel that is in no room and was not closed before, and it records that one close |
| `Coordinator.Broker.Join` | main.go:56-62 | the in-place join matches `JoinRooms`, and it keeps the invariant for an unused channel |
| `Coordinator.Broker.Leave` | main.go:63-70 | the range loop with its in-place splice matches `LeaveRooms`, closes the channel exactly when it was listed, and keeps the invariant |
| `Coordinator.ShiftedViewMisses` | main.go:65-67 | after the splice, the range view's later slots (shifted entries and the untouched last slot) never match the channel again |
| `Coordinator.Broker.Publish` | main.go:82-86 | the fan-out loop sends `{messageId, "msg", body}` to each channel of the room in order, then increments `messageId` by one |
| `Coordinator.Broker.Apply` | main.go:53-86 | each request (a join or leave of the coordinator at lines 53-73, or a publish of the POST handler at lines 82-86), applied as one atomic step, moves the broker exactly as `Next` says and returns exactly the deliveries `Deliveries` says |
| `Coordinator.Broker.Coordinate` | main.go:53-86 | the coordinator loop (lines 53-73) over a run of requests from a fresh broker, with publishes (lines 82-86) interleaved as atomic steps, ends in `Run(reqs)`, keeps the invariant, and request i sends what the i-th step of the run sends |
| `Sessions.Step` | main.go:108-118 | one turn of the select: once the loop is left nothing changes; a turn writes at most one frame and never unwrites; the loop keeps running only on an incoming message |
| `Sessions.Replay` | main.go:106-119 | a run of turns writes at most one frame per event, and a session that has left its loop never resumes |
| `Sessions.ReplayExtends` | main.go:106-119 | frames once written stay written: a replay only extends what was written before |
| `Sessions.LeftStaysLeft` | main.go:113-117 | after the loop breaks, later events change nothing |
| `Sessions.SessionContinues` | main.go:108-110 | while only messages arrive, each is written once, in order, and the loop keeps running |
| `Sessions.SessionEnds` | main.go:106-119 | the loop ends at the first close notification or tick; a close writes nothing more, a tick writes exactly one timeout frame |
| `Sessions.Serve` | main.go:96-119 | the handler joins with its fresh channel, writes the frames the loop produces, and returns the requests it hands to the coordinator: exactly one join, then, on exit, exactly one leave for the same room and channel (main.go:102-104); the broker ends as those requests applied in order; with no other request in between, that leave restores the room's list and closes the channel once |

## Left out

- HTTP plumbing is not modelled: routing, path parameters, headers, `WriteHeader`, reading the body, `ListenAndServe` and logging. The room name and body are parameters.
- Goroutine scheduling, unbuffered channel blocking and `select` fairness are not modelled. Each request is one atomic step. The select loop reads an external event trace.
- The data races in the POST handler are not modelled. It reads `broker.Rooms` and updates `messageId` outside the coordinator. The sequential model does not claim race freedom. It also does not capture a send on a channel that the coordinator has just closed. Two POSTs running at once can read the same `messageId` and stamp the same id, so `PublishesMonotone` ("ids are never reused") holds only for publishes that run one at a time, as the model's atomic steps do.
- `time.Tick` and `time.Sleep` are real-time behaviour, so the model has none. A tick is an abstract event.
- The `http.Flusher` and `CloseNotifier` type assertions, the `http.Error` fallback and `Flush` are not modelled. Every write is taken to reach the client.
- Bodies and event kinds are modelled as strings of Dafny characters. Go strings are byte strings, and `string(b)` of a POST body may be invalid UTF-8, which the model does not capture.
- EventStream.DecodeEncode: a body (or event) that holds CR or LF is written raw and is read differently by an event-stream client. The round trip holds exactly for bodies without line breaks (`DecodeEncodeIff`); `LineBreakInBody` and `TrailingCarriageReturn` show the two ways it fails.
- Go's behaviour with a channel listed twice in a room is not modelled, and neither is its panic on a double close. Both are excluded by the precondition that channels are fresh and rooms have no repeats (`Valid`, `Unused`, `FreshJoins`).
- Coordinator.Broker.Publish: does not model 64-bit wrap-around of `messageId`, because ids are unbounded integers here. Go's `int` is 64 bits on a 64-bit platform and 32 bits on a 32-bit one, so wrap-around would need 2^63 (or 2^31) publishes.
- Sessions.Serve: no other request reaches the broker while the session runs, so its leave meets the state its join left. In the program, other sessions' joins and leaves and POSTs run between a session's join (main.go:98) and its deferred leave (main.go:103); interleavings are covered only by `RunInv` and `GoneAfterLeave` over `Run`.
- Sessions.Serve: when the event trace runs out while the loop is still waiting, the session stays joined and sends no leave. That is the blocked `select`, not an exit.
