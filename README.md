# AI Insulter: a Dafny model of its capture–request–reveal loop

The AI Insulter web app works in cycles. It captures a small frame from the
webcam and sends it to a multimodal chat-completion endpoint, together with
the last exchanges and a persona instruction. Meanwhile it reveals the
previous cycle's answer on screen, one character at a time. This project
models the sequential core of `src/App.tsx` and proves what it promises.

The model covers these parts:

- **Frame capture** (`FrameCapture`, `resizeAndEncodeImage`):
  - the canvas is 64 pixels wide, and its height is `Math.round(64 * h / w)`,
    written as the half-up integer formula;
  - the base64 payload is `dataUrl.split(",")[1]`, modelled with a
    JavaScript-style `Split`;
  - a missing 2D context gives `""`.
- **History** (`History`):
  - `Array.prototype.slice` with negative starts;
  - the replayed window `history.slice(-2)`;
  - the update `[...history.slice(-HISTORY_LENGTH + 1), item]`, written
    literally for `HISTORY_LENGTH = 2`.
- **Prompt** (`Prompt`): the message list `SendMessage` builds, both as a
  specification function and as the push loop that builds it.
- **Reply reading** (`ChatResponse`): `data.choices?.[0]?.message?.content ||
  "No response."`. A `null` body makes `data.choices` throw.
- **Request and loop** (`Insulter`):
  - the decision procedure of `requestInsultFromVideo`;
  - `SendMessage`, with the endpoint as an input function;
  - the `App` class, whose fields are the history ref, the typed text, the
    error and the running flag;
  - `typeMessage` as a loop over the typed text;
  - `runLoop` as a loop over the cycles, and its specification `LoopRun`.

Two ghost fields of `App` keep logs. `shown` is every value the displayed
text takes, in order. `delays` is every delay awaited, in milliseconds.

Prompt construction is a function of the history snapshot and the new frame.
So it is deterministic, and it cannot change the history.

## Behaviour of the code worth noting

- `runLoop` tests `cancelled` only at the loop condition (src/App.tsx:164).
  So a cycle that has started still writes the history and types its text
  after a stop. `LoopRun` and `RunLoop` do the same.
- A request fails with one of exactly three messages: "No video element
  found.", "Failed to capture image." and "Failed to send image."
  (src/App.tsx:96-108).
- `resizeAndEncodeImage` does not check for a zero-width source
  (src/App.tsx:16-17; see Left out).
- The history keeps `HISTORY_LENGTH` items in all, the newest old item plus
  the new one (src/App.tsx:105). The prompt replays the last
  `HISTORY_LENGTH` items (src/App.tsx:56), which is then the whole history.

## Model

| member | source | states |
|---|---|---|
| FrameCapture.CanvasHeight | src/App.tsx:15-19 | the canvas height is 64·h/w rounded to nearest, halves up: 2w·r ≤ 128h + w < 2w·(r + 1) |
| FrameCapture.HeightIsUnique | src/App.tsx:17 | no other height satisfies the rounding bounds, so they define `Math.round(64 * aspect)` |
| FrameCapture.VgaFrameSize | src/App.tsx:15-17 | a 640×480 source gives a 64×48 canvas |
| FrameCapture.Split | src/App.tsx:24 | `split` on one character: at least one piece, exactly one iff the separator is absent, no piece contains the separator |
| FrameCapture.SplitJoin | src/App.tsx:24 | joining the pieces with the separator gives back the string |
| FrameCapture.Base64Part | src/App.tsx:24 | `split(",")[1]` is undefined iff there is no comma, and otherwise holds no comma |
| FrameCapture.StripsHeader | src/App.tsx:23-24 | for a comma-free header and payload, `header + "," + payload` yields exactly the payload |
| FrameCapture.ResizeAndEncode | src/App.tsx:12-28 | without a 2D context the result is ""; with one it is undefined iff the data URL has no comma; a result never contains a comma |
| FrameCapture.CaptureYieldsPayload | src/App.tsx:20-24 | with a context, and a JPEG data URL from the 64-wide canvas, the capture is the payload, truthy iff non-empty |
| FrameCapture.CaptureWithoutContext | src/App.tsx:25-26 | without a 2D context the capture is "", which is falsy |
| History.JsSlice | src/App.tsx:56 | `slice(start)` is a suffix; its length is min(−start, n) for a negative start, else max(n − start, 0) |
| History.Recent | src/App.tsx:56 | `history.slice(-HISTORY_LENGTH)` is the newest two items, in order |
| History.AppendBounded | src/App.tsx:105 | the new history has min(\|old\|, 1) + 1 ≤ 2 items: the new item last, preceded by the old last item if any |
| History.AppendIsNewestWindow | src/App.tsx:101-105 | the update is FIFO eviction: the newest HISTORY_LENGTH items of `history + [item]`, so at most one old item survives |
| History.AppendAllKeepsNewest | src/App.tsx:105 | after any number of updates, from a bounded history, it is the newest two of everything seen, in order |
| History.AppendAllBounded | src/App.tsx:105 | repeated updates never exceed HISTORY_LENGTH |
| Prompt.Turns | src/App.tsx:56-67 | two turns per item; item k's image turn at 2k and its assistant text at 2k + 1 |
| Prompt.Messages | src/App.tsx:37-76 | 2 + 2·min(\|history\|, 2) messages; first the system turn, last a user turn with URL "data:image/jpeg;base64," + new image |
| Prompt.MessagesReplayNewest | src/App.tsx:56-67 | messages 1 + 2k and 2 + 2k carry the image (user) and message (assistant) of the k-th newest-window item |
| Prompt.BuildMessages | src/App.tsx:37-76 | the push loop builds exactly `Messages(history, newImg)` |
| ChatResponse.Content | src/App.tsx:87 | `choices?.[0]?.message?.content` is defined iff choices, its first element, that element's message and its content all are, and is then that content |
| ChatResponse.ReadReply | src/App.tsx:86-88 | throws iff the call threw or the body is null; a message is never empty; content if non-empty, else "No response." |
| ChatResponse.WellFormedReply | src/App.tsx:87 | a reply whose first choice carries non-empty content yields that content, whatever the other choices are |
| ChatResponse.BrokenChainFallsBack | src/App.tsx:87 | missing choices, empty choices, null choice, missing message, missing or empty content all give "No response." |
| TypedReveal.RevealTrace | src/App.tsx:116-121 | the texts shown are message[..i] for i = 0..\|message\| |
| TypedReveal.RevealSteps | src/App.tsx:116-121 | the reveal starts at "", ends at the message, and each step appends the next character |
| TypedReveal.RevealStep | src/App.tsx:119 | step i appends message[i] to what was shown |
| TypedReveal.RevealAbc | src/App.tsx:116-121 | revealing "abc" shows "", "a", "ab", "abc" |
| TypedReveal.DelayTrace | src/App.tsx:118-122 | one delay per character plus the final hold of 5000 |
| TypedReveal.RevealTimeIsFixed | src/App.tsx:118-122 | the character delays add up to 5000 whatever the length (0 for ""), then 5000 of hold |
| Insulter.SendOutcome | src/App.tsx:33-89 | SendMessage as a function: it throws iff the endpoint call threw or its body is null, and a message it returns is never empty |
| Insulter.SendMessage | src/App.tsx:33-89 | the request carries the model id, the endpoint path and exactly `Messages(history, newImg)`; the result is the reply read |
| Insulter.RequestOutcome | src/App.tsx:91-110 | every outcome's message is non-empty, and an update never exceeds HISTORY_LENGTH |
| Insulter.RequestBranches | src/App.tsx:96-109 | no video, falsy capture, thrown send: the fixed message and no update; success: its message and the FIFO update with (message, frame) last |
| Insulter.RequestUpdatesOnlyOnSuccess | src/App.tsx:96-109 | history is set iff video, capture and send all succeeded; otherwise the message is one of the three failure strings |
| Insulter.FirstSuccessfulRequest | src/App.tsx:91-110 | empty history, a captured frame and a reply whose first choice's content is "Nice hat." give "Nice hat." and history [("Nice hat.", frame)] |
| Insulter.Apply | src/App.tsx:170 | the history ref is replaced by a request's update when there is one and left as it is otherwise |
| Insulter.LoopRun | src/App.tsx:162-176 | one revealed message per request, at most one cycle per input; a stopped app runs no cycle and keeps its history |
| Insulter.LoopHandOff | src/App.tsx:162-175 | cycle 1 reveals the placeholder; cycle k + 1 reveals cycle k's request result |
| Insulter.LoopStopsAtCancel | src/App.tsx:164 | every cycle that ran saw `cancelled` false; the first that did not (inputs remaining) saw it true |
| Insulter.LoopKeepsHistoryBounded | src/App.tsx:167-175 | a run from a bounded history ends bounded |
| Insulter.LoopItems | src/App.tsx:100-105 | a run offers the history at most one (message, frame) pair per cycle that ran |
| Insulter.LoopHistoryIsNewest | src/App.tsx:105 | a run from a bounded history ends with the newest HISTORY_LENGTH of that history followed by every successful (message, frame) pair, in order |
| Insulter.LoopRevealsNonEmpty | src/App.tsx:118-120 | every message the loop reveals is non-empty, so each goes through the per-character path of `typeMessage` |
| Insulter.App.constructor | src/App.tsx:127-130 | empty history, empty text, no error, not running |
| Insulter.App.RequestInsultFromVideo | src/App.tsx:91-110 | returns `RequestOutcome`'s message; the history is replaced only by its update |
| Insulter.App.TypeMessage | src/App.tsx:112-123 | ends showing the message; the display log grows by `RevealTrace`, the delay log by `DelayTrace` |
| Insulter.App.RunCycle | src/App.tsx:165-175 | one cycle: error cleared, history updated by the request, the given insult revealed, the request's message returned |
| Insulter.App.RunLoop | src/App.tsx:153-177 | no video: the error is set and running stops; else history, display log and delay log follow `LoopRun` from the placeholder |
| Insulter.App.RunCycles | src/App.tsx:162-176 | the while loop: its trace is `LoopRun` from the first insult; the history, display and delay logs follow it, and the text shown is the last revealed message with the error cleared |

## Left out

- Webcam acquisition and track release (`getUserMedia`, the effect's cleanup): browser I/O.
- `fetch`, `JSON.stringify` and `response.json()`: the endpoint is an input function from request to `Threw | Responded(body)`. Whether an HTTP error status throws depends on `response.json`, and nothing is claimed about it.
- Canvas drawing and JPEG encoding: `toDataURL` is an input function of the canvas size. Only the size arithmetic and the comma split are modelled.
- `setTimeout` and timing: delays are recorded in a ghost log and not waited. Their values are exact reals, whereas the app uses floating point.
- `Promise.all` and React effects: within a cycle the request and the reveal touch disjoint state, so they are modelled one after the other. `cancelled` is an input observed at each loop test. The loop also stops when its finite list of cycle inputs runs out, which bounds a run that in the app is unbounded.
- JSX rendering and the start/stop button handlers: UI.
- The wording of the persona instruction: the system turn carries an opaque placeholder string.
- A zero-width video source: `VideoFrame.videoWidth` is positive. `Math.round` of a non-finite ratio is floating-point behaviour.
- FrameCapture.CanvasHeight: computes the rounding on exact rationals. The app rounds a floating-point product, which can differ when 64·h/w lies within rounding error of a half.
- ChatResponse.Content: treats `content` as a string or absent. A non-string truthy content (a number, say) is not modelled.
- TypedReveal.RevealTrace: indexes characters, where JavaScript indexes UTF-16 code units.
- `console.log` in `typeMessage`: no effect on state.
