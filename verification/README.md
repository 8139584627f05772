# InShort chat controller, modelled in Dafny

InShort's chat page (`app/chat/page.tsx`) is a React component. It lets a user
type a query and send it to a summarisation service. It shows each query with
the answer under it, and it rotates a placeholder prompt above the transcript.
This project models the component's controller logic without React, the DOM,
timers or `fetch`. What remains is a small sequential state machine:

- **State** (`Chat.ChatState`): the draft in the text area, the transcript of
  turns (`Chat.Turn`, a `{user, ai}` pair), and the prompt rotator
  (`Rotation.Rotor`: prompt index and fade flag).
- **Handlers** (module `Chat`): input change, key-down, submit, the rotation
  tick and its delayed completion, and the transcript update made when a
  request settles. Each is a pure function.
- **Session** (module `Controller`): the component state plus the requests
  sent and not yet settled. Events arrive one at a time (`Controller.Step`,
  `Controller.Run`). An arrival event names the outstanding request it
  settles, so any completion order can be expressed. Its outcome is
  `Ok(response)` or `Failure`.
- **Trimming** (module `Text`): `String.prototype.trim` over an explicit
  predicate for ECMAScript WhiteSpace and LineTerminator characters.

Files: `text.dfy` (`Text`), `rotation.dfy` (`Rotation`), `chat.dfy` (`Chat`),
`controller.dfy` (`Controller`).

### Behaviour worth noting

- A successful answer is written into whatever turn is last when it arrives
  (`app/chat/page.tsx:104`). No turn index is captured when the request is
  sent. With two requests outstanding, both answers land on the newest turn:
  the later arrival wins, and the older turn keeps a blank answer.
  `Controller.ArrivalIgnoresOrigin` and `Controller.OutOfOrderScenario` state
  this.
- Nothing blocks a second submission while a request is in flight
  (`app/chat/page.tsx:63-69`).
- Nothing guards the write at `app/chat/page.tsx:104` against an empty
  transcript, where it would fail on `undefined`. That state cannot be
  reached: every request is sent right after a turn is appended, and turns
  are never removed. `Controller.Valid` (`|inFlight| <= |history|`) records
  this, and `Controller.Step` preserves it.

## Model

| member | source | states |
|---|---|---|
| Text.TrimBy | app/chat/page.tsx:65 | For any class of characters to strip: the result is the slice of the input that starts after its leading run of stripped characters; everything cut away on either side is of the class, neither end of the result is, and the result is empty exactly when the whole input is of the class |
| Text.Trim | app/chat/page.tsx:65 | With the class fixed to ECMAScript whitespace and line terminators: the trimmed draft is the slice of the draft left after its leading whitespace and a whitespace suffix are cut away, neither end of it is whitespace, and it is empty exactly when the draft is all whitespace |
| Text.TrimOfSplit | app/chat/page.tsx:65 | Reference characterisation, for any class of stripped characters (whitespace in particular): for a prefix of the class, a middle with neither end in it, and a suffix of the class, trimming the three joined together gives exactly the middle |
| Text.TrimIdempotent | app/chat/page.tsx:65 | Trimming a trimmed string changes nothing |
| Text.TrimBounds | app/chat/page.tsx:65 | Scanning inwards from both ends past stripped characters yields bounds whose slice equals the trimmed string |
| Rotation.Tick | app/chat/page.tsx:28-29 | The interval tick fades the prompt out and leaves the prompt index alone |
| Rotation.Complete | app/chat/page.tsx:30-32 | The delayed completion fades in and moves to the next prompt, wrapping from the last to the first; the index stays below the list length |
| Rotation.CyclesIndex | app/chat/page.tsx:28-34 | After k rotation intervals the index has moved k places modulo the list length |
| Rotation.CyclesReturn | app/chat/page.tsx:31 | As many intervals as there are prompts return the index to where it started |
| Rotation.TwoPromptScenario | app/chat/page.tsx:28-33 | With prompts A and B, two intervals display A, B, A |
| Chat.InputChange | app/chat/page.tsx:48-49 | The new text becomes the draft as typed, untrimmed; transcript and rotator are unchanged |
| Chat.KeyDown | app/chat/page.tsx:56-61 | Enter without Shift is exactly a submit; any other key, Shift+Enter included, changes nothing and sends nothing |
| Chat.Submit | app/chat/page.tsx:63-69 | A draft that is empty or all whitespace changes nothing and sends nothing. Otherwise the transcript gains exactly the turn {trimmed draft, ""}, the draft becomes "", and exactly one request is sent, whose query is the trimmed draft |
| Chat.Resolve | app/chat/page.tsx:102-109 | A successful answer sets the answer of the last turn only. Length, every query and every earlier turn are unchanged. A failed request leaves the transcript exactly as it was |
| Chat.Answer | app/chat/page.tsx:102-106 | Settling a request changes only the transcript, as `Chat.Resolve` describes; draft and rotator are unchanged |
| Chat.FadeOut | app/chat/page.tsx:29 | The interval tick on the whole page state fades the prompt out and leaves draft and transcript alone |
| Chat.FadeIn | app/chat/page.tsx:30-33 | The completion step over the eight fixed prompts keeps the index below eight and leaves draft and transcript alone |
| Controller.Step | app/chat/page.tsx:27-110 | Every event keeps the session valid: no more requests outstanding than turns, and the prompt index in range. The transcript only grows, no query is rewritten, and every turn except the last is left unchanged |
| Controller.Run | app/chat/page.tsx:27-110 | The same three facts hold over any sequence of events |
| Controller.KeyDownIsSubmit | app/chat/page.tsx:56-61 | On the whole session, Enter without Shift has exactly the effect of submitting the form; any other key has none |
| Controller.SubmitEffect | app/chat/page.tsx:63-69 | On the whole session, a blank draft leaves everything unchanged. A non-blank draft appends one turn, clears the draft, and adds exactly one request with the trimmed query to those outstanding |
| Controller.SubmitTwiceSendsOnce | app/chat/page.tsx:65-69 | Submitting twice in a row has the effect of submitting once, because the first submission clears the draft |
| Controller.TypeAndSubmit | app/chat/page.tsx:48-69 | Typing whitespace, a non-blank query and whitespace, then pressing Enter or the send button, records and sends exactly the query |
| Controller.ArrivalIgnoresOrigin | app/chat/page.tsx:102-105 | Whichever outstanding request an answer belongs to, the resulting page state is the same, and a successful answer is on the newest turn |
| Controller.ArrivalRetiresRequest | app/chat/page.tsx:87-109 | An arrival removes exactly the named request from those outstanding; a failed one leaves the page state unchanged |
| Controller.RotationOnly | app/chat/page.tsx:27-34 | Rotation events never touch the draft, the transcript or the outstanding requests. The index advances by the number of completions, modulo eight |
| Controller.FullRotationReturns | app/chat/page.tsx:31 | Eight completions, interleaved with any ticks, return the prompt index to its start |
| Controller.HelloScenario | app/chat/page.tsx:63-106 | Typing "  hello  " and pressing Enter gives the transcript [{hello, ""}] with one request "hello". The answer "hi" then gives [{hello, hi}] with nothing outstanding |
| Controller.OutOfOrderScenario | app/chat/page.tsx:102-105 | After "first" and "second" are submitted, the second answer arrives, then the first. The transcript ends as [{first, ""}, {second, "answer 1"}] |

## Left out

- The `fetch` call, the HTTP request and the `process.env` base URL (`app/chat/page.tsx:78-85`) are network I/O. Each request is modelled only by its query and by how it settles: `Ok(response)` or `Failure`.
- `JSON.parse` (`app/chat/page.tsx:95`) is folded into the outcome: a body that is not JSON is a `Failure`, and a JSON object with a string `response` field is `Ok`. Other JSON bodies are not modelled. An object without a `response` field, or a number or string body, would store `undefined` or a non-string value in the turn. A `null` body parses, and then reading `.response` at `app/chat/page.tsx:104` throws inside the `setChatHistory` updater; React runs that updater outside the `try`/`catch` of `app/chat/page.tsx:76-109`, so the error is not caught and the page fails instead of leaving the transcript unchanged.
- The `console.error` logging on failure has no effect on state and is left out.
- Textarea height reset and measurement (`app/chat/page.tsx:50-53`, `70-72`) depend on DOM layout (`scrollHeight`).
- The scroll-to-bottom effect (`app/chat/page.tsx:39-46`) is a DOM side effect with no state.
- Real timer durations (the 4000 ms interval and the 500 ms fade delay) and interval cleanup on unmount (`app/chat/page.tsx:28-36`) are left out. Tick and completion are separate events that may arrive in any order.
- React's batching and the stale-closure read of `chatHistory` in the submit handler (`app/chat/page.tsx:67`) are left out. Submissions act on the current state, one event at a time.
- The `preventDefault` calls (`app/chat/page.tsx:58`, `64`) only suppress browser behaviour.
- JSX rendering, `app/page.tsx` and `app/layout.tsx` are static markup.
- The unused `BACKEND_URL` constant (`app/chat/page.tsx:5`) is left out.
- Text.Trim: JavaScript trims UTF-16 code units, and Dafny strings here are sequences of Unicode scalar values. Every whitespace character is in the Basic Multilingual Plane, so the two agree on every string without lone surrogates. Strings containing lone surrogates are not modelled.
- Controller.Step: an arrival event that names no outstanding request is not something the page can receive, and it is modelled as changing nothing.
