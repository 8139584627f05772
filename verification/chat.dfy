/**
 * The state and handlers of the chat page component, pulled out of React:
 * the draft in the text area, the transcript of turns, and the prompt
 * rotator. Each handler is a pure transition on that state; a submission also
 * reports the request it sends to the chat service.
 */
module Chat {
  import Text
  import Rotation

  /** One exchange: the user's query and the answer shown under it. */
  datatype Turn = Turn(user: string, ai: string)

  datatype ChatState = ChatState(draft: string, history: seq<Turn>, rotor: Rotation.Rotor)

  /** The body of the POST to the chat endpoint. */
  datatype Request = Request(query: string)

  /** How a request settles: a successful status whose body is a JSON object
      with a string `response` field, or a failure caught by the request
      handler (a network error, a non-ok status, a body that is not JSON). */
  datatype Outcome = Ok(response: string) | Failure

  /** A submission's effect: the next state and the requests it sends. */
  datatype Dispatch = Dispatch(state: ChatState, requests: seq<Request>)

  const EnterKey: string := "Enter"

  /** The state at mount: empty draft, empty transcript, first prompt shown. */
  const Initial: ChatState := ChatState("", [], Rotation.Initial)

  /** The text area's change handler: the new value becomes the draft as
      typed, surrounding whitespace included; nothing else changes. */
  function InputChange(s: ChatState, value: string): (s': ChatState)
    ensures s'.draft == value
    ensures s'.history == s.history && s'.rotor == s.rotor
  {
    s.(draft := value)
  }

  /** The form's submit handler. A draft that is empty or all whitespace is
      ignored: nothing is sent and the draft stays as it is. Otherwise the
      trimmed draft is appended as a turn with an empty answer, sent as the
      only request, and the draft is cleared. */
  function Submit(s: ChatState): (d: Dispatch)
    ensures Text.AllWhitespace(s.draft) ==> d == Dispatch(s, [])
    ensures !Text.AllWhitespace(s.draft) ==>
      var q := Text.Trim(s.draft);
      && q != "" && Text.Tight(q)
      && d.state.history == s.history + [Turn(q, "")]
      && d.state.draft == ""
      && d.state.rotor == s.rotor
      && d.requests == [Request(q)]
  {
    var message := Text.Trim(s.draft);
    if message == "" then Dispatch(s, [])
    else Dispatch(ChatState("", s.history + [Turn(message, "")], s.rotor), [Request(message)])
  }

  /** The text area's key handler: Enter without Shift submits; any other key,
      Shift+Enter included, is left to the text area and changes nothing
      here. */
  function KeyDown(s: ChatState, key: string, shift: bool): (d: Dispatch)
    ensures key == EnterKey && !shift ==> d == Submit(s)
    ensures key != EnterKey || shift ==> d == Dispatch(s, [])
  {
    if key == EnterKey && !shift then Submit(s) else Dispatch(s, [])
  }

  /** The transcript update made when a request settles. A successful answer
      is written into the LAST turn, whichever request it answers; a failure
      is logged and leaves the transcript as it was. Writing into the last
      turn needs a turn to exist. */
  function Resolve(h: seq<Turn>, outcome: Outcome): (h': seq<Turn>)
    requires outcome.Ok? ==> |h| > 0
    ensures |h'| == |h|
    ensures forall i :: 0 <= i < |h| ==> h'[i].user == h[i].user
    ensures forall i :: 0 <= i < |h| - 1 ==> h'[i] == h[i]
    ensures outcome.Ok? ==> h'[|h| - 1].ai == outcome.response
    ensures outcome.Failure? ==> h' == h
  {
    match outcome
    case Ok(answer) => h[|h| - 1 := h[|h| - 1].(ai := answer)]
    case Failure => h
  }

  /** The settling of a request, on the whole state: only the transcript
      changes. */
  function Answer(s: ChatState, outcome: Outcome): (s': ChatState)
    requires outcome.Ok? ==> |s.history| > 0
    ensures s'.draft == s.draft && s'.rotor == s.rotor
    ensures s'.history == Resolve(s.history, outcome)
  {
    s.(history := Resolve(s.history, outcome))
  }

  /** The rotation interval fires: the prompt starts fading out. */
  function FadeOut(s: ChatState): (s': ChatState)
    ensures s'.rotor == Rotation.Tick(s.rotor)
    ensures s'.draft == s.draft && s'.history == s.history
  {
    s.(rotor := Rotation.Tick(s.rotor))
  }

  /** The fade-out delay ends: the next of the fixed prompts fades in. */
  function FadeIn(s: ChatState): (s': ChatState)
    ensures s'.rotor == Rotation.Complete(s.rotor, |Rotation.Prompts|)
    ensures s'.rotor.index < |Rotation.Prompts|
    ensures s'.draft == s.draft && s'.history == s.history
  {
    s.(rotor := Rotation.Complete(s.rotor, |Rotation.Prompts|))
  }
}
