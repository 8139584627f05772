/**
 * The chat page as a sequential event machine. Besides the component state it
 * tracks the requests that have been sent and not yet settled; an arrival
 * event settles one of them. Timers, the network and React's scheduling are
 * replaced by the order in which events are fed to `Run`.
 */
module Controller {
  import Text
  import Rotation
  import opened Chat

  datatype Event =
    | Change(value: string)            // the text area's value changed
    | Key(key: string, shift: bool)    // a key went down in the text area
    | SubmitForm                       // the send button submitted the form
    | IntervalTick                     // the rotation interval fired
    | FadeDone                         // the fade-out delay ended
    | Arrive(k: nat, outcome: Outcome) // the k-th outstanding request settled

  datatype Session = Session(chat: ChatState, inFlight: seq<Request>)

  const Start: Session := Session(Chat.Initial, [])

  /** Every outstanding request was sent by a submission that appended a turn,
      and the prompt index is in range. */
  predicate Valid(s: Session) {
    && |s.inFlight| <= |s.chat.history|
    && s.chat.rotor.index < |Rotation.Prompts|
  }

  /** `h'` extends `h`: no turn is lost and no query is rewritten. */
  predicate Grows(h: seq<Turn>, h': seq<Turn>) {
    && |h| <= |h'|
    && forall i :: 0 <= i < |h| ==> h'[i].user == h[i].user
  }

  /** Every turn of `h` except its last is unchanged in `h'`. */
  predicate Settled(h: seq<Turn>, h': seq<Turn>) {
    && |h| <= |h'|
    && forall i :: 0 <= i < |h| - 1 ==> h'[i] == h[i]
  }

  function Send(s: Session, d: Dispatch): Session {
    Session(d.state, s.inFlight + d.requests)
  }

  /** One event. */
  function Step(s: Session, e: Event): (s': Session)
    requires Valid(s)
    ensures Valid(s')
    ensures Grows(s.chat.history, s'.chat.history)
    ensures Settled(s.chat.history, s'.chat.history)
  {
    match e
    case Change(value) => s.(chat := InputChange(s.chat, value))
    case Key(key, shift) => Send(s, KeyDown(s.chat, key, shift))
    case SubmitForm => Send(s, Submit(s.chat))
    case IntervalTick => s.(chat := FadeOut(s.chat))
    case FadeDone => s.(chat := FadeIn(s.chat))
    case Arrive(k, outcome) =>
      if k < |s.inFlight| then
        Session(Answer(s.chat, outcome), s.inFlight[..k] + s.inFlight[k + 1..])
      else s
  }

  /** A sequence of events, in order. Whatever happens, the state stays
      valid, the transcript only grows, and every turn but the last one at
      the start keeps its query and its answer. */
  function Run(s: Session, es: seq<Event>): (s': Session)
    requires Valid(s)
    ensures Valid(s')
    ensures Grows(s.chat.history, s'.chat.history)
    ensures Settled(s.chat.history, s'.chat.history)
    decreases |es|
  {
    if es == [] then s else Run(Step(s, es[0]), es[1..])
  }

  /** Enter without Shift has exactly the effect of submitting the form; any
      other key has none. */
  lemma KeyDownIsSubmit(s: Session, key: string, shift: bool)
    requires Valid(s)
    ensures key == EnterKey && !shift ==> Step(s, Key(key, shift)) == Step(s, SubmitForm)
    ensures key != EnterKey || shift ==> Step(s, Key(key, shift)) == s
  {
    assert s.inFlight + [] == s.inFlight;
  }

  /** Submitting a non-blank draft appends exactly one turn, clears the
      draft and puts exactly one request with the trimmed query in flight;
      a blank draft changes nothing at all. */
  lemma SubmitEffect(s: Session)
    requires Valid(s)
    ensures var s' := Step(s, SubmitForm);
      && (Text.AllWhitespace(s.chat.draft) ==> s' == s)
      && (!Text.AllWhitespace(s.chat.draft) ==>
            && s'.chat.history == s.chat.history + [Turn(Text.Trim(s.chat.draft), "")]
            && s'.chat.draft == ""
            && s'.inFlight == s.inFlight + [Request(Text.Trim(s.chat.draft))])
  {
    assert s.inFlight + [] == s.inFlight;
  }

  /** Submitting twice in a row sends once: the first submission clears the
      draft, so the second finds nothing to send. */
  lemma SubmitTwiceSendsOnce(s: Session)
    requires Valid(s)
    ensures Step(Step(s, SubmitForm), SubmitForm) == Step(s, SubmitForm)
  {
    var s1 := Step(s, SubmitForm);
    assert Text.AllWhitespace(s1.chat.draft) by {
      if !Text.AllWhitespace(s.chat.draft) {
        assert s1.chat.draft == "";
      } else {
        assert s1 == s;
      }
    }
    assert s1.inFlight + [] == s1.inFlight;
  }

  /** Which outstanding request an answer belongs to makes no difference to
      where it is written: every successful answer lands on the newest
      turn. */
  lemma ArrivalIgnoresOrigin(s: Session, k1: nat, k2: nat, outcome: Outcome)
    requires Valid(s) && k1 < |s.inFlight| && k2 < |s.inFlight|
    ensures Step(s, Arrive(k1, outcome)).chat == Step(s, Arrive(k2, outcome)).chat
    ensures outcome.Ok? ==>
      var h := Step(s, Arrive(k1, outcome)).chat.history;
      h[|h| - 1].ai == outcome.response
  {
  }

  /** An arrival settles exactly the request it names; a failed one is
      swallowed and leaves the page state exactly as it was. */
  lemma ArrivalRetiresRequest(s: Session, k: nat, outcome: Outcome)
    requires Valid(s) && k < |s.inFlight|
    ensures var s' := Step(s, Arrive(k, outcome));
      && |s'.inFlight| == |s.inFlight| - 1
      && multiset(s'.inFlight) + multiset{s.inFlight[k]} == multiset(s.inFlight)
      && (outcome.Failure? ==> s'.chat == s.chat)
  {
    var s' := Step(s, Arrive(k, outcome));
    assert s.inFlight == s.inFlight[..k] + [s.inFlight[k]] + s.inFlight[k + 1..];
  }

  predicate IsRotation(e: Event) {
    e.IntervalTick? || e.FadeDone?
  }

  /** How many fade-ins a sequence of events contains. */
  function FadeIns(es: seq<Event>): (c: nat)
    ensures c <= |es|
  {
    if es == [] then 0 else (if es[0].FadeDone? then 1 else 0) + FadeIns(es[1..])
  }

  /** Rotation events never touch the draft, the transcript or the
      outstanding requests, and after them the prompt index has moved one
      place round the prompt list per fade-in. */
  lemma {:induction false} RotationOnly(s: Session, es: seq<Event>)
    requires Valid(s)
    requires forall i :: 0 <= i < |es| ==> IsRotation(es[i])
    ensures var s' := Run(s, es);
      && s'.chat.draft == s.chat.draft
      && s'.chat.history == s.chat.history
      && s'.inFlight == s.inFlight
      && s'.chat.rotor.index == (s.chat.rotor.index + FadeIns(es)) % |Rotation.Prompts|
    decreases |es|
  {
    var n := |Rotation.Prompts|;
    if es == [] {
      Rotation.DivModUnique(s.chat.rotor.index, n, 0, s.chat.rotor.index);
    } else {
      var s1 := Step(s, es[0]);
      RotationOnly(s1, es[1..]);
      if es[0].FadeDone? {
        Rotation.ModStep(s.chat.rotor.index, n, FadeIns(es[1..]));
      }
    }
  }

  /** Eight fade-ins, however interleaved with ticks, bring the placeholder
      back to the prompt it showed before. */
  lemma FullRotationReturns(s: Session, es: seq<Event>)
    requires Valid(s)
    requires forall i :: 0 <= i < |es| ==> IsRotation(es[i])
    requires FadeIns(es) == |Rotation.Prompts|
    ensures Run(s, es).chat.rotor.index == s.chat.rotor.index
  {
    RotationOnly(s, es);
    Rotation.AddModulus(|Rotation.Prompts|, s.chat.rotor.index);
    Rotation.DivModUnique(s.chat.rotor.index, |Rotation.Prompts|, 0, s.chat.rotor.index);
  }

  lemma RunUnfold(s: Session, e: Event, es: seq<Event>)
    requires Valid(s)
    ensures Run(s, [e] + es) == Run(Step(s, e), es)
  {
    assert ([e] + es)[1..] == es;
  }

  /** Typing a draft that is some whitespace, a non-blank query and some
      whitespace, then submitting, records and sends just the query. */
  lemma TypeAndSubmit(s: Session, p: string, m: string, q: string, submit: Event)
    requires Valid(s)
    requires Text.AllWhitespace(p) && Text.AllWhitespace(q) && Text.Tight(m) && m != ""
    requires submit == SubmitForm || submit == Key(EnterKey, false)
    ensures Run(s, [Change(p + m + q), submit])
         == Session(ChatState("", s.chat.history + [Turn(m, "")], s.chat.rotor),
                    s.inFlight + [Request(m)])
  {
    Text.TrimOfSplit(p, m, q, Text.IsJsWhitespace);
    var s0 := Step(s, Change(p + m + q));
    KeyDownIsSubmit(s0, EnterKey, false);
    RunUnfold(s0, submit, []);
    RunUnfold(s, Change(p + m + q), [submit]);
  }

  /** Typing "  hello  " into a fresh page and pressing Enter records the
      trimmed query with a blank answer; the answer "hi" then fills it in. */
  lemma HelloScenario()
    ensures Run(Start, [Change("  hello  "), Key("Enter", false)])
         == Session(ChatState("", [Turn("hello", "")], Rotation.Initial), [Request("hello")])
    ensures Run(Start, [Change("  hello  "), Key("Enter", false), Arrive(0, Ok("hi"))])
         == Session(ChatState("", [Turn("hello", "hi")], Rotation.Initial), [])
  {
    var typed := [Change("  hello  "), Key("Enter", false)];
    var answer := Arrive(0, Ok("hi"));
    assert typed + [answer] == [Change("  hello  "), Key("Enter", false), Arrive(0, Ok("hi"))];
    HelloSubmitted();
    HelloAnswered();
    RunSnoc(Start, typed, answer);
  }

  lemma HelloSubmitted()
    ensures Run(Start, [Change("  hello  "), Key("Enter", false)])
         == Session(ChatState("", [Turn("hello", "")], Rotation.Initial), [Request("hello")])
  {
    assert "  hello  " == "  " + "hello" + "  ";
    assert Text.AllWhitespace("  ") && Text.Tight("hello");
    TypeAndSubmit(Start, "  ", "hello", "  ", Key("Enter", false));
  }

  lemma HelloAnswered()
    ensures var s1 := Session(ChatState("", [Turn("hello", "")], Rotation.Initial), [Request("hello")]);
      Valid(s1) && Step(s1, Arrive(0, Ok("hi")))
                   == Session(ChatState("", [Turn("hello", "hi")], Rotation.Initial), [])
  {
  }

  /** Two queries sent from a fresh page whose answers arrive out of order:
      both answers are written into the newest turn, the later arrival
      overwriting the earlier, and the first turn keeps a blank answer. */
  lemma OutOfOrderScenario()
    ensures Run(Start, [Change("first"), SubmitForm, Change("second"), SubmitForm])
         == Session(ChatState("", [Turn("first", ""), Turn("second", "")], Rotation.Initial),
                    [Request("first"), Request("second")])
    ensures Run(Start, [Change("first"), SubmitForm, Change("second"), SubmitForm,
                        Arrive(1, Ok("answer 2")), Arrive(0, Ok("answer 1"))])
         == Session(ChatState("", [Turn("first", ""), Turn("second", "answer 1")], Rotation.Initial), [])
  {
    var sent := [Change("first"), SubmitForm, Change("second"), SubmitForm];
    var e1, e2 := Arrive(1, Ok("answer 2")), Arrive(0, Ok("answer 1"));
    assert sent + [e1] + [e2] == [Change("first"), SubmitForm, Change("second"), SubmitForm, e1, e2];
    TwoSubmitted();
    TwoAnswered();
    RunSnoc(Start, sent, e1);
    RunSnoc(Start, sent + [e1], e2);
  }

  lemma FirstSubmitted()
    ensures Run(Start, [Change("first"), SubmitForm])
         == Session(ChatState("", [Turn("first", "")], Rotation.Initial), [Request("first")])
  {
    assert "first" == "" + "first" + "";
    assert Text.AllWhitespace("") && Text.Tight("first");
    TypeAndSubmit(Start, "", "first", "", SubmitForm);
  }

  lemma SecondSubmitted()
    ensures var s1 := Session(ChatState("", [Turn("first", "")], Rotation.Initial), [Request("first")]);
      Valid(s1) && Run(s1, [Change("second"), SubmitForm])
         == Session(ChatState("", [Turn("first", ""), Turn("second", "")], Rotation.Initial),
                    [Request("first"), Request("second")])
  {
    var s1 := Session(ChatState("", [Turn("first", "")], Rotation.Initial), [Request("first")]);
    assert "second" == "" + "second" + "";
    assert Text.AllWhitespace("") && Text.Tight("second");
    TypeAndSubmit(s1, "", "second", "", SubmitForm);
  }

  lemma TwoSubmitted()
    ensures Run(Start, [Change("first"), SubmitForm, Change("second"), SubmitForm])
         == Session(ChatState("", [Turn("first", ""), Turn("second", "")], Rotation.Initial),
                    [Request("first"), Request("second")])
  {
    var first, second := [Change("first"), SubmitForm], [Change("second"), SubmitForm];
    assert first + second == [Change("first"), SubmitForm, Change("second"), SubmitForm];
    FirstSubmitted();
    SecondSubmitted();
    RunAppend(Start, first, second);
  }

  lemma TwoAnswered()
    ensures var s2 := Session(ChatState("", [Turn("first", ""), Turn("second", "")], Rotation.Initial),
                              [Request("first"), Request("second")]);
      var s3 := Session(ChatState("", [Turn("first", ""), Turn("second", "answer 2")], Rotation.Initial),
                        [Request("first")]);
      && Valid(s2) && Step(s2, Arrive(1, Ok("answer 2"))) == s3
      && Step(s3, Arrive(0, Ok("answer 1")))
         == Session(ChatState("", [Turn("first", ""), Turn("second", "answer 1")], Rotation.Initial), [])
  {
  }

  /** Running two event sequences one after the other is running their
      concatenation. */
  lemma {:induction false} RunAppend(s: Session, a: seq<Event>, b: seq<Event>)
    requires Valid(s)
    ensures Run(s, a + b) == Run(Run(s, a), b)
    decreases |a|
  {
    if a == [] {
      assert a + b == b;
    } else {
      assert (a + b)[0] == a[0] && (a + b)[1..] == a[1..] + b;
      RunAppend(Step(s, a[0]), a[1..], b);
    }
  }

  /** Running one more event after a sequence is a single further step. */
  lemma RunSnoc(s: Session, es: seq<Event>, e: Event)
    requires Valid(s)
    ensures Run(s, es + [e]) == Step(Run(s, es), e)
  {
    RunAppend(s, es, [e]);
    RunUnfold(Run(s, es), e, []);
  }
}
