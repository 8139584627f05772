/**
 * The placeholder prompt rotator of the chat page. Every rotation interval a
 * tick fades the current prompt out; a shorter delay later the completion
 * step moves to the next prompt, wrapping around the fixed list, and fades it
 * back in. Tick and completion are modelled as two discrete events.
 */
module Rotation {

  /** The fixed prompt list shown in the chat page's placeholder slot. */
  const Prompts: seq<string> := [
    "How are the global stock markets performing?",
    "Give me updates on the Olympics",
    "What are the latest tech trends?",
    "Any new medical developments?",
    "What are the recent advancements in AI?",
    "Tell me about the latest in politics",
    "What are the top headlines today?",
    "What's new in the entertainment industry?"
  ]

  /** Rotation state: the index of the displayed prompt and whether it is
      faded in (`visible`) or fading out. */
  datatype Rotor = Rotor(index: nat, visible: bool)

  /** The state at mount: first prompt, faded in. */
  const Initial: Rotor := Rotor(0, true)

  /** The interval tick: start fading out; the prompt does not change yet. */
  function Tick(r: Rotor): (r': Rotor)
    ensures r'.index == r.index
    ensures !r'.visible
  {
    r.(visible := false)
  }

  /** The delayed completion over a list of `n` prompts: advance to the next
      prompt, wrapping from the last back to the first, and fade in. */
  function Complete(r: Rotor, n: nat): (r': Rotor)
    requires 0 < n
    ensures r'.visible
    ensures r'.index < n
    ensures r.index + 1 < n ==> r'.index == r.index + 1
    ensures r.index + 1 == n ==> r'.index == 0
  {
    Rotor((r.index + 1) % n, true)
  }

  /** One full rotation interval: the tick followed by its completion. */
  function Cycle(r: Rotor, n: nat): (r': Rotor)
    requires 0 < n
    ensures r'.visible && r'.index < n
  {
    Complete(Tick(r), n)
  }

  /** The state after `k` rotation intervals. */
  function Cycles(r: Rotor, n: nat, k: nat): Rotor
    requires 0 < n
    decreases k
  {
    if k == 0 then r else Cycles(Cycle(r, n), n, k - 1)
  }

  /** The prompt on display. */
  function Displayed(prompts: seq<string>, r: Rotor): string
    requires r.index < |prompts|
  {
    prompts[r.index]
  }

  /** The prompts displayed at mount and after each of `k` rotation
      intervals, in order. */
  function DisplayedSequence(prompts: seq<string>, r: Rotor, k: nat): (d: seq<string>)
    requires r.index < |prompts|
    ensures |d| == k + 1
    ensures d[0] == Displayed(prompts, r)
    decreases k
  {
    if k == 0 then [Displayed(prompts, r)]
    else [Displayed(prompts, r)] + DisplayedSequence(prompts, Cycle(r, |prompts|), k - 1)
  }

  lemma AddModulus(n: nat, k: nat)
    requires 0 < n
    ensures (n + k) % n == k % n
  {
    var q, m := k / n, k % n;
    assert k == q * n + m;
    assert n + k == (q + 1) * n + m;
    DivModUnique(n + k, n, q + 1, m);
  }

  lemma DivModUnique(x: nat, n: nat, q: nat, m: nat)
    requires 0 < n && m < n && x == q * n + m
    ensures x % n == m
  {
    var q', m' := x / n, x % n;
    assert x == q' * n + m';
    if q' < q {
      MulMonotonic(q' + 1, q, n);
    } else if q' > q {
      MulMonotonic(q + 1, q', n);
    }
  }

  lemma MulMonotonic(a: nat, b: nat, n: nat)
    requires a <= b
    ensures a * n <= b * n
  {
    assert b * n == a * n + (b - a) * n;
  }

  lemma ModStep(i: nat, n: nat, k: nat)
    requires i < n
    ensures ((i + 1) % n + k) % n == (i + 1 + k) % n
  {
    if i + 1 == n {
      DivModUnique(i + 1, n, 1, 0);
      AddModulus(n, k);
    } else {
      DivModUnique(i + 1, n, 0, i + 1);
    }
  }

  /** After `k` intervals the index has moved `k` places round the list. */
  lemma {:induction false} CyclesIndex(r: Rotor, n: nat, k: nat)
    requires r.index < n
    ensures Cycles(r, n, k).index == (r.index + k) % n
    decreases k
  {
    if k == 0 {
      DivModUnique(r.index, n, 0, r.index);
    } else {
      var r1 := Cycle(r, n);
      CyclesIndex(r1, n, k - 1);
      ModStep(r.index, n, k - 1);
    }
  }

  /** As many intervals as there are prompts bring the rotor back to the
      prompt it started from. */
  lemma CyclesReturn(r: Rotor, n: nat)
    requires r.index < n
    ensures Cycles(r, n, n).index == r.index
  {
    CyclesIndex(r, n, n);
    AddModulus(n, r.index);
    DivModUnique(r.index, n, 0, r.index);
  }

  /** With the prompts "A" and "B", two intervals display A, B, A. */
  lemma TwoPromptScenario()
    ensures DisplayedSequence(["A", "B"], Initial, 2) == ["A", "B", "A"]
  {
    var ps := ["A", "B"];
    var r1 := Cycle(Initial, 2);
    var r2 := Cycle(r1, 2);
    assert r1.index == 1 && r2.index == 0;
    assert DisplayedSequence(ps, r2, 0) == ["A"];
    assert DisplayedSequence(ps, r1, 1) == ["B", "A"];
  }
}
