/** The typewriter effect on the hero title: a self-rescheduling timer that
    reveals one title character by character, pauses, deletes it again and
    moves on to the next title of a fixed circular list.

    One call of the timer callback is one `Step`. The timer itself is not
    modelled: a step only reports the delay it asks for before the next one. */
module Typing {

  /** The titles cycled through, in order. */
  const Titles: seq<string> := [
    "Student Researcher",
    "AI Innovator",
    "Future Engineer",
    "Problem Solver",
    "Tech Enthusiast",
    "Research Pioneer"
  ]

  /** Delays, in milliseconds, that a step asks for before the next step. */
  const TypeDelay: int := 100
  const DeleteDelay: int := 50
  const PauseDelay: int := 2000
  const AdvanceDelay: int := 500

  /** `index` selects the current title, `cursor` is the number of characters
      shown, `deleting` tells which way the cursor moves. */
  datatype State = State(index: int, cursor: int, deleting: bool)

  /** What one step does: the text written into the title element, the
      state for the next step and the delay before it. */
  datatype Output = Output(text: string, next: State, delay: int)

  const Init: State := State(0, 0, false)

  /** A title list the animator can cycle through. */
  predicate WellFormed(titles: seq<string>) {
    && |titles| > 0
    && forall i :: 0 <= i < |titles| ==> |titles[i]| > 0
  }

  /** The animator's invariant: the index selects a title; while typing at
      least one character is still hidden, while deleting at least one is
      still shown. */
  predicate Inv(titles: seq<string>, s: State) {
    && 0 <= s.index < |titles|
    && if s.deleting then 1 <= s.cursor <= |titles[s.index]|
       else 0 <= s.cursor < |titles[s.index]|
  }

  function Clamp(k: int, hi: nat): (r: nat)
    ensures r <= hi
    ensures 0 <= k <= hi ==> r == k
  {
    if k < 0 then 0 else if k > hi then hi else k
  }

  /** `s.substring(0, k)`: JavaScript clamps the end index into `[0, |s|]`. */
  function Substring(s: string, k: int): (r: string)
    ensures r <= s
    ensures 0 <= k <= |s| ==> |r| == k
    ensures k <= 0 ==> r == []
    ensures k >= |s| ==> r == s
  {
    s[..Clamp(k, |s|)]
  }

  /** One firing of the timer callback. */
  function Step(titles: seq<string>, s: State): (r: Output)
    requires 0 <= s.index < |titles|
    ensures 0 <= r.next.index < |titles|
    ensures r.text <= titles[s.index]
    ensures r.delay in {TypeDelay, DeleteDelay, PauseDelay, AdvanceDelay}
  {
    var title := titles[s.index];
    var text := if s.deleting then Substring(title, s.cursor - 1) else Substring(title, s.cursor + 1);
    var cursor := if s.deleting then s.cursor - 1 else s.cursor + 1;
    var delay := if s.deleting then DeleteDelay else TypeDelay;
    if !s.deleting && cursor == |title| then
      Output(text, State(s.index, cursor, true), PauseDelay)
    else if s.deleting && cursor == 0 then
      Output(text, State((s.index + 1) % |titles|, 0, false), AdvanceDelay)
    else
      Output(text, State(s.index, cursor, s.deleting), delay)
  }

  /** A step keeps the invariant, and the text it writes is exactly the
      prefix of the current title that the new cursor designates. */
  lemma StepInv(titles: seq<string>, s: State)
    requires WellFormed(titles) && Inv(titles, s)
    ensures Inv(titles, Step(titles, s).next)
    ensures var r := Step(titles, s);
            0 <= r.next.cursor <= |titles[s.index]|
            && r.text == titles[s.index][..r.next.cursor]
  {
  }

  /** The transition rules, stated by what the step shows: the cursor moves by
      one character; the animator turns to deleting exactly when the whole
      title is on screen, pausing 2000 ms; it turns back to typing exactly
      when the screen is empty, moving to the next title after 500 ms; all
      other steps take 100 ms when typing and 50 ms when deleting. */
  lemma StepRules(titles: seq<string>, s: State)
    requires WellFormed(titles) && Inv(titles, s)
    ensures var r := Step(titles, s);
            var title := titles[s.index];
            && r.next.cursor == (if s.deleting then s.cursor - 1 else s.cursor + 1)
            && (!s.deleting ==> (r.next.deleting <==> r.text == title))
            && (!s.deleting && r.next.deleting ==> r.delay == PauseDelay && r.next.index == s.index)
            && (s.deleting ==> (!r.next.deleting <==> r.text == []))
            && (s.deleting && !r.next.deleting ==>
                  r.delay == AdvanceDelay && r.next == State((s.index + 1) % |titles|, 0, false))
            && (r.next.deleting == s.deleting ==>
                  r.next.index == s.index && r.delay == (if s.deleting then DeleteDelay else TypeDelay))
  {
  }

  /** The state after `k` steps from `s`. Its contract is the inductive
      invariant: every state reachable from one satisfying `Inv`, and so
      every state reachable from `Init`, satisfies it too. */
  function Iterate(titles: seq<string>, s: State, k: nat): (r: State)
    requires WellFormed(titles) && Inv(titles, s)
    ensures Inv(titles, r)
    decreases k
  {
    if k == 0 then s
    else
      StepInv(titles, s);
      Iterate(titles, Step(titles, s).next, k - 1)
  }

  /** The state after `k` steps from the start. */
  function Run(titles: seq<string>, k: nat): State
    requires WellFormed(titles)
  {
    Iterate(titles, Init, k)
  }

  lemma {:induction false} IterateAdd(titles: seq<string>, s: State, a: nat, b: nat)
    requires WellFormed(titles) && Inv(titles, s)
    ensures Iterate(titles, s, a + b) == Iterate(titles, Iterate(titles, s, a), b)
    decreases a
  {
    if a > 0 {
      StepInv(titles, s);
      IterateAdd(titles, Step(titles, s).next, a - 1, b);
    }
  }

  /** Total delay, in milliseconds, that `k` steps from `s` ask for. */
  function Elapsed(titles: seq<string>, s: State, k: nat): int
    requires WellFormed(titles) && Inv(titles, s)
    decreases k
  {
    if k == 0 then 0
    else
      StepInv(titles, s);
      Step(titles, s).delay + Elapsed(titles, Step(titles, s).next, k - 1)
  }

  lemma {:induction false} ElapsedAdd(titles: seq<string>, s: State, a: nat, b: nat)
    requires WellFormed(titles) && Inv(titles, s)
    ensures Elapsed(titles, s, a + b) == Elapsed(titles, s, a) + Elapsed(titles, Iterate(titles, s, a), b)
    decreases a
  {
    if a > 0 {
      StepInv(titles, s);
      ElapsedAdd(titles, Step(titles, s).next, a - 1, b);
    }
  }

  /** Typing from cursor `c` reaches the full title after `|title| - c`
      steps and turns to deleting; every step but the last takes 100 ms and
      the last one asks for the 2000 ms pause. */
  lemma {:induction false} TypingPhase(titles: seq<string>, i: int, c: int)
    requires WellFormed(titles) && 0 <= i < |titles| && 0 <= c < |titles[i]|
    ensures Iterate(titles, State(i, c, false), |titles[i]| - c) == State(i, |titles[i]|, true)
    ensures Elapsed(titles, State(i, c, false), |titles[i]| - c)
            == TypeDelay * (|titles[i]| - c - 1) + PauseDelay
    decreases |titles[i]| - c
  {
    var s := State(i, c, false);
    var next := Step(titles, s).next;
    IterateAdd(titles, s, 1, |titles[i]| - c - 1);
    if c + 1 < |titles[i]| {
      assert next == State(i, c + 1, false);
      TypingPhase(titles, i, c + 1);
    } else {
      assert next == State(i, |titles[i]|, true);
    }
  }

  /** Deleting from cursor `c` empties the screen after `c` steps and moves
      on to typing the next title; every step but the last takes 50 ms and
      the last one asks for 500 ms. */
  lemma {:induction false} DeletingPhase(titles: seq<string>, i: int, c: int)
    requires WellFormed(titles) && 0 <= i < |titles| && 1 <= c <= |titles[i]|
    ensures Iterate(titles, State(i, c, true), c) == State((i + 1) % |titles|, 0, false)
    ensures Elapsed(titles, State(i, c, true), c) == DeleteDelay * (c - 1) + AdvanceDelay
    decreases c
  {
    var s := State(i, c, true);
    var next := Step(titles, s).next;
    IterateAdd(titles, s, 1, c - 1);
    if c > 1 {
      assert next == State(i, c - 1, true);
      DeletingPhase(titles, i, c - 1);
    } else {
      assert next == State((i + 1) % |titles|, 0, false);
    }
  }

  /** A full cycle over title `i` (type it, pause, delete it) takes
      `2 * |titles[i]|` steps, ends at the start of the next title and asks
      for `150 * (|titles[i]| - 1) + 2500` ms in all. */
  lemma FullCycle(titles: seq<string>, i: int)
    requires WellFormed(titles) && 0 <= i < |titles|
    ensures Iterate(titles, State(i, 0, false), 2 * |titles[i]|) == State((i + 1) % |titles|, 0, false)
    ensures Elapsed(titles, State(i, 0, false), 2 * |titles[i]|)
            == (TypeDelay + DeleteDelay) * (|titles[i]| - 1) + PauseDelay + AdvanceDelay
  {
    var n := |titles[i]|;
    IterateAdd(titles, State(i, 0, false), n, n);
    ElapsedAdd(titles, State(i, 0, false), n, n);
    TypingPhase(titles, i, 0);
    DeletingPhase(titles, i, n);
  }

  /** The site's own list is one the animator can cycle through. */
  lemma TitlesWellFormed()
    ensures WellFormed(Titles) && |Titles| == 6
    ensures |Titles[0]| == 18 && |Titles[1]| == 12 && |Titles[2]| == 15
    ensures |Titles[3]| == 14 && |Titles[4]| == 15 && |Titles[5]| == 16
  {
  }

  /** On the site's own list, "Student Researcher" (18 characters) is typed
      and deleted in 36 steps taking 5050 ms, after which "AI Innovator" is
      next. */
  lemma FirstCycle()
    ensures WellFormed(Titles)
    ensures Run(Titles, 36) == State(1, 0, false)
    ensures Elapsed(Titles, Init, 36) == 5050
    ensures Titles[Run(Titles, 36).index] == "AI Innovator"
  {
    TitlesWellFormed();
    var n := |Titles[0]|;
    assert n == 18;
    FullCycle(Titles, 0);
    assert Run(Titles, 2 * n) == State(1, 0, false);
  }

  /** The text shown by the step that fires after `k` steps from the start. */
  function Shown(titles: seq<string>, k: nat): string
    requires WellFormed(titles)
  {
    Step(titles, Run(titles, k)).text
  }

  /** Each title is shown in full before any character of it is deleted:
      in a reachable deleting state the step `j` below, taken
      `|title| - cursor + 1` steps earlier, showed the whole title and was the
      last typing step. */
  lemma {:induction false} RevealedBeforeDeleting(titles: seq<string>, k: nat)
    requires WellFormed(titles)
    requires Run(titles, k).deleting
    ensures var s := Run(titles, k);
            var j := k - 1 - (|titles[s.index]| - s.cursor);
            && 0 <= j
            && Run(titles, j) == State(s.index, |titles[s.index]| - 1, false)
            && Shown(titles, j) == titles[s.index]
  {
    var s := Run(titles, k);
    assert k > 0;
    var p := Run(titles, k - 1);
    IterateAdd(titles, Init, k - 1, 1);
    assert s == Step(titles, p).next;
    StepRules(titles, p);
    var title := titles[s.index];
    if p.deleting {
      assert p == State(s.index, s.cursor + 1, true);
      RevealedBeforeDeleting(titles, k - 1);
    } else {
      assert p == State(s.index, |title| - 1, false);
      StepInv(titles, p);
    }
  }
}
