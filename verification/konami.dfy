/** The keyboard easter egg: every key press appends its key code to a
    rolling buffer that keeps only the most recent codes, and the effect fires
    whenever the buffer equals a fixed ten-code sequence. */
module Konami {

  /** The sequence that fires the easter egg, as `KeyboardEvent.code` values. */
  const Target: seq<string> := [
    "ArrowUp", "ArrowUp", "ArrowDown", "ArrowDown",
    "ArrowLeft", "ArrowRight", "ArrowLeft", "ArrowRight",
    "KeyB", "KeyA"
  ]

  /** `a.slice(-n)` on an array, for `n > 0`: the last `n` elements, or all
      of them when there are fewer. (`slice(-0)` would copy the whole array;
      the handler only ever slices by the target's length, ten.) */
  function Last<T>(a: seq<T>, n: nat): (r: seq<T>)
    requires n > 0
    ensures |r| == if |a| < n then |a| else n
    ensures forall i :: 0 <= i < |r| ==> r[i] == a[|a| - |r| + i]
  {
    if |a| <= n then a else a[|a| - n..]
  }

  /** The outcome of one key press: the new buffer and whether the easter
      egg fired. */
  datatype Press = Press(buffer: seq<string>, fired: bool)

  /** The buffer update of the `keydown` handler: append the pressed code,
      then keep the last `|Target|` codes. */
  function Push(buffer: seq<string>, code: string): seq<string>
  {
    Last(buffer + [code], |Target|)
  }

  /** The pushed buffer is the old one with the new code appended, less
      whatever falls off the front beyond the last ten. */
  lemma PushKeepsNewest(buffer: seq<string>, code: string)
    ensures var r := Push(buffer, code);
            && |r| == (if |buffer| < |Target| then |buffer| + 1 else |Target|)
            && r[..|r| - 1] == buffer[|buffer| + 1 - |r|..]
            && r[|r| - 1] == code
  {
  }

  /** The `keydown` handler on a buffer and the pressed code. */
  function OnKey(buffer: seq<string>, code: string): (r: Press)
    ensures |r.buffer| <= |Target|
    ensures r.buffer != [] && r.buffer[|r.buffer| - 1] == code
    ensures r.fired <==> r.buffer == Target
  {
    var b := Push(buffer, code);
    Press(b, b == Target)
  }

  /** The buffer after pressing `keys`, oldest first, starting from
      `buffer`. */
  function Feed(buffer: seq<string>, keys: seq<string>): seq<string>
    decreases |keys|
  {
    if keys == [] then buffer
    else Feed(Push(buffer, keys[0]), keys[1..])
  }

  /** The buffer after the key presses of `history` since the page loaded. */
  function Buffer(history: seq<string>): seq<string>
  {
    Feed([], history)
  }

  /** Whether the last press of a non-empty `history` fired the easter egg. */
  function Fires(history: seq<string>): bool
    requires history != []
  {
    OnKey(Buffer(history[..|history| - 1]), history[|history| - 1]).fired
  }

  /** Keeping the last `n` of a sequence, then of it extended by one, is
      the same as keeping the last `n` of the extended whole. */
  lemma LastAppend<T>(a: seq<T>, x: T, n: nat)
    requires n > 0
    ensures Last(Last(a, n) + [x], n) == Last(a + [x], n)
  {
  }

  /** The last `|t|` elements of `a` are `t` exactly when `a` ends in `t`. */
  lemma LastIsIff<T>(a: seq<T>, t: seq<T>)
    requires |t| > 0
    ensures Last(a, |t|) == t <==> |a| >= |t| && a[|a| - |t|..] == t
  {
  }

  /** Feeding keys to a buffer that holds the last codes of `before` leaves
      it holding the last codes of `before + keys`. */
  lemma {:induction false} FeedIsLast(before: seq<string>, keys: seq<string>)
    ensures Feed(Last(before, |Target|), keys) == Last(before + keys, |Target|)
    decreases |keys|
  {
    if keys == [] {
      assert before + keys == before;
    } else {
      LastAppend(before, keys[0], |Target|);
      FeedIsLast(before + [keys[0]], keys[1..]);
      assert before + [keys[0]] + keys[1..] == before + keys;
    }
  }

  /** After every press the buffer holds exactly the last `min(n, 10)` codes
      of the history, in order. */
  lemma BufferIsLast(history: seq<string>)
    ensures Buffer(history) == Last(history, |Target|)
    ensures |Buffer(history)| <= |Target|
  {
    FeedIsLast([], history);
    assert [] + history == history;
  }

  /** Pressing one more key updates the buffer of a history by `Push`. */
  lemma {:induction false} FeedSnoc(buffer: seq<string>, keys: seq<string>, x: string)
    ensures Feed(buffer, keys + [x]) == Push(Feed(buffer, keys), x)
    decreases |keys|
  {
    if keys == [] {
      assert keys + [x] == [x];
    } else {
      FeedSnoc(Push(buffer, keys[0]), keys[1..], x);
      assert (keys + [x])[1..] == keys[1..] + [x];
    }
  }

  /** The easter egg fires on a press if and only if the last ten codes
      pressed, in order, are the target sequence. */
  lemma FiresIff(history: seq<string>)
    requires history != []
    ensures Fires(history) <==>
              |history| >= |Target| && history[|history| - |Target|..] == Target
  {
    var h := history[..|history| - 1];
    FeedSnoc([], h, history[|history| - 1]);
    assert h + [history[|history| - 1]] == history;
    assert Fires(history) == (Buffer(history) == Target);
    BufferIsLast(history);
    LastIsIff(history, Target);
  }

  /** The target's last code, `KeyA`, occurs nowhere else in it. */
  ghost predicate LastIsUnique<T>(t: seq<T>) {
    forall m :: 0 <= m < |t| - 1 ==> t[m] != t[|t| - 1]
  }

  lemma TargetLastIsUnique()
    ensures LastIsUnique(Target)
  {
  }

  /** If `t` ends at both `i` and `j` in `a`, closer than `|t|` apart, the
      element of `t` at `i - 1` is both its last one and an earlier one. */
  lemma Overlap<T>(a: seq<T>, t: seq<T>, i: int, j: int)
    requires |t| <= i < j <= |a| && j - i < |t|
    requires a[i - |t|..i] == t && a[j - |t|..j] == t
    ensures t[|t| - 1 - (j - i)] == t[|t| - 1]
  {
  }

  /** Two firings are at least ten presses apart: once the easter egg fires,
      the whole sequence has to be entered again before it fires anew. */
  lemma FiringsApart(history: seq<string>, i: int, j: int)
    requires 0 < i < j <= |history|
    requires Fires(history[..i]) && Fires(history[..j])
    ensures j - i >= |Target|
  {
    FiresIff(history[..i]);
    FiresIff(history[..j]);
    assert history[..i][i - |Target|..] == history[i - |Target|..i];
    assert history[..j][j - |Target|..] == history[j - |Target|..j];
    if j - i < |Target| {
      Overlap(history, Target, i, j);
      TargetLastIsUnique();
      assert false;
    }
  }

  /** Entering the whole sequence fires the easter egg, whatever was pressed
      before it. */
  lemma EnteringTargetFires(before: seq<string>)
    ensures Fires(before + Target)
  {
    var h := before + Target;
    FiresIff(h);
    assert h[|h| - |Target|..] == Target;
  }
}
