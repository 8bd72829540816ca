/**
 `TypewriterHeadline`: the `handleTyping` transition on the component's state
 (textIndex, charIndex, isDeleting, currentText). Timers are left out: one
 `Step` is one firing of the scheduled `handleTyping`, and at full length it
 includes the paused `setIsDeleting(true)` that the firing schedules.
 */
module Typewriter {
  import opened Wrappers

  datatype State = State(textIndex: nat, charIndex: nat, isDeleting: bool, currentText: string)

  /** The four `useState` initial values. */
  const Initial: State := State(0, 0, false, "")

  /** `word.substring(0, k)` for `k >= 0`: an end past the word is clamped to its length. */
  function Prefix(word: string, k: nat): (p: string)
    ensures |p| <= |word| && p == word[..|p|]
    ensures k <= |word| ==> |p| == k
  {
    if k <= |word| then word[..k] else word
  }

  /**
   One firing of `handleTyping`. `None` when it cannot go on: `texts[textIndex]`
   is undefined where its length or a substring is needed (a `TypeError`), or
   `texts` is empty when the index advances (the index becomes `NaN`).
   */
  function Step(texts: seq<string>, s: State): (r: Option<State>)
    ensures r.Some? && r.value.textIndex != s.textIndex ==>
              s.isDeleting && s.charIndex == 0 && |texts| > 0 && r.value.textIndex == (s.textIndex + 1) % |texts|
              && !r.value.isDeleting
    ensures r.Some? && !s.isDeleting && s.textIndex < |texts| && s.charIndex < |texts[s.textIndex]| ==>
              r.value.charIndex == s.charIndex + 1 && !r.value.isDeleting
    ensures r.Some? && s.isDeleting && s.charIndex > 0 ==>
              r.value.charIndex == s.charIndex - 1 && r.value.isDeleting
    ensures r.Some? && !s.isDeleting && s.textIndex < |texts| && s.charIndex >= |texts[s.textIndex]| ==>
              r.value == s.(isDeleting := true)
    ensures s.textIndex >= |texts| && !(s.isDeleting && s.charIndex == 0) ==> r.None?
    ensures s.textIndex < |texts| ==> r.Some?
    ensures s.isDeleting && s.charIndex == 0 && |texts| > 0 ==>
              r == Some(s.(isDeleting := false, textIndex := (s.textIndex + 1) % |texts|))
  {
    if s.isDeleting then
      if s.charIndex > 0 then
        if s.textIndex < |texts| then
          Some(s.(currentText := Prefix(texts[s.textIndex], s.charIndex - 1), charIndex := s.charIndex - 1))
        else None
      else if |texts| == 0 then None
      else Some(s.(isDeleting := false, textIndex := (s.textIndex + 1) % |texts|))
    else if s.textIndex >= |texts| then None
    else if s.charIndex < |texts[s.textIndex]| then
      Some(s.(currentText := Prefix(texts[s.textIndex], s.charIndex + 1), charIndex := s.charIndex + 1))
    else Some(s.(isDeleting := true))
  }

  /** The shown text is the first `charIndex` characters of the current word. */
  ghost predicate Inv(texts: seq<string>, s: State)
  {
    && s.textIndex < |texts|
    && s.charIndex <= |texts[s.textIndex]|
    && s.currentText == texts[s.textIndex][..s.charIndex]
  }

  /** The component starts in the invariant whenever it has words to show. */
  lemma InitialInv(texts: seq<string>)
    requires |texts| > 0
    ensures Inv(texts, Initial)
  {
  }

  /** With no words the first firing already fails. */
  lemma NoTextsNoStep()
    ensures Step([], Initial).None?
  {
  }

  /** A step from a state in the invariant succeeds and lands in the invariant. */
  lemma StepPreservesInv(texts: seq<string>, s: State)
    requires Inv(texts, s)
    ensures Step(texts, s).Some? && Inv(texts, Step(texts, s).value)
  {
  }

  /** `k` firings in a row. */
  function Run(texts: seq<string>, s: State, k: nat): Option<State>
    decreases k
  {
    if k == 0 then Some(s)
    else match Step(texts, s)
      case None => None
      case Some(t) => Run(texts, t, k - 1)
  }

  /** Every state reached from the initial one satisfies the invariant. */
  lemma {:induction false} RunPreservesInv(texts: seq<string>, s: State, k: nat)
    requires Inv(texts, s)
    ensures Run(texts, s, k).Some? && Inv(texts, Run(texts, s, k).value)
    decreases k
  {
    if k > 0 {
      StepPreservesInv(texts, s);
      RunPreservesInv(texts, Step(texts, s).value, k - 1);
    }
  }

  lemma {:induction false} RunAppend(texts: seq<string>, s: State, a: nat, b: nat)
    requires Run(texts, s, a).Some?
    ensures Run(texts, s, a + b) == Run(texts, Run(texts, s, a).value, b)
    decreases a
  {
    if a > 0 {
      RunAppend(texts, Step(texts, s).value, a - 1, b);
    }
  }

  /** Typing from `j` characters reaches the whole word. */
  lemma {:induction false} TypeWord(texts: seq<string>, i: nat, j: nat)
    requires i < |texts| && j <= |texts[i]|
    ensures Run(texts, State(i, j, false, texts[i][..j]), |texts[i]| - j) == Some(State(i, |texts[i]|, false, texts[i]))
    decreases |texts[i]| - j
  {
    if j < |texts[i]| {
      TypeWord(texts, i, j + 1);
    } else {
      assert texts[i][..j] == texts[i];
    }
  }

  /** Deleting from `j` characters reaches the empty text. */
  lemma {:induction false} DeleteWord(texts: seq<string>, i: nat, j: nat)
    requires i < |texts| && j <= |texts[i]|
    ensures Run(texts, State(i, j, true, texts[i][..j]), j) == Some(State(i, 0, true, ""))
    decreases j
  {
    if j > 0 {
      DeleteWord(texts, i, j - 1);
    }
  }

  /**
   A full cycle on a word: typed out, paused, deleted and advanced, after
   twice its length plus two firings the next word starts from empty.
   */
  lemma WordCycle(texts: seq<string>, i: nat)
    requires i < |texts|
    ensures Run(texts, State(i, 0, false, ""), 2 * |texts[i]| + 2) == Some(State((i + 1) % |texts|, 0, false, ""))
  {
    var n := |texts[i]|;
    var start := State(i, 0, false, "");
    assert texts[i][..0] == "";
    TypeWord(texts, i, 0);
    var full := State(i, n, false, texts[i]);
    assert Run(texts, full, 1) == Some(State(i, n, true, texts[i]));
    RunAppend(texts, start, n, 1);
    assert texts[i][..n] == texts[i];
    DeleteWord(texts, i, n);
    RunAppend(texts, start, n + 1, n);
    assert Run(texts, State(i, 0, true, ""), 1) == Some(State((i + 1) % |texts|, 0, false, ""));
    RunAppend(texts, start, 2 * n + 1, 1);
  }
}
