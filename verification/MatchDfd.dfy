/** Data-flow descriptions: brackets nest, and every depth is one step of the schedule. */
module MatchDfd {
  import opened Basics
  import opened MatchTokens

  datatype DfdError = EmptySchedule | IncorrectDepth | TooManyOpening

  type Steps = seq<seq<Word>>

  // ---- What a list of fields says -------------------------------------------------------

  function Shift(c: Byte): int {
    if c == ARGS_START then 1 else if c == ARGS_END then -1 else 0
  }

  /** Bracket depth after the fields. */
  function DepthOf(fs: seq<Field>): int {
    if fs == [] then 0 else DepthOf(fs[..|fs| - 1]) + Shift(fs[|fs| - 1].end)
  }

  function Opens(fs: seq<Field>): nat {
    if fs == [] then 0 else Opens(fs[..|fs| - 1]) + if fs[|fs| - 1].end == ARGS_START then 1 else 0
  }

  /** No bracket closes before it opens. */
  predicate Grounded(fs: seq<Field>) {
    fs == [] || (Grounded(fs[..|fs| - 1]) && DepthOf(fs) >= 0)
  }

  /** The non-empty words standing at depth `d`, in order of occurrence. */
  function Level(fs: seq<Field>, d: int): seq<Word> {
    if fs == [] then []
    else
      var init, last := fs[..|fs| - 1], fs[|fs| - 1];
      if last.word != [] && DepthOf(init) == d then Level(init, d) + [last.word] else Level(init, d)
  }

  /** The fields of a text, its last word included. */
  function AllFields(t: Bytes): seq<Field> {
    Fields(t) + [Field(Pending(t), ARGS_SEPARATOR)]
  }

  /** The non-empty levels from depth `d` up to the outermost, deepest first. */
  function DeepestFirst(fs: seq<Field>, d: nat): Steps {
    var rest := if d == 0 then [] else DeepestFirst(fs, d - 1);
    if Level(fs, d) == [] then rest else [Level(fs, d)] + rest
  }

  predicate Balanced(t: Bytes) {
    Grounded(Fields(t)) && DepthOf(Fields(t)) == 0
  }

  /** What a text without white space means. */
  function Meaning(t: Bytes): Result<Steps, DfdError> {
    if t == [] then Err(EmptySchedule)
    else if !Grounded(Fields(t)) then Err(IncorrectDepth)
    else if DepthOf(Fields(t)) != 0 then Err(TooManyOpening)
    else Ok(DeepestFirst(AllFields(t), Opens(Fields(t))))
  }

  // ---- One field more -------------------------------------------------------------------

  lemma {:induction false} OneMoreField(fs: seq<Field>, f: Field)
    ensures DepthOf(fs + [f]) == DepthOf(fs) + Shift(f.end)
    ensures Opens(fs + [f]) == Opens(fs) + if f.end == ARGS_START then 1 else 0
    ensures Grounded(fs + [f]) <==> Grounded(fs) && DepthOf(fs) + Shift(f.end) >= 0
    ensures forall d :: Level(fs + [f], d) ==
              if f.word != [] && DepthOf(fs) == d then Level(fs, d) + [f.word] else Level(fs, d)
  {
    assert (fs + [f])[..|fs|] == fs;
  }

  lemma {:induction false} DepthBelowOpens(fs: seq<Field>)
    ensures DepthOf(fs) <= Opens(fs)
    ensures forall d :: d > Opens(fs) ==> Level(fs, d) == []
  {
    if fs != [] {
      DepthBelowOpens(fs[..|fs| - 1]);
    }
  }

  lemma {:induction false} UngroundedStays(t: Bytes, more: Bytes)
    requires !Grounded(Fields(t))
    ensures !Grounded(Fields(t + more))
  {
    if more == [] {
      AppendNothing(t);
    } else {
      var init, c := Init(more), Last(more);
      UngroundedStays(t, init);
      SplitLast(more);
      AppendAssoc(t, init, [c]);
      FieldsSnoc(t + init, c);
      OneMoreField(Fields(t + init), Field(Pending(t + init), c));
    }
  }

  lemma {:induction false} UngroundedIsFinal(t: Bytes, k: nat)
    requires k <= |t| && !Grounded(Fields(t[..k]))
    ensures !Grounded(Fields(t))
  {
    UngroundedStays(t[..k], t[k..]);
    assert t == t[..k] + t[k..];
  }

  // ---- The parser -----------------------------------------------------------------------

  /** `steps` holds the words of each depth met so far. */
  ghost predicate Holds(steps: Steps, fs: seq<Field>) {
    |steps| == Opens(fs) + 1 && forall d :: 0 <= d < |steps| ==> steps[d] == Level(fs, d)
  }

  /** Pushes a finished word onto the step at the current depth. */
  function Push(steps: Steps, depth: nat, word: Word): Steps
    requires depth < |steps|
  {
    if word == [] then steps else steps[depth := steps[depth] + [word]]
  }

  lemma {:induction false} PushField(steps: Steps, fs: seq<Field>, f: Field)
    requires Holds(steps, fs) && 0 <= DepthOf(fs)
    ensures DepthOf(fs) < |steps|
    ensures var pushed := Push(steps, DepthOf(fs), f.word);
            Holds(if f.end == ARGS_START then pushed + [[]] else pushed, fs + [f])
  {
    DepthBelowOpens(fs);
    DepthBelowOpens(fs + [f]);
    OneMoreField(fs, f);
  }

  /** What one character does to the steps. */
  function AfterChar(steps: Steps, depth: nat, word: Word, c: Byte): Steps
    requires depth < |steps|
  {
    if !IsDelimiter(c) then steps
    else if c == ARGS_START then Push(steps, depth, word) + [[]]
    else Push(steps, depth, word)
  }

  /** The loop has read `t`. */
  ghost predicate HasRead(t: Bytes, steps: Steps, depth: int, word: Word) {
    && Grounded(Fields(t)) && 0 <= depth == DepthOf(Fields(t))
    && Holds(steps, Fields(t))
    && word == Pending(t)
  }

  lemma ReadNothing()
    ensures HasRead([], [[]], 0, [])
  {
  }

  lemma {:induction false} ReadChar(t: Bytes, c: Byte, steps: Steps, depth: nat, word: Word)
    requires HasRead(t, steps, depth, word)
    ensures depth < |steps|
    ensures if depth + Shift(c) < 0 then !Grounded(Fields(t + [c]))
            else HasRead(t + [c], AfterChar(steps, depth, word, c), depth + Shift(c),
                         if IsDelimiter(c) then [] else word + [c])
  {
    FieldsSnoc(t, c);
    OneMoreField(Fields(t), Field(word, c));
    PushField(steps, Fields(t), Field(word, c));
  }

  function NonEmpty(steps: Steps): Steps {
    if steps == [] then []
    else
      var init, last := steps[..|steps| - 1], steps[|steps| - 1];
      if last == [] then NonEmpty(init) else NonEmpty(init) + [last]
  }

  function Reversed(steps: Steps): Steps {
    if steps == [] then [] else [steps[|steps| - 1]] + Reversed(steps[..|steps| - 1])
  }

  lemma {:induction false} ReversedSnoc(steps: Steps, last: seq<Word>)
    ensures Reversed(steps + [last]) == [last] + Reversed(steps)
  {
    assert (steps + [last])[..|steps|] == steps;
  }

  lemma {:induction false} RetainAndReverse(steps: Steps, fs: seq<Field>)
    requires steps != [] && forall d :: 0 <= d < |steps| ==> steps[d] == Level(fs, d)
    ensures Reversed(NonEmpty(steps)) == DeepestFirst(fs, |steps| - 1)
  {
    var init, last := steps[..|steps| - 1], steps[|steps| - 1];
    ReversedSnoc(NonEmpty(init), last);
    if init != [] {
      RetainAndReverse(init, fs);
    }
  }

  lemma {:induction false} PushLast(steps: Steps, fs: seq<Field>, word: Word)
    requires Holds(steps, fs) && DepthOf(fs) == 0
    ensures |steps| > 0
    ensures Holds(Push(steps, 0, word), fs + [Field(word, ARGS_SEPARATOR)])
    ensures Opens(fs + [Field(word, ARGS_SEPARATOR)]) == Opens(fs)
  {
    PushField(steps, fs, Field(word, ARGS_SEPARATOR));
    OneMoreField(fs, Field(word, ARGS_SEPARATOR));
  }

  lemma {:induction false} RetainAll(steps: Steps, fs: seq<Field>)
    requires Holds(steps, fs)
    ensures Reversed(NonEmpty(steps)) == DeepestFirst(fs, Opens(fs))
  {
    RetainAndReverse(steps, fs);
  }

  /** After the loop: the last word goes in, empty steps go out, and the order is turned around. */
  lemma {:induction false} Conclude(t: Bytes, steps: Steps)
    requires t != [] && Balanced(t) && Holds(steps, Fields(t))
    ensures |steps| > 0 && Meaning(t) == Ok(Reversed(NonEmpty(Push(steps, 0, Pending(t)))))
  {
    PushLast(steps, Fields(t), Pending(t));
    RetainAll(Push(steps, 0, Pending(t)), AllFields(t));
  }

  /** The body of the loop; `grounded` is false when a bracket closes that was never opened. */
  method OneChar(steps0: Steps, depth0: nat, word0: Word, c: Byte)
    returns (grounded: bool, steps: Steps, depth: nat, word: Word)
    requires depth0 < |steps0|
    ensures grounded <==> depth0 + Shift(c) >= 0
    ensures grounded ==>
              && steps == AfterChar(steps0, depth0, word0, c)
              && depth == depth0 + Shift(c)
              && word == if IsDelimiter(c) then [] else word0 + [c]
  {
    grounded, steps, depth, word := true, steps0, depth0, word0;
    if IsDelimiter(c) {
      if word != [] {
        steps := steps[depth := steps[depth] + [word]];
        word := [];
      }
      if c == ARGS_START {
        depth := depth + 1;
        steps := steps + [[]];
      }
      if c == ARGS_END {
        if depth == 0 {
          return false, steps, depth, word;
        }
        depth := depth - 1;
      }
    } else {
      word := word + [c];
    }
  }

  /** The index of the current step always lies within `steps`, so the two look-ups never fail. */
  method MatchDfd(dfd: Bytes) returns (r: Result<Steps, DfdError>)
    ensures r == Meaning(Strip(dfd))
  {
    var steps: Steps := [[]];
    var depth := 0;
    var word: Word := [];
    var cloned := TrimWhitespace(dfd);
    if cloned == [] {
      return Err(EmptySchedule);
    }
    ReadNothing();
    assert cloned[..0] == [];
    for k := 0 to |cloned|
      invariant HasRead(cloned[..k], steps, depth, word)
    {
      var c := cloned[k];
      ReadChar(cloned[..k], c, steps, depth, word);
      TakeSnoc(cloned, k);
      var grounded;
      grounded, steps, depth, word := OneChar(steps, depth, word, c);
      if !grounded {
        UngroundedIsFinal(cloned, k + 1);
        return Err(IncorrectDepth);
      }
    }
    assert cloned[..|cloned|] == cloned;
    if depth != 0 {
      return Err(TooManyOpening);
    }
    Conclude(cloned, steps);
    if word != [] {
      steps := steps[depth := steps[depth] + [word]];
    }
    return Ok(Reversed(NonEmpty(steps)));
  }

  // ---- What the meaning says ------------------------------------------------------------

  lemma {:induction false} GroundedExactly(fs: seq<Field>)
    ensures Grounded(fs) <==> forall i :: 0 <= i <= |fs| ==> DepthOf(fs[..i]) >= 0
  {
    assert fs[..|fs|] == fs;
    if fs != [] {
      var init := fs[..|fs| - 1];
      GroundedExactly(init);
      assert forall i :: 0 <= i <= |init| ==> fs[..i] == init[..i];
    }
  }

  /** White space makes no difference, wherever it stands. */
  lemma {:induction false} WhitespaceIsIgnored(a: Bytes, spaces: Bytes, b: Bytes)
    requires forall i :: 0 <= i < |spaces| ==> IsWhitespace(spaces[i])
    ensures Meaning(Strip(a + spaces + b)) == Meaning(Strip(a + b))
  {
    StripDropsSpaces(a, spaces, b);
  }
}
