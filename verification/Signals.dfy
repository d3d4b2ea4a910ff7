/** The bounce counter of execution signals. */
module Signals {
  import opened Basics

  /** An execution and one of its steps. */
  type Key = (Bytes, U32)

  datatype Opcode = Initiated | Bounced

  datatype SignalError = ArithmeticOverflow | ExceededBounceThreshold

  type Answer = Result<Opcode, SignalError>

  function Signalled(threshold: U32, signals: map<Key, U32>, key: Key): (map<Key, U32>, Answer) {
    if key in signals && signals[key] == U32_MAX then (signals, Err(ArithmeticOverflow))
    else
      var nonce: U32 := if key in signals then signals[key] + 1 else 1;
      (signals[key := nonce],
       if nonce > threshold then Err(ExceededBounceThreshold)
       else if nonce == 1 then Ok(Initiated)
       else Ok(Bounced))
  }

  function Run(threshold: U32, signals: map<Key, U32>, keys: seq<Key>): (map<Key, U32>, seq<Answer>) {
    if keys == [] then (signals, [])
    else
      var (before, answers) := Run(threshold, signals, keys[..|keys| - 1]);
      var (after, answer) := Signalled(threshold, before, keys[|keys| - 1]);
      (after, answers + [answer])
  }

  class Pallet {
    const threshold: U32
    var signals: map<Key, U32>

    constructor (threshold: U32)
      ensures this.threshold == threshold && signals == map[]
    {
      this.threshold := threshold;
      signals := map[];
    }

    /** The counter is written before the threshold is looked at, and stays written on an error. */
    method Signal(key: Key) returns (r: Answer)
      modifies this
      ensures (signals, r) == Signalled(threshold, old(signals), key)
    {
      var nonce: U32 := 1;
      if key in signals {
        if signals[key] == U32_MAX {
          return Err(ArithmeticOverflow);
        }
        nonce := signals[key] + 1;
      }
      signals := signals[key := nonce];
      if nonce > threshold {
        return Err(ExceededBounceThreshold);
      } else if nonce == 1 {
        return Ok(Initiated);
      } else {
        return Ok(Bounced);
      }
    }

    method Execute(keys: seq<Key>) returns (answers: seq<Answer>)
      modifies this
      ensures (signals, answers) == Run(threshold, old(signals), keys)
    {
      answers := [];
      for k := 0 to |keys|
        invariant (signals, answers) == Run(threshold, old(signals), keys[..k])
      {
        assert keys[..k + 1][..k] == keys[..k];
        var answer := Signal(keys[k]);
        answers := answers + [answer];
      }
      assert keys[..|keys|] == keys;
    }
  }

  /** How often `key` occurs. */
  function Count(keys: seq<Key>, key: Key): nat {
    if keys == [] then 0
    else Count(keys[..|keys| - 1], key) + if keys[|keys| - 1] == key then 1 else 0
  }

  /** The answer to the `m`-th signal of a key. */
  function MthAnswer(threshold: U32, m: nat): Answer {
    if m > U32_MAX then Err(ArithmeticOverflow)
    else if m > threshold then Err(ExceededBounceThreshold)
    else if m == 1 then Ok(Initiated)
    else Ok(Bounced)
  }

  lemma {:induction false} StateByCount(threshold: U32, keys: seq<Key>, key: Key)
    ensures var signals := Run(threshold, map[], keys).0;
            && (key in signals <==> Count(keys, key) > 0)
            && (key in signals ==> signals[key] == Min(Count(keys, key), U32_MAX))
  {
    if keys != [] {
      StateByCount(threshold, keys[..|keys| - 1], key);
    }
  }

  lemma {:induction false} AnswerAt(threshold: U32, keys: seq<Key>, i: nat)
    requires i < |keys|
    ensures var answers := Run(threshold, map[], keys).1;
            && |answers| == |keys|
            && answers[i] == MthAnswer(threshold, Count(keys[..i], keys[i]) + 1)
  {
    var init, last := keys[..|keys| - 1], keys[|keys| - 1];
    if i < |init| {
      AnswerAt(threshold, init, i);
      assert keys[..i] == init[..i];
    } else {
      if init != [] { AnswerAt(threshold, init, 0); }
      StateByCount(threshold, init, last);
    }
  }

  /** However signals of different keys interleave, an answer depends only on how many signals of the
      same key came before. */
  lemma {:induction false} AnswersByOccurrence(threshold: U32, keys: seq<Key>)
    ensures var answers := Run(threshold, map[], keys).1;
            && |answers| == |keys|
            && (forall i :: 0 <= i < |keys| ==>
                  answers[i] == MthAnswer(threshold, Count(keys[..i], keys[i]) + 1))
  {
    if keys != [] { AnswerAt(threshold, keys, 0); }
    forall i | 0 <= i < |keys|
      ensures Run(threshold, map[], keys).1[i] == MthAnswer(threshold, Count(keys[..i], keys[i]) + 1)
    {
      AnswerAt(threshold, keys, i);
    }
  }

  /** The same without a function for it: the first signal of a key initiates, the next ones up to the
      threshold bounce, the ones after that exceed it until the counter is full. */
  lemma {:induction false} AnswersExactly(threshold: U32, keys: seq<Key>, i: nat)
    requires i < |keys|
    ensures var answers, before := Run(threshold, map[], keys).1, Count(keys[..i], keys[i]);
            && |answers| == |keys|
            && (answers[i] == Ok(Initiated) <==> before == 0 && threshold > 0)
            && (answers[i] == Ok(Bounced) <==> 0 < before < threshold)
            && (answers[i] == Err(ExceededBounceThreshold) <==> threshold <= before < U32_MAX)
            && (answers[i] == Err(ArithmeticOverflow) <==> before >= U32_MAX)
  {
    AnswersByOccurrence(threshold, keys);
  }

  /** Successful answers to `key`. */
  function Successes(keys: seq<Key>, answers: seq<Answer>, key: Key): nat
    requires |keys| == |answers|
  {
    if keys == [] then 0
    else
      var last := |keys| - 1;
      Successes(keys[..last], answers[..last], key) + if keys[last] == key && answers[last].Ok? then 1 else 0
  }

  lemma {:induction false} CountZero(keys: seq<Key>, key: Key)
    ensures Count(keys, key) == 0 <==> key !in keys
  {
    if keys != [] {
      CountZero(keys[..|keys| - 1], key);
    }
  }

  /** Each key gets min(number of its signals, threshold) successes, and of these only the first is an
      initiation. */
  lemma {:induction false} BoundedSignalling(threshold: U32, keys: seq<Key>, key: Key)
    ensures var answers := Run(threshold, map[], keys).1;
            && |answers| == |keys|
            && Successes(keys, answers, key) == Min(Count(keys, key), threshold)
            && forall i :: 0 <= i < |keys| ==>
                 (answers[i] == Ok(Initiated) <==> threshold > 0 && keys[i] !in keys[..i])
  {
    AnswersByOccurrence(threshold, keys);
    forall i | 0 <= i < |keys| ensures Count(keys[..i], keys[i]) == 0 <==> keys[i] !in keys[..i] {
      CountZero(keys[..i], keys[i]);
    }
    if keys != [] {
      var init := keys[..|keys| - 1];
      BoundedSignalling(threshold, init, key);
      var answers := Run(threshold, map[], keys).1;
      assert answers[..|init|] == Run(threshold, map[], init).1;
    }
  }
}
