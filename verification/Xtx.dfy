/** Confirming the side effects of a cross-chain transaction, step by step. */
module Xtx {
  import opened Basics
  import opened SideEffectIds

  datatype Confirmation = Confirmation(executioner: Bytes, inclusionData: Bytes, receivedAt: nat)

  datatype FullSideEffect = FullSideEffect(input: Bytes, index: U32, confirmed: Option<Confirmation>)

  type Steps = seq<seq<FullSideEffect>>

  datatype ConfirmError = NoSteps | EmptyStep | OutOfOrder

  // ---- The effect of one call -----------------------------------------------------------

  /** Position of the first unconfirmed effect of a step, or its length. */
  function FirstOpen(step: seq<FullSideEffect>): nat {
    if step == [] || step[0].confirmed.None? then 0 else 1 + FirstOpen(step[1..])
  }

  /** What the scan comes to first. */
  datatype Frontier = Open(step: nat, pos: nat) | Hole | Complete

  function Later(f: Frontier, skipped: nat): Frontier {
    if f.Open? then Open(f.step + skipped, f.pos) else f
  }

  function Scan(steps: Steps): Frontier {
    if steps == [] then Complete
    else if steps[0] == [] then Hole
    else if FirstOpen(steps[0]) < |steps[0]| then Open(0, FirstOpen(steps[0]))
    else Later(Scan(steps[1..]), 1)
  }

  ghost predicate InRange(steps: Steps, f: Frontier) {
    f.Open? ==> f.step < |steps| && f.pos < |steps[f.step]|
  }

  function SetConfirmed(steps: Steps, i: nat, j: nat, c: Confirmation): Steps
    requires i < |steps| && j < |steps[i]|
  {
    steps[i := steps[i][j := steps[i][j].(confirmed := Some(c))]]
  }

  lemma {:induction false} ScanInRange(steps: Steps)
    ensures InRange(steps, Scan(steps))
  {
    if steps != [] {
      ScanInRange(steps[1..]);
    }
  }

  ghost predicate Settled(step: seq<FullSideEffect>) {
    step != [] && forall j :: 0 <= j < |step| ==> step[j].confirmed.Some?
  }

  lemma {:induction false} FirstOpenMeaning(step: seq<FullSideEffect>)
    ensures FirstOpen(step) <= |step|
    ensures forall j :: 0 <= j < FirstOpen(step) ==> step[j].confirmed.Some?
    ensures FirstOpen(step) < |step| ==> step[FirstOpen(step)].confirmed.None?
  {
    if step != [] {
      FirstOpenMeaning(step[1..]);
      assert forall j :: 0 < j < |step| ==> step[j] == step[1..][j - 1];
    }
  }

  /** `f` is the first thing in `steps` that is not a settled step. */
  ghost predicate Stops(steps: Steps, f: Frontier) {
    match f
    case Open(i, j) =>
      && i < |steps| && j < |steps[i]| && steps[i][j].confirmed.None?
      && (forall k :: 0 <= k < j ==> steps[i][k].confirmed.Some?)
      && (forall k :: 0 <= k < i ==> Settled(steps[k]))
    case Hole => exists i :: 0 <= i < |steps| && steps[i] == [] && forall k :: 0 <= k < i ==> Settled(steps[k])
    case Complete => forall k :: 0 <= k < |steps| ==> Settled(steps[k])
  }

  lemma StopsLater(step: seq<FullSideEffect>, rest: Steps, f: Frontier)
    requires Settled(step) && Stops(rest, f)
    ensures Stops([step] + rest, Later(f, 1))
  {
    var steps := [step] + rest;
    assert forall k :: 0 < k < |steps| ==> steps[k] == rest[k - 1];
    if f.Hole? {
      var i :| 0 <= i < |rest| && rest[i] == [] && forall k :: 0 <= k < i ==> Settled(rest[k]);
      assert steps[i + 1] == [];
    }
  }

  /** Where the scan stops, for any mixture of confirmed effects and empty steps. */
  lemma {:induction false} ScanMeaning(steps: Steps)
    ensures Stops(steps, Scan(steps))
  {
    if steps != [] {
      FirstOpenMeaning(steps[0]);
      if Settled(steps[0]) {
        ScanMeaning(steps[1..]);
        StopsLater(steps[0], steps[1..], Scan(steps[1..]));
        DropCons(steps, 0);
      }
    }
  }

  function Confirm(hasher: Bytes -> Bytes, steps: Steps, c: Confirmation, xtxId: Bytes, index: U32)
    : (Steps, Result<bool, ConfirmError>)
  {
    ScanInRange(steps);
    var next := Scan(steps);
    if steps == [] then (steps, Err(NoSteps))
    else if next.Hole? then (steps, Err(EmptyStep))
    else if next.Complete? then (steps, Ok(false))
    else if hasher(Preimage(xtxId, steps[next.step][next.pos].index)) == hasher(Preimage(xtxId, index))
    then (SetConfirmed(steps, next.step, next.pos, c), Ok(true))
    else (steps, Err(OutOfOrder))
  }

  /** What every call answers, for any mixture of confirmed effects and empty steps, by what comes first:
      nothing at all, an empty step, an open effect, or neither. */
  lemma {:induction false} AnswersByFrontier(hasher: Bytes -> Bytes, steps: Steps, c: Confirmation, xtxId: Bytes,
                                             index: U32)
    ensures var (after, r) := Confirm(hasher, steps, c, xtxId, index);
            && (r == Err(NoSteps) <==> steps == [])
            && (r != Ok(true) ==> after == steps)
            && (r == Err(EmptyStep) ==> Stops(steps, Hole))
            && (r == Ok(false) ==> steps != [] && Stops(steps, Complete))
            && (r == Ok(true) || r == Err(OutOfOrder) ==>
                  exists i: nat, j: nat ::
                    && Stops(steps, Open(i, j))
                    && (r == Ok(true) <==>
                        hasher(Preimage(xtxId, steps[i][j].index)) == hasher(Preimage(xtxId, index)))
                    && (r == Ok(true) ==> after == SetConfirmed(steps, i, j, c)))
  {
    ScanMeaning(steps);
    var next := Scan(steps);
    if steps != [] && next.Open? {
      assert Stops(steps, Open(next.step, next.pos));
    }
  }

  /** And only one of these can come first. */
  lemma {:induction false} StopsOnce(steps: Steps, f: Frontier, g: Frontier)
    requires Stops(steps, f) && Stops(steps, g)
    ensures f == g
  {
  }

  // ---- The transaction ------------------------------------------------------------------

  lemma {:induction false} FirstOpenFrom(step: seq<FullSideEffect>, j: nat)
    requires j <= |step| && forall k :: 0 <= k < j ==> step[k].confirmed.Some?
    ensures FirstOpen(step) == j + FirstOpen(step[j..])
  {
    if j > 0 {
      FirstOpenFrom(step[1..], j - 1);
      assert step[1..][j - 1..] == step[j..];
    } else {
      assert step[0..] == step;
    }
  }

  class Xtx {
    const hasher: Bytes -> Bytes
    var fullSideEffects: Steps

    constructor (hasher: Bytes -> Bytes, steps: Steps)
      ensures this.hasher == hasher && fullSideEffects == steps
    {
      this.hasher := hasher;
      fullSideEffects := steps;
    }

    method IsCompleted() returns (r: bool)
      ensures r <==> forall i, j :: 0 <= i < |fullSideEffects| && 0 <= j < |fullSideEffects[i]| ==>
                       fullSideEffects[i][j].confirmed.Some?
    {
      for i := 0 to |fullSideEffects|
        invariant forall k, j :: 0 <= k < i && 0 <= j < |fullSideEffects[k]| ==>
                    fullSideEffects[k][j].confirmed.Some?
      {
        var step := fullSideEffects[i];
        for j := 0 to |step|
          invariant forall m :: 0 <= m < j ==> step[m].confirmed.Some?
        {
          if step[j].confirmed.None? {
            assert fullSideEffects[i][j].confirmed.None?;
            return false;
          }
        }
      }
      return true;
    }

    method CompleteSideEffect(c: Confirmation, input: Bytes, xtxId: Bytes, index: U32)
      returns (r: Result<bool, ConfirmError>)
      modifies this
      ensures (fullSideEffects, r) == Confirm(hasher, old(fullSideEffects), c, xtxId, index)
    {
      var sfxId := GenerateId(hasher, xtxId, index);
      if fullSideEffects == [] {
        return Err(NoSteps);
      }
      var unconfirmedStepNo: Option<nat> := None;
      ghost var steps := fullSideEffects;
      assert steps[0..] == steps;
      for i := 0 to |fullSideEffects|
        invariant fullSideEffects == steps && unconfirmedStepNo == None
        invariant Scan(steps) == Later(Scan(steps[i..]), i)
      {
        var step := fullSideEffects[i];
        if step == [] {
          return Err(EmptyStep);
        }
        for j := 0 to |step|
          invariant fullSideEffects == steps && unconfirmedStepNo == None
          invariant forall k :: 0 <= k < j ==> step[k].confirmed.Some?
        {
          FirstOpenFrom(step, j);
          if step[j].confirmed.None? {
            if unconfirmedStepNo == None {
              unconfirmedStepNo := Some(i);
            }
            var id := GenerateId(hasher, xtxId, step[j].index);
            assert Scan(steps) == Open(i, j);
            if id == sfxId && unconfirmedStepNo == Some(i) {
              fullSideEffects := fullSideEffects[i := step[j := step[j].(confirmed := Some(c))]];
              return Ok(true);
            } else {
              return Err(OutOfOrder);
            }
          }
        }
        FirstOpenFrom(step, |step|);
        assert steps[i..][1..] == steps[i + 1..];
      }
      return Ok(false);
    }
  }

  // ---- Runs -----------------------------------------------------------------------------

  /** All effects in the order of their steps. */
  function Flat(steps: Steps): seq<FullSideEffect> {
    if steps == [] then [] else steps[0] + Flat(steps[1..])
  }

  ghost predicate NoEmptyStep(steps: Steps) {
    forall i :: 0 <= i < |steps| ==> steps[i] != []
  }

  /** Exactly the first `k` effects are confirmed. */
  ghost predicate ConfirmedUpTo(flat: seq<FullSideEffect>, k: nat) {
    k <= |flat| && forall m :: 0 <= m < |flat| ==> (flat[m].confirmed.Some? <==> m < k)
  }

  lemma {:induction false} FirstOpenIs(step: seq<FullSideEffect>, k: nat)
    requires ConfirmedUpTo(step, k)
    ensures FirstOpen(step) == k
  {
    FirstOpenFrom(step, k);
  }

  /** Where a step begins in the flattened order. */
  function Offset(steps: Steps, i: nat): nat
    requires i < |steps|
  {
    if i == 0 then 0 else |steps[0]| + Offset(steps[1..], i - 1)
  }

  lemma {:induction false} FlatSet(steps: Steps, i: nat, j: nat, c: Confirmation)
    requires i < |steps| && j < |steps[i]|
    ensures var at, flat := Offset(steps, i) + j, Flat(steps);
            && at < |flat| && flat[at] == steps[i][j]
            && Flat(SetConfirmed(steps, i, j, c)) == flat[at := flat[at].(confirmed := Some(c))]
  {
    var after := SetConfirmed(steps, i, j, c);
    if i == 0 {
      assert after[1..] == steps[1..];
    } else {
      FlatSet(steps[1..], i - 1, j, c);
      assert after[1..] == SetConfirmed(steps[1..], i - 1, j, c);
    }
  }

  /** The scan stops at the first unconfirmed effect of the flattened order. */
  lemma {:induction false} ScanIsNext(steps: Steps, k: nat)
    requires NoEmptyStep(steps) && ConfirmedUpTo(Flat(steps), k)
    ensures k == |Flat(steps)| ==> Scan(steps) == Complete
    ensures k < |Flat(steps)| ==>
              && var next := Scan(steps);
              && next.Open? && InRange(steps, next) && Offset(steps, next.step) + next.pos == k
  {
    if steps != [] {
      var head, tail := steps[0], steps[1..];
      var n := |head|;
      assert forall m :: 0 <= m < n ==> head[m] == Flat(steps)[m];
      if k < n {
        FirstOpenIs(head, k);
      } else {
        FirstOpenIs(head, n);
        assert forall m :: 0 <= m < |Flat(tail)| ==> Flat(tail)[m] == Flat(steps)[n + m];
        ScanIsNext(tail, k - n);
      }
    }
  }

  /** With the first `k` effects confirmed, a call succeeds exactly on the next effect's index, and
      then confirms that one; any other call changes nothing. */
  lemma {:induction false} OneCall(hasher: Bytes -> Bytes, steps: Steps, k: nat, c: Confirmation,
                                   xtxId: Bytes, index: U32)
    requires Injective(hasher) && steps != [] && NoEmptyStep(steps) && ConfirmedUpTo(Flat(steps), k)
    ensures var flat := Flat(steps);
            var (after, r) := Confirm(hasher, steps, c, xtxId, index);
            && (r == Ok(true) <==> k < |flat| && index == flat[k].index)
            && (r == Ok(false) <==> k == |flat|)
            && (r == Err(OutOfOrder) <==> k < |flat| && index != flat[k].index)
            && (r != Ok(true) ==> after == steps)
            && (r == Ok(true) ==>
                  && NoEmptyStep(after)
                  && Flat(after) == flat[k := flat[k].(confirmed := Some(c))]
                  && ConfirmedUpTo(Flat(after), k + 1))
  {
    ScanIsNext(steps, k);
    if k < |Flat(steps)| {
      FlatSet(steps, Scan(steps).step, Scan(steps).pos, c);
      IdsDistinct(hasher, xtxId, Flat(steps)[k].index, xtxId, index);
    }
  }

  datatype Attempt = Attempt(confirmation: Confirmation, xtxId: Bytes, index: U32)

  function Run(hasher: Bytes -> Bytes, steps: Steps, attempts: seq<Attempt>): (Steps, nat) {
    if attempts == [] then (steps, 0)
    else
      var (before, successes) := Run(hasher, steps, attempts[..|attempts| - 1]);
      var last := attempts[|attempts| - 1];
      var (after, r) := Confirm(hasher, before, last.confirmation, last.xtxId, last.index);
      (after, if r == Ok(true) then successes + 1 else successes)
  }

  /** Over any run from a transaction with nothing confirmed, whatever transaction ids the attempts give,
      the confirmed effects are the first ones of the flattened order, as many as there were successes;
      nothing else of them changes. */
  lemma {:induction false} ConfirmationOrder(hasher: Bytes -> Bytes, steps: Steps, attempts: seq<Attempt>)
    requires Injective(hasher) && steps != [] && NoEmptyStep(steps) && ConfirmedUpTo(Flat(steps), 0)
    ensures var (after, k) := Run(hasher, steps, attempts);
            && after != [] && NoEmptyStep(after)
            && ConfirmedUpTo(Flat(after), k)
            && |Flat(after)| == |Flat(steps)|
            && forall m :: 0 <= m < |Flat(steps)| ==>
                 Flat(after)[m].(confirmed := None) == Flat(steps)[m]
  {
    if attempts != [] {
      var init, last := attempts[..|attempts| - 1], attempts[|attempts| - 1];
      ConfirmationOrder(hasher, steps, init);
      var (before, k) := Run(hasher, steps, init);
      OneCall(hasher, before, k, last.confirmation, last.xtxId, last.index);
    }
  }

  lemma {:induction false} AllConfirmedFlat(steps: Steps)
    ensures (forall i, j :: 0 <= i < |steps| && 0 <= j < |steps[i]| ==> steps[i][j].confirmed.Some?)
            <==> forall m :: 0 <= m < |Flat(steps)| ==> Flat(steps)[m].confirmed.Some?
  {
    if steps != [] {
      var head, tail := steps[0], steps[1..];
      AllConfirmedFlat(tail);
      assert forall m :: 0 <= m < |head| ==> head[m] == Flat(steps)[m];
      assert forall m :: 0 <= m < |Flat(tail)| ==> Flat(tail)[m] == Flat(steps)[|head| + m];
      assert forall i :: 0 <= i < |tail| ==> tail[i] == steps[i + 1];
    }
  }

  /** After any run: the next call succeeds exactly when it names the next effect in order, the
      transaction is complete exactly when there were as many successes as effects, and from then on
      every call answers that there was nothing to do. */
  lemma {:induction false} NextInOrder(hasher: Bytes -> Bytes, steps: Steps, attempts: seq<Attempt>, next: Attempt)
    requires Injective(hasher) && steps != [] && NoEmptyStep(steps) && ConfirmedUpTo(Flat(steps), 0)
    ensures var (after, k) := Run(hasher, steps, attempts);
            var (last, r) := Confirm(hasher, after, next.confirmation, next.xtxId, next.index);
            && k <= |Flat(steps)|
            && (r == Ok(true) <==> k < |Flat(steps)| && next.index == Flat(steps)[k].index)
            && (r == Ok(false) <==> k == |Flat(steps)|)
            && (r != Ok(true) ==> last == after)
            && (k == |Flat(steps)| <==>
                forall i, j :: 0 <= i < |after| && 0 <= j < |after[i]| ==> after[i][j].confirmed.Some?)
  {
    ConfirmationOrder(hasher, steps, attempts);
    var (after, k) := Run(hasher, steps, attempts);
    OneCall(hasher, after, k, next.confirmation, next.xtxId, next.index);
    AllConfirmedFlat(after);
    if k < |Flat(steps)| {
      assert Flat(after)[k].(confirmed := None) == Flat(steps)[k];
    }
  }
}
