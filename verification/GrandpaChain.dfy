/** The simple view of the header store: one append-only list of headers, linked by parent hash.
    `Ring` and `Retained` say what the ring buffer and the header map hold for a given list. */
module GrandpaChain {
  import opened Basics
  import opened GrandpaTypes

  // ---- Linkage --------------------------------------------------------------------------

  function Tip(parent: Hash, hs: seq<Header>): Hash {
    if hs == [] then parent else HashOf(hs[|hs| - 1])
  }

  predicate LinkAt(parent: Hash, hs: seq<Header>, i: nat)
    requires i < |hs|
  {
    hs[i].parentHash == if i == 0 then parent else HashOf(hs[i - 1])
  }

  ghost predicate Linked(parent: Hash, hs: seq<Header>) {
    forall i :: 0 <= i < |hs| ==> LinkAt(parent, hs, i)
  }

  lemma LinkedAppend(parent: Hash, a: seq<Header>, b: seq<Header>)
    ensures Linked(parent, a + b) <==> Linked(parent, a) && Linked(Tip(parent, a), b)
    ensures Tip(parent, a + b) == Tip(Tip(parent, a), b)
  {
    var ab := a + b;
    if Linked(parent, ab) {
      forall i | 0 <= i < |a| ensures LinkAt(parent, a, i) {
        assert LinkAt(parent, ab, i);
      }
      forall i | 0 <= i < |b| ensures LinkAt(Tip(parent, a), b, i) {
        assert LinkAt(parent, ab, |a| + i);
      }
    }
    if Linked(parent, a) && Linked(Tip(parent, a), b) {
      forall i | 0 <= i < |ab| ensures LinkAt(parent, ab, i) {
        if i < |a| {
          assert LinkAt(parent, a, i);
        } else {
          assert LinkAt(Tip(parent, a), b, i - |a|);
        }
      }
    }
  }

  /** How many hash applications a hash is built from. */
  function Depth(h: Hash): nat {
    match h
    case Raw(_) => 0
    case HashOf(header) => 1 + Depth(header.parentHash)
  }

  lemma {:induction false} DepthAlong(parent: Hash, hs: seq<Header>, i: nat)
    requires Linked(parent, hs) && i < |hs|
    ensures Depth(HashOf(hs[i])) == Depth(parent) + i + 1
  {
    assert LinkAt(parent, hs, i);
    if i > 0 {
      DepthAlong(parent, hs, i - 1);
    }
  }

  /** Along a linked list no hash repeats, and none is the hash it started from. */
  lemma HashesDistinct(parent: Hash, hs: seq<Header>)
    requires Linked(parent, hs)
    ensures forall i :: 0 <= i < |hs| ==> HashOf(hs[i]) != parent
    ensures forall i, j :: 0 <= i < j < |hs| ==> HashOf(hs[i]) != HashOf(hs[j])
  {
    forall i | 0 <= i < |hs|
      ensures Depth(HashOf(hs[i])) == Depth(parent) + i + 1
    {
      DepthAlong(parent, hs, i);
    }
  }

  // ---- The ring buffer of hashes --------------------------------------------------------

  /** Index of the oldest header the ring still covers. */
  function Oldest(n: Capacity, len: nat): nat {
    if len <= n then 0 else len - n
  }

  /** The latest position below `len` that falls on slot `s`. */
  function Slot(n: Capacity, len: nat, s: nat): (i: nat)
    requires s < Min(n, len)
    ensures Oldest(n, len) <= i < len && i % n == s
  {
    var back := (len - 1 - s) % n;
    assert back <= len - 1 - s by {
      if len - 1 - s < n {
        ModIs(len - 1 - s, n, 0, len - 1 - s);
      }
    }
    var q := (len - 1 - s) / n;
    ModIs(len - 1 - back, n, q, s);
    len - 1 - back
  }

  lemma SlotUnique(n: Capacity, len: nat, i: nat)
    requires Oldest(n, len) <= i < len
    ensures i % n < Min(n, len) && Slot(n, len, i % n) == i
  {
    if len <= n {
      ModIs(i, n, 0, i);
    }
    var j := Slot(n, len, i % n);
    if j < i {
      ModDistinct(j, i, n);
    } else if i < j {
      ModDistinct(i, j, n);
    }
  }

  function Ring(n: Capacity, log: seq<Header>): map<nat, Hash> {
    map s | 0 <= s < Min(n, |log|) :: HashOf(log[Slot(n, |log|, s)])
  }

  /** Slot `s` after one more header: the new position if it lands there, else as before. */
  lemma SlotAfterAppend(n: Capacity, len: nat, s: nat)
    requires s < Min(n, len + 1)
    ensures len % n < Min(n, len + 1)
    ensures s == len % n ==> Slot(n, len + 1, s) == len
    ensures s != len % n ==> s < Min(n, len) && Slot(n, len + 1, s) == Slot(n, len, s)
  {
    SlotUnique(n, len + 1, len);
    if s != len % n {
      var i := Slot(n, len + 1, s);
      assert i != len;
      if len < n {
        ModIs(len, n, 0, len);
      }
      if i < Oldest(n, len) {
        ModShift(i, n);
      }
      SlotUnique(n, len, i);
    }
  }

  lemma RingAfterAppend(n: Capacity, log: seq<Header>, x: Header)
    ensures Ring(n, log + [x]) == Ring(n, log)[|log| % n := HashOf(x)]
  {
    var after := log + [x];
    SlotUnique(n, |after|, |log|);
    forall s: nat | s < Min(n, |after|)
      ensures s in Ring(n, log)[|log| % n := HashOf(x)]
      ensures Ring(n, after)[s] == Ring(n, log)[|log| % n := HashOf(x)][s]
    {
      SlotAfterAppend(n, |log|, s);
    }
  }

  // ---- The header map -------------------------------------------------------------------

  ghost function HashesFrom(log: seq<Header>, lo: nat): set<Hash> {
    set i | lo <= i < |log| :: HashOf(log[i])
  }

  ghost function WindowHashes(n: Capacity, log: seq<Header>): set<Hash> {
    HashesFrom(log, Oldest(n, |log|))
  }

  ghost function Retained(n: Capacity, initial: Header, log: seq<Header>): map<Hash, Header> {
    map h | h in WindowHashes(n, log) + {HashOf(initial)} && h.HashOf? :: h.header
  }

  /** The hash the ring is about to overwrite: the one that drops out of the window. */
  lemma EvictedIsOldest(n: Capacity, log: seq<Header>)
    ensures |log| % n in Ring(n, log) <==> |log| >= n
    ensures |log| >= n ==> Ring(n, log)[|log| % n] == HashOf(log[|log| - n])
  {
    var len := |log|;
    if len >= n {
      ModShift(len - n, n);
      SlotUnique(n, len, len - n);
    } else {
      ModIs(len, n, 0, len);
    }
  }

  lemma WindowAfterAppend(n: Capacity, initial: Header, log: seq<Header>, x: Header)
    requires Linked(HashOf(initial), log + [x])
    ensures HashOf(x) !in WindowHashes(n, log) + {HashOf(initial)}
    ensures |log| < n ==> WindowHashes(n, log + [x]) == WindowHashes(n, log) + {HashOf(x)}
    ensures |log| >= n ==>
              && HashOf(log[|log| - n]) != HashOf(initial)
              && WindowHashes(n, log + [x])
                 == WindowHashes(n, log) - {HashOf(log[|log| - n])} + {HashOf(x)}
  {
    var after := log + [x];
    HashesDistinct(HashOf(initial), after);
    assert forall i :: 0 <= i < |log| ==> after[i] == log[i];
    assert after[|log|] == x;
    var a, b := WindowHashes(n, log), WindowHashes(n, after);
    forall h | h in a ensures h != HashOf(x) && h != HashOf(initial) {
      var i :| Oldest(n, |log|) <= i < |log| && h == HashOf(log[i]);
      assert h == HashOf(after[i]);
    }
    forall h | h in b ensures h in a + {HashOf(x)} && (|log| >= n ==> h != HashOf(log[|log| - n])) {
      var i :| Oldest(n, |after|) <= i < |after| && h == HashOf(after[i]);
      if |log| >= n {
        assert HashOf(after[|log| - n]) != HashOf(after[i]);
      }
    }
    forall h | h in a && (|log| >= n ==> h != HashOf(log[|log| - n])) ensures h in b {
      var i :| Oldest(n, |log|) <= i < |log| && h == HashOf(log[i]);
      assert h == HashOf(after[i]);
    }
    assert HashOf(after[|log|]) in b;
    if |log| >= n {
      assert HashOf(after[|log| - n]) != HashOf(initial);
    }
  }

  /** What `write_and_clean_header_data` does to the map: drop the entry the ring is about to
      overwrite, then add the new header. On a linked list that is exactly the new window. */
  lemma RetainedAfterAppend(n: Capacity, initial: Header, log: seq<Header>, x: Header)
    requires Linked(HashOf(initial), log + [x])
    ensures var before := Retained(n, initial, log);
            var ring := Ring(n, log);
            var cleaned := if |log| % n in ring then before - {ring[|log| % n]} else before;
            Retained(n, initial, log + [x]) == cleaned[HashOf(x) := x]
  {
    EvictedIsOldest(n, log);
    WindowAfterAppend(n, initial, log, x);
    if |log| >= n {
      assert WindowHashes(n, log + [x]) + {HashOf(initial)}
          == WindowHashes(n, log) + {HashOf(initial)} - {HashOf(log[|log| - n])} + {HashOf(x)};
    }
  }

  lemma HashesFromSplit(parent: Hash, log: seq<Header>, lo: nat)
    requires Linked(parent, log) && lo < |log|
    ensures HashesFrom(log, lo) == HashesFrom(log, lo + 1) + {HashOf(log[lo])}
    ensures HashOf(log[lo]) !in HashesFrom(log, lo + 1) && HashOf(log[lo]) != parent
  {
    HashesDistinct(parent, log);
    var whole, rest := HashesFrom(log, lo), HashesFrom(log, lo + 1);
    forall h | h in rest ensures h in whole {
      var i :| lo + 1 <= i < |log| && h == HashOf(log[i]);
      assert h in whole;
    }
    assert HashOf(log[lo]) in whole;
  }

  lemma {:induction false} HashesFromCount(parent: Hash, log: seq<Header>, lo: nat)
    requires Linked(parent, log) && lo <= |log|
    ensures |HashesFrom(log, lo)| == |log| - lo
    ensures parent !in HashesFrom(log, lo)
    decreases |log| - lo
  {
    if lo < |log| {
      HashesFromCount(parent, log, lo + 1);
      HashesFromSplit(parent, log, lo);
    } else {
      assert HashesFrom(log, lo) == {};
    }
  }

  lemma RetainedCount(n: Capacity, initial: Header, log: seq<Header>)
    requires Linked(HashOf(initial), log)
    ensures |Retained(n, initial, log)| == Min(n, |log|) + 1
  {
    HashesFromCount(HashOf(initial), log, Oldest(n, |log|));
    assert Retained(n, initial, log).Keys == WindowHashes(n, log) + {HashOf(initial)};
    assert |Retained(n, initial, log).Keys| == |Retained(n, initial, log)|;
  }

  lemma RingIsWindow(n: Capacity, log: seq<Header>)
    ensures forall i :: Oldest(n, |log|) <= i < |log| ==>
              && i % n in Ring(n, log) && Ring(n, log)[i % n] == HashOf(log[i])
    ensures Ring(n, log).Values == WindowHashes(n, log)
  {
    var ring := Ring(n, log);
    forall i | Oldest(n, |log|) <= i < |log|
      ensures i % n in ring && ring[i % n] == HashOf(log[i]) && HashOf(log[i]) in ring.Values
    {
      SlotUnique(n, |log|, i);
      assert i % n in ring;
    }
    forall h | h in ring.Values ensures h in WindowHashes(n, log) {
      var s :| s in ring && ring[s] == h;
      assert h == HashOf(log[Slot(n, |log|, s)]);
    }
  }

  /** The whole store in terms of the list: slot i mod n holds the hash of the latest header at a
      position congruent to it, neither map has a missing or a dangling entry, and exactly
      min(|log|, n) + 1 headers are kept, the last of the list among them. */
  lemma RingRefinesLog(n: Capacity, initial: Header, log: seq<Header>)
    requires Linked(HashOf(initial), log)
    ensures forall i :: Oldest(n, |log|) <= i < |log| ==>
              && i % n in Ring(n, log) && Ring(n, log)[i % n] == HashOf(log[i])
    ensures forall s :: s in Ring(n, log) <==> 0 <= s < Min(n, |log|)
    ensures Retained(n, initial, log).Keys == Ring(n, log).Values + {HashOf(initial)}
    ensures forall h :: h in Retained(n, initial, log) ==> HashOf(Retained(n, initial, log)[h]) == h
    ensures |Retained(n, initial, log)| == Min(n, |log|) + 1
    ensures Tip(HashOf(initial), log) in Retained(n, initial, log)
  {
    RingIsWindow(n, log);
    RetainedCount(n, initial, log);
    if log != [] {
      assert HashOf(log[|log| - 1]) in WindowHashes(n, log);
    }
  }

  /** A header is available for inclusion proofs until exactly `n` further ones are imported; the
      header the client was started from is available for good. */
  lemma RetentionWindow(n: Capacity, initial: Header, log: seq<Header>, i: nat)
    requires Linked(HashOf(initial), log) && i < |log|
    ensures HashOf(log[i]) in Retained(n, initial, log) <==> |log| - (i + 1) < n
    ensures HashOf(initial) in Retained(n, initial, log)
    ensures forall h :: h in Retained(n, initial, log) ==> HashOf(Retained(n, initial, log)[h]) == h
  {
    HashesDistinct(HashOf(initial), log);
    if HashOf(log[i]) in Retained(n, initial, log) {
      var k :| Oldest(n, |log|) <= k < |log| && HashOf(log[k]) == HashOf(log[i]);
      assert k == i;
    }
  }
}
