/** Wrappers and arithmetic shared by every part of the model. */
module Basics {

  datatype Option<+T> = None | Some(value: T)

  datatype Result<+T, +E> = Ok(value: T) | Err(error: E)

  type Byte = b: int | 0 <= b < 256
  type Bytes = seq<Byte>
  type Bytes32 = b: Bytes | |b| == 32 witness seq(32, _ => 0)

  /** A four-byte gateway identifier. */
  type ChainId = b: Bytes | |b| == 4 witness [0, 0, 0, 0]

  /** Where an event on a target chain came from. */
  type ExecutionSource = Bytes32

  const U32_MAX: nat := 0xFFFF_FFFF
  const U64_SIZE: nat := 0x1_0000_0000_0000_0000

  type U32 = x: int | 0 <= x <= U32_MAX

  function Min(a: int, b: int): int {
    if a <= b then a else b
  }

  // ---- Sequences ------------------------------------------------------------------------

  lemma AppendAssoc<T>(a: seq<T>, b: seq<T>, c: seq<T>)
    ensures a + b + c == a + (b + c)
  {
  }

  lemma AppendNothing<T>(a: seq<T>)
    ensures a + [] == a
  {
  }

  lemma SplitLast<T>(s: seq<T>)
    requires s != []
    ensures s == s[..|s| - 1] + [s[|s| - 1]]
  {
  }

  lemma DropCons<T>(s: seq<T>, k: nat)
    requires k < |s|
    ensures s[k..] == [s[k]] + s[k + 1..]
  {
  }

  lemma TakeSnoc<T>(s: seq<T>, k: nat)
    requires k < |s|
    ensures s[..k + 1] == s[..k] + [s[k]]
  {
  }

  // ---- Remainders by a variable divisor -------------------------------------------------

  lemma MultipleIsFar(d: int, n: int)
    requires 0 < n
    ensures d >= 1 ==> d * n >= n
    ensures d <= -1 ==> d * n <= -n
  {
  }

  lemma ModIs(x: int, n: int, q: int, r: int)
    requires 0 <= r < n && x == q * n + r
    ensures x % n == r
  {
    var d := x / n - q;
    assert x % n == r - d * n;
    MultipleIsFar(d, n);
  }

  /** The remainder after one step: one more, or back to nothing. */
  lemma ModStep(x: nat, n: int)
    requires 0 < n
    ensures (x + 1) % n == if x % n == n - 1 then 0 else x % n + 1
  {
    var q, r := x / n, x % n;
    assert x == q * n + r;
    if r == n - 1 {
      assert q * n + n == (q + 1) * n;
      ModIs(x + 1, n, q + 1, 0);
    } else {
      ModIs(x + 1, n, q, r + 1);
    }
  }

  lemma ModSucc(x: nat, n: int)
    requires 0 < n
    ensures (x % n + 1) % n == (x + 1) % n
  {
    var q, r := x / n, x % n;
    assert x == q * n + r;
    if r + 1 < n {
      ModIs(x + 1, n, q, r + 1);
      ModIs(r + 1, n, 0, r + 1);
    } else {
      assert q * n + n == (q + 1) * n;
      ModIs(x + 1, n, q + 1, 0);
      ModIs(r + 1, n, 1, 0);
    }
  }

  lemma ModShift(x: int, n: int)
    requires 0 < n
    ensures (x + n) % n == x % n
  {
    assert (x / n + 1) * n == x / n * n + n;
    ModIs(x + n, n, x / n + 1, x % n);
  }

  /** Two numbers less than `n` apart have different remainders. */
  lemma ModDistinct(i: int, j: int, n: int)
    requires 0 < j - i < n
    ensures i % n != j % n
  {
    var d := j / n - i / n;
    assert j - i == d * n + (j % n - i % n);
    MultipleIsFar(d, n);
  }

  /** Advancing by `k` comes back to the same remainder exactly when `n` divides `k`. */
  lemma ModReturns(x: nat, k: nat, n: int)
    requires 0 < n
    ensures (x + k) % n == x % n <==> k % n == 0
  {
    var a, b, c := x / n, (x + k) / n, k / n;
    if (x + k) % n == x % n {
      assert k == (b - a) * n;
      ModIs(k, n, b - a, 0);
    }
    if k % n == 0 {
      assert x + k == (a + c) * n + x % n;
      ModIs(x + k, n, a + c, x % n);
    }
  }
}
