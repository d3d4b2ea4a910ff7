/** A set kept as a strictly ascending vector and searched by halving. Elements of a total order are
    modelled as integers. */
module OrderedSets {
  import opened Basics

  ghost predicate Ascending(v: seq<int>) {
    forall i, j :: 0 <= i < j < |v| ==> v[i] < v[j]
  }

  ghost predicate Sorted(v: seq<int>) {
    forall i, j :: 0 <= i < j < |v| ==> v[i] <= v[j]
  }

  ghost function Elements(v: seq<int>): set<int> {
    set x | x in v
  }

  /** The library's `binary_search`: where the value is, or where it would have to go. */
  method BinarySearch(v: seq<int>, value: int) returns (r: Result<nat, nat>)
    requires Ascending(v)
    ensures r.Ok? ==> r.value < |v| && v[r.value] == value
    ensures r.Err? ==>
              && r.error <= |v| && value !in v
              && (forall i :: 0 <= i < r.error ==> v[i] < value)
              && (forall i :: r.error <= i < |v| ==> value < v[i])
  {
    var size := |v|;
    var left, right := 0, size;
    while left < right
      invariant 0 <= left <= right <= |v| && size == right - left
      invariant forall i :: 0 <= i < left ==> v[i] < value
      invariant forall i :: right <= i < |v| ==> value < v[i]
      decreases right - left
    {
      var mid := left + size / 2;
      if v[mid] < value {
        left := mid + 1;
      } else if v[mid] > value {
        right := mid;
      } else {
        return Ok(mid);
      }
      size := right - left;
    }
    return Err(left);
  }

  // ---- Sorting and removing duplicates --------------------------------------------------

  function InsertInto(v: seq<int>, x: int): seq<int> {
    if v == [] || x <= v[0] then [x] + v else [v[0]] + InsertInto(v[1..], x)
  }

  function Sort(v: seq<int>): seq<int> {
    if v == [] then [] else InsertInto(Sort(v[1..]), v[0])
  }

  lemma ElementsAppend(a: seq<int>, b: seq<int>)
    ensures Elements(a + b) == Elements(a) + Elements(b)
  {
  }

  lemma SamePermutation(a: seq<int>, b: seq<int>)
    requires multiset(a) == multiset(b)
    ensures Elements(a) == Elements(b)
  {
    forall x ensures x in a <==> x in b {
      assert x in a <==> x in multiset(a);
      assert x in b <==> x in multiset(b);
    }
  }

  lemma {:induction false} InsertIntoPermutes(v: seq<int>, x: int)
    ensures multiset(InsertInto(v, x)) == multiset(v) + multiset{x}
  {
    if v != [] && v[0] < x {
      InsertIntoPermutes(v[1..], x);
      assert v == [v[0]] + v[1..];
    }
  }

  lemma {:induction false} InsertIntoBounded(v: seq<int>, x: int, low: int)
    requires low <= x && forall i :: 0 <= i < |v| ==> low <= v[i]
    ensures forall i :: 0 <= i < |InsertInto(v, x)| ==> low <= InsertInto(v, x)[i]
  {
    if v != [] && v[0] < x {
      InsertIntoBounded(v[1..], x, low);
    }
  }

  lemma {:induction false} InsertIntoSorted(v: seq<int>, x: int)
    requires Sorted(v)
    ensures Sorted(InsertInto(v, x))
  {
    if v != [] && v[0] < x {
      InsertIntoSorted(v[1..], x);
      InsertIntoBounded(v[1..], x, v[0]);
    }
  }

  lemma {:induction false} SortSorts(v: seq<int>)
    ensures Sorted(Sort(v)) && multiset(Sort(v)) == multiset(v) && Elements(Sort(v)) == Elements(v)
  {
    if v != [] {
      SortSorts(v[1..]);
      InsertIntoSorted(Sort(v[1..]), v[0]);
      InsertIntoPermutes(Sort(v[1..]), v[0]);
      assert v == [v[0]] + v[1..];
    }
    SamePermutation(Sort(v), v);
  }

  /** `dedup`: drops every element equal to the one kept before it. */
  method Dedup(v: seq<int>) returns (kept: seq<int>)
    requires Sorted(v)
    ensures Ascending(kept) && Elements(kept) == Elements(v)
  {
    kept := [];
    for i := 0 to |v|
      invariant Ascending(kept) && Elements(kept) == Elements(v[..i])
      invariant i > 0 ==> kept != [] && kept[|kept| - 1] == v[i - 1]
      invariant i == 0 ==> kept == []
    {
      assert v[..i + 1] == v[..i] + [v[i]];
      ElementsAppend(v[..i], [v[i]]);
      ElementsAppend(kept, [v[i]]);
      if kept == [] || kept[|kept| - 1] != v[i] {
        kept := kept + [v[i]];
      } else {
        assert v[i] in Elements(kept);
      }
    }
    assert v[..|v|] == v;
  }

  // ---- The set --------------------------------------------------------------------------

  datatype Op = Insert(value: int) | Remove(value: int) | Contains(value: int) | Clear

  /** What each operation does to a mathematical set, and the flag it returns. */
  function SetAfter(s: set<int>, op: Op): (set<int>, bool) {
    match op
    case Insert(x) => (s + {x}, x !in s)
    case Remove(x) => (s - {x}, x in s)
    case Contains(x) => (s, x in s)
    case Clear => ({}, true)
  }

  function SetRun(s: set<int>, ops: seq<Op>): (set<int>, seq<bool>) {
    if ops == [] then (s, [])
    else
      var (before, flags) := SetRun(s, ops[..|ops| - 1]);
      var (after, flag) := SetAfter(before, ops[|ops| - 1]);
      (after, flags + [flag])
  }

  lemma PutAt(v: seq<int>, loc: nat, value: int)
    requires Ascending(v) && loc <= |v|
    requires forall i :: 0 <= i < loc ==> v[i] < value
    requires forall i :: loc <= i < |v| ==> value < v[i]
    ensures Ascending(v[..loc] + [value] + v[loc..])
    ensures Elements(v[..loc] + [value] + v[loc..]) == Elements(v) + {value}
  {
    var low, high := v[..loc], v[loc..];
    ElementsAppend(low, [value]);
    ElementsAppend(low + [value], high);
    ElementsAppend(low, high);
    assert v == low + high;
  }

  lemma TakeOut(v: seq<int>, loc: nat)
    requires Ascending(v) && loc < |v|
    ensures Ascending(v[..loc] + v[loc + 1..])
    ensures Elements(v[..loc] + v[loc + 1..]) == Elements(v) - {v[loc]}
  {
    var low, high := v[..loc], v[loc + 1..];
    ElementsAppend(low, [v[loc]]);
    ElementsAppend(low + [v[loc]], high);
    ElementsAppend(low, high);
    assert v == low + [v[loc]] + high;
  }

  class OrderedSet {
    var items: seq<int>

    ghost predicate Valid()
      reads this
    {
      Ascending(items)
    }

    ghost function Contents(): set<int>
      reads this
    {
      Elements(items)
    }

    constructor ()
      ensures Valid() && Contents() == {}
    {
      items := [];
    }

    constructor From(v: seq<int>)
      ensures Valid() && Contents() == Elements(v)
    {
      SortSorts(v);
      var kept := Dedup(Sort(v));
      items := kept;
    }

    method Insert(value: int) returns (flag: bool)
      requires Valid()
      modifies this
      ensures Valid() && Contents() == old(Contents()) + {value}
      ensures flag <==> value !in old(Contents())
    {
      var found := BinarySearch(items, value);
      match found {
        case Ok(loc) =>
          assert items[loc] in Contents();
          return false;
        case Err(loc) =>
          PutAt(items, loc, value);
          items := items[..loc] + [value] + items[loc..];
          return true;
      }
    }

    method Remove(value: int) returns (flag: bool)
      requires Valid()
      modifies this
      ensures Valid() && Contents() == old(Contents()) - {value}
      ensures flag <==> value in old(Contents())
    {
      var found := BinarySearch(items, value);
      match found {
        case Ok(loc) =>
          TakeOut(items, loc);
          items := items[..loc] + items[loc + 1..];
          return true;
        case Err(_) => return false;
      }
    }

    method Contains(value: int) returns (flag: bool)
      requires Valid()
      ensures flag <==> value in Contents()
    {
      var found := BinarySearch(items, value);
      return found.Ok?;
    }

    method Clear()
      modifies this
      ensures Valid() && Contents() == {}
    {
      items := [];
    }

    /** Any run of operations is the same run on a mathematical set. */
    method Execute(ops: seq<Op>) returns (flags: seq<bool>)
      requires Valid()
      modifies this
      ensures Valid() && Contents() == SetRun(old(Contents()), ops).0
      ensures flags == SetRun(old(Contents()), ops).1
    {
      flags := [];
      for k := 0 to |ops|
        invariant Valid() && Contents() == SetRun(old(Contents()), ops[..k]).0
        invariant flags == SetRun(old(Contents()), ops[..k]).1
      {
        assert ops[..k + 1][..k] == ops[..k];
        var flag := true;
        match ops[k] {
          case Insert(x) => flag := Insert(x);
          case Remove(x) => flag := Remove(x);
          case Contains(x) => flag := Contains(x);
          case Clear => Clear();
        }
        flags := flags + [flag];
      }
      assert ops[..|ops|] == ops;
    }
  }
}
