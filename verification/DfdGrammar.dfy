/** Data-flow descriptions as trees: the grammar `match_dfd` accepts, the meaning it gives to a tree,
    and the printer it undoes. */
module DfdGrammar {
  import opened Basics
  import opened MatchTokens
  import opened MatchDfd

  datatype Item = Leaf(word: Word) | Comma | Nest(items: seq<Item>)

  // ---- Trees, their text and their levels -----------------------------------------------

  function Show(items: seq<Item>): Bytes
    decreases items, 0
  {
    if items == [] then [] else ShowItem(items[0]) + Show(items[1..])
  }

  function ShowItem(item: Item): Bytes
    decreases item, 1
  {
    match item
    case Leaf(word) => word
    case Comma => [ARGS_SEPARATOR]
    case Nest(items) => [ARGS_START] + Show(items) + [ARGS_END]
  }

  /** Words are words, and no two of them touch. */
  predicate Tidy(items: seq<Item>)
    decreases items, 0
  {
    || items == []
    || (&& TidyItem(items[0])
        && Tidy(items[1..])
        && (items[0].Leaf? && |items| > 1 ==> !items[1].Leaf?))
  }

  predicate TidyItem(item: Item)
    decreases item, 1
  {
    match item
    case Leaf(word) => word != [] && Plain(word)
    case Comma => true
    case Nest(items) => Tidy(items)
  }

  /** The words nested `d` brackets deep, from left to right. */
  function LevelOf(items: seq<Item>, d: int): seq<Word>
    decreases items, 0
  {
    if items == [] then [] else LevelOfItem(items[0], d) + LevelOf(items[1..], d)
  }

  function LevelOfItem(item: Item, d: int): seq<Word>
    decreases item, 1
  {
    match item
    case Leaf(word) => if d == 0 then [word] else []
    case Comma => []
    case Nest(items) => LevelOf(items, d - 1)
  }

  function Height(items: seq<Item>): nat
    decreases items, 0
  {
    if items == [] then 0
    else
      var h, rest := HeightOfItem(items[0]), Height(items[1..]);
      if h <= rest then rest else h
  }

  function HeightOfItem(item: Item): nat
    decreases item, 1
  {
    if item.Nest? then 1 + Height(item.items) else 0
  }

  /** The schedule a tree describes: its non-empty levels, the deepest first. */
  function StepsOf(items: seq<Item>, d: nat): Steps {
    var rest := if d == 0 then [] else StepsOf(items, d - 1);
    if LevelOf(items, d) == [] then rest else [LevelOf(items, d)] + rest
  }

  // ---- Reading a tree -------------------------------------------------------------------

  /** Depth after a text, and the words it has at depth `d`, the last one included. */
  function Depth(u: Bytes): int {
    DepthOf(Fields(u))
  }

  function WordsAt(u: Bytes, d: int): seq<Word> {
    Level(AllFields(u), d)
  }

  lemma {:induction false} ReadDelimiter(u: Bytes, c: Byte, d: int)
    requires IsDelimiter(c)
    ensures Depth(u + [c]) == Depth(u) + Shift(c)
    ensures Grounded(Fields(u + [c])) <==> Grounded(Fields(u)) && Depth(u) + Shift(c) >= 0
    ensures Pending(u + [c]) == []
    ensures WordsAt(u + [c], d) == WordsAt(u, d)
  {
    FieldsSnoc(u, c);
    var fs, w := Fields(u), Pending(u);
    OneMoreField(fs, Field(w, c));
    OneMoreField(fs, Field(w, ARGS_SEPARATOR));
    OneMoreField(fs + [Field(w, c)], Field([], ARGS_SEPARATOR));
  }

  lemma ReadWord(u: Bytes, w: Word, d: int)
    requires Pending(u) == [] && w != [] && Plain(w)
    ensures Fields(u + w) == Fields(u)
    ensures WordsAt(u + w, d) == WordsAt(u, d) + if d == Depth(u) then [w] else []
  {
    FieldsThenWord(u, w);
    OneMoreField(Fields(u), Field([], ARGS_SEPARATOR));
    OneMoreField(Fields(u), Field(w, ARGS_SEPARATOR));
  }

  lemma {:induction false} ShowCons(u: Bytes, items: seq<Item>)
    requires items != []
    ensures u + Show(items) == u + ShowItem(items[0]) + Show(items[1..])
  {
  }

  lemma {:induction false} ShowNest(u: Bytes, items: seq<Item>)
    ensures u + ShowItem(Nest(items)) == u + [ARGS_START] + Show(items) + [ARGS_END]
  {
  }

  /** Going on from `u` to `v` comes back to the same depth and meets `ws` at depth `d`. */
  ghost predicate Reads(u: Bytes, v: Bytes, ws: seq<Word>, d: int) {
    && Depth(v) == Depth(u)
    && (Grounded(Fields(u)) ==> Grounded(Fields(v)))
    && WordsAt(v, d) == WordsAt(u, d) + ws
  }

  lemma ReadsThen(u: Bytes, m: Bytes, v: Bytes, a: seq<Word>, b: seq<Word>, d: int)
    requires Reads(u, m, a, d) && Reads(m, v, b, d)
    ensures Reads(u, v, a + b, d)
  {
    AppendAssoc(WordsAt(u, d), a, b);
  }

  lemma ReadLeaf(u: Bytes, w: Word, d: int)
    requires Pending(u) == [] && w != [] && Plain(w)
    ensures Reads(u, u + w, LevelOfItem(Leaf(w), d - Depth(u)), d)
  {
    ReadWord(u, w, d);
  }

  lemma {:induction false} ReadComma(u: Bytes, d: int)
    requires 0 <= Depth(u)
    ensures Reads(u, u + [ARGS_SEPARATOR], [], d) && Pending(u + [ARGS_SEPARATOR]) == []
  {
    ReadDelimiter(u, ARGS_SEPARATOR, d);
    AppendNothing(WordsAt(u, d));
  }

  lemma {:induction false} ReadBrackets(u: Bytes, t: Bytes, ws: seq<Word>, d: int)
    requires 0 <= Depth(u) && Reads(u + [ARGS_START], u + [ARGS_START] + t, ws, d)
    ensures Reads(u, u + [ARGS_START] + t + [ARGS_END], ws, d)
    ensures Pending(u + [ARGS_START] + t + [ARGS_END]) == []
  {
    ReadDelimiter(u, ARGS_START, d);
    ReadDelimiter(u + [ARGS_START] + t, ARGS_END, d);
  }

  /** Reading a tidy tree comes back to the depth it started at and meets the tree's levels. */
  lemma {:induction false} ReadItems(u: Bytes, items: seq<Item>, d: int)
    requires Tidy(items) && 0 <= Depth(u)
    requires items != [] && items[0].Leaf? ==> Pending(u) == []
    ensures Reads(u, u + Show(items), LevelOf(items, d - Depth(u)), d)
    decreases items, 0
  {
    if items == [] {
      AppendNothing(u);
      AppendNothing(WordsAt(u, d));
    } else {
      var x, rest := items[0], items[1..];
      var mid := u + ShowItem(x);
      ReadItem(u, x, d);
      assert rest != [] ==> rest[0] == items[1];
      ReadItems(mid, rest, d);
      ReadsThen(u, mid, mid + Show(rest), LevelOfItem(x, d - Depth(u)), LevelOf(rest, d - Depth(u)), d);
      ShowCons(u, items);
    }
  }

  lemma {:induction false} ReadItem(u: Bytes, x: Item, d: int)
    requires TidyItem(x) && 0 <= Depth(u)
    requires x.Leaf? ==> Pending(u) == []
    ensures Reads(u, u + ShowItem(x), LevelOfItem(x, d - Depth(u)), d)
    ensures !x.Leaf? ==> Pending(u + ShowItem(x)) == []
    decreases x, 1
  {
    match x
    case Leaf(w) => ReadLeaf(u, w, d);
    case Comma => ReadComma(u, d);
    case Nest(items) =>
      ReadDelimiter(u, ARGS_START, d);
      ReadItems(u + [ARGS_START], items, d);
      ReadBrackets(u, Show(items), LevelOfItem(x, d - Depth(u)), d);
      ShowNest(u, items);
  }

  lemma {:induction false} LevelsAboveHeight(items: seq<Item>, d: int)
    requires d > Height(items)
    ensures LevelOf(items, d) == []
    decreases items, 0
  {
    if items != [] {
      if items[0].Nest? {
        LevelsAboveHeight(items[0].items, d - 1);
      }
      LevelsAboveHeight(items[1..], d);
    }
  }

  lemma {:induction false} StepsFromAbove(items: seq<Item>, lo: nat, hi: nat)
    requires lo <= hi && forall d :: lo < d <= hi ==> LevelOf(items, d) == []
    ensures StepsOf(items, hi) == StepsOf(items, lo)
  {
    if lo < hi {
      StepsFromAbove(items, lo, hi - 1);
    }
  }

  lemma NothingRead(d: int)
    ensures Depth([]) == 0 && Grounded(Fields([])) && Pending([]) == [] && WordsAt([], d) == []
  {
    OneMoreField([], Field([], ARGS_SEPARATOR));
    assert AllFields([]) == [] + [Field([], ARGS_SEPARATOR)];
  }

  lemma {:induction false} FromNothing(t: Bytes, ws: seq<Word>, d: int)
    requires Reads([], [] + t, ws, d)
    ensures Reads([], t, ws, d)
  {
    assert [] + t == t;
  }

  lemma {:induction false} TreeReads(items: seq<Item>, d: int)
    requires Tidy(items)
    ensures Reads([], Show(items), LevelOf(items, d), d)
  {
    NothingRead(d);
    ReadItems([], items, d);
    FromNothing(Show(items), LevelOf(items, d), d);
  }

  lemma {:induction false} TreeLevels(items: seq<Item>, d: int)
    requires Tidy(items)
    ensures Balanced(Show(items))
    ensures WordsAt(Show(items), d) == LevelOf(items, d)
  {
    NothingRead(d);
    TreeReads(items, d);
  }

  /** The first character of a tree's text tells what the tree starts with. */
  lemma {:induction false} FirstChar(items: seq<Item>)
    requires Tidy(items) && items != []
    ensures Show(items) != [] && (items[0].Leaf? <==> !IsDelimiter(Show(items)[0]))
    ensures items[0].Comma? <==> Show(items)[0] == ARGS_SEPARATOR
    ensures items[0].Nest? <==> Show(items)[0] == ARGS_START
  {
    assert ShowItem(items[0]) != [];
    assert Show(items)[0] == ShowItem(items[0])[0];
  }

  lemma {:induction false} SameSteps(items: seq<Item>, d: nat)
    requires Tidy(items)
    ensures DeepestFirst(AllFields(Show(items)), d) == StepsOf(items, d)
  {
    TreeLevels(items, d);
    if d > 0 {
      SameSteps(items, d - 1);
    }
  }

  lemma {:induction false} LevelsAboveOpens(items: seq<Item>, d: int)
    requires Tidy(items) && d > Opens(Fields(Show(items)))
    ensures LevelOf(items, d) == []
  {
    var t := Show(items);
    TreeLevels(items, d);
    OneMoreField(Fields(t), Field(Pending(t), ARGS_SEPARATOR));
    DepthBelowOpens(AllFields(t));
  }

  /** Levels that are empty make no steps: starting from the height or from the number of brackets is the
      same. */
  lemma {:induction false} StepsFromOpens(items: seq<Item>)
    requires Tidy(items)
    ensures StepsOf(items, Opens(Fields(Show(items)))) == StepsOf(items, Height(items))
  {
    var opens, h := Opens(Fields(Show(items))), Height(items);
    forall d: int | d > Min(h, opens) ensures LevelOf(items, d) == [] {
      if d > h { LevelsAboveHeight(items, d); } else { LevelsAboveOpens(items, d); }
    }
    StepsFromAbove(items, Min(h, opens), h);
    StepsFromAbove(items, Min(h, opens), opens);
  }

  /** The parser's answer for the text of any tidy tree: its levels, the deepest first. */
  lemma {:induction false} TreeMeaning(items: seq<Item>)
    requires Tidy(items) && items != []
    ensures Meaning(Show(items)) == Ok(StepsOf(items, Height(items)))
  {
    FirstChar(items);
    TreeLevels(items, 0);
    SameSteps(items, Opens(Fields(Show(items))));
    StepsFromOpens(items);
  }

  // ---- Every balanced text is the text of a tree ----------------------------------------

  /** Opening minus closing brackets. */
  function Net(t: Bytes): int {
    if t == [] then 0 else Net(Init(t)) + Shift(Last(t))
  }

  ghost predicate Safe(t: Bytes) {
    forall i :: 0 <= i <= |t| ==> Net(t[..i]) >= 0
  }

  lemma {:induction false} NetAppend(a: Bytes, b: Bytes)
    ensures Net(a + b) == Net(a) + Net(b)
  {
    if b == [] {
      AppendNothing(a);
    } else {
      NetAppend(a, Init(b));
      assert Init(a + b) == a + Init(b);
    }
  }

  lemma {:induction false} NetOne(c: Byte)
    ensures Net([c]) == Shift(c)
  {
    assert Init([c]) == [];
  }

  lemma {:induction false} SafeSnoc(t: Bytes, c: Byte)
    ensures Net(t + [c]) == Net(t) + Shift(c)
    ensures Safe(t + [c]) <==> Safe(t) && Net(t + [c]) >= 0
  {
    var tc := t + [c];
    assert Init(tc) == t && tc[..|tc|] == tc;
    assert forall i :: 0 <= i <= |t| ==> tc[..i] == t[..i];
  }

  lemma {:induction false} BalancedExactly(t: Bytes)
    ensures Depth(t) == Net(t)
    ensures Grounded(Fields(t)) <==> Safe(t)
  {
    if t != [] {
      var init, c := Init(t), Last(t);
      assert t == init + [c];
      BalancedExactly(init);
      FieldsSnoc(init, c);
      OneMoreField(Fields(init), Field(Pending(init), c));
      SafeSnoc(init, c);
    }
  }

  /** Dropping a part that nets to nothing leaves a balanced rest balanced. */
  lemma {:induction false} SafeRest(a: Bytes, b: Bytes)
    requires Safe(a + b) && Net(a) == 0
    ensures Safe(b) && Net(b) == Net(a + b)
  {
    NetAppend(a, b);
    forall i | 0 <= i <= |b| ensures Net(b[..i]) >= 0 {
      NetAppend(a, b[..i]);
      assert a + b[..i] == (a + b)[..|a| + i];
    }
  }

  /** Where the bracket that opens the text is closed. */
  lemma {:induction false} Closing(t: Bytes, k: nat) returns (m: nat)
    requires 0 < k <= |t| && Net(t) == 0
    requires forall i :: 0 < i < k ==> Net(t[..i]) != 0
    ensures 0 < m <= |t| && Net(t[..m]) == 0
    ensures forall i :: 0 < i < m ==> Net(t[..i]) != 0
    decreases |t| - k
  {
    assert t[..|t|] == t;
    if Net(t[..k]) == 0 {
      m := k;
    } else {
      m := Closing(t, k + 1);
    }
  }

  lemma InsideIsBalanced(t: Bytes, m: nat)
    requires t != [] && t[0] == ARGS_START && Safe(t)
    requires 0 < m <= |t| && Net(t[..m]) == 0 && forall i :: 0 < i < m ==> Net(t[..i]) != 0
    ensures m >= 2 && t[m - 1] == ARGS_END
    ensures Safe(t[1..m - 1]) && Net(t[1..m - 1]) == 0
  {
    assert t[..1] == [] + [ARGS_START] && Net([ARGS_START]) == 1 by { NetAppend([], [ARGS_START]); }
    assert Net(t[..m - 1]) >= 0;
    assert t[..m] == t[..m - 1] + [t[m - 1]];
    NetAppend(t[..m - 1], [t[m - 1]]);
    assert Net([t[m - 1]]) == Shift(t[m - 1]);
    var inside := t[1..m - 1];
    forall i | 0 <= i <= |inside| ensures Net(inside[..i]) == Net(t[..1 + i]) - 1 {
      assert t[..1 + i] == [ARGS_START] + inside[..i];
      NetAppend([ARGS_START], inside[..i]);
    }
    assert inside[..|inside|] == inside;
  }

  lemma {:induction false} NetOfPlain(w: Word)
    requires Plain(w)
    ensures Net(w) == 0
  {
    if w != [] {
      NetOfPlain(Init(w));
    }
  }

  /** The longest run of plain characters a text starts with. */
  lemma {:induction false} LeadingWord(t: Bytes) returns (k: nat)
    ensures k <= |t| && Plain(t[..k]) && (k < |t| ==> IsDelimiter(t[k]))
  {
    if t == [] || IsDelimiter(t[0]) {
      k := 0;
    } else {
      var rest := LeadingWord(t[1..]);
      k := rest + 1;
      assert t[..k] == [t[0]] + t[1..][..rest];
    }
  }

  lemma {:induction false} Cons(x: Item, rest: seq<Item>)
    ensures Show([x] + rest) == ShowItem(x) + Show(rest)
    ensures Tidy([x] + rest) <==>
            TidyItem(x) && Tidy(rest) && (x.Leaf? && rest != [] ==> !rest[0].Leaf?)
  {
    assert ([x] + rest)[1..] == rest;
  }

  /** What stands between the first bracket and the one that closes it, and what follows. */
  lemma {:induction false} CutBrackets(t: Bytes) returns (within: Bytes, rest: Bytes)
    requires t != [] && t[0] == ARGS_START && Safe(t) && Net(t) == 0
    ensures t == [ARGS_START] + within + [ARGS_END] + rest
    ensures Safe(within) && Net(within) == 0 && Safe(rest) && Net(rest) == 0
  {
    var m := Closing(t, 1);
    InsideIsBalanced(t, m);
    within, rest := t[1..m - 1], t[m..];
    assert t[..m] == [ARGS_START] + within + [ARGS_END];
    assert t == t[..m] + rest;
    SafeRest(t[..m], rest);
  }

  lemma TreeOf(t: Bytes) returns (items: seq<Item>)
    requires Safe(t) && Net(t) == 0
    ensures Tidy(items) && Show(items) == t
    decreases |t|
  {
    if t == [] {
      return [];
    }
    var k := LeadingWord(t);
    if k > 0 {
      var w, rest := t[..k], t[k..];
      assert t == w + rest;
      NetOfPlain(w);
      SafeRest(w, rest);
      var more := TreeOf(rest);
      if more != [] {
        FirstChar(more);
      }
      Cons(Leaf(w), more);
      return [Leaf(w)] + more;
    }
    assert t[..1] == [t[0]] && Net([t[0]]) == Shift(t[0]);
    if t[0] == ARGS_SEPARATOR {
      var rest := t[1..];
      assert t == [ARGS_SEPARATOR] + rest;
      SafeRest([ARGS_SEPARATOR], rest);
      var more := TreeOf(rest);
      Cons(Comma, more);
      return [Comma] + more;
    }
    var within, rest := CutBrackets(t);
    var inside := TreeOf(within);
    var more := TreeOf(rest);
    Cons(Nest(inside), more);
    return [Nest(inside)] + more;
  }

  /** `match_dfd` accepts exactly the texts of the grammar. */
  lemma AcceptedExactly(t: Bytes)
    ensures Meaning(t).Ok? <==> t != [] && exists items :: Tidy(items) && Show(items) == t
  {
    BalancedExactly(t);
    if t != [] && Balanced(t) {
      var items := TreeOf(t);
    }
    forall items | Tidy(items) && Show(items) == t ensures Balanced(t) {
      TreeLevels(items, 0);
    }
  }

  /** What is refused, and how: nothing at all, a bracket closed that was never opened, a bracket left
      open. */
  lemma {:induction false} RefusedExactly(t: Bytes)
    ensures Meaning(t) == Err(EmptySchedule) <==> t == []
    ensures Meaning(t) == Err(IncorrectDepth) <==> exists i :: 0 <= i <= |t| && Net(t[..i]) < 0
    ensures Meaning(t) == Err(TooManyOpening) <==> Safe(t) && Net(t) > 0
  {
    BalancedExactly(t);
    assert t[..|t|] == t;
    assert t == [] ==> forall i :: 0 <= i <= |t| ==> t[..i] == [];
  }

  // ---- No text has two trees ------------------------------------------------------------

  lemma {:induction false} EndsNoSooner(w: Word, x: Bytes, v: Word, y: Bytes)
    requires w + x == v + y && Plain(v) && (x != [] ==> IsDelimiter(x[0]))
    ensures |w| >= |v|
  {
    var t := v + y;
    assert forall i :: 0 <= i < |v| ==> t[i] == v[i];
    assert |w| < |t| ==> t[|w|] == x[0];
  }

  /** A text starts with at most one word that reaches up to a delimiter. */
  lemma {:induction false} SameWord(w: Word, x: Bytes, v: Word, y: Bytes)
    requires w + x == v + y && Plain(w) && Plain(v)
    requires (x != [] ==> IsDelimiter(x[0])) && (y != [] ==> IsDelimiter(y[0]))
    ensures w == v && x == y
  {
    EndsNoSooner(w, x, v, y);
    EndsNoSooner(v, y, w, x);
    var t, u := w + x, v + y;
    assert w == t[..|w|] && x == t[|w|..] && v == u[..|v|] && y == u[|v|..];
  }

  lemma {:induction false} NetInside(q: Bytes, i: nat)
    requires Safe(q) && i <= |q|
    ensures Net([ARGS_START] + q[..i]) >= 1
  {
    NetAppend([ARGS_START], q[..i]);
    NetOne(ARGS_START);
  }

  lemma {:induction false} NetClosed(p: Bytes)
    requires Net(p) == 0
    ensures Net([ARGS_START] + p + [ARGS_END]) == 0
  {
    NetAppend([ARGS_START], p);
    NetAppend([ARGS_START] + p, [ARGS_END]);
    NetOne(ARGS_START);
    NetOne(ARGS_END);
  }

  lemma {:induction false} ClosesNoSooner(p: Bytes, x: Bytes, q: Bytes, y: Bytes)
    requires [ARGS_START] + p + [ARGS_END] + x == [ARGS_START] + q + [ARGS_END] + y
    requires Net(p) == 0 && Safe(q)
    ensures |p| >= |q|
  {
    var u := [ARGS_START] + q + [ARGS_END] + y;
    NetClosed(p);
    assert u[..|p| + 2] == [ARGS_START] + p + [ARGS_END];
    forall i | 0 < i <= |q| + 1 ensures Net(u[..i]) >= 1 {
      NetInside(q, i - 1);
      assert u[..i] == [ARGS_START] + q[..i - 1];
    }
  }

  /** A text starts with at most one pair of matching brackets. */
  lemma {:induction false} SameBrackets(p: Bytes, x: Bytes, q: Bytes, y: Bytes)
    requires [ARGS_START] + p + [ARGS_END] + x == [ARGS_START] + q + [ARGS_END] + y
    requires Net(p) == 0 && Safe(p) && Net(q) == 0 && Safe(q)
    ensures p == q && x == y
  {
    ClosesNoSooner(p, x, q, y);
    ClosesNoSooner(q, y, p, x);
    var t, u := [ARGS_START] + p + [ARGS_END] + x, [ARGS_START] + q + [ARGS_END] + y;
    assert p == t[1..|p| + 1] && x == t[|p| + 2..] && q == u[1..|q| + 1] && y == u[|q| + 2..];
  }

  lemma {:induction false} ShowIsBalanced(items: seq<Item>)
    requires Tidy(items)
    ensures Net(Show(items)) == 0 && Safe(Show(items))
  {
    TreeLevels(items, 0);
    BalancedExactly(Show(items));
  }

  lemma {:induction false} SameFirst(a: seq<Item>, b: seq<Item>)
    requires Tidy(a) && Tidy(b) && Show(a) == Show(b) && a != [] && b != []
    ensures Show(a[1..]) == Show(b[1..]) && |Show(a[1..])| < |Show(a)|
    ensures match a[0]
            case Leaf(_) => b[0] == a[0]
            case Comma => b[0] == a[0]
            case Nest(inside) => b[0].Nest? && Show(inside) == Show(b[0].items) && |Show(inside)| < |Show(a)|
  {
    FirstChar(a);
    FirstChar(b);
    var x, y := Show(a[1..]), Show(b[1..]);
    match a[0]
    case Leaf(w) =>
      if |a| > 1 { FirstChar(a[1..]); }
      if |b| > 1 { FirstChar(b[1..]); }
      SameWord(w, x, b[0].word, y);
    case Comma =>
      assert x == Show(a)[1..] && y == Show(b)[1..];
    case Nest(inside) =>
      ShowIsBalanced(inside);
      ShowIsBalanced(b[0].items);
      SameBrackets(Show(inside), x, Show(b[0].items), y);
  }

  /** So a text determines its tree, and with `AcceptedExactly` every accepted text has exactly one. */
  lemma {:induction false} TreeIsUnique(a: seq<Item>, b: seq<Item>)
    requires Tidy(a) && Tidy(b) && Show(a) == Show(b)
    ensures a == b
    decreases |Show(a)|
  {
    if a == [] || b == [] {
      if a != [] { FirstChar(a); }
      if b != [] { FirstChar(b); }
    } else {
      SameFirst(a, b);
      if a[0].Nest? {
        TreeIsUnique(a[0].items, b[0].items);
      }
      TreeIsUnique(a[1..], b[1..]);
      DropCons(a, 0);
      DropCons(b, 0);
    }
  }

  // ---- The printer ----------------------------------------------------------------------

  function Listed(words: seq<Word>): seq<Item>
    requires words != []
  {
    if |words| == 1 then [Leaf(words[0])] else [Leaf(words[0]), Comma] + Listed(words[1..])
  }

  /** A schedule, deepest step first, as nested brackets: the last step outermost. */
  function Nested(steps: Steps): seq<Item>
    requires forall i :: 0 <= i < |steps| ==> steps[i] != []
  {
    if steps == [] then []
    else [Nest(Listed(steps[|steps| - 1]) + Nested(steps[..|steps| - 1]))]
  }

  lemma {:induction false} ListedSplit(words: seq<Word>, more: seq<Item>)
    requires |words| > 1
    ensures Listed(words) + more == [Leaf(words[0])] + ([Comma] + (Listed(words[1..]) + more))
  {
  }

  lemma {:induction false} LevelOfCons(x: Item, rest: seq<Item>, d: int)
    requires !x.Nest?
    ensures LevelOf([x] + rest, d) ==
            if x.Leaf? && d == 0 then [x.word] + LevelOf(rest, d) else LevelOf(rest, d)
  {
    assert ([x] + rest)[1..] == rest;
  }

  lemma {:induction false} OneNest(items: seq<Item>, d: int)
    ensures Tidy([Nest(items)]) <==> Tidy(items)
    ensures LevelOf([Nest(items)], d) == LevelOf(items, d - 1)
    ensures Show([Nest(items)]) == [ARGS_START] + Show(items) + [ARGS_END]
  {
    AppendNothing(LevelOf(items, d - 1));
    AppendNothing(ShowItem(Nest(items)));
  }

  ghost predicate GoodWords(words: seq<Word>) {
    words != [] && forall j :: 0 <= j < |words| ==> words[j] != [] && Plain(words[j])
  }

  ghost predicate GoodSteps(steps: Steps) {
    forall i :: 0 <= i < |steps| ==> GoodWords(steps[i])
  }

  lemma {:induction false} ListedTidy(words: seq<Word>, more: seq<Item>)
    requires GoodWords(words) && Tidy(more) && (more != [] ==> !more[0].Leaf?)
    ensures Tidy(Listed(words) + more)
  {
    if |words| == 1 {
      Cons(Leaf(words[0]), more);
    } else {
      var rest := Listed(words[1..]) + more;
      ListedTidy(words[1..], more);
      ListedSplit(words, more);
      Cons(Leaf(words[0]), [Comma] + rest);
      Cons(Comma, rest);
    }
  }

  lemma {:induction false} ListedLevel(words: seq<Word>, more: seq<Item>, d: int)
    requires words != []
    ensures LevelOf(Listed(words) + more, d) == if d == 0 then words + LevelOf(more, d) else LevelOf(more, d)
  {
    var first, below := Leaf(words[0]), LevelOf(more, d);
    if |words| == 1 {
      LevelOfCons(first, more, d);
      assert words == [words[0]];
    } else {
      var rest := Listed(words[1..]) + more;
      ListedLevel(words[1..], more, d);
      ListedSplit(words, more);
      LevelOfCons(first, [Comma] + rest, d);
      LevelOfCons(Comma, rest, d);
      AppendAssoc([words[0]], words[1..], below);
      DropCons(words, 0);
    }
  }

  lemma {:induction false} NestedTidy(steps: Steps)
    requires GoodSteps(steps)
    ensures Tidy(Nested(steps))
  {
    if steps != [] {
      var words, inner := steps[|steps| - 1], Nested(steps[..|steps| - 1]);
      NestedTidy(steps[..|steps| - 1]);
      ListedTidy(words, inner);
      OneNest(Listed(words) + inner, 0);
    }
  }

  lemma {:induction false} NestedOnce(steps: Steps, d: int)
    requires GoodSteps(steps) && steps != []
    requires d == 1 ==> LevelOf(Nested(steps[..|steps| - 1]), 0) == []
    ensures var init, last := steps[..|steps| - 1], steps[|steps| - 1];
            LevelOf(Nested(steps), d) == if d == 1 then last else LevelOf(Nested(init), d - 1)
  {
    var words, inner := steps[|steps| - 1], Nested(steps[..|steps| - 1]);
    ListedLevel(words, inner, d - 1);
    OneNest(Listed(words) + inner, d);
    AppendNothing(words);
  }

  /** The d-th step from the end, or nothing. */
  function FromEnd(steps: Steps, d: int): seq<Word> {
    if 1 <= d <= |steps| then steps[|steps| - d] else []
  }

  lemma {:induction false} FromEndInit(steps: Steps, d: int)
    requires steps != []
    ensures FromEnd(steps, d) == if d == 1 then steps[|steps| - 1] else FromEnd(steps[..|steps| - 1], d - 1)
  {
  }

  /** Depth `d` of the printed schedule is its d-th step from the end. */
  lemma {:induction false} NestedLevels(steps: Steps, d: int)
    requires GoodSteps(steps)
    ensures LevelOf(Nested(steps), d) == FromEnd(steps, d)
  {
    if steps != [] {
      NestedLevels(steps[..|steps| - 1], d - 1);
      NestedOnce(steps, d);
      FromEndInit(steps, d);
    }
  }

  /** The last `d` steps. */
  function LastSteps(steps: Steps, d: nat): Steps
    requires d <= |steps|
  {
    if d == 0 then [] else [steps[|steps| - d]] + LastSteps(steps, d - 1)
  }

  lemma {:induction false} LastStepsDrop(steps: Steps, d: nat)
    requires d <= |steps|
    ensures LastSteps(steps, d) == steps[|steps| - d..]
  {
    if d > 0 {
      LastStepsDrop(steps, d - 1);
      DropCons(steps, |steps| - d);
    }
  }

  ghost predicate AtLevel(items: seq<Item>, d: int, words: seq<Word>) {
    LevelOf(items, d) == words
  }

  lemma {:induction false} StepsFromLevels(items: seq<Item>, steps: Steps, d: nat)
    requires d <= |steps| && forall i :: 0 <= i < |steps| ==> steps[i] != []
    requires forall e :: 0 <= e <= d ==> AtLevel(items, e, FromEnd(steps, e))
    ensures StepsOf(items, d) == LastSteps(steps, d)
  {
    assert AtLevel(items, d, FromEnd(steps, d));
    if d > 0 {
      StepsFromLevels(items, steps, d - 1);
    }
  }

  lemma {:induction false} NestedSteps(steps: Steps)
    requires GoodSteps(steps)
    ensures StepsOf(Nested(steps), |steps|) == steps
  {
    forall e | 0 <= e <= |steps| ensures AtLevel(Nested(steps), e, FromEnd(steps, e)) {
      NestedLevels(steps, e);
    }
    StepsFromLevels(Nested(steps), steps, |steps|);
    LastStepsDrop(steps, |steps|);
  }

  /** Printing a schedule as nested brackets and parsing it gives it back, whatever white space was
      put in between. */
  lemma {:induction false} DfdRoundTrip(steps: Steps, text: Bytes)
    requires GoodSteps(steps) && steps != []
    requires Strip(text) == Show(Nested(steps))
    ensures Meaning(Strip(text)) == Ok(steps)
  {
    var items, n := Nested(steps), |steps|;
    NestedTidy(steps);
    TreeMeaning(items);
    var h := Height(items);
    forall d | d > n || d > h ensures LevelOf(items, d) == [] {
      NestedLevels(steps, d);
      if d > h { LevelsAboveHeight(items, d); }
    }
    StepsFromAbove(items, Min(n, h), n);
    StepsFromAbove(items, Min(n, h), h);
    NestedSteps(steps);
  }

  ghost predicate NoWhitespace(t: Bytes) {
    forall i :: 0 <= i < |t| ==> !IsWhitespace(t[i])
  }

  lemma {:induction false} ListedIsClean(words: seq<Word>, more: seq<Item>)
    requires words != [] && forall j :: 0 <= j < |words| ==> NoWhitespace(words[j])
    requires NoWhitespace(Show(more))
    ensures NoWhitespace(Show(Listed(words) + more))
  {
    if |words| == 1 {
      Cons(Leaf(words[0]), more);
    } else {
      var rest := Listed(words[1..]) + more;
      ListedIsClean(words[1..], more);
      ListedSplit(words, more);
      Cons(Leaf(words[0]), [Comma] + rest);
      Cons(Comma, rest);
    }
  }

  /** With no white space in the words there is none in the print, so it parses as it stands. */
  lemma {:induction false} PrintIsClean(steps: Steps)
    requires GoodSteps(steps)
    requires forall i, j :: 0 <= i < |steps| && 0 <= j < |steps[i]| ==> NoWhitespace(steps[i][j])
    ensures NoWhitespace(Show(Nested(steps))) && Strip(Show(Nested(steps))) == Show(Nested(steps))
  {
    if steps != [] {
      var init, last := steps[..|steps| - 1], steps[|steps| - 1];
      PrintIsClean(init);
      ListedIsClean(last, Nested(init));
      var inner := Listed(last) + Nested(init);
      assert Nested(steps) == [Nest(inner)];
      OneNest(inner, 0);
    }
    StripPlain(Show(Nested(steps)));
  }
}
