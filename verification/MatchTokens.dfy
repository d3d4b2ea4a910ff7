/** Delimited text: a string is a list of fields, each a word and the delimiter that ends it,
    followed by the word still being read. */
module MatchTokens {
  import opened Basics

  const SPACE: Byte := 32
  const TAB: Byte := 9
  const RETURN: Byte := 13
  const NEWLINE: Byte := 10
  const ARGS_SEPARATOR: Byte := 44
  const ARGS_START: Byte := 40
  const ARGS_END: Byte := 41

  type Word = Bytes

  datatype Field = Field(word: Word, end: Byte)

  predicate IsWhitespace(c: Byte) {
    c == SPACE || c == TAB || c == RETURN || c == NEWLINE
  }

  predicate IsDelimiter(c: Byte) {
    c == ARGS_START || c == ARGS_SEPARATOR || c == ARGS_END
  }

  /** The characters these are. */
  lemma Characters(c: Byte)
    ensures IsWhitespace(c) <==> c as char in {' ', '\t', '\r', '\n'}
    ensures IsDelimiter(c) <==> c as char in {'(', ',', ')'}
    ensures ARGS_START as char == '(' && ARGS_SEPARATOR as char == ',' && ARGS_END as char == ')'
  {
  }

  /** No delimiter inside. */
  predicate Plain(w: Word) {
    forall i :: 0 <= i < |w| ==> !IsDelimiter(w[i])
  }

  function Last(t: Bytes): Byte
    requires t != []
  {
    t[|t| - 1]
  }

  function Init(t: Bytes): Bytes
    requires t != []
  {
    t[..|t| - 1]
  }

  // ---- Whitespace -----------------------------------------------------------------------

  function Strip(t: Bytes): Bytes {
    if t == [] then []
    else if IsWhitespace(Last(t)) then Strip(Init(t))
    else Strip(Init(t)) + [Last(t)]
  }

  lemma {:induction false} StripSnoc(t: Bytes, c: Byte)
    ensures Strip(t + [c]) == if IsWhitespace(c) then Strip(t) else Strip(t) + [c]
  {
    assert Init(t + [c]) == t;
  }

  lemma {:induction false} StripAppend(a: Bytes, b: Bytes)
    ensures Strip(a + b) == Strip(a) + Strip(b)
  {
    if b == [] {
      AppendNothing(a);
      AppendNothing(Strip(a));
    } else {
      var init, c := Init(b), Last(b);
      StripAppend(a, init);
      SplitLast(b);
      AppendAssoc(a, init, [c]);
      StripSnoc(a + init, c);
      AppendAssoc(Strip(a), Strip(init), [c]);
    }
  }

  lemma {:induction false} StripPlain(t: Bytes)
    requires forall i :: 0 <= i < |t| ==> !IsWhitespace(t[i])
    ensures Strip(t) == t
  {
    if t != [] {
      StripPlain(Init(t));
    }
  }

  lemma {:induction false} StripSpaces(a: Bytes, spaces: Bytes)
    requires forall i :: 0 <= i < |spaces| ==> IsWhitespace(spaces[i])
    ensures Strip(a + spaces) == Strip(a)
  {
    if spaces == [] {
      AppendNothing(a);
    } else {
      var init, c := Init(spaces), Last(spaces);
      StripSpaces(a, init);
      SplitLast(spaces);
      AppendAssoc(a, init, [c]);
      StripSnoc(a + init, c);
    }
  }

  lemma {:induction false} StripDropsSpaces(a: Bytes, spaces: Bytes, b: Bytes)
    requires forall i :: 0 <= i < |spaces| ==> IsWhitespace(spaces[i])
    ensures Strip(a + spaces + b) == Strip(a + b)
  {
    StripAppend(a + spaces, b);
    StripAppend(a, b);
    StripSpaces(a, spaces);
  }

  /** Dropping the first of the elements that are left. */
  lemma DropNext(a: Bytes, i: nat, b: Bytes, j: nat)
    requires i < |a| && j < |b| && a[i..] == b[j..]
    ensures a[i] == b[j] && a[i + 1..] == b[j + 1..]
  {
    assert a[i..][0] == b[j..][0];
    assert a[i + 1..] == a[i..][1..] && b[j + 1..] == b[j..][1..];
  }

  lemma RemoveAt(a: Bytes, i: nat)
    requires i < |a|
    ensures (a[..i] + a[i + 1..])[..i] == a[..i] && (a[..i] + a[i + 1..])[i..] == a[i + 1..]
  {
  }

  /** `trim_whitespace`: removes elements one at a time, in place. */
  method TrimWhitespace(input: Bytes) returns (result: Bytes)
    ensures result == Strip(input)
  {
    result := input;
    var i := 0;
    ghost var read := 0;
    assert input[..0] == [];
    while i < |result|
      invariant 0 <= i <= |result| && read <= |input|
      invariant result[..i] == Strip(input[..read])
      invariant result[i..] == input[read..]
      decreases |result| - i
    {
      DropNext(result, i, input, read);
      TakeSnoc(input, read);
      StripSnoc(input[..read], input[read]);
      if IsWhitespace(result[i]) {
        RemoveAt(result, i);
        result := result[..i] + result[i + 1..];
      } else {
        TakeSnoc(result, i);
        i := i + 1;
      }
      read := read + 1;
    }
    assert input[..read] == input;
  }

  // ---- Fields ---------------------------------------------------------------------------

  /** The word still being read: what follows the last delimiter. */
  function Pending(t: Bytes): Word {
    if t == [] || IsDelimiter(Last(t)) then [] else Pending(Init(t)) + [Last(t)]
  }

  function Fields(t: Bytes): seq<Field> {
    if t == [] then []
    else if IsDelimiter(Last(t)) then Fields(Init(t)) + [Field(Pending(Init(t)), Last(t))]
    else Fields(Init(t))
  }

  ghost predicate WellFormedFields(fs: seq<Field>) {
    forall i :: 0 <= i < |fs| ==> Plain(fs[i].word) && IsDelimiter(fs[i].end)
  }

  function Unsplit(fs: seq<Field>): Bytes {
    if fs == [] then [] else Unsplit(fs[..|fs| - 1]) + fs[|fs| - 1].word + [fs[|fs| - 1].end]
  }

  lemma {:induction false} FieldsSnoc(t: Bytes, c: Byte)
    ensures Fields(t + [c]) == if IsDelimiter(c) then Fields(t) + [Field(Pending(t), c)] else Fields(t)
    ensures Pending(t + [c]) == if IsDelimiter(c) then [] else Pending(t) + [c]
  {
    assert Init(t + [c]) == t;
  }

  lemma {:induction false} FieldsAppendWord(t: Bytes, w: Word)
    requires Plain(w)
    ensures Fields(t + w) == Fields(t) && Pending(t + w) == Pending(t) + w
  {
    if w == [] {
      AppendNothing(t);
      AppendNothing(Pending(t));
    } else {
      var init, c := Init(w), Last(w);
      SplitLast(w);
      FieldsAppendWord(t, init);
      AppendAssoc(t, init, [c]);
      FieldsSnoc(t + init, c);
      AppendAssoc(Pending(t), init, [c]);
    }
  }

  /** A word read on its own. */
  lemma {:induction false} FieldsThenWord(t: Bytes, w: Word)
    requires Pending(t) == [] && Plain(w)
    ensures Fields(t + w) == Fields(t) && Pending(t + w) == w
  {
    FieldsAppendWord(t, w);
  }

  lemma {:induction false} FieldsWellFormed(t: Bytes)
    ensures WellFormedFields(Fields(t)) && Plain(Pending(t))
  {
    if t != [] {
      FieldsWellFormed(Init(t));
    }
  }

  lemma {:induction false} UnsplitSnoc(fs: seq<Field>, f: Field)
    ensures Unsplit(fs + [f]) == Unsplit(fs) + f.word + [f.end]
  {
    assert (fs + [f])[..|fs|] == fs;
  }

  lemma {:induction false} UnsplitFields(t: Bytes)
    ensures t == Unsplit(Fields(t)) + Pending(t)
  {
    if t != [] {
      var init, c := Init(t), Last(t);
      var fs, word := Fields(init), Pending(init);
      SplitLast(t);
      UnsplitFields(init);
      FieldsSnoc(init, c);
      UnsplitSnoc(fs, Field(word, c));
      AppendNothing(Unsplit(fs) + word + [c]);
      AppendAssoc(Unsplit(fs), word, [c]);
    }
  }

  /** Splitting loses nothing and leaves no delimiter inside a word ... */
  lemma {:induction false} SplitIsFaithful(t: Bytes)
    ensures WellFormedFields(Fields(t)) && Plain(Pending(t))
    ensures t == Unsplit(Fields(t)) + Pending(t)
  {
    FieldsWellFormed(t);
    UnsplitFields(t);
  }

  /** ... and no other list of fields stands for the same string. */
  lemma {:induction false} SplitIsUnique(fs: seq<Field>, w: Word)
    requires WellFormedFields(fs) && Plain(w)
    ensures Fields(Unsplit(fs) + w) == fs && Pending(Unsplit(fs) + w) == w
  {
    if fs != [] {
      var init, last := fs[..|fs| - 1], fs[|fs| - 1];
      SplitIsUnique(init, last.word);
      FieldsSnoc(Unsplit(init) + last.word, last.end);
      SplitLast(fs);
    }
    FieldsThenWord(Unsplit(fs), w);
  }
}
