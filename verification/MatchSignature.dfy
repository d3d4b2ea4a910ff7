/** Event signatures: `Name(arg,...,arg)`. */
module MatchSignature {
  import opened Basics
  import opened MatchTokens

  datatype SignatureError =
    | SanityEmpty
    | SanityEnd
    | EmptyEventName
    | EmptyArgument
    | MissingEventName

  type Matched = Result<(Word, seq<Word>), SignatureError>

  // ---- What a list of fields says -------------------------------------------------------

  /** The word before the last opening bracket. */
  function EventName(fs: seq<Field>): Option<Word> {
    if fs == [] then None
    else if fs[|fs| - 1].end == ARGS_START then Some(fs[|fs| - 1].word)
    else EventName(fs[..|fs| - 1])
  }

  /** The words before the commas and closing brackets. */
  function EventArgs(fs: seq<Field>): seq<Word> {
    if fs == [] then []
    else
      var init, last := fs[..|fs| - 1], fs[|fs| - 1];
      if last.end == ARGS_START then EventArgs(init) else EventArgs(init) + [last.word]
  }

  /** What is wrong with field `i`, if anything. */
  function Fault(fs: seq<Field>, i: nat): Option<SignatureError>
    requires i < |fs|
  {
    if fs[i].word == [] then Some(if fs[i].end == ARGS_START then EmptyEventName else EmptyArgument)
    else if i == 0 && fs[i].end != ARGS_START then Some(MissingEventName)
    else None
  }

  function FirstFault(fs: seq<Field>): Option<SignatureError> {
    if fs == [] then None
    else if FirstFault(fs[..|fs| - 1]).Some? then FirstFault(fs[..|fs| - 1])
    else Fault(fs, |fs| - 1)
  }

  predicate Sane(signature: Bytes) {
    var trimmed := Strip(signature);
    trimmed != [] && Last(trimmed) == ARGS_END
  }

  /** What a signature means: its name and arguments, or the first thing wrong with it. */
  function Meaning(signature: Bytes): Matched {
    var fs := Fields(signature);
    if !Sane(signature) then Err(if Strip(signature) == [] then SanityEmpty else SanityEnd)
    else if FirstFault(fs).Some? then Err(FirstFault(fs).value)
    else if EventName(fs).None? then Err(EmptyEventName)
    else Ok((EventName(fs).value, EventArgs(fs)))
  }

  // ---- The parser -----------------------------------------------------------------------

  method CheckOverallSanity(signature: Bytes) returns (r: Option<SignatureError>)
    ensures r.None? <==> Sane(signature)
    ensures r.Some? ==> r.value == if Strip(signature) == [] then SanityEmpty else SanityEnd
  {
    var cloned := TrimWhitespace(signature);
    if cloned == [] {
      return Some(SanityEmpty);
    }
    if Last(cloned) != ARGS_END {
      return Some(SanityEnd);
    }
    return None;
  }

  lemma {:induction false} FaultStays(fs: seq<Field>, f: Field)
    requires FirstFault(fs).Some?
    ensures FirstFault(fs + [f]) == FirstFault(fs)
  {
    assert (fs + [f])[..|fs|] == fs;
  }

  lemma {:induction false} FirstFaultStays(t: Bytes, more: Bytes)
    requires FirstFault(Fields(t)).Some?
    ensures FirstFault(Fields(t + more)) == FirstFault(Fields(t))
  {
    if more == [] {
      AppendNothing(t);
    } else {
      var init, c := Init(more), Last(more);
      FirstFaultStays(t, init);
      SplitLast(more);
      AppendAssoc(t, init, [c]);
      FieldsSnoc(t + init, c);
      FaultStays(Fields(t + init), Field(Pending(t + init), c));
    }
  }

  lemma {:induction false} NamedWhenFaultFree(fs: seq<Field>)
    requires FirstFault(fs).None? && fs != []
    ensures EventName(fs).Some? && fs[0].end == ARGS_START
  {
    var init := fs[..|fs| - 1];
    if init != [] {
      NamedWhenFaultFree(init);
    }
  }

  lemma {:induction false} OneMoreField(fs: seq<Field>, f: Field)
    requires FirstFault(fs).None?
    ensures EventName(fs + [f]) == if f.end == ARGS_START then Some(f.word) else EventName(fs)
    ensures EventArgs(fs + [f]) == if f.end == ARGS_START then EventArgs(fs) else EventArgs(fs) + [f.word]
    ensures FirstFault(fs + [f]) ==
            if f.word == [] then Some(if f.end == ARGS_START then EmptyEventName else EmptyArgument)
            else if f.end != ARGS_START && EventName(fs).None? then Some(MissingEventName)
            else None
  {
    assert (fs + [f])[..|fs|] == fs;
    if fs != [] {
      NamedWhenFaultFree(fs);
    }
  }

  /** The loop has read `t` without meeting a fault. */
  ghost predicate HasRead(t: Bytes, name: Option<Word>, args: seq<Word>, word: Word) {
    && FirstFault(Fields(t)).None?
    && EventName(Fields(t)) == name
    && EventArgs(Fields(t)) == args
    && Pending(t) == word
  }

  lemma ReadNothing()
    ensures HasRead([], None, [], [])
  {
  }

  /** What reading one more character does: it ends a word, starts the arguments, or is refused. */
  lemma {:induction false} ReadChar(t: Bytes, c: Byte, name: Option<Word>, args: seq<Word>, word: Word)
    requires HasRead(t, name, args, word)
    ensures !IsDelimiter(c) ==> HasRead(t + [c], name, args, word + [c])
    ensures IsDelimiter(c) && word == [] ==>
              FirstFault(Fields(t + [c])) == Some(if c == ARGS_START then EmptyEventName else EmptyArgument)
    ensures c == ARGS_START && word != [] ==> HasRead(t + [c], Some(word), args, [])
    ensures (c == ARGS_SEPARATOR || c == ARGS_END) && word != [] ==>
              if name.None? then FirstFault(Fields(t + [c])) == Some(MissingEventName)
              else HasRead(t + [c], name, args + [word], [])
  {
    FieldsSnoc(t, c);
    OneMoreField(Fields(t), Field(word, c));
  }

  /** A fault met on the way is the fault of the whole. */
  lemma {:induction false} FaultIsFinal(t: Bytes, k: nat)
    requires k <= |t| && FirstFault(Fields(t[..k])).Some?
    ensures FirstFault(Fields(t)) == FirstFault(Fields(t[..k]))
  {
    assert t == t[..k] + t[k..];
    FirstFaultStays(t[..k], t[k..]);
  }

  /** Sanity is checked on the trimmed text, but the words are cut from the text as it is: white space
      stays in them. */
  method MatchSignature(signature: Bytes) returns (r: Matched)
    ensures r == Meaning(signature)
  {
    var eventName: Option<Word> := None;
    var eventArgs: seq<Word> := [];
    var currentWord: Word := [];

    var insane := CheckOverallSanity(signature);
    if insane.Some? {
      return Err(insane.value);
    }
    ReadNothing();
    for k := 0 to |signature|
      invariant HasRead(signature[..k], eventName, eventArgs, currentWord)
    {
      var c := signature[k];
      ReadChar(signature[..k], c, eventName, eventArgs, currentWord);
      TakeSnoc(signature, k);
      if FirstFault(Fields(signature[..k + 1])).Some? {
        FaultIsFinal(signature, k + 1);
      }
      if c == ARGS_START {
        if currentWord == [] {
          return Err(EmptyEventName);
        }
        eventName := Some(currentWord);
        currentWord := [];
      } else if c == ARGS_SEPARATOR || c == ARGS_END {
        if currentWord == [] {
          return Err(EmptyArgument);
        }
        if eventName.None? {
          return Err(MissingEventName);
        }
        eventArgs := eventArgs + [currentWord];
        currentWord := [];
      } else {
        currentWord := currentWord + [c];
      }
    }
    assert signature[..|signature|] == signature;
    match eventName
    case Some(name) => return Ok((name, eventArgs));
    case None => return Err(EmptyEventName);
  }

  // ---- What is accepted -----------------------------------------------------------------

  lemma {:induction false} FaultFreeExactly(fs: seq<Field>)
    ensures FirstFault(fs).None? <==>
            && (forall i :: 0 <= i < |fs| ==> fs[i].word != [])
            && (fs != [] ==> fs[0].end == ARGS_START)
  {
    if fs != [] {
      var init := fs[..|fs| - 1];
      FaultFreeExactly(init);
      assert forall i :: 0 <= i < |init| ==> init[i] == fs[i];
    }
  }

  /** A sane text ends with a field closed by a bracket, and nothing but white space after it. */
  lemma {:induction false} SaneEndsInField(t: Bytes)
    requires Sane(t)
    ensures Fields(t) != [] && Fields(t)[|Fields(t)| - 1].end == ARGS_END
    ensures forall i :: 0 <= i < |Pending(t)| ==> IsWhitespace(Pending(t)[i])
  {
    if IsWhitespace(Last(t)) {
      SaneEndsInField(Init(t));
    }
  }

  lemma {:induction false} ArgsFromFields(fs: seq<Field>)
    requires WellFormedFields(fs) && forall i :: 0 <= i < |fs| ==> fs[i].word != []
    ensures forall i :: 0 <= i < |EventArgs(fs)| ==> EventArgs(fs)[i] != [] && Plain(EventArgs(fs)[i])
    ensures EventName(fs).Some? ==> EventName(fs).value != [] && Plain(EventName(fs).value)
    ensures fs != [] && fs[|fs| - 1].end != ARGS_START ==> EventArgs(fs) != []
  {
    if fs != [] {
      var init := fs[..|fs| - 1];
      assert forall i :: 0 <= i < |init| ==> init[i] == fs[i];
      ArgsFromFields(init);
    }
  }

  /** Exactly these texts are accepted: sane, every word before a delimiter non-empty, the first
      delimiter an opening bracket. What comes back is non-empty, free of delimiters, and has at least
      one argument. */
  lemma {:induction false} AcceptedExactly(t: Bytes)
    ensures var fs := Fields(t);
            Meaning(t).Ok? <==>
            Sane(t) && (forall i :: 0 <= i < |fs| ==> fs[i].word != []) && fs != [] && fs[0].end == ARGS_START
    ensures Meaning(t).Ok? ==>
              var (name, args) := Meaning(t).value;
              && name != [] && Plain(name)
              && args != [] && forall i :: 0 <= i < |args| ==> args[i] != [] && Plain(args[i])
  {
    var fs := Fields(t);
    FaultFreeExactly(fs);
    SplitIsFaithful(t);
    if Sane(t) && FirstFault(fs).None? {
      SaneEndsInField(t);
      NamedWhenFaultFree(fs);
      ArgsFromFields(fs);
    }
  }

  // ---- What is refused, and how ---------------------------------------------------------

  lemma {:induction false} FaultKinds(fs: seq<Field>)
    requires FirstFault(fs).Some?
    ensures FirstFault(fs).value in {EmptyEventName, EmptyArgument, MissingEventName}
  {
    if FirstFault(fs[..|fs| - 1]).Some? {
      FaultKinds(fs[..|fs| - 1]);
    }
  }

  /** A text is empty when it is all white space; otherwise its last other character has to be a closing
      bracket. */
  lemma {:induction false} SanityExactly(t: Bytes, k: nat)
    requires k < |t| && !IsWhitespace(t[k]) && forall i :: k < i < |t| ==> IsWhitespace(t[i])
    ensures Meaning(t) != Err(SanityEmpty)
    ensures Meaning(t) == Err(SanityEnd) <==> t[k] != ARGS_END
  {
    var head, spaces := t[..k + 1], t[k + 1..];
    assert t == head + spaces;
    StripSpaces(head, spaces);
    TakeSnoc(t, k);
    StripSnoc(t[..k], t[k]);
    if FirstFault(Fields(t)).Some? {
      FaultKinds(Fields(t));
    }
  }

  lemma {:induction false} AllSpace(t: Bytes)
    requires forall i :: 0 <= i < |t| ==> IsWhitespace(t[i])
    ensures Meaning(t) == Err(SanityEmpty)
  {
    StripSpaces([], t);
    assert [] + t == t;
  }

  lemma {:induction false} FaultOfPrefix(fs: seq<Field>, k: nat)
    requires k <= |fs| && FirstFault(fs[..k]).Some?
    ensures FirstFault(fs) == FirstFault(fs[..k])
  {
    if k == |fs| {
      assert fs[..k] == fs;
    } else {
      var init := fs[..|fs| - 1];
      assert init[..k] == fs[..k];
      FaultOfPrefix(init, k);
    }
  }

  /** The first faulty field decides: an empty word before an opening bracket, an empty word before another
      delimiter, or a first delimiter that does not open. */
  lemma {:induction false} FirstFaultDecides(t: Bytes, i: nat)
    requires Sane(t) && i < |Fields(t)|
    requires forall j :: 0 <= j < i ==> Fields(t)[j].word != []
    requires i > 0 ==> Fields(t)[0].end == ARGS_START
    ensures var f := Fields(t)[i];
            && (f.word == [] && f.end == ARGS_START ==> Meaning(t) == Err(EmptyEventName))
            && (f.word == [] && f.end != ARGS_START ==> Meaning(t) == Err(EmptyArgument))
            && (f.word != [] && i == 0 && f.end != ARGS_START ==> Meaning(t) == Err(MissingEventName))
  {
    var fs := Fields(t);
    FaultFreeExactly(fs[..i]);
    assert fs[..i + 1][..i] == fs[..i] && fs[..i + 1][i] == fs[i];
    if Fault(fs, i).Some? {
      assert FirstFault(fs[..i + 1]) == Fault(fs, i);
      FaultOfPrefix(fs, i + 1);
    }
  }

  // ---- Printing -------------------------------------------------------------------------

  function Join(words: seq<Word>): Bytes
    requires words != []
  {
    if |words| == 1 then words[0]
    else Join(words[..|words| - 1]) + [ARGS_SEPARATOR] + words[|words| - 1]
  }

  function Print(name: Word, args: seq<Word>): Bytes
    requires args != []
  {
    name + [ARGS_START] + Join(args) + [ARGS_END]
  }

  ghost predicate GoodWord(w: Word) {
    w != [] && Plain(w)
  }

  ghost predicate GoodWords(words: seq<Word>) {
    forall i :: 0 <= i < |words| ==> GoodWord(words[i])
  }

  /** The fields of a name and some arguments, each ended by a comma. */
  function Opened(name: Word, args: seq<Word>): seq<Field> {
    if args == [] then [Field(name, ARGS_START)]
    else Opened(name, args[..|args| - 1]) + [Field(args[|args| - 1], ARGS_SEPARATOR)]
  }

  /** The fields of a printed signature. */
  function PrintedFields(name: Word, args: seq<Word>): seq<Field>
    requires args != []
  {
    Opened(name, args[..|args| - 1]) + [Field(args[|args| - 1], ARGS_END)]
  }

  lemma {:induction false} JoinSnoc(args: seq<Word>, w: Word)
    requires args != []
    ensures Join(args + [w]) == Join(args) + [ARGS_SEPARATOR] + w
  {
    assert (args + [w])[..|args|] == args;
  }

  lemma {:induction false} UnsplitOne(f: Field)
    ensures Unsplit([f]) == f.word + [f.end]
  {
    UnsplitSnoc([], f);
    assert [] + [f] == [f] && [] + f.word == f.word;
  }

  lemma Regroup(a: Bytes, b: Bytes, c: Bytes, d: Bytes)
    ensures a + b + c + d == a + (b + c + d)
  {
  }

  lemma {:induction false} OpenedText(name: Word, args: seq<Word>, w: Word)
    ensures Unsplit(Opened(name, args)) + w == name + [ARGS_START] + Join(args + [w])
  {
    if args == [] {
      UnsplitOne(Field(name, ARGS_START));
      assert args + [w] == [w];
    } else {
      var init, last := args[..|args| - 1], args[|args| - 1];
      OpenedText(name, init, last);
      UnsplitSnoc(Opened(name, init), Field(last, ARGS_SEPARATOR));
      SplitLast(args);
      JoinSnoc(args, w);
      Regroup(name + [ARGS_START], Join(args), [ARGS_SEPARATOR], w);
    }
  }

  lemma {:induction false} PrintedText(name: Word, args: seq<Word>)
    requires args != []
    ensures Unsplit(PrintedFields(name, args)) == Print(name, args)
  {
    var init, last := args[..|args| - 1], args[|args| - 1];
    OpenedText(name, init, last);
    UnsplitSnoc(Opened(name, init), Field(last, ARGS_END));
    SplitLast(args);
  }

  lemma {:induction false} OpenedAt(name: Word, args: seq<Word>)
    ensures |Opened(name, args)| == |args| + 1 && Opened(name, args)[0] == Field(name, ARGS_START)
    ensures forall i :: 0 < i <= |args| ==> Opened(name, args)[i] == Field(args[i - 1], ARGS_SEPARATOR)
  {
    if args != [] {
      OpenedAt(name, args[..|args| - 1]);
    }
  }

  lemma {:induction false} FieldSnoc(fs: seq<Field>, f: Field)
    ensures EventName(fs + [f]) == if f.end == ARGS_START then Some(f.word) else EventName(fs)
    ensures EventArgs(fs + [f]) == if f.end == ARGS_START then EventArgs(fs) else EventArgs(fs) + [f.word]
  {
    assert (fs + [f])[..|fs|] == fs;
  }

  lemma {:induction false} OpenedMeans(name: Word, args: seq<Word>)
    ensures EventName(Opened(name, args)) == Some(name) && EventArgs(Opened(name, args)) == args
  {
    if args != [] {
      var init, last := args[..|args| - 1], args[|args| - 1];
      OpenedMeans(name, init);
      FieldSnoc(Opened(name, init), Field(last, ARGS_SEPARATOR));
      SplitLast(args);
    }
  }

  lemma {:induction false} PrintedMeans(name: Word, args: seq<Word>)
    requires args != []
    ensures EventName(PrintedFields(name, args)) == Some(name) && EventArgs(PrintedFields(name, args)) == args
  {
    var init, last := args[..|args| - 1], args[|args| - 1];
    OpenedMeans(name, init);
    FieldSnoc(Opened(name, init), Field(last, ARGS_END));
    SplitLast(args);
  }

  /** Only the first field ends with an opening bracket, and only the last with a closing one. */
  ghost predicate Shaped(fs: seq<Field>) {
    forall i :: 0 <= i < |fs| ==>
      (fs[i].end == ARGS_START <==> i == 0) && (fs[i].end == ARGS_END <==> i == |fs| - 1)
  }

  lemma {:induction false} PrintedShape(name: Word, args: seq<Word>)
    requires args != [] && GoodWord(name) && GoodWords(args)
    ensures var fs := PrintedFields(name, args);
            && fs != [] && Shaped(fs) && WellFormedFields(fs)
            && (forall i :: 0 <= i < |fs| ==> fs[i].word != [])
  {
    OpenedAt(name, args[..|args| - 1]);
  }

  /** A printed signature is split into the fields it was made of. */
  lemma {:induction false} PrintIsSplit(name: Word, args: seq<Word>)
    requires args != [] && GoodWord(name) && GoodWords(args)
    ensures Fields(Print(name, args)) == PrintedFields(name, args) && Pending(Print(name, args)) == []
  {
    PrintedShape(name, args);
    PrintedText(name, args);
    SplitIsUnique(PrintedFields(name, args), []);
    AppendNothing(Print(name, args));
  }

  lemma {:induction false} EndsSane(t: Bytes)
    ensures Sane(t + [ARGS_END])
  {
    StripSnoc(t, ARGS_END);
  }

  /** Printing a name and its arguments and parsing the text gives them back. */
  lemma {:induction false} SignatureRoundTrip(name: Word, args: seq<Word>)
    requires args != [] && GoodWord(name) && GoodWords(args)
    ensures Meaning(Print(name, args)) == Ok((name, args))
  {
    PrintIsSplit(name, args);
    PrintedShape(name, args);
    PrintedMeans(name, args);
    FaultFreeExactly(PrintedFields(name, args));
    EndsSane(name + [ARGS_START] + Join(args));
  }

  // ---- What is lost ---------------------------------------------------------------------

  lemma {:induction false} OpenedSnoc(name: Word, args: seq<Word>, w: Word)
    ensures Opened(name, args + [w]) == Opened(name, args) + [Field(w, ARGS_SEPARATOR)]
  {
    assert (args + [w])[..|args|] == args;
  }

  lemma {:induction false} OpenedFrom(fs: seq<Field>)
    requires fs != [] && fs[0].end == ARGS_START && forall i :: 0 < i < |fs| ==> fs[i].end == ARGS_SEPARATOR
    ensures EventName(fs) == Some(fs[0].word) && fs == Opened(fs[0].word, EventArgs(fs))
  {
    var init, last := fs[..|fs| - 1], fs[|fs| - 1];
    SplitLast(fs);
    FieldSnoc(init, last);
    if init != [] {
      OpenedFrom(init);
      OpenedSnoc(fs[0].word, EventArgs(init), last.word);
    } else {
      assert fs == [last];
    }
  }

  /** A list of this shape is that of a printed signature. */
  lemma {:induction false} ShapedIsPrinted(fs: seq<Field>)
    requires fs != [] && WellFormedFields(fs) && Shaped(fs)
    ensures EventName(fs).Some? && EventArgs(fs) != [] && fs == PrintedFields(EventName(fs).value, EventArgs(fs))
  {
    var init, last := fs[..|fs| - 1], fs[|fs| - 1];
    assert fs[0].end == ARGS_START && last.end == ARGS_END;
    SplitLast(fs);
    FieldSnoc(init, last);
    OpenedFrom(init);
    var args := EventArgs(init);
    assert (args + [last.word])[..|args|] == args;
  }

  /** An accepted text is recovered from its name and arguments exactly when nothing follows the last
      bracket, only the first delimiter opens and only the last closes. */
  lemma {:induction false} RecoveredExactly(t: Bytes)
    requires Meaning(t).Ok?
    ensures var (name, args) := Meaning(t).value;
            args != [] && (Print(name, args) == t <==> Pending(t) == [] && Shaped(Fields(t)))
  {
    var (name, args) := Meaning(t).value;
    AcceptedExactly(t);
    if Print(name, args) == t {
      PrintIsSplit(name, args);
      PrintedShape(name, args);
    }
    if Pending(t) == [] && Shaped(Fields(t)) {
      SplitIsFaithful(t);
      ShapedIsPrinted(Fields(t));
      PrintedText(name, args);
      AppendNothing(Unsplit(Fields(t)));
    }
  }

  lemma {:induction false} NestedFields(a: Word, b: Word, c: Word)
    requires GoodWord(a) && GoodWord(b) && GoodWord(c)
    ensures var fs := Fields(a + [ARGS_START] + b + [ARGS_START] + c + [ARGS_END]);
            && fs == [Field(a, ARGS_START), Field(b, ARGS_START), Field(c, ARGS_END)]
            && EventName(fs) == Some(b) && EventArgs(fs) == [c]
  {
    var x, y, z := Field(a, ARGS_START), Field(b, ARGS_START), Field(c, ARGS_END);
    UnsplitOne(x);
    UnsplitSnoc([x], y);
    UnsplitSnoc([x] + [y], z);
    var t := Unsplit([x] + [y] + [z]);
    assert WellFormedFields([x] + [y] + [z]);
    SplitIsUnique([x] + [y] + [z], []);
    AppendNothing(t);
    FieldSnoc([x], y);
    FieldSnoc([x] + [y], z);
  }

  /** `a(b(c)` is accepted as `b(c)`: the first name is lost. */
  lemma {:induction false} NameIsLost(a: Word, b: Word, c: Word)
    requires GoodWord(a) && GoodWord(b) && GoodWord(c)
    ensures var t := a + [ARGS_START] + b + [ARGS_START] + c + [ARGS_END];
            Meaning(t) == Ok((b, [c])) && Print(b, [c]) != t
  {
    var t := a + [ARGS_START] + b + [ARGS_START] + c + [ARGS_END];
    NestedFields(a, b, c);
    FaultFreeExactly(Fields(t));
    EndsSane(a + [ARGS_START] + b + [ARGS_START] + c);
    assert |Print(b, [c])| < |t|;
  }
}
