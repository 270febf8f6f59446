/** Writing the list of an enumeration to a DBC file, and reading it back. */
module EnumerationFile {
  import opened Bits
  import opened Wrappers
  import opened DbcString
  import opened DbcStringTheorems
  import opened DbcStringForms
  import opened Enumeration

  const COMMA: uint8 := 44
  const SEMICOLON: uint8 := 59
  const ENUM_WORD: seq<uint8> := [69, 78, 85, 77]
  const BLANKS: seq<uint8> := [32, 32]
  const TAIL: seq<uint8> := [SEMICOLON, NEWLINE]

  function ListText(names: seq<Name>): seq<uint8> {
    if names == [] then []
    else if |names| == 1 then Literal(names[0])
    else ListText(names[..|names| - 1]) + [COMMA] + Literal(names[|names| - 1])
  }

  /** Writes the names by counting the values up until one has no name. */
  method WriteEnumeration(ad: AttributeDefinition, w: Writer)
    requires ad.Valid() && ad.kind == AttributeType.Enumeration
    requires forall name :: name in ad.Names() ==> 0 !in name
    modifies w
    ensures w.out == old(w.out) + ENUM_WORD + BLANKS + ListText(ad.Names())
  {
    hide Literal, ListText, UpToNul;
    ListTextStart(ad.Names());
    ghost var names := ad.Names();
    var value := 0;
    w.Put(ENUM_WORD + BLANKS);
    ghost var start := w.out;
    var name := ad.GetEnumerationNameByValue(value);
    while name != None
      invariant 0 <= value <= |names|
      invariant name == if value < |names| then Some(names[value]) else None
      invariant w.out == start + ListText(names[..value])
      decreases |names| - value
    {
      ListTextStep(names, value);
      value, name := WriteName(ad, value, name, w);
    }
    assert names[..value] == names;
  }

  /** Writes one name, after a comma unless it is the first, and looks up the next. */
  method WriteName(ad: AttributeDefinition, value: nat, name: Option<Name>, w: Writer)
    returns (nextValue: nat, next: Option<Name>)
    requires ad.Valid() && ad.kind == AttributeType.Enumeration
    requires value < |ad.Names()| && name == Some(ad.Names()[value])
    requires forall s :: s in ad.Names() ==> 0 !in s
    modifies w
    ensures w.out == old(w.out) + ((if value > 0 then [COMMA] else []) + Literal(ad.Names()[value]))
    ensures nextValue == value + 1
    ensures next == if nextValue < |ad.Names()| then Some(ad.Names()[nextValue]) else None
  {
    hide Literal, UpToNul;
    assert name.value in ad.Names();
    if value != 0 { w.Put([COMMA]); }
    w.PrintString(name);
    nextValue := value + 1;
    next := ad.GetEnumerationNameByValue(nextValue);
  }

  /** What stands around the names: the word ENUM and two blanks, commas, and a semicolon at the end of the line. */
  lemma Delimiters(names: seq<Name>)
    ensures |ENUM_WORD + BLANKS| == 6 && forall i :: 0 <= i < 6 ==> (ENUM_WORD + BLANKS)[i] as char == "ENUM  "[i]
    ensures |names| == 1 ==> ListText(names) == Literal(names[0])
    ensures |names| == 2 ==> ListText(names) == Literal(names[0]) + [44] + Literal(names[1])
    ensures TAIL == [59, 10]
  {
    hide Literal;
    if |names| == 2 { assert names[..1] == [names[0]]; }
  }

  lemma ListTextStart(names: seq<Name>)
    ensures ListText(names[..0]) == []
  {}

  lemma ListTextStep(names: seq<Name>, k: nat)
    requires k < |names|
    ensures ListText(names[..k + 1]) ==
            ListText(names[..k]) + ((if k > 0 then [COMMA] else []) + Literal(names[k]))
  {
    hide Literal;
    assert names[..k + 1][..k] == names[..k];
  }

  // ---- reading -------------------------------------------------------------------------

  /** The strings up to the token that ends the list. */
  datatype Listing = Listing(names: seq<Name>, stop: Token, rest: seq<uint8>, lines: nat, fileEof: bool)

  predicate Stops(t: Token) {
    t.EndOfFile? || t.Malformed? || t.Other? || t == Punctuation(Signed(SEMICOLON))
  }

  function ReadList(input: seq<uint8>, fileEof: bool): Listing
    decreases |input|, !fileEof
  {
    var x := LexFrom(input, fileEof);
    if Stops(x.token) then Listing([], x.token, x.rest, x.lines, x.fileEof)
    else Prepend(TextsOf(x.token), x.lines, ReadList(x.rest, x.fileEof))
  }

  function TextsOf(t: Token): seq<Name> {
    if t.Text? then [t.text] else []
  }

  function Prepend(names: seq<Name>, lines: nat, l: Listing): Listing {
    l.(names := names + l.names, lines := lines + l.lines)
  }

  lemma PrependNone(l: Listing)
    ensures Prepend([], 0, l) == l
  {}

  lemma PrependTwice(a: seq<Name>, m: nat, b: seq<Name>, n: nat, l: Listing)
    ensures Prepend(a, m, Prepend(b, n, l)) == Prepend(a + b, m + n, l)
  {
    assert a + (b + l.names) == a + b + l.names;
  }

  /** A string is added with the next value; any other token is passed over. */
  method AddText(a: AttributeDefinition, t: Token, value: int) returns (next: int)
    requires a.Valid() && a.kind == AttributeType.Enumeration && value == |a.Names()|
    modifies a`enumEntries, a`entries, a.entries`next
    ensures a.Valid() && a.Names() == old(a.Names()) + TextsOf(t) && next == |a.Names()|
    ensures forall e :: e in a.entries ==> e in old(a.entries) || fresh(e)
  {
    next := value;
    if t.Text? {
      var status := a.AddEnumeration(Some(t.text), value);
      next := value + 1;
    }
  }

  /** Adds the strings of the list with values counted up from 0, and returns the token that ends the list.
      At `Other` the source reads on; what comes then is not part of this model. */
  method ReadEnumeration(a: AttributeDefinition, r: Reader) returns (t: Token)
    requires a.Valid() && a.kind == AttributeType.Enumeration && a.Names() == [] && r.Valid()
    modifies a`enumEntries, a`entries, a.entries`next
    modifies r`rest, r`feof, r`lineno, r`fileEof, r.stringBuf
    ensures a.Valid() && r.Valid()
    ensures var l := ReadList(old(r.rest), old(r.fileEof));
            a.Names() == l.names && t == l.stop && r.rest == l.rest && r.fileEof == l.fileEof
            && r.lineno == old(r.lineno) + l.lines
  {
    hide LexFrom, ReadList, Prepend, TextsOf;
    ghost var lines: nat, names: seq<Name> := 0, [];
    var value := 0;
    ghost var input, fileEof := r.rest, r.fileEof;
    PrependNone(ReadList(input, fileEof));
    ReadStep(names, lines, input, fileEof);
    lines := LexFrom(input, fileEof).lines;
    t := r.Lex();
    while !Stops(t)
      invariant a.Valid() && r.Valid() && a.kind == AttributeType.Enumeration
      invariant a.Names() == names && value == |names|
      invariant forall e :: e in a.entries ==> fresh(e)
      invariant r.lineno == old(r.lineno) + lines
      invariant Rest(names, lines, t, r.rest, r.fileEof) == ReadList(input, fileEof)
      decreases !Stops(t), |r.rest|, !r.fileEof
    {
      assert forall k :: 0 <= k < |a.entries| ==> a.entries[k] in a.entries;
      value := AddText(a, t, value);
      names := names + TextsOf(t);
      ReadStep(names, lines, r.rest, r.fileEof);
      lines := lines + LexFrom(r.rest, r.fileEof).lines;
      t := r.Lex();
    }
  }

  /** The whole list, when `names` were read, then token t, and the rest of the file is still to be read. */
  function Rest(names: seq<Name>, lines: nat, t: Token, rest: seq<uint8>, fileEof: bool): Listing {
    if Stops(t) then Listing(names, t, rest, lines, fileEof)
    else Prepend(names + TextsOf(t), lines, ReadList(rest, fileEof))
  }

  lemma ReadStep(names: seq<Name>, lines: nat, input: seq<uint8>, fileEof: bool)
    ensures var x := LexFrom(input, fileEof);
            Prepend(names, lines, ReadList(input, fileEof)) == Rest(names, lines + x.lines, x.token, x.rest, x.fileEof)
  {
    hide LexFrom;
    var x := LexFrom(input, fileEof);
    if !Stops(x.token) {
      PrependTwice(names, lines, TextsOf(x.token), x.lines, ReadList(x.rest, x.fileEof));
    }
  }

  // ---- round trip ----------------------------------------------------------------------

  predicate Storable(name: Name) {
    Survives(name) && |name| < MAX_STRING
  }

  predicate AllStorable(names: seq<Name>) {
    forall i :: 0 <= i < |names| ==> Storable(names[i])
  }

  predicate CStrings(names: seq<Name>) {
    forall i :: 0 <= i < |names| ==> 0 !in names[i]
  }

  lemma {:induction false} ListTextHead(names: seq<Name>)
    requires |names| > 1
    ensures ListText(names) == Literal(names[0]) + [COMMA] + ListText(names[1..])
  {
    hide Literal;
    var n := |names| - 1;
    var first, last := names[..n], names[n];
    if n == 1 {
      assert first == [names[0]] && names[1..] == [last];
    } else {
      ListTextHead(first);
      assert first[1..] == names[1..][..n - 1] && names[1..][n - 1] == last;
      assert ListText(names[1..]) == ListText(first[1..]) + [COMMA] + Literal(last);
    }
  }

  lemma SkipBlank(b: uint8, input: seq<uint8>)
    requires b == 32
    ensures Skip([b] + input) == Skip(input)
  {
    assert ([b] + input)[1..] == input;
  }

  lemma LexMark(b: uint8, input: seq<uint8>, fileEof: bool)
    requires b == COMMA || b == SEMICOLON
    ensures LexFrom([b] + input, fileEof) == Lexed(Punctuation(Signed(b)), input, 0, fileEof)
  {
    assert ([b] + input)[1..] == input;
  }

  lemma LexLiteral(name: Name, rest: seq<uint8>, fileEof: bool)
    ensures var r := Decode(Quoted(name, rest));
            LexFrom(Literal(name) + rest, fileEof) ==
            Lexed(if TokenText(r).Some? then Text(TokenText(r).value) else Malformed, RestOf(r), r.lines, fileEof)
  {
    hide Decode, TokenText;
    var input := Literal(name) + rest;
    assert input[0] == QUOTE && input[1..] == Quoted(name, rest);
  }

  lemma ReadListAtMark(b: uint8, input: seq<uint8>, fileEof: bool)
    requires b == COMMA || b == SEMICOLON
    ensures b == COMMA ==> ReadList([b] + input, fileEof) == ReadList(input, fileEof)
    ensures b == SEMICOLON ==>
              ReadList([b] + input, fileEof) == Listing([], Punctuation(Signed(SEMICOLON)), input, 0, fileEof)
  {
    hide LexFrom;
    LexMark(b, input, fileEof);
    if b == COMMA { PrependNone(ReadList(input, fileEof)); }
  }

  /** A name before a comma or a semicolon: the list starts with it exactly when it can be stored. */
  lemma ReadListName(name: Name, b: uint8, input: seq<uint8>, fileEof: bool)
    requires 0 !in name && (b == COMMA || b == SEMICOLON)
    ensures var l, more := ReadList(Literal(name) + ([b] + input), fileEof), ReadList([b] + input, fileEof);
            if Storable(name) then l == Prepend([name], LineEnds(name), more)
            else l.names == [] || l.names[0] != name
  {
    hide LexFrom, Survives, Decode, Quoted;
    var rest := [b] + input;
    LexLiteral(name, rest, fileEof);
    TextSurvives(name, rest);
    if Storable(name) { ReadBack(name, rest); }
  }

  lemma {:induction false} ReadNames(names: seq<Name>, more: seq<uint8>, fileEof: bool)
    requires CStrings(names)
    ensures var l := ReadList(ListText(names) + ([SEMICOLON] + more), fileEof);
            && (l.names == names <==> AllStorable(names))
            && (AllStorable(names) ==> l.stop == Punctuation(Signed(SEMICOLON)) && l.rest == more)
    decreases |names|
  {
    hide Storable, ReadList, Literal;
    ReadListAtMark(SEMICOLON, more, fileEof);
    var tail := [SEMICOLON] + more;
    if names == [] {
      assert ListText(names) + tail == tail;
    } else if |names| == 1 {
      ReadListName(names[0], SEMICOLON, more, fileEof);
      assert names == [names[0]] + [];
    } else {
      var others := ListText(names[1..]) + tail;
      ListTextHead(names);
      assert ListText(names) + tail == Literal(names[0]) + ([COMMA] + others);
      ReadListName(names[0], COMMA, others, fileEof);
      ReadListAtMark(COMMA, others, fileEof);
      ReadNames(names[1..], more, fileEof);
      assert names == [names[0]] + names[1..];
      assert AllStorable(names) <==> Storable(names[0]) && AllStorable(names[1..]);
    }
  }

  /** The list written after the word ENUM is read back as it was, exactly when each name can be stored; the
      reader then stands right after the semicolon. */
  lemma ListRoundTrip(names: seq<Name>, more: seq<uint8>, fileEof: bool)
    requires CStrings(names)
    ensures var l := ReadList(BLANKS + ListText(names) + TAIL + more, fileEof);
            && (l.names == names <==> AllStorable(names))
            && (AllStorable(names) ==>
                  l.stop == Punctuation(Signed(SEMICOLON)) && l.rest == [NEWLINE] + more)
  {
    hide AllStorable, ListText, Decode;
    var input := ListText(names) + ([SEMICOLON] + ([NEWLINE] + more));
    ReadNames(names, [NEWLINE] + more, fileEof);
    SkipBlank(32, input);
    SkipBlank(32, [32] + input);
    assert BLANKS + ListText(names) + TAIL + more == [32] + ([32] + input);
    assert LexFrom([32] + ([32] + input), fileEof) == LexFrom(input, fileEof);
  }

  // ---- what may stand between the names ---------------------------------------------------

  /** Blank space and punctuation, but neither quote nor semicolon nor what starts a comment, a word or a number. */
  predicate GapByte(b: uint8) {
    BlankByte(b) || (32 < b < 128 && b != 34 && b != 59 && !StartsOther(b))
  }

  predicate SameList(a: Listing, b: Listing) {
    a.names == b.names && a.stop == b.stop && a.rest == b.rest && a.fileEof == b.fileEof
  }

  /** Blanks, line ends, commas and other punctuation before a name or the semicolon make no difference. */
  lemma {:induction false} GapSkipped(gap: seq<uint8>, next: seq<uint8>, fileEof: bool)
    requires forall i :: 0 <= i < |gap| ==> GapByte(gap[i])
    requires next != [] && next[0] in {34, 59}
    ensures SameList(ReadList(gap + next, fileEof), ReadList(next, fileEof))
    decreases |gap|
  {
    hide LexFrom;
    var k := BlanksBefore(gap);
    var w := gap[..k];
    if k == |gap| {
      assert gap + next == w + ([next[0]] + next[1..]);
      BlanksThen(w, next[0], next[1..], fileEof);
      assert [next[0]] + next[1..] == next;
    } else {
      var b, rest := gap[k], gap[k + 1..] + next;
      assert gap + next == w + ([b] + rest);
      BlanksThen(w, b, rest, fileEof);
      GapSkipped(gap[k + 1..], next, fileEof);
      TokenAfterBlanks([], b, rest, fileEof);
      assert [] + ([b] + rest) == [b] + rest;
      assert ReadList([b] + rest, fileEof) == Prepend([], 0, ReadList(rest, fileEof));
    }
  }

  function BlanksBefore(gap: seq<uint8>): (k: nat)
    ensures k <= |gap| && (forall i :: 0 <= i < k ==> BlankByte(gap[i]))
    ensures k < |gap| ==> !BlankByte(gap[k])
  {
    if gap == [] || !BlankByte(gap[0]) then 0 else 1 + BlanksBefore(gap[1..])
  }

  lemma BlanksThen(w: seq<uint8>, b: uint8, rest: seq<uint8>, fileEof: bool)
    requires (forall i :: 0 <= i < |w| ==> BlankByte(w[i])) && 32 < b < 128
    ensures SameList(ReadList(w + ([b] + rest), fileEof), ReadList([b] + rest, fileEof))
  {
    hide LexFrom, ReadList, Prepend, TokenText, Decode;
    var input, next := w + ([b] + rest), [b] + rest;
    TokenAfterBlanks(w, b, rest, fileEof);
    TokenAfterBlanks([], b, rest, fileEof);
    assert [] + next == next;
    if NewlinesIn(w) > 0 {
      LineSkipped(input, next, fileEof);
    } else {
      SameTokenSameList(input, next, fileEof);
    }
  }

  lemma LineSkipped(input: seq<uint8>, next: seq<uint8>, fileEof: bool)
    requires var x := LexFrom(input, fileEof); x.token == EndOfLine && x.rest == next && x.fileEof == fileEof
    ensures SameList(ReadList(input, fileEof), ReadList(next, fileEof))
  {
    hide LexFrom;
    assert [] + ReadList(next, fileEof).names == ReadList(next, fileEof).names;
  }

  lemma SameTokenSameList(input: seq<uint8>, next: seq<uint8>, fileEof: bool)
    requires LexFrom(input, fileEof) == LexFrom(next, fileEof)
    ensures ReadList(input, fileEof) == ReadList(next, fileEof)
  {
    hide LexFrom;
  }
}
