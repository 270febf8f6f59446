/** Which strings come back unchanged when a printed string is read again. */
module DbcStringTheorems {
  import opened Bits
  import opened Wrappers
  import opened DbcString

  /** The first byte of s neither is a control character that cannot be escaped nor, as a backslash, changes
      the meaning of what is printed after it. */
  predicate KeepsFirst(s: seq<uint8>)
    requires s != []
  {
    && (s[0] >= 32 || s[0] in {NEWLINE, TAB, RETURN})
    && (s[0] == BACKSLASH ==> |s| > 1 && s[1] !in {LETTER_N, LETTER_T, LETTER_R, EOF_BYTE})
  }

  predicate Survives(s: seq<uint8>) {
    forall i :: 0 <= i < |s| ==> KeepsFirst(s[i..])
  }

  function LineEnds(s: seq<uint8>): nat {
    if s == [] then 0 else LineEnd(s[0]) + LineEnds(s[1..])
  }

  /** The input after an opening quote: the printed body of s, the closing quote, and what follows. */
  function Quoted(s: seq<uint8>, rest: seq<uint8>): (input: seq<uint8>)
    ensures input != []
  {
    Body(s) + [QUOTE] + rest
  }

  lemma SurvivesTail(s: seq<uint8>)
    requires s != []
    ensures Survives(s) <==> KeepsFirst(s) && Survives(s[1..])
  {
    assert s[0..] == s;
    assert forall i :: 0 < i <= |s| ==> s[i..] == s[1..][i - 1..];
    assert forall i :: 0 <= i < |s| ==> s[1..][i..] == s[i + 1..];
  }

  lemma QuotedStep(s: seq<uint8>, rest: seq<uint8>)
    requires s != []
    ensures Quoted(s, rest) == Printed(s[0]) + Quoted(s[1..], rest)
  {}

  /** The first byte of the printed form of a string. */
  function FirstPrinted(s: seq<uint8>): uint8 {
    if s == [] then QUOTE
    else if s[0] in {NEWLINE} || (s[0] >= 32 && s[0] != QUOTE) then s[0]
    else BACKSLASH
  }

  lemma QuotedFirst(s: seq<uint8>, rest: seq<uint8>)
    ensures Quoted(s, rest)[0] == FirstPrinted(s)
  {}

  lemma ReadFirst(s: seq<uint8>, rest: seq<uint8>)
    requires s != [] && KeepsFirst(s)
    ensures Decode(Quoted(s, rest)) == Before(s[0], Decode(Quoted(s[1..], rest)))
  {
    hide Quoted;
    var input, more := Quoted(s, rest), Quoted(s[1..], rest);
    QuotedStep(s, rest);
    QuotedFirst(s[1..], rest);
    if s[0] == BACKSLASH {
      assert input[1..] == more;
    } else if |Printed(s[0])| == 1 {
      assert input[1..] == more;
    } else {
      assert input[2..] == more;
    }
  }

  lemma {:induction false} ReadBack(s: seq<uint8>, rest: seq<uint8>)
    requires Survives(s) && !StartsWith(QUOTE, rest)
    ensures Decode(Quoted(s, rest)) == Closed(s, LookedAhead(rest), LineEnds(s))
  {
    if s == [] {
      assert Quoted(s, rest)[1..] == rest;
    } else {
      SurvivesTail(s);
      ReadFirst(s, rest);
      ReadBack(s[1..], rest);
    }
  }

  /** A quote right after the closing one: the two are read as one, and reading goes on. */
  lemma {:induction false} ReadOn(s: seq<uint8>, rest: seq<uint8>)
    requires Survives(s) && StartsWith(QUOTE, rest)
    ensures var r := Decode(Quoted(s, rest)); r.Closed? ==> |r.rest| < |rest|
  {
    if s == [] {
      assert Quoted(s, rest)[1..] == rest;
    } else {
      SurvivesTail(s);
      ReadFirst(s, rest);
      ReadOn(s[1..], rest);
    }
  }

  /** Where a byte 255 was lost, what is read cannot make up for it. */
  lemma {:induction false} LostByte(s: seq<uint8>, rest: seq<uint8>)
    ensures var r := Decode(Quoted(s, rest)); r.Closed? ==> !([EOF_BYTE] + s <= r.text)
  {
    var r := Decode(Quoted(s, rest));
    if s != [] && s[0] == EOF_BYTE {
      ReadFirst(s, rest);
      LostByte(s[1..], rest);
      var more := Decode(Quoted(s[1..], rest));
      if r.Closed? { PrefixTail(EOF_BYTE, [EOF_BYTE] + s[1..], more.text); }
    } else if r.Closed? && r.text != [] {
      NotEofByte(s, rest);
    }
  }

  lemma PrefixTail(b: uint8, s: seq<uint8>, t: seq<uint8>)
    ensures [b] + s <= [b] + t <==> s <= t
  {
    assert ([b] + s)[1..] == s && ([b] + t)[1..] == t;
  }

  lemma NotEofByte(s: seq<uint8>, rest: seq<uint8>)
    requires s != [] ==> s[0] != EOF_BYTE
    ensures var r := Decode(Quoted(s, rest)); r.Closed? && r.text != [] ==> r.text[0] != EOF_BYTE
  {
    hide Quoted;
    QuotedFirst(s, rest);
  }

  lemma DamagedFirst(s: seq<uint8>, rest: seq<uint8>)
    requires s != [] && !KeepsFirst(s)
    ensures var r := Decode(Quoted(s, rest)); r.Closed? ==> !(s <= r.text)
  {
    hide Quoted;
    var input := Quoted(s, rest);
    QuotedStep(s, rest);
    QuotedFirst(s[1..], rest);
    if s[0] == BACKSLASH {
      assert input[1..] == Quoted(s[1..], rest);
      if |s| > 1 && s[1] == EOF_BYTE {
        QuotedStep(s[1..], rest);
        assert s[1..][1..] == s[2..];
        assert LookedAhead(input[1..]) == Quoted(s[2..], rest);
        LostByte(s[2..], rest);
        assert s[1..] == [EOF_BYTE] + s[2..];
      }
    }
  }

  lemma {:induction false} Damaged(s: seq<uint8>, rest: seq<uint8>)
    requires !Survives(s)
    ensures var r := Decode(Quoted(s, rest)); r.Closed? ==> !(s <= r.text)
  {
    hide Decode, Quoted, KeepsFirst;
    SurvivesTail(s);
    if KeepsFirst(s) {
      ReadFirst(s, rest);
      Damaged(s[1..], rest);
      var more := Decode(Quoted(s[1..], rest));
      if more.Closed? { PrefixTail(s[0], s[1..], more.text); }
    } else {
      DamagedFirst(s, rest);
    }
  }

  /** Printing a string and reading it back gives that string and the file after it, exactly when the string
      is one that survives, fits the buffer, and is not followed by another quote. */
  lemma RoundTrip(s: seq<uint8>, rest: seq<uint8>)
    requires 0 !in s
    ensures var r := Decode(Quoted(s, rest));
            TokenText(r) == Some(s) && RestOf(r) == LookedAhead(rest)
            <==> Survives(s) && |s| <= 999 && (rest == [] || rest[0] != 34)
  {
    hide Decode, Quoted, Survives;
    if !Survives(s) {
      Damaged(s, rest);
    } else if StartsWith(QUOTE, rest) {
      ReadOn(s, rest);
    } else {
      ReadBack(s, rest);
    }
  }

  /** Before anything but a quote, the text alone tells whether the string survived. */
  lemma TextSurvives(s: seq<uint8>, rest: seq<uint8>)
    requires 0 !in s && !StartsWith(QUOTE, rest)
    ensures TokenText(Decode(Quoted(s, rest))) == Some(s) <==> Survives(s) && |s| <= 999
  {
    hide Decode, Quoted, Survives;
    if !Survives(s) {
      Damaged(s, rest);
    } else {
      ReadBack(s, rest);
    }
  }

  /** Reading a longer string that would survive cuts it to the buffer, and still stops after the quote. */
  lemma LongStringCut(s: seq<uint8>, rest: seq<uint8>)
    requires 0 !in s && Survives(s) && |s| > 999 && !StartsWith(QUOTE, rest)
    ensures var r := Decode(Quoted(s, rest));
            TokenText(r) == Some(s[..999]) && RestOf(r) == LookedAhead(rest) && r.lines == LineEnds(s)
  {
    hide Decode, Quoted, Survives;
    ReadBack(s, rest);
  }

  /** A backslash before byte 255 comes back alone. */
  lemma ByteAfterBackslashIsLost(rest: seq<uint8>)
    requires !StartsWith(QUOTE, rest)
    ensures TokenText(Decode(Quoted([BACKSLASH, EOF_BYTE], rest))) == Some([BACKSLASH])
  {
    hide Quoted;
    var s := [BACKSLASH, EOF_BYTE];
    var input := Quoted(s, rest);
    QuotedStep(s, rest);
    QuotedStep(s[1..], rest);
    assert s[1..] == [EOF_BYTE] && s[1..][1..] == [];
    assert LookedAhead(input[1..]) == Quoted([], rest);
    ReadBack([], rest);
  }
}
