/** The quoted strings and the tokens of DBC files, byte by byte: every form that the reader knows, and what the
    printer writes. */
module DbcStringForms {
  import opened Bits
  import opened Wrappers
  import opened DbcString

  // ---- strings as they are read ----------------------------------------------------------

  /** A byte as it stands; a backslash and one of the letters n, t, r or a quote; a quote written twice; a backslash
      that escapes nothing, alone or before a byte 255, which is lost. */
  datatype Piece = Plain(b: uint8) | Escaped(letter: uint8) | TwoQuotes | Backslash(lost: bool)
  {
    predicate Valid() {
      match this
      case Plain(b) => b != 34 && b != 92
      case Escaped(letter) => letter == 110 || letter == 116 || letter == 114 || letter == 34
      case _ => true
    }

    function Text(): seq<uint8> {
      match this
      case Plain(b) => [b]
      case Escaped(letter) => [92, letter]
      case TwoQuotes => [34, 34]
      case Backslash(lost) => if lost then [92, 255] else [92]
    }

    function Value(): uint8 {
      match this
      case Plain(b) => b
      case Escaped(letter) => if letter == 110 then 10 else if letter == 116 then 9 else if letter == 114 then 13 else 34
      case TwoQuotes => 34
      case Backslash(_) => 92
    }
  }

  function Texts(ps: seq<Piece>): seq<uint8> {
    if ps == [] then [] else ps[0].Text() + Texts(ps[1..])
  }

  function Values(ps: seq<Piece>): seq<uint8> {
    if ps == [] then [] else [ps[0].Value()] + Values(ps[1..])
  }

  /** Line ends that stand in the text as such. */
  function LinesIn(ps: seq<Piece>): nat {
    if ps == [] then 0 else (if ps[0] == Plain(10) then 1 else 0) + LinesIn(ps[1..])
  }

  /** A backslash that escapes nothing stands before none of n, t, r, a quote and byte 255. */
  predicate Proper(ps: seq<Piece>, rest: seq<uint8>)
    decreases |ps|
  {
    ps == [] ||
    (&& ps[0].Valid()
     && Proper(ps[1..], rest)
     && (ps[0] == Backslash(false) ==>
           var next := Texts(ps[1..]) + rest;
           next == [] || next[0] !in {110, 116, 114, 34, 255}))
  }

  lemma TextsStep(ps: seq<Piece>, rest: seq<uint8>)
    requires ps != []
    ensures Texts(ps) + rest == ps[0].Text() + (Texts(ps[1..]) + rest)
  {
    assert ps[0].Text() + Texts(ps[1..]) + rest == ps[0].Text() + (Texts(ps[1..]) + rest);
  }

  /** One piece, whatever follows. */
  lemma PieceRead(p: Piece, next: seq<uint8>)
    requires p.Valid() && (p == Backslash(false) ==> next == [] || next[0] !in {110, 116, 114, 34, 255})
    ensures Decode(p.Text() + next) == Prepend([p.Value()], if p == Plain(10) then 1 else 0, Decode(next))
  {
    hide Decode, Prepend;
    var input := p.Text() + next;
    PrependNothing(Decode(input));
    assert [] + [p.Value()] == [p.Value()];
    match p
    case Plain(b) =>
      assert input[1..] == next;
      PlainTurn([], 0, input);
    case Escaped(letter) =>
      assert input[1..][1..] == next;
      BackslashTurn([], 0, input);
    case TwoQuotes =>
      assert input[1..][1..] == next;
      QuoteTurn([], 0, input);
    case Backslash(lost) =>
      if lost {
        assert input[1..] == [255] + next && ([255] + next)[1..] == next;
      } else {
        assert input[1..] == next;
      }
      assert LookedAhead(input[1..]) == next;
      BackslashTurn([], 0, input);
  }

  /** A string is read as the values of its pieces. After the closing quote a byte 255 is lost. */
  lemma {:induction false} PiecesRead(ps: seq<Piece>, rest: seq<uint8>)
    requires Proper(ps, [34] + rest) && (rest == [] || rest[0] != 34)
    ensures Decode(Texts(ps) + ([34] + rest)) ==
            Closed(Values(ps), if rest != [] && rest[0] == 255 then rest[1..] else rest, LinesIn(ps))
    decreases |ps|
  {
    if ps == [] {
      assert Texts(ps) + ([34] + rest) == [34] + rest && ([34] + rest)[1..] == rest;
    } else {
      hide Decode;
      TextsStep(ps, [34] + rest);
      PieceRead(ps[0], Texts(ps[1..]) + ([34] + rest));
      PiecesRead(ps[1..], rest);
    }
  }

  /** Without a closing quote there is no string. */
  lemma {:induction false} NotClosed(ps: seq<Piece>)
    requires Proper(ps, [])
    ensures Decode(Texts(ps)) == Unclosed(LinesIn(ps))
    decreases |ps|
  {
    if ps != [] {
      hide Decode;
      TextsStep(ps, []);
      assert Texts(ps) + [] == Texts(ps) && Texts(ps[1..]) + [] == Texts(ps[1..]);
      PieceRead(ps[0], Texts(ps[1..]));
      NotClosed(ps[1..]);
    }
  }

  /** A token ends before a NUL and holds 999 bytes at most. */
  lemma TokenIs(text: seq<uint8>, rest: seq<uint8>, lines: nat)
    ensures var t := TokenText(Closed(text, rest, lines));
            && t.Some? && t.value <= text && |t.value| <= 999 && 0 !in t.value
            && (|t.value| == |text| || |t.value| == 999 || text[|t.value|] == 0)
  {}

  // ---- strings as they are printed ---------------------------------------------------------

  const HEX_DIGITS: seq<uint8> := [48, 49, 50, 51, 52, 53, 54, 55, 56, 57, 97, 98, 99, 100, 101, 102]

  /** Bytes from 32 up but the quote, and newlines, are printed as they stand; tabulators, returns and quotes as
      escape sequences; other control characters as \x and two digits. */
  lemma PrintedForm(b: uint8)
    ensures (b >= 32 && b != 34) || b == 10 ==> Printed(b) == [b]
    ensures b == 9 ==> Printed(b) == [92, 116]
    ensures b == 13 ==> Printed(b) == [92, 114]
    ensures b == 34 ==> Printed(b) == [92, 34]
    ensures b < 32 && b !in {9, 10, 13} ==>
              |Printed(b)| == 4 && Printed(b)[..2] == [92, 120]
              && exists hi, lo :: 0 <= hi < 16 && 0 <= lo < 16 && 16 * hi + lo == b
                                  && Printed(b)[2] == HEX_DIGITS[hi] && Printed(b)[3] == HEX_DIGITS[lo]
  {
    if b < 32 && b !in {9, 10, 13} {
      DigitIs(b / 16);
      DigitIs(b % 16);
    }
  }

  lemma DigitIs(d: nat)
    requires d < 16
    ensures HexDigit(d) == HEX_DIGITS[d]
  {}

  // ---- tokens ------------------------------------------------------------------------------

  /** Up to 32, or from 128 to 254, where a signed character is negative. */
  predicate BlankByte(b: uint8) {
    b <= 32 || 128 <= b < 255
  }

  function NewlinesIn(w: seq<uint8>): nat {
    if w == [] then 0 else (if w[0] == 10 then 1 else 0) + NewlinesIn(w[1..])
  }

  /** What ends blank space: nothing more, a byte 255, or a visible character. */
  lemma {:induction false} BlanksSkipped(w: seq<uint8>, next: seq<uint8>)
    requires forall i :: 0 <= i < |w| ==> BlankByte(w[i])
    requires next == [] || !BlankByte(next[0])
    ensures Skip(w + next) ==
            if next == [] then Skipped(-1, [], NewlinesIn(w))
            else Skipped(if next[0] == 255 then -1 else next[0], next[1..], NewlinesIn(w))
    decreases |w|
  {
    var input := w + next;
    if w == [] {
      assert input == next;
    } else {
      assert input[1..] == w[1..] + next;
      BlanksSkipped(w[1..], next);
    }
  }

  predicate StartsOther(b: uint8) {
    65 <= b <= 90 || 97 <= b <= 122 || 48 <= b <= 57 || b in {95, 47, 43, 45, 46}
  }

  /** The next token after blank space, by the first visible byte b: after a line end in the blanks it is left for
      the next call. */
  lemma TokenAfterBlanks(w: seq<uint8>, b: uint8, rest: seq<uint8>, fileEof: bool)
    requires (forall i :: 0 <= i < |w| ==> BlankByte(w[i])) && 32 < b < 128
    ensures var x, n, r := LexFrom(w + ([b] + rest), fileEof), NewlinesIn(w), Decode(rest);
            if n > 0 then x == Lexed(EndOfLine, [b] + rest, n, fileEof)
            else if b == 34 then
              x == Lexed(if TokenText(r).Some? then Text(TokenText(r).value) else Malformed, RestOf(r), r.lines, fileEof)
            else if StartsOther(b) then x == Lexed(Other, rest, 0, fileEof)
            else x == Lexed(Punctuation(b), rest, 0, fileEof)
  {
    BlanksSkipped(w, [b] + rest);
    hide Skip, Decode, TokenText;
  }

  /** At the end of the file, or at a byte 255: first a line end, then the end. */
  lemma TokenAtEnd(w: seq<uint8>, rest: seq<uint8>, fileEof: bool)
    requires forall i :: 0 <= i < |w| ==> BlankByte(w[i])
    ensures LexFrom(w, fileEof) == Lexed(if fileEof then EndOfFile else EndOfLine, [], NewlinesIn(w), true)
    ensures LexFrom(w + ([255] + rest), fileEof) ==
            Lexed(if fileEof then EndOfFile else EndOfLine, rest, NewlinesIn(w), true)
  {
    BlanksSkipped(w, []);
    BlanksSkipped(w, [255] + rest);
    assert w + [] == w && ([255] + rest)[1..] == rest;
    hide Skip, Decode;
  }
}
