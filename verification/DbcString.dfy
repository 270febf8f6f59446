/** Quoted strings of DBC files: the printer, the reader, and which strings come back unchanged. */
module DbcString {
  import opened Bits
  import opened Wrappers

  const MAX_STRING := 1000

  const QUOTE: uint8 := 34
  const BACKSLASH: uint8 := 92
  const NEWLINE: uint8 := 10
  const TAB: uint8 := 9
  const RETURN: uint8 := 13
  const LETTER_N: uint8 := 110
  const LETTER_R: uint8 := 114
  const LETTER_T: uint8 := 116
  const LETTER_X: uint8 := 120

  /** The byte that a signed `char` cannot tell from the end of the file. */
  const EOF_BYTE: uint8 := 255

  type schar = c: int | -128 <= c < 128

  const EOF: schar := -1

  function Signed(b: uint8): schar {
    if b < 128 then b else b - 256
  }

  function Unsigned(c: schar): (b: uint8)
    ensures Signed(b) == c
  {
    if c < 0 then c + 256 else c
  }

  // ---- printing ------------------------------------------------------------------------

  function HexDigit(d: nat): uint8
    requires d < 16
  {
    if d < 10 then 48 + d else 87 + d
  }

  function Printed(b: uint8): seq<uint8> {
    if b == NEWLINE then [NEWLINE]
    else if b == TAB then [BACKSLASH, LETTER_T]
    else if b == RETURN then [BACKSLASH, LETTER_R]
    else if b == QUOTE then [BACKSLASH, QUOTE]
    else if b >= 32 then [b]
    else [BACKSLASH, LETTER_X, HexDigit(b / 16), HexDigit(b % 16)]
  }

  function Body(s: seq<uint8>): seq<uint8> {
    if s == [] then [] else Printed(s[0]) + Body(s[1..])
  }

  function Literal(s: seq<uint8>): seq<uint8> {
    [QUOTE] + Body(s) + [QUOTE]
  }

  /** What a C string holds: the bytes before the first NUL. */
  function UpToNul(s: seq<uint8>): (t: seq<uint8>)
    ensures |t| <= |s| && t == s[..|t|] && 0 !in t
    ensures |t| < |s| ==> s[|t|] == 0
    ensures 0 !in s ==> t == s
  {
    if s == [] || s[0] == 0 then [] else [s[0]] + UpToNul(s[1..])
  }

  lemma {:induction false} BodyAppend(s: seq<uint8>, b: uint8)
    ensures Body(s + [b]) == Body(s) + Printed(b)
  {
    if s == [] {
      assert [b][1..] == [];
    } else {
      assert (s + [b])[1..] == s[1..] + [b];
      BodyAppend(s[1..], b);
    }
  }

  class Writer {
    var out: seq<uint8>

    constructor ()
      ensures out == []
    {
      out := [];
    }

    method Put(text: seq<uint8>)
      modifies this
      ensures out == old(out) + text
    {
      out := out + text;
    }

    method PrintChar(b: uint8)
      modifies this
      ensures out == old(out) + Printed(b)
    {
      if b == NEWLINE { Put([b]); }
      else if b == TAB { Put([BACKSLASH, LETTER_T]); }
      else if b == RETURN { Put([BACKSLASH, LETTER_R]); }
      else if b == QUOTE { Put([BACKSLASH, QUOTE]); }
      else if b >= 32 { Put([b]); }
      else { Put([BACKSLASH, LETTER_X, HexDigit(b / 16), HexDigit(b % 16)]); }
    }

    method PrintString(str: Option<seq<uint8>>)
      modifies this
      ensures out == old(out) + Literal(if str.Some? then UpToNul(str.value) else [])
    {
      hide Printed, Body, UpToNul;
      Put([QUOTE]);
      ghost var done: seq<uint8> := [];
      BodyOfNothing();
      if str.Some? {
        var s, i := str.value, 0;
        while i < |s| && s[i] != 0
          invariant i <= |s| && done == s[..i] && 0 !in done
          invariant out == old(out) + [QUOTE] + Body(done)
        {
          PrintChar(s[i]);
          BodyAppend(done, s[i]);
          done, i := done + [s[i]], i + 1;
        }
        UpToNulIs(s, i);
      }
      Put([QUOTE]);
    }
  }

  lemma BodyOfNothing()
    ensures Body([]) == []
  {}

  lemma {:induction false} UpToNulIs(s: seq<uint8>, i: nat)
    requires i <= |s| && 0 !in s[..i] && (i < |s| ==> s[i] == 0)
    ensures UpToNul(s) == s[..i]
    decreases i
  {
    if i > 0 {
      assert s[0] == s[..i][0] && s[..i][1..] == s[1..][..i - 1];
      UpToNulIs(s[1..], i - 1);
    }
  }

  // ---- reading -------------------------------------------------------------------------

  /** What follows an opening quote: the text up to the closing one, what is left of the file after it,
      and the line ends passed. */
  datatype Reading = Closed(text: seq<uint8>, rest: seq<uint8>, lines: nat) | Unclosed(lines: nat)

  function Escaped(b: uint8): Option<uint8> {
    if b == LETTER_N then Some(NEWLINE)
    else if b == LETTER_T then Some(TAB)
    else if b == LETTER_R then Some(RETURN)
    else if b == QUOTE then Some(QUOTE)
    else None
  }

  /** Looking one byte ahead loses the byte that reads as the end of the file. */
  function LookedAhead(input: seq<uint8>): (rest: seq<uint8>)
    ensures |rest| <= |input|
  {
    if input != [] && input[0] == EOF_BYTE then input[1..] else input
  }

  function Before(b: uint8, r: Reading): Reading {
    if r.Closed? then r.(text := [b] + r.text, lines := r.lines + LineEnd(b)) else Unclosed(r.lines + LineEnd(b))
  }

  function LineEnd(b: uint8): nat {
    if b == NEWLINE then 1 else 0
  }

  function Decode(input: seq<uint8>): (r: Reading)
    ensures r.Closed? ==> |r.rest| < |input|
    decreases |input|
  {
    if input == [] then Unclosed(0)
    else if input[0] == QUOTE then
      if |input| > 1 && input[1] == QUOTE then Before(QUOTE, Decode(input[2..]))
      else Closed([], LookedAhead(input[1..]), 0)
    else if input[0] == BACKSLASH then
      if |input| > 1 && Escaped(input[1]).Some? then Escape(Escaped(input[1]).value, Decode(input[2..]))
      else Before(BACKSLASH, Decode(LookedAhead(input[1..])))
    else Before(input[0], Decode(input[1..]))
  }

  /** An escape sequence is one byte of text and no line end. */
  function Escape(b: uint8, r: Reading): Reading {
    if r.Closed? then r.(text := [b] + r.text) else r
  }

  /** The token the reader returns: the buffer holds MAX_STRING - 1 bytes, and a C string ends at a NUL. */
  function TokenText(r: Reading): (t: Option<seq<uint8>>)
    ensures t.Some? ==> r.Closed? && |t.value| < MAX_STRING && t.value <= r.text
  {
    if r.Unclosed? then None
    else Some(UpToNul(if |r.text| < MAX_STRING then r.text else r.text[..MAX_STRING - 1]))
  }

  function RestOf(r: Reading): seq<uint8> {
    if r.Closed? then r.rest else []
  }

  function Prepend(text: seq<uint8>, lines: nat, r: Reading): Reading {
    if r.Closed? then r.(text := text + r.text, lines := lines + r.lines) else Unclosed(lines + r.lines)
  }

  // ---- tokens --------------------------------------------------------------------------

  const SPACE := 32

  /** `Other` stands for a comment, a word or a number; the text of those is not part of this model. */
  datatype Token = EndOfFile | EndOfLine | Text(text: seq<uint8>) | Malformed | Punctuation(c: schar) | Other

  datatype Skipped = Skipped(c: schar, rest: seq<uint8>, lines: nat)

  /** The first character that is not blank. Bytes from 128 up are negative as characters, hence blank, except
      for the one that ends the file. */
  function Skip(input: seq<uint8>): (k: Skipped)
    ensures k.c == EOF || (k.c > SPACE && |k.rest| < |input|)
    ensures |k.rest| <= |input|
    ensures k.lines > 0 ==> |k.rest| + 1 < |input| || k.c == EOF
    decreases |input|
  {
    if input == [] then Skipped(EOF, [], 0)
    else
      var c := Signed(input[0]);
      if c == EOF || c > SPACE then Skipped(c, input[1..], 0)
      else
        var k := Skip(input[1..]);
        k.(lines := k.lines + LineEnd(input[0]))
  }

  /** Characters that start a comment, a word or a number. */
  predicate OtherStart(c: schar) {
    c == 47 || c == 95 || 65 <= c <= 90 || 97 <= c <= 122 || 48 <= c <= 57 || c in {43, 45, 46}
  }

  datatype Lexed = Lexed(token: Token, rest: seq<uint8>, lines: nat, fileEof: bool)

  function LexFrom(input: seq<uint8>, fileEof: bool): (x: Lexed)
    ensures x.token.EndOfFile? || |x.rest| < |input| || (|x.rest| <= |input| && x.fileEof && !fileEof)
    ensures fileEof ==> x.fileEof
  {
    var k := Skip(input);
    if k.c == EOF then Lexed(if fileEof then EndOfFile else EndOfLine, k.rest, k.lines, true)
    else if k.lines > 0 then Lexed(EndOfLine, [Unsigned(k.c)] + k.rest, k.lines, fileEof)
    else if OtherStart(k.c) then Lexed(Other, k.rest, 0, fileEof)
    else if k.c == Signed(QUOTE) then
      var r := Decode(k.rest);
      Lexed(if TokenText(r).Some? then Text(TokenText(r).value) else Malformed, RestOf(r), r.lines, fileEof)
    else Lexed(Punctuation(k.c), k.rest, 0, fileEof)
  }

  predicate StartsWith(b: uint8, input: seq<uint8>) {
    input != [] && input[0] == b
  }

  class Reader {
    var rest: seq<uint8>
    var feof: bool
    var lineno: nat
    var fileEof: bool
    const stringBuf: array<uint8>

    ghost predicate Valid()
      reads this
    {
      stringBuf.Length == MAX_STRING + 10 && (feof ==> rest == [])
    }

    constructor (input: seq<uint8>)
      ensures Valid() && rest == input && lineno == 0 && !fileEof && fresh(stringBuf)
    {
      stringBuf := new uint8[MAX_STRING + 10];
      rest, feof, lineno, fileEof := input, false, 0, false;
    }

    method Getc() returns (c: schar)
      requires Valid()
      modifies this`rest, this`feof
      ensures Valid() && feof == (old(rest) == [])
      ensures c == (if old(rest) == [] then EOF else Signed(old(rest)[0]))
      ensures rest == (if old(rest) == [] then [] else old(rest)[1..])
    {
      if rest == [] {
        feof, c := true, EOF;
      } else {
        feof, c, rest := false, Signed(rest[0]), rest[1..];
      }
    }

    method Ungetc(c: schar)
      requires Valid()
      modifies this`rest, this`feof
      ensures Valid()
      ensures c == EOF ==> rest == old(rest) && feof == old(feof)
      ensures c != EOF ==> rest == [Unsigned(c)] + old(rest) && !feof
    {
      if c != EOF { rest, feof := [Unsigned(c)] + rest, false; }
    }

    /** After a quote: is the string over, or was the quote doubled? */
    method ClosingQuote() returns (closed: bool)
      requires Valid()
      modifies this`rest, this`feof
      ensures Valid()
      ensures closed <==> !StartsWith(QUOTE, old(rest))
      ensures rest == if closed then LookedAhead(old(rest)) else old(rest)[1..]
    {
      var c := Getc();
      closed := c != Signed(QUOTE);
      if closed { Ungetc(c); }
    }

    /** After a backslash: the byte that the escape sequence stands for, or the backslash itself. */
    method ReadEscape() returns (b: uint8)
      requires Valid()
      modifies this`rest, this`feof
      ensures Valid()
      ensures var e := old(rest) != [] && Escaped(old(rest)[0]).Some?;
              b == (if e then Escaped(old(rest)[0]).value else BACKSLASH)
              && rest == if e then old(rest)[1..] else LookedAhead(old(rest))
    {
      var c := Getc();
      if c == Signed(LETTER_N) { b := NEWLINE; }
      else if c == Signed(LETTER_T) { b := TAB; }
      else if c == Signed(LETTER_R) { b := RETURN; }
      else if c == Signed(QUOTE) { b := QUOTE; }
      else {
        b := BACKSLASH;
        Ungetc(c);
      }
    }

    method ReadString(first: schar) returns (token: Option<seq<uint8>>)
      requires Valid()
      modifies this`rest, this`feof, this`lineno, stringBuf
      ensures Valid()
      ensures first != Signed(QUOTE) ==> token == None && rest == old(rest) && lineno == old(lineno)
      ensures first == Signed(QUOTE) ==>
                var r := Decode(old(rest));
                token == TokenText(r) && rest == RestOf(r) && lineno == old(lineno) + r.lines
    {
      hide Decode, Prepend, Escaped, LookedAhead, UpToNul;
      if first != Signed(QUOTE) { return None; }
      var i, abort := 0, false;
      ghost var text: seq<uint8> := [];
      ghost var lines: nat := 0;
      PrependNothing(Decode(rest));
      while !abort
        invariant Valid()
        invariant lineno == old(lineno) + lines
        invariant i == if |text| < MAX_STRING then |text| else MAX_STRING
        invariant abort ==> text != [] && Decode(old(rest)) == Closed(text[..|text| - 1], rest, lines)
        invariant !abort ==> Decode(old(rest)) == Prepend(text, lines, Decode(rest))
        invariant forall k :: 0 <= k < |text| && k < MAX_STRING - 1 ==> stringBuf[k] == text[k]
        decreases !abort, |rest|
      {
        ghost var was := rest;
        var c := Getc();
        if i < MAX_STRING { stringBuf[i] := Unsigned(c); i := i + 1; }
        if c == Signed(NEWLINE) { lineno := lineno + 1; }
        if c == Signed(QUOTE) {
          QuoteTurn(text, lines, was);
          abort := ClosingQuote();
          text := text + [QUOTE];
        } else if c == Signed(BACKSLASH) {
          BackslashTurn(text, lines, was);
          var b := ReadEscape();
          if b != BACKSLASH { stringBuf[i - 1] := b; }
          text := text + [b];
        } else if feof {
          EndTurn(text, lines);
          return None;
        } else {
          PlainTurn(text, lines, was);
          text, lines := text + [Unsigned(c)], lines + LineEnd(Unsigned(c));
        }
      }
      stringBuf[i - 1] := 0;
      ghost var t := text[..|text| - 1];
      assert stringBuf[..i - 1] == if |t| < MAX_STRING then t else t[..MAX_STRING - 1];
      token := Some(UpToNul(stringBuf[..i - 1]));
    }

    method SkipSpace() returns (c: schar)
      requires Valid()
      modifies this`rest, this`feof, this`lineno
      ensures Valid()
      ensures var k := Skip(old(rest)); c == k.c && rest == k.rest && lineno == old(lineno) + k.lines
    {
      ghost var lines: nat := 0;
      c := Getc();
      if c == Signed(NEWLINE) { lineno, lines := lineno + 1, 1; }
      while c != EOF && c <= SPACE
        invariant Valid() && lineno == old(lineno) + lines
        invariant var k := if c == EOF || c > SPACE then Skipped(c, rest, 0) else Skip(rest);
                  Skip(old(rest)) == k.(lines := lines + k.lines)
        decreases if c == EOF || c > SPACE then 0 else |rest| + 1
      {
        c := Getc();
        if c == Signed(NEWLINE) { lineno, lines := lineno + 1, lines + 1; }
      }
    }

    method Lex() returns (token: Token)
      requires Valid()
      modifies this`rest, this`feof, this`lineno, this`fileEof, stringBuf
      ensures Valid()
      ensures var x := LexFrom(old(rest), old(fileEof));
              token == x.token && rest == x.rest && lineno == old(lineno) + x.lines && fileEof == x.fileEof
    {
      hide Decode, UpToNul;
      var linenoSave := lineno;
      var c := SkipSpace();
      if c == EOF {
        if fileEof { return EndOfFile; }
        fileEof := true;
        return EndOfLine;
      }
      if lineno != linenoSave {
        Ungetc(c);
        return EndOfLine;
      }
      if OtherStart(c) { return Other; }
      if c == Signed(QUOTE) {
        var t := ReadString(c);
        return if t.Some? then Text(t.value) else Malformed;
      }
      return Punctuation(c);
    }
  }

  lemma PrependNothing(r: Reading)
    ensures Prepend([], 0, r) == r
  {}

  // One turn of the reading loop, by the first byte.

  lemma PlainTurn(text: seq<uint8>, n: nat, input: seq<uint8>)
    requires input != [] && input[0] != QUOTE && input[0] != BACKSLASH
    ensures Prepend(text, n, Decode(input)) == Prepend(text + [input[0]], n + LineEnd(input[0]), Decode(input[1..]))
  {
    hide Prepend, Before;
    PrependBefore(text, n, input[0], Decode(input[1..]));
  }

  lemma BackslashTurn(text: seq<uint8>, n: nat, input: seq<uint8>)
    requires StartsWith(BACKSLASH, input)
    ensures Prepend(text, n, Decode(input)) ==
            if |input| > 1 && Escaped(input[1]).Some? then
              Prepend(text + [Escaped(input[1]).value], n, Decode(input[1..][1..]))
            else Prepend(text + [BACKSLASH], n, Decode(LookedAhead(input[1..])))
  {
    hide Prepend, Before, Escaped, LookedAhead, Escape;
    if |input| > 1 && Escaped(input[1]).Some? {
      assert input[1..][1..] == input[2..];
      PrependEscape(text, n, Escaped(input[1]).value, Decode(input[2..]));
    } else {
      PrependBefore(text, n, BACKSLASH, Decode(LookedAhead(input[1..])));
    }
  }

  lemma QuoteTurn(text: seq<uint8>, n: nat, input: seq<uint8>)
    requires StartsWith(QUOTE, input)
    ensures Prepend(text, n, Decode(input)) ==
            if StartsWith(QUOTE, input[1..]) then Prepend(text + [QUOTE], n, Decode(input[1..][1..]))
            else Closed(text, LookedAhead(input[1..]), n)
  {
    hide Prepend, Before, LookedAhead;
    if StartsWith(QUOTE, input[1..]) {
      assert input[1..][1..] == input[2..];
      PrependBefore(text, n, QUOTE, Decode(input[2..]));
    } else {
      PrependClosed(text, n, LookedAhead(input[1..]));
    }
  }

  lemma EndTurn(text: seq<uint8>, n: nat)
    ensures Prepend(text, n, Decode([])) == Unclosed(n)
  {}

  lemma PrependBefore(text: seq<uint8>, n: nat, b: uint8, r: Reading)
    ensures Prepend(text, n, Before(b, r)) == Prepend(text + [b], n + LineEnd(b), r)
  {
    if r.Closed? { assert text + ([b] + r.text) == text + [b] + r.text; }
  }

  lemma PrependEscape(text: seq<uint8>, n: nat, b: uint8, r: Reading)
    ensures Prepend(text, n, Escape(b, r)) == Prepend(text + [b], n, r)
  {
    if r.Closed? { assert text + ([b] + r.text) == text + [b] + r.text; }
  }

  lemma PrependClosed(text: seq<uint8>, n: nat, rest: seq<uint8>)
    ensures Prepend(text, n, Closed([], rest, 0)) == Closed(text, rest, n)
  {}
}
