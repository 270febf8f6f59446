/** The texts and bytes of trigger expressions, character by character. */
module PostfixForms {
  import opened Bits
  import opened Wrappers
  import opened InfixPrinter
  import opened PostfixCompiler
  import PostfixTheorems

  // ---- device code and its text ------------------------------------------------------------

  /** 101 is printed as AND and 102 as OR, between parentheses; every other byte but 100 is a variable. */
  lemma PrintedForm(l: Expr, r: Expr, v: uint8)
    ensures Variable(v).Valid() <==> v !in {100, 101, 102}
    ensures Node(v, l, r).Valid() <==> v in {101, 102} && l.Valid() && r.Valid()
    ensures Node(101, l, r).Infix(" AND ", " OR ") ==
            "(" + l.Infix(" AND ", " OR ") + " AND " + r.Infix(" AND ", " OR ") + ")"
    ensures Node(102, l, r).Infix(" AND ", " OR ") ==
            "(" + l.Infix(" AND ", " OR ") + " OR " + r.Infix(" AND ", " OR ") + ")"
  {}

  /** Code ends at the first 100. */
  lemma CodeEnds(code: seq<uint8>, more: seq<uint8>)
    requires 100 !in code
    ensures Code(code + [100] + more) == code
  {
    PostfixTheorems.CodeStops(code, more);
  }

  /** A number is printed in digits, without leading zeros. */
  lemma DecimalForm(n: nat)
    ensures var s := Decimal(n);
            && s != "" && (forall i :: 0 <= i < |s| ==> s[i] in "0123456789")
            && (s[0] == '0' ==> n == 0 && s == "0") && Atoi(s) == n
  {
    PostfixTheorems.AtoiDecimal(n);
    var s := Decimal(n);
    forall i | 0 <= i < |s| ensures s[i] in "0123456789" { DigitChar(s[i]); }
  }

  lemma DigitChar(c: char)
    ensures '0' <= c <= '9' <==> c in "0123456789"
  {
    if '0' <= c <= '9' { assert "0123456789"[(c - '0') as int] == c; }
  }

  // ---- cleaning ----------------------------------------------------------------------------

  const SPACES: string := [32 as char, 9 as char, 10 as char, 11 as char, 12 as char, 13 as char]

  lemma CleanedChar(c: char)
    ensures CleanChar(c) == if c in SPACES || c in "\"()" then "" else [c]
    ensures NoSpaceChar(c) == if c in SPACES then "" else [c]
  {}

  /** White space, quotes and parentheses are dropped wherever they stand, and nothing else. */
  lemma Dropped(a: string, c: char, b: string)
    ensures c in SPACES || c in "\"()" ==> Clean(a + [c] + b) == Clean(a + b)
    ensures !(c in SPACES || c in "\"()") ==> Clean(a + [c] + b) == Clean(a) + [c] + Clean(b)
    ensures c in SPACES ==> NoSpace(a + [c] + b) == NoSpace(a + b)
    ensures c !in SPACES ==> NoSpace(a + [c] + b) == NoSpace(a) + [c] + NoSpace(b)
    ensures Clean("") == NoSpace("") == ""
  {
    CleanSplit(a + [c], b);
    CleanSplit(a, [c]);
    CleanSplit(a, b);
    NoSpaceSplit(a + [c], b);
    NoSpaceSplit(a, [c]);
    NoSpaceSplit(a, b);
    CleanedChar(c);
    OneChar(c);
    hide Clean, NoSpace, CleanChar, NoSpaceChar;
    assert Clean(a) + "" == Clean(a) && NoSpace(a) + "" == NoSpace(a);
  }

  lemma OneChar(c: char)
    ensures Clean([c]) == CleanChar(c) && NoSpace([c]) == NoSpaceChar(c) && Clean("") == NoSpace("") == ""
  {
    hide CleanChar, NoSpaceChar;
    assert [c][1..] == "";
    assert CleanChar(c) + "" == CleanChar(c) && NoSpaceChar(c) + "" == NoSpaceChar(c);
  }

  // ---- words and numbers ---------------------------------------------------------------------

  /** The twelve spellings that are never looked up. */
  lemma OperatorSpellings(s: string)
    ensures IsOp(s) <==>
            s in {"AND", "ANd", "AnD", "And", "aND", "aNd", "anD", "and"} || s in {"OR", "Or", "oR", "or"}
  {
    var u := seq(|s|, i requires 0 <= i < |s| => Upper(s[i]));
    if |s| == 3 {
      assert s == [s[0], s[1], s[2]];
      assert u == [Upper(s[0]), Upper(s[1]), Upper(s[2])];
    } else if |s| == 2 {
      assert s == [s[0], s[1]];
      assert u == [Upper(s[0]), Upper(s[1])];
    } else {
      assert |u| == |s|;
    }
  }

  /** The bytes of the four exact spellings; other items are read as numbers, and those from 32 up have no code. */
  lemma ItemForm(item: string)
    ensures ItemCode("AND") == ItemCode("and") == 101 && ItemCode("OR") == ItemCode("or") == 102
    ensures item !in {"AND", "and", "OR", "or"} ==> ItemCode(item) == if Atoi(item) < 32 then Atoi(item) % 256 else 100
  {}

  /** A number is read up to the first character that is no digit; a sign may stand before it. */
  lemma NumberRead(n: nat, rest: string)
    requires rest == "" || rest[0] !in "0123456789"
    ensures Atoi(Decimal(n) + rest) == Atoi("+" + (Decimal(n) + rest)) == n
    ensures Atoi("-" + (Decimal(n) + rest)) == -(n as int)
  {
    var s := Decimal(n) + rest;
    DigitsStop(Decimal(n), rest);
    PostfixTheorems.DecimalValue(n);
    assert s[..DigitsEnd(s)] == Decimal(n);
    assert ("+" + s)[1..] == s && ("-" + s)[1..] == s;
    hide Decimal, DigitsEnd, DigitsValue;
    assert s[0] == Decimal(n)[0];
  }

  lemma {:induction false} DigitsStop(digits: string, rest: string)
    requires forall i :: 0 <= i < |digits| ==> '0' <= digits[i] <= '9'
    requires rest == "" || rest[0] !in "0123456789"
    ensures DigitsEnd(digits + rest) == |digits|
    decreases |digits|
  {
    var s := digits + rest;
    if digits != "" {
      assert s[1..] == digits[1..] + rest;
      DigitsStop(digits[1..], rest);
    } else if rest != "" {
      assert s[0] == rest[0];
      DigitChar(rest[0]);
    }
  }

  /** The first item that is neither an operator nor the name of a trigger is reported. */
  lemma {:induction false} FirstUndefined(items: seq<string>, names: seq<string>, i: nat)
    requires i < |items| && Number(items[i], names).None?
    requires forall k :: 0 <= k < i ==> Number(items[k], names).Some?
    ensures Numbered(items, names) == Undefined(items[i])
    decreases |items|
  {
    hide Number;
    var n := |items| - 1;
    if i < n {
      FirstUndefined(items[..n], names, i);
    } else {
      PostfixTheorems.NumberedItems(items[..n], names);
    }
  }

  /** The array is overrun from 32 items on. */
  lemma OverrunExactly(text: string)
    ensures PostfixCode(text) == Overrun <==> text != "" && |Items(NoSpace(text))| >= 32
  {
    hide Items, NoSpace, Code, Balance;
  }
}
