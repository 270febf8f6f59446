/** From the postfix text of a trigger expression to the code that the device stores: trigger names are replaced
    by their numbers, and the items of the list by one byte each. */
module PostfixCompiler {
  import opened Bits
  import opened Wrappers
  import opened ExprGrammar
  import opened ExprParser
  import opened InfixPrinter
  import opened OperatorWords

  const MAX_EXPR_LEN := 32
  const MAX_NR_OF_TRIGVARS := 32

  // ---- the token tree ------------------------------------------------------------------------

  method WalkTokens(exprToken: Token?, postfix: string) returns (r: string)
    requires Built(exprToken)
    ensures r == WalkExpression(TreeOf(exprToken), postfix)
    decreases Nodes(exprToken)
  {
    r := postfix;
    if exprToken == null { return; }
    if exprToken.kind == T_OP_AND {
      r := WalkTokens(exprToken.left, r);
      r := WalkTokens(exprToken.right, r);
      r := r + ",AND";
    } else if exprToken.kind == T_OP_OR {
      r := WalkTokens(exprToken.left, r);
      r := WalkTokens(exprToken.right, r);
      r := r + ",OR";
    } else if exprToken.kind == T_ID {
      if r != "" { r := r + ","; }
      r := r + exprToken.name;
    }
  }

  // ---- lists in text ---------------------------------------------------------------------

  lemma Associative<T>(a: seq<T>, b: seq<T>, c: seq<T>)
    ensures a + (b + c) == a + b + c
  {}

  function PieceEnd(s: string): (e: nat)
    ensures e <= |s| && ',' !in s[..e] && (e < |s| ==> s[e] == ',')
  {
    if s == "" || s[0] == ',' then 0 else 1 + PieceEnd(s[1..])
  }

  /** The pieces of a text between commas, without the empty ones. */
  function Items(s: string): (items: seq<string>)
    decreases |s|
  {
    if s == "" then []
    else if s[0] == ',' then Items(s[1..])
    else [s[..PieceEnd(s)]] + Items(s[PieceEnd(s)..])
  }

  lemma {:induction false} PieceEndIs(s: string, e: nat)
    requires e <= |s| && ',' !in s[..e] && (e < |s| ==> s[e] == ',')
    ensures PieceEnd(s) == e
    decreases |s|
  {
    if e > 0 {
      assert s[0] == s[..e][0] && s[1..][..e - 1] == s[..e][1..];
      PieceEndIs(s[1..], e - 1);
    }
  }

  lemma ItemsPiece(s: string, e: nat)
    requires 0 < e <= |s| && ',' !in s[..e] && (e < |s| ==> s[e] == ',')
    ensures Items(s) == [s[..e]] + Items(s[e..])
  {
    PieceEndIs(s, e);
    assert s[0] == s[..e][0];
  }

  lemma {:induction false} ItemsSplit(a: string, b: string)
    ensures Items(a + "," + b) == Items(a) + Items(b)
    decreases |a|
  {
    var s := a + "," + b;
    if a == "" {
      assert s[1..] == b;
    } else if a[0] == ',' {
      assert s[1..] == a[1..] + "," + b;
      ItemsSplit(a[1..], b);
    } else {
      var e := PieceEnd(a);
      assert s[..e] == a[..e] && s[e..] == a[e..] + "," + b;
      ItemsPiece(a, e);
      ItemsPiece(s, e);
      hide Items;
      ItemsSplit(a[e..], b);
      Associative([a[..e]], Items(a[e..]), Items(b));
    }
  }

  lemma OneItem(s: string)
    requires ',' !in s
    ensures Items(s) == if s == "" then [] else [s]
  {
    if s != "" {
      PieceEndIs(s, |s|);
      assert s[..|s|] == s && s[|s|..] == "";
    }
  }

  predicate Kept(c: char) {
    !IsSpace(c) && c != '"' && c != '(' && c != ')'
  }

  function CleanChar(c: char): string {
    if Kept(c) then [c] else ""
  }

  /** The text without white space, quotes and parentheses. */
  function Clean(s: string): string {
    if s == "" then "" else CleanChar(s[0]) + Clean(s[1..])
  }

  function NoSpaceChar(c: char): string {
    if IsSpace(c) then "" else [c]
  }

  function NoSpace(s: string): string {
    if s == "" then "" else NoSpaceChar(s[0]) + NoSpace(s[1..])
  }

  lemma {:induction false} CleanSplit(a: string, b: string)
    ensures Clean(a + b) == Clean(a) + Clean(b)
  {
    hide CleanChar;
    if a == "" {
      assert a + b == b;
    } else {
      assert (a + b)[1..] == a[1..] + b;
      CleanSplit(a[1..], b);
      Associative(CleanChar(a[0]), Clean(a[1..]), Clean(b));
    }
  }

  lemma {:induction false} NoSpaceSplit(a: string, b: string)
    ensures NoSpace(a + b) == NoSpace(a) + NoSpace(b)
  {
    hide NoSpaceChar;
    if a == "" {
      assert a + b == b;
    } else {
      assert (a + b)[1..] == a[1..] + b;
      NoSpaceSplit(a[1..], b);
      Associative(NoSpaceChar(a[0]), NoSpace(a[1..]), NoSpace(b));
    }
  }

  lemma {:induction false} CleanHasNoComma(s: string)
    requires ',' !in s
    ensures ',' !in Clean(s)
  {
    if s != "" { CleanHasNoComma(s[1..]); }
  }

  /** Splits at commas, cleans each piece and drops the empty ones. */
  method StringToList(text: string) returns (list: seq<string>)
    ensures list == Items(Clean(text))
  {
    hide Clean, Items;
    list := [];
    var rest, good := text, true;
    while good
      invariant good ==> list + Items(Clean(rest)) == Items(Clean(text))
      invariant !good ==> list == Items(Clean(text))
      decreases good, |rest|
    {
      var e := PieceEnd(rest);
      var piece := rest[..e];
      PieceStep(rest, e);
      good := e < |rest|;
      rest := if good then rest[e + 1..] else "";
      var item := Clean(piece);
      if item != "" { list := list + [item]; }
    }
  }

  lemma CleanAfterComma(s: string)
    ensures Clean("," + s) == "," + Clean(s)
  {
    assert ("," + s)[1..] == s;
  }

  lemma PieceStep(rest: string, e: nat)
    requires e == PieceEnd(rest)
    ensures var item := Clean(rest[..e]);
            Items(Clean(rest)) == (if item != "" then [item] else []) + if e < |rest| then Items(Clean(rest[e + 1..])) else []
  {
    hide Items, Clean, PieceEnd;
    var piece := rest[..e];
    CleanHasNoComma(piece);
    OneItem(Clean(piece));
    if e < |rest| {
      SplitAtComma(rest, e);
      CleanItems(piece, rest[e + 1..]);
    } else {
      assert rest == piece;
    }
  }

  lemma SplitAtComma(s: string, e: nat)
    requires e < |s| && s[e] == ','
    ensures s == s[..e] + "," + s[e + 1..]
  {}

  lemma CleanItems(a: string, b: string)
    ensures Items(Clean(a + "," + b)) == Items(Clean(a)) + Items(Clean(b))
  {
    hide Items, Clean;
    Associative(a, ",", b);
    CleanSplit(a, "," + b);
    CleanAfterComma(b);
    ItemsSplit(Clean(a), Clean(b));
    Associative(Clean(a), ",", Clean(b));
  }

  // ---- names become numbers --------------------------------------------------------------

  function Upper(c: char): char {
    if 'a' <= c <= 'z' then 'A' + (c - 'a') else c
  }

  predicate IsOp(item: string) {
    var u := seq(|item|, i requires 0 <= i < |item| => Upper(item[i]));
    u == "AND" || u == "OR"
  }

  /** The number of the first trigger with the name, or none. */
  function IndexOf(names: seq<string>, name: string): (i: Option<nat>)
    ensures i.None? <==> name !in names
    ensures i.Some? ==> i.value < |names| && names[i.value] == name && name !in names[..i.value]
  {
    if names == [] then None
    else if names[0] == name then Some(0)
    else
      var i := IndexOf(names[1..], name);
      if i.Some? then Some(i.value + 1) else None
  }

  datatype Translation = Translated(text: string) | Undefined(name: string) | NotProper

  /** An item as it is written out, or none for the name of no trigger. */
  function Number(item: string, names: seq<string>): Option<string> {
    if IsOp(item) then Some(item)
    else if IndexOf(names, item).Some? then Some(Decimal(IndexOf(names, item).value))
    else None
  }

  /** The items, each followed by a comma and a space, up to the first undefined name. */
  function Numbered(items: seq<string>, names: seq<string>): Translation {
    if items == [] then Translated("")
    else
      var n := |items| - 1;
      var before := Numbered(items[..n], names);
      if !before.Translated? then before
      else if Number(items[n], names).None? then Undefined(items[n])
      else Translated(before.text + Number(items[n], names).value + ", ")
  }

  function Translate(text: string, names: seq<string>): Translation {
    if text == "" && names == [] then Translated("")
    else
      var r := Numbered(Items(Clean(text)), names);
      if !r.Translated? then r
      else if r.text == "" then NotProper
      else if |r.text| > 2 then Translated(r.text[..|r.text| - 2])
      else r
  }

  method ParseExpression(triggerExpr: string, names: seq<string>) returns (r: Translation)
    ensures r == Translate(triggerExpr, names)
  {
    hide Clean, Items, IsOp, IndexOf;
    if |triggerExpr| == 0 && |names| == 0 { return Translated(triggerExpr); }
    var items := StringToList(triggerExpr);
    var str := "";
    for i := 0 to |items|
      invariant Numbered(items[..i], names) == Translated(str)
    {
      assert items[..i + 1][..i] == items[..i];
      if IsOp(items[i]) {
        str := str + items[i];
      } else {
        var idx := IndexOf(names, items[i]);
        if idx == None {
          StaysUndefined(items, names, i);
          return Undefined(items[i]);
        }
        str := str + Decimal(idx.value);
      }
      str := str + ", ";
    }
    assert items[..|items|] == items;
    if |str| > 2 { str := str[..|str| - 2]; }
    if |str| == 0 { return NotProper; }
    return Translated(str);
  }

  lemma {:induction false} StaysUndefined(items: seq<string>, names: seq<string>, i: nat)
    requires i < |items| && Numbered(items[..i + 1], names).Undefined?
    ensures Numbered(items, names) == Numbered(items[..i + 1], names)
    decreases |items|
  {
    var n := |items| - 1;
    if i < n {
      assert items[..n][..i + 1] == items[..i + 1];
      StaysUndefined(items[..n], names, i);
    } else {
      assert items[..i + 1] == items;
    }
  }

  // ---- items become code -----------------------------------------------------------------

  function DigitsEnd(s: string): (e: nat)
    ensures e <= |s| && forall i :: 0 <= i < e ==> '0' <= s[i] <= '9'
  {
    if s == "" || !('0' <= s[0] <= '9') then 0 else 1 + DigitsEnd(s[1..])
  }

  /** The number written in digits. */
  function DigitsValue(s: string): nat
    requires forall i :: 0 <= i < |s| ==> '0' <= s[i] <= '9'
  {
    if s == "" then 0 else 10 * DigitsValue(s[..|s| - 1]) + (s[|s| - 1] - '0') as int
  }

  /** A sign and as many digits as follow. */
  function Atoi(s: string): int {
    if s != "" && s[0] == '-' then -(DigitsValue(s[1..][..DigitsEnd(s[1..])]) as int)
    else if s != "" && s[0] == '+' then DigitsValue(s[1..][..DigitsEnd(s[1..])])
    else DigitsValue(s[..DigitsEnd(s)])
  }

  function ItemCode(item: string): uint8 {
    if item == "AND" || item == "and" then EXPR_OP_AND
    else if item == "OR" || item == "or" then EXPR_OP_OR
    else if Atoi(item) < MAX_NR_OF_TRIGVARS then Atoi(item) % 0x100
    else EXPR_OP_NONE
  }

  function ItemCodes(items: seq<string>): seq<uint8> {
    seq(|items|, i requires 0 <= i < |items| => ItemCode(items[i]))
  }

  /** Variables less operators, up to the terminator. */
  function Balance(code: seq<uint8>): int {
    if code == [] then 0
    else Balance(code[..|code| - 1]) +
         if EXPR_OP_NONE < code[|code| - 1] <= EXPR_OP_OR then -1 else 1
  }

  /** `Overrun` stands for a store behind the end of the array: the length is looked at after the store. */
  datatype Binary = Compiled(code: seq<uint8>) | Invalid | Overrun

  /** The code before the terminator, which ends it early where an item has no code. A terminator must fit the
      array as well. */
  function PostfixCode(text: string): Binary {
    var items := Items(NoSpace(text));
    if text == "" then Invalid
    else if |items| >= MAX_EXPR_LEN then Overrun
    else
      var code := Code(ItemCodes(items) + [EXPR_OP_NONE]);
      if Balance(code) == 1 then Compiled(code) else Invalid
  }

  method RemoveSpace(s: string) returns (r: string)
    ensures r == NoSpace(s)
  {
    r := "";
    for i := 0 to |s|
      invariant r == NoSpace(s[..i])
    {
      NoSpaceSplit(s[..i], [s[i]]);
      assert s[..i + 1] == s[..i] + [s[i]];
      if !IsSpace(s[i]) { r := r + [s[i]]; }
    }
    assert s[..|s|] == s;
  }

  /** The next piece between commas, as `strtok` gives it. */
  method NextPiece(s: string) returns (tok: Option<string>, rest: string)
    ensures tok == None <==> Items(s) == []
    ensures tok != None ==> Items(s) == [tok.value] + Items(rest) && |rest| < |s|
  {
    rest := s;
    while rest != "" && rest[0] == ','
      invariant Items(rest) == Items(s) && |rest| <= |s|
      decreases |rest|
    {
      rest := rest[1..];
    }
    if rest == "" { return None, rest; }
    var e := PieceEnd(rest);
    tok, rest := Some(rest[..e]), rest[e..];
  }

  /** Writes the code and its terminator into the array of a statement. */
  method PostfixToBin(postfixExpr: string, postfixBin: array<uint8>) returns (r: Binary)
    requires postfixBin.Length == MAX_EXPR_LEN
    modifies postfixBin
    ensures r == PostfixCode(postfixExpr)
    ensures r.Compiled? ==> |r.code| < MAX_EXPR_LEN && postfixBin[..|r.code| + 1] == r.code + [EXPR_OP_NONE]
  {
    hide Items, NoSpace, ItemCode, Balance, Code;
    if |postfixExpr| == 0 { return Invalid; }
    ghost var items := Items(NoSpace(postfixExpr));
    var str := RemoveSpace(postfixExpr);
    var overrun := WriteItems(str, postfixBin);
    if overrun { return Overrun; }
    var counter, k := CountItems(postfixBin, ItemCodes(items) + [EXPR_OP_NONE]);
    if counter != 1 { return Invalid; }
    return Compiled(postfixBin[..k]);
  }

  /** Writes one byte an item and a terminator. The source gives up behind the 33rd item; by then it has stored
      that item, or the terminator after 32 items, behind the array. */
  method WriteItems(str: string, postfixBin: array<uint8>) returns (overrun: bool)
    requires postfixBin.Length == MAX_EXPR_LEN
    modifies postfixBin
    ensures overrun <==> |Items(str)| >= MAX_EXPR_LEN
    ensures !overrun ==> postfixBin[..|Items(str)| + 1] == ItemCodes(Items(str)) + [EXPR_OP_NONE]
  {
    hide Items, ItemCode, ItemCodes;
    ghost var items := Items(str);
    ItemCodesMore(items, 0);
    var j := 0;
    var tok, rest := NextPiece(str);
    while tok != None
      invariant 0 <= j <= MAX_EXPR_LEN && j <= |items|
      invariant if tok == None then j == |items| else items[j..] == [tok.value] + Items(rest)
      invariant postfixBin[..j] == ItemCodes(items[..j])
      decreases |items| - j
    {
      assert items[j] == items[j..][0] && items[j..][1..] == items[j + 1..];
      ItemCodesMore(items, j);
      if j == postfixBin.Length { return true; }
      postfixBin[j] := ItemCode(tok.value);
      j := j + 1;
      tok, rest := NextPiece(rest);
    }
    if j == postfixBin.Length { return true; }
    postfixBin[j] := EXPR_OP_NONE;
    assert items[..j] == items;
    return false;
  }

  lemma ItemCodesMore(items: seq<string>, j: nat)
    requires j <= |items|
    ensures ItemCodes(items[..0]) == []
    ensures j < |items| ==> ItemCodes(items[..j + 1]) == ItemCodes(items[..j]) + [ItemCode(items[j])]
  {}

  /** Counts variables up and operators down, as far as the terminator. */
  method CountItems(postfixBin: array<uint8>, ghost written: seq<uint8>) returns (counter: int, k: nat)
    requires EXPR_OP_NONE in written && |written| <= postfixBin.Length && written == postfixBin[..|written|]
    ensures k < postfixBin.Length && postfixBin[..k] == Code(written) && postfixBin[k] == EXPR_OP_NONE
    ensures counter == Balance(Code(written))
  {
    hide Code;
    ghost var code := Code(written);
    counter, k := 0, 0;
    while postfixBin[k] != EXPR_OP_NONE
      invariant 0 <= k <= |code| && counter == Balance(code[..k])
      decreases |code| - k
    {
      assert postfixBin[k] == written[k];
      assert code[..k + 1][..k] == code[..k];
      if postfixBin[k] > EXPR_OP_NONE && postfixBin[k] < EXPR_OP_NONE + 3 {
        counter := counter - 1;
      } else {
        counter := counter + 1;
      }
      k := k + 1;
    }
    assert code[..k] == code;
  }

  // ---- the whole way -----------------------------------------------------------------------

  /** What becomes of an infix text; `Invalid` is any error that is reported. */
  function CodeOf(expr: string, names: seq<string>): Binary {
    var infix := WithOperators(expr);
    if infix.None? || infix.value == "" then Invalid
    else
      var r := Translate(WalkExpression(ParseText(infix.value), ""), names);
      if r.Translated? then PostfixCode(r.text) else Invalid
  }

  method XmlstringToPostfix(expr: string, names: seq<string>, postfixBin: array<uint8>) returns (r: Binary)
    requires '\0' !in expr && postfixBin.Length == MAX_EXPR_LEN
    modifies postfixBin
    ensures r == CodeOf(expr, names)
    ensures r.Compiled? ==> |r.code| < MAX_EXPR_LEN && postfixBin[..|r.code| + 1] == r.code + [EXPR_OP_NONE]
  {
    hide ParseText, WalkExpression, Translate, PostfixCode, WithOperators;
    NoNulWithOperators(expr);
    var infix := ReplaceOperators(expr);
    if infix.None? || infix.value == "" { return Invalid; }
    var exprToken := ParseExpr(infix.value);
    var postfix := WalkTokens(exprToken, "");
    var numbered := ParseExpression(postfix, names);
    if !numbered.Translated? { return Invalid; }
    r := PostfixToBin(numbered.text, postfixBin);
  }
}
