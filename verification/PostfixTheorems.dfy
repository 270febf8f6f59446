/** What becomes of the text of a trigger expression, for every text, and of device code that is printed and
    compiled again. */
module PostfixTheorems {
  import opened Bits
  import opened Wrappers
  import opened ExprGrammar
  import opened InfixPrinter
  import opened OperatorWords
  import opened PostfixCompiler
  import ExprTheorems
  import OperatorWordTheorems

  // ---- the trees that the parser gives -------------------------------------------------------

  /** Names are words of letters, digits, `_` and `-`, and operators are operators. */
  predicate WellNamed(t: Tree) {
    match t
    case Name(name) => ExprTheorems.IsName(name)
    case Op(op, l, r) => IsOperator(op) && WellNamed(l) && WellNamed(r)
    case _ => true
  }

  lemma {:induction false} OperandWellNamed(s: string, p: nat)
    requires p <= |s|
    ensures !Operand(s, p).Close? ==> WellNamed(Operand(s, p).tree)
    decreases |s| - p, 0
  {
    hide Lex;
    var t := Lex(s, p);
    if t.kind.LParen? { ParseWellNamed(s, t.next); }
    if t.kind.Ident? { ExprTheorems.WordName(s, p); }
  }

  lemma {:induction false} ParseWellNamed(s: string, p: nat)
    requires p <= |s|
    ensures WellNamed(Parse(s, p).0)
    decreases |s| - p, 1
  {
    hide Lex, AfterOperand;
    OperandWellNamed(s, p);
    match Operand(s, p)
    case Got(left, q) => AfterOperandWellNamed(s, q, left, Null);
    case _ =>
  }

  lemma {:induction false} AfterOperandWellNamed(s: string, p: nat, left: Tree, earlier: Tree)
    requires p <= |s| && WellNamed(left) && WellNamed(earlier)
    ensures WellNamed(AfterOperand(s, p, left, earlier).0)
    decreases |s| - p, 1
  {
    hide Lex, AfterOperator;
    var t := Lex(s, p);
    if IsOperator(t.kind) { AfterOperatorWellNamed(s, t.next, t.kind, left, earlier); }
  }

  lemma {:induction false} AfterOperatorWellNamed(s: string, p: nat, op: Kind, left: Tree, earlier: Tree)
    requires p <= |s| && IsOperator(op) && WellNamed(left) && WellNamed(earlier)
    ensures WellNamed(AfterOperator(s, p, op, left, earlier).0)
    decreases |s| - p, 1
  {
    hide Lex, AfterPair;
    OperandWellNamed(s, p);
    match Operand(s, p)
    case Got(right, q) => AfterPairWellNamed(s, q, Op(op, left, right));
    case _ =>
  }

  lemma {:induction false} AfterPairWellNamed(s: string, p: nat, pair: Tree)
    requires p <= |s| && WellNamed(pair)
    ensures WellNamed(AfterPair(s, p, pair).0)
    decreases |s| - p, 1
  {
    hide Lex, AfterOperator;
    var t := Lex(s, p);
    if IsOperator(t.kind) { AfterOperatorWellNamed(s, t.next, t.kind, pair, pair); }
  }

  lemma ParsedWellNamed(s: string)
    ensures WellNamed(ParseText(s))
  {
    hide Parse;
    ParseWellNamed(s, 0);
  }

  // ---- the words of a tree -------------------------------------------------------------------

  /** The names and operators in postorder; a part that is neither leaves nothing. */
  function Words(t: Tree): seq<string> {
    match t
    case Name(name) => [name]
    case Op(op, l, r) => Words(l) + Words(r) + [if op == OpAnd then "AND" else "OR"]
    case _ => []
  }

  /** Letters, digits, `_`, `-` and commas: nothing that is cleaned away. */
  predicate PlainList(s: string) {
    forall i :: 0 <= i < |s| ==> s[i] == ',' || IsLetterOrDigit(s[i])
  }

  predicate PlainItem(s: string) {
    s != "" && ',' !in s && PlainList(s)
  }

  predicate PlainItems(items: seq<string>) {
    forall i :: 0 <= i < |items| ==> PlainItem(items[i])
  }

  lemma PlainCharIsKept(c: char)
    requires c == ',' || IsLetterOrDigit(c)
    ensures CleanChar(c) == [c] && NoSpaceChar(c) == [c]
  {}

  lemma {:induction false} PlainIsKept(s: string)
    requires PlainList(s)
    ensures Clean(s) == s && NoSpace(s) == s
    decreases |s|
  {
    hide CleanChar, NoSpaceChar;
    if s != "" {
      PlainCharIsKept(s[0]);
      PlainIsKept(s[1..]);
      assert [s[0]] + s[1..] == s;
    }
  }

  lemma NoItems()
    ensures Items("") == []
  {}

  /** A list with one more item at its end. */
  lemma MoreItem(postfix: string, item: string)
    requires PlainItem(item) && PlainList(postfix)
    ensures Items(postfix + "," + item) == Items(postfix) + [item] && PlainList(postfix + "," + item)
    ensures Items(item) == [item]
  {
    hide Items;
    OneItem(item);
    ItemsSplit(postfix, item);
  }

  lemma {:induction false} WalkWords(t: Tree, postfix: string)
    requires WellNamed(t) && PlainList(postfix)
    ensures var s := WalkExpression(t, postfix); PlainList(s) && Items(s) == Items(postfix) + Words(t)
    decreases t
  {
    hide Items;
    match t
    case Name(name) =>
      NameIsPlain(name);
      MoreItem(postfix, name);
      NoItems();
      assert [] + [name] == [name];
      assert WalkExpression(t, postfix) == if postfix != "" then postfix + "," + name else name;
    case Op(op, l, r) =>
      WalkWords(l, postfix);
      var s := WalkExpression(l, postfix);
      WalkWords(r, s);
      WordAfter(WalkExpression(r, s), op == OpAnd);
      hide PlainList, WalkExpression, Words;
      Associative(Items(postfix), Words(l), Words(r));
      Associative(Items(postfix), Words(l) + Words(r), [if op == OpAnd then "AND" else "OR"]);
    case _ =>
  }

  lemma WordAfter(s: string, isAnd: bool)
    requires PlainList(s)
    ensures var t := s + if isAnd then ",AND" else ",OR";
            PlainList(t) && Items(t) == Items(s) + [if isAnd then "AND" else "OR"]
  {
    hide Items;
    OperatorIsPlain();
    MoreItem(s, "AND");
    MoreItem(s, "OR");
    assert s + "," + "AND" == s + ",AND" && s + "," + "OR" == s + ",OR";
  }

  lemma NameIsPlain(name: string)
    requires ExprTheorems.IsName(name)
    ensures PlainItem(name)
  {
    ExprTheorems.NameIs(name);
    hide ExprTheorems.IsName;
  }

  lemma OperatorIsPlain()
    ensures PlainItem("AND") && PlainItem("OR") && IsOp("AND") && IsOp("OR")
  {
    assert seq(3, i requires 0 <= i < 3 => Upper("AND"[i])) == "AND";
    assert seq(2, i requires 0 <= i < 2 => Upper("OR"[i])) == "OR";
  }

  lemma {:induction false} WordsArePlain(t: Tree)
    requires WellNamed(t)
    ensures PlainItems(Words(t))
    decreases t
  {
    hide PlainItem;
    match t
    case Name(name) => NameIsPlain(name);
    case Op(op, l, r) =>
      OperatorIsPlain();
      WordsArePlain(l);
      WordsArePlain(r);
    case _ =>
  }

  // ---- numbers written and read --------------------------------------------------------------

  lemma {:induction false} AllDigits(s: string)
    requires forall i :: 0 <= i < |s| ==> '0' <= s[i] <= '9'
    ensures DigitsEnd(s) == |s|
    decreases |s|
  {
    if s != "" { AllDigits(s[1..]); }
  }

  lemma {:induction false} DecimalValue(n: nat)
    ensures DigitsValue(Decimal(n)) == n
    decreases n
  {
    if n >= 10 {
      DecimalValue(n / 10);
      assert Decimal(n)[..|Decimal(n)| - 1] == Decimal(n / 10);
    } else {
      assert Decimal(n)[..0] == "";
    }
  }

  lemma AtoiDecimal(n: nat)
    ensures Atoi(Decimal(n)) == n
  {
    AllDigits(Decimal(n));
    DecimalValue(n);
    assert Decimal(n)[..|Decimal(n)|] == Decimal(n);
  }

  lemma DecimalIsNoOperator(n: nat)
    ensures !IsOp(Decimal(n)) && Decimal(n) !in {"AND", "and", "OR", "or"}
  {
    var s := Decimal(n);
    var u := seq(|s|, i requires 0 <= i < |s| => Upper(s[i]));
    assert '0' <= u[0] <= '9' && u[0] == s[0];
  }

  lemma NumberIsPlain(n: nat)
    ensures PlainItem(Decimal(n))
  {}

  // ---- the numbered list ---------------------------------------------------------------------

  /** The items with a comma and a space between them. */
  function Joined(items: seq<string>): string {
    if items == [] then ""
    else if |items| == 1 then items[0]
    else Joined(items[..|items| - 1]) + ", " + items[|items| - 1]
  }

  lemma JoinedMore(items: seq<string>)
    requires items != []
    ensures var k := |items| - 1;
            Joined(items) == Joined(items[..k]) + (if k == 0 then "" else ", ") + items[k]
  {
    if |items| == 1 {
      assert items[..0] == [];
      NothingBefore(items[0]);
    }
  }

  lemma NothingBefore(s: string)
    ensures "" + "" + s == s
  {}

  lemma {:induction false} JoinedItems(items: seq<string>)
    requires forall i :: 0 <= i < |items| ==> items[i] != "" && ',' !in items[i] && NoSpace(items[i]) == items[i]
    ensures Items(NoSpace(Joined(items))) == items
    decreases |items|
  {
    hide Items, NoSpace;
    if items == [] {
      PlainIsKept("");
      NoItems();
    } else {
      var k := |items| - 1;
      var last, before := items[k], items[..k];
      OneItem(last);
      if k > 0 {
        JoinedItems(before);
        NoSpaceJoined(Joined(before), last);
        ItemsSplit(NoSpace(Joined(before)), last);
        assert items == before + [last];
      }
    }
  }

  lemma NoSpaceJoined(a: string, b: string)
    requires NoSpace(b) == b
    ensures NoSpace(a + ", " + b) == NoSpace(a) + "," + b
  {
    hide NoSpace;
    NoSpaceSplit(a + ", ", b);
    NoSpaceSplit(a, ", ");
    NoSpaceInSeparator();
  }

  lemma NoSpaceInSeparator()
    ensures NoSpace(", ") == ","
  {
    assert ", "[1..] == " " && " "[1..] == "";
  }

  predicate AllNumbered(items: seq<string>, names: seq<string>) {
    forall i :: 0 <= i < |items| ==> Number(items[i], names).Some?
  }

  function Numbers(items: seq<string>, names: seq<string>): seq<string>
    requires AllNumbered(items, names)
  {
    seq(|items|, i requires 0 <= i < |items| => Number(items[i], names).value)
  }

  lemma {:induction false} NumberedItems(items: seq<string>, names: seq<string>)
    ensures AllNumbered(items, names) ==>
              Numbered(items, names) == Translated(Joined(Numbers(items, names)) + if items == [] then "" else ", ")
    ensures !AllNumbered(items, names) ==> Numbered(items, names).Undefined?
    decreases |items|
  {
    hide Number;
    if items != [] {
      var k := |items| - 1;
      NumberedItems(items[..k], names);
      assert AllNumbered(items, names) <==> AllNumbered(items[..k], names) && Number(items[k], names).Some?;
      if AllNumbered(items, names) {
        var numbers := Numbers(items, names);
        assert numbers[..k] == Numbers(items[..k], names);
        JoinedMore(numbers);
      }
    }
  }

  lemma NumbersArePlain(items: seq<string>, names: seq<string>)
    requires PlainItems(items) && AllNumbered(items, names)
    ensures PlainItems(Numbers(items, names))
  {
    hide PlainItem, IsOp, IndexOf;
    forall i | 0 <= i < |items| ensures PlainItem(Numbers(items, names)[i]) {
      if !IsOp(items[i]) { NumberIsPlain(IndexOf(names, items[i]).value); }
    }
  }

  /** Joined with commas and spaces, plain items are found again. */
  lemma JoinedPlain(items: seq<string>)
    requires PlainItems(items)
    ensures Items(NoSpace(Joined(items))) == items && (items != [] ==> Joined(items) != "")
  {
    hide Items, NoSpace, Joined;
    forall i | 0 <= i < |items| ensures items[i] != "" && ',' !in items[i] && NoSpace(items[i]) == items[i] {
      PlainIsKept(items[i]);
    }
    JoinedItems(items);
    PlainIsKept("");
    NoItems();
  }

  /** A walked text, numbered. */
  lemma TranslatedWords(t: Tree, names: seq<string>)
    requires WellNamed(t) && Words(t) != []
    ensures AllNumbered(Words(t), names) ==>
              Translate(WalkExpression(t, ""), names) == Translated(Joined(Numbers(Words(t), names)))
    ensures !AllNumbered(Words(t), names) ==> Translate(WalkExpression(t, ""), names).Undefined?
  {
    hide Items, Clean, Numbered, WalkExpression, Joined, Words, AllNumbered, WellNamed;
    var text := WalkExpression(t, "");
    WalkWords(t, "");
    NoItems();
    assert [] + Words(t) == Words(t);
    PlainIsKept(text);
    NumberedItems(Words(t), names);
    if AllNumbered(Words(t), names) {
      WordsArePlain(t);
      NumbersArePlain(Words(t), names);
      JoinedPlain(Numbers(Words(t), names));
    }
  }

  lemma NothingTranslated(t: Tree, names: seq<string>)
    requires WellNamed(t) && Words(t) == []
    ensures var r := Translate(WalkExpression(t, ""), names); r == NotProper || r == Translated("")
  {
    hide Items, Clean, WalkExpression, Words, WellNamed;
    WalkWords(t, "");
    NoItems();
    PlainIsKept(WalkExpression(t, ""));
  }

  // ---- the code of a word --------------------------------------------------------------------

  /** Exactly the spellings that become operators; the others with the same letters are never looked up. */
  predicate OperatorWord(word: string) {
    word in {"AND", "and", "OR", "or"}
  }

  function WordCode(word: string, names: seq<string>): uint8
    requires Number(word, names).Some? && |names| <= MAX_NR_OF_TRIGVARS
  {
    if word == "AND" || word == "and" then EXPR_OP_AND
    else if word == "OR" || word == "or" then EXPR_OP_OR
    else if IsOp(word) then 0
    else IndexOf(names, word).value
  }

  function WordCodes(words: seq<string>, names: seq<string>): (code: seq<uint8>)
    requires AllNumbered(words, names) && |names| <= MAX_NR_OF_TRIGVARS
  {
    seq(|words|, i requires 0 <= i < |words| => WordCode(words[i], names))
  }

  lemma OpHasNoDigits(word: string)
    requires IsOp(word)
    ensures Atoi(word) == 0
  {
    var u := seq(|word|, i requires 0 <= i < |word| => Upper(word[i]));
    assert u[0] == Upper(word[0]) && (u[0] == 'A' || u[0] == 'O');
    assert DigitsEnd(word) == 0;
    assert word[..0] == "";
  }

  lemma WordCodeIs(word: string, names: seq<string>)
    requires Number(word, names).Some? && |names| <= MAX_NR_OF_TRIGVARS
    ensures ItemCode(Number(word, names).value) == WordCode(word, names) != EXPR_OP_NONE
  {
    hide Atoi, IsOp, Decimal, IndexOf;
    OperatorIsPlain();
    LowerOperators();
    if IsOp(word) {
      OpHasNoDigits(word);
    } else {
      var n := IndexOf(names, word).value;
      AtoiDecimal(n);
      DecimalIsNoOperator(n);
    }
  }

  lemma LowerOperators()
    ensures IsOp("and") && IsOp("or")
  {
    assert seq(3, i requires 0 <= i < 3 => Upper("and"[i])) == "AND";
    assert seq(2, i requires 0 <= i < 2 => Upper("or"[i])) == "OR";
  }

  lemma CodesOfNumbers(words: seq<string>, names: seq<string>)
    requires AllNumbered(words, names) && |names| <= MAX_NR_OF_TRIGVARS
    ensures ItemCodes(Numbers(words, names)) == WordCodes(words, names) && EXPR_OP_NONE !in WordCodes(words, names)
  {
    hide ItemCode, WordCode, Number;
    forall i | 0 <= i < |words|
      ensures ItemCode(Numbers(words, names)[i]) == WordCode(words[i], names) != EXPR_OP_NONE
    {
      WordCodeIs(words[i], names);
    }
  }

  // ---- which trees compile -------------------------------------------------------------------

  lemma {:induction false} BalanceSplit(a: seq<uint8>, b: seq<uint8>)
    ensures Balance(a + b) == Balance(a) + Balance(b)
    decreases |b|
  {
    if b == [] {
      assert a + b == a;
    } else {
      var k := |b| - 1;
      assert (a + b)[..|a| + k] == a + b[..k];
      BalanceSplit(a, b[..k]);
    }
  }

  /** Every name is that of a trigger or spells an operator. */
  predicate AllKnown(t: Tree, names: seq<string>) {
    match t
    case Name(name) => IsOp(name) || name in names
    case Op(_, l, r) => AllKnown(l, names) && AllKnown(r, names)
    case _ => true
  }

  /** Nothing but names is found at the leaves, and none that becomes an operator. */
  predicate Whole(t: Tree) {
    match t
    case Name(name) => !OperatorWord(name)
    case Op(_, l, r) => Whole(l) && Whole(r)
    case _ => false
  }

  /** The expression of the device, with variable 0 for names such as "And". */
  function AsExpr(t: Tree, names: seq<string>): (e: Expr)
    requires WellNamed(t) && Whole(t) && AllKnown(t, names) && |names| <= MAX_NR_OF_TRIGVARS
    ensures e.Valid()
  {
    match t
    case Name(name) => Variable(if IsOp(name) then 0 else IndexOf(names, name).value)
    case Op(op, l, r) =>
      Node(if op == OpAnd then EXPR_OP_AND else EXPR_OP_OR, AsExpr(l, names), AsExpr(r, names))
  }

  lemma {:induction false} KnownIsNumbered(t: Tree, names: seq<string>)
    ensures AllKnown(t, names) <==> AllNumbered(Words(t), names)
    decreases t
  {
    hide IsOp, IndexOf;
    match t
    case Name(name) => assert Words(t)[0] == name;
    case Op(op, l, r) =>
      OperatorIsPlain();
      KnownIsNumbered(l, names);
      KnownIsNumbered(r, names);
      hide Number;
      NumberedParts(Words(l), Words(r), if op == OpAnd then "AND" else "OR", names);
    case _ =>
  }

  lemma NumberedParts(a: seq<string>, b: seq<string>, word: string, names: seq<string>)
    requires IsOp(word)
    ensures AllNumbered(a + b + [word], names) <==> AllNumbered(a, names) && AllNumbered(b, names)
  {
    hide Number;
    var c := a + b + [word];
    assert Number(word, names).Some? by { OperatorIsNumbered(word, names); }
    if AllNumbered(c, names) {
      forall i | 0 <= i < |a| ensures Number(a[i], names).Some? { assert c[i] == a[i]; }
      forall i | 0 <= i < |b| ensures Number(b[i], names).Some? { assert c[|a| + i] == b[i]; }
    }
  }

  lemma OperatorIsNumbered(word: string, names: seq<string>)
    requires IsOp(word)
    ensures Number(word, names) == Some(word)
  {}

  /** Each leaf that is lost takes one from the balance, and each that becomes an operator takes two. */
  lemma {:induction false} BalanceOfTree(t: Tree, names: seq<string>)
    requires WellNamed(t) && AllNumbered(Words(t), names) && |names| <= MAX_NR_OF_TRIGVARS
    ensures var b := Balance(WordCodes(Words(t), names)); b <= 1 && (b == 1 <==> Whole(t))
    decreases t
  {
    match t
    case Name(name) =>
      hide IsOp, IndexOf;
      assert Words(t)[0] == name;
      assert WordCodes([name], names) == [WordCode(name, names)];
      WordCodeIs(name, names);
      BalanceOfOne(WordCode(name, names));
    case Op(op, l, r) =>
      var word := if op == OpAnd then "AND" else "OR";
      OperatorIsPlain();
      NumberedParts(Words(l), Words(r), word, names);
      CodesOfPair(Words(l), Words(r), word, names);
      BalanceOfTree(l, names);
      BalanceOfTree(r, names);
      hide WordCodes, Balance, Words;
      var a, b, c := WordCodes(Words(l), names), WordCodes(Words(r), names), WordCode(word, names);
      BalanceSplit(a, b);
      BalanceSplit(a + b, [c]);
      BalanceOfOne(c);
    case _ =>
  }

  lemma BalanceOfOne(b: uint8)
    ensures Balance([b]) == if EXPR_OP_NONE < b <= EXPR_OP_OR then -1 else 1
  {
    assert [b][..0] == [];
  }

  lemma CodesOfPair(a: seq<string>, b: seq<string>, word: string, names: seq<string>)
    requires AllNumbered(a + b + [word], names) && AllNumbered(a, names) && AllNumbered(b, names)
    requires Number(word, names).Some? && |names| <= MAX_NR_OF_TRIGVARS
    ensures WordCodes(a + b + [word], names) == WordCodes(a, names) + WordCodes(b, names) + [WordCode(word, names)]
  {
    hide Number, WordCode;
  }

  lemma {:induction false} CodeOfWholeTree(t: Tree, names: seq<string>)
    requires WellNamed(t) && Whole(t) && AllKnown(t, names) && AllNumbered(Words(t), names)
    requires |names| <= MAX_NR_OF_TRIGVARS
    ensures WordCodes(Words(t), names) == AsExpr(t, names).Postorder()
    decreases t
  {
    match t
    case Name(name) =>
      assert WordCodes([name], names) == [WordCode(name, names)];
    case Op(op, l, r) =>
      var word := if op == OpAnd then "AND" else "OR";
      OperatorIsPlain();
      NumberedParts(Words(l), Words(r), word, names);
      CodesOfPair(Words(l), Words(r), word, names);
      CodeOfWholeTree(l, names);
      CodeOfWholeTree(r, names);
  }

  lemma {:induction false} CodeStops(code: seq<uint8>, more: seq<uint8>)
    requires EXPR_OP_NONE !in code
    ensures Code(code + [EXPR_OP_NONE] + more) == code
    decreases |code|
  {
    if code != [] {
      assert (code + [EXPR_OP_NONE] + more)[1..] == code[1..] + [EXPR_OP_NONE] + more;
      CodeStops(code[1..], more);
    }
  }

  /** An unknown name is an error; else 32 words or more overrun the array; else the code is that of the tree's
      expression if nothing was lost, and an error if something was. */
  function BinaryOf(t: Tree, names: seq<string>): Binary
    requires WellNamed(t) && |names| <= MAX_NR_OF_TRIGVARS
  {
    if !AllKnown(t, names) then Invalid
    else if |Words(t)| >= MAX_EXPR_LEN then Overrun
    else if Whole(t) then Compiled(AsExpr(t, names).Postorder())
    else Invalid
  }

  lemma CodeOfTree(t: Tree, names: seq<string>)
    requires WellNamed(t) && |names| <= MAX_NR_OF_TRIGVARS
    ensures var r := Translate(WalkExpression(t, ""), names);
            (if r.Translated? then PostfixCode(r.text) else Invalid) == BinaryOf(t, names)
  {
    KnownIsNumbered(t, names);
    if Words(t) == [] {
      EmptyTree(t, names);
    } else {
      TranslatedWords(t, names);
      if AllNumbered(Words(t), names) { CodeOfNumbers(t, names); }
    }
  }

  lemma EmptyTree(t: Tree, names: seq<string>)
    requires WellNamed(t) && Words(t) == []
    ensures !Whole(t)
    ensures var r := Translate(WalkExpression(t, ""), names); r.Translated? ==> PostfixCode(r.text) == Invalid
  {
    NothingTranslated(t, names);
  }

  lemma CodeOfNumbers(t: Tree, names: seq<string>)
    requires WellNamed(t) && Words(t) != [] && AllKnown(t, names) && AllNumbered(Words(t), names)
    requires |names| <= MAX_NR_OF_TRIGVARS
    ensures PostfixCode(Joined(Numbers(Words(t), names))) ==
            if |Words(t)| >= MAX_EXPR_LEN then Overrun
            else if Whole(t) then Compiled(AsExpr(t, names).Postorder())
            else Invalid
  {
    var words := Words(t);
    var code := WordCodes(words, names);
    hide Items, NoSpace, Joined, Words, Code, Balance, AllNumbered, WellNamed, Whole, AllKnown, AsExpr;
    WordsArePlain(t);
    NumbersArePlain(words, names);
    JoinedPlain(Numbers(words, names));
    CodesOfNumbers(words, names);
    CodeStops(code, []);
    assert code + [EXPR_OP_NONE] + [] == code + [EXPR_OP_NONE];
    BalanceOfTree(t, names);
    if Whole(t) { CodeOfWholeTree(t, names); }
  }

  /** The same for every text. */
  lemma CodeOfText(expr: string, names: seq<string>)
    requires |names| <= MAX_NR_OF_TRIGVARS
    ensures var infix := WithOperators(expr);
            if infix.None? || infix.value == "" then CodeOf(expr, names) == Invalid
            else
              && WellNamed(ParseText(infix.value))
              && CodeOf(expr, names) == BinaryOf(ParseText(infix.value), names)
  {
    hide WithOperators, ParseText, Translate, PostfixCode, WalkExpression;
    var infix := WithOperators(expr);
    if infix.Some? {
      ParsedWellNamed(infix.value);
      CodeOfTree(ParseText(infix.value), names);
    }
  }

  /** A text compiles exactly when all its leaves are names, each that of a trigger or spelled like an operator but
      not exactly so, and there are fewer than 32 words. */
  lemma CompiledIff(expr: string, names: seq<string>)
    requires |names| <= MAX_NR_OF_TRIGVARS
    ensures var infix := WithOperators(expr);
            CodeOf(expr, names).Compiled? <==>
            && infix.Some?
            && var t := ParseText(infix.value);
            AllKnown(t, names) && Whole(t) && |Words(t)| < MAX_EXPR_LEN
  {
    hide WithOperators, CodeOf;
    CodeOfText(expr, names);
    EmptyText();
  }

  lemma EmptyText()
    ensures !Whole(ParseText(""))
  {}

  predicate AllDefined(code: seq<uint8>, n: nat) {
    forall i :: 0 <= i < |code| && IsOperand(code[i]) ==> code[i] < n
  }

  lemma {:induction false} VariablesOf(t: Tree, names: seq<string>)
    requires WellNamed(t) && Whole(t) && AllKnown(t, names) && |names| <= MAX_NR_OF_TRIGVARS
    ensures AllDefined(AsExpr(t, names).Postorder(), if names == [] then 1 else |names|)
    decreases t
  {
    if t.Op? {
      VariablesOf(t.left, names);
      VariablesOf(t.right, names);
    }
  }

  /** The code of a text holds numbers of triggers only, and 0 for names such as "And"; never a number from 32 up. */
  lemma VariablesAreTriggers(expr: string, names: seq<string>)
    requires |names| <= MAX_NR_OF_TRIGVARS && CodeOf(expr, names).Compiled?
    ensures AllDefined(CodeOf(expr, names).code, if names == [] then 1 else |names|)
    ensures AllDefined(CodeOf(expr, names).code, MAX_NR_OF_TRIGVARS)
  {
    hide WithOperators, CodeOf, ParseText;
    CodeOfText(expr, names);
    VariablesOf(ParseText(WithOperators(expr).value), names);
  }

  // ---- a name spelled like an operator -------------------------------------------------------

  lemma NoWordIn(s: string, word: string, op: char)
    requires s != "" && word != "" && word[0] !in s
    ensures Replaced(s, word, op) == Some(s)
  {
    ReplacedIs(s, word, op);
    PieceStays('x', s, "", word, op);
    assert s + "" == s;
  }

  /** The first character is passed over by the search for words. */
  lemma AndIsNoWord()
    ensures WithOperators("And") == Some("And")
  {
    hide Replaced;
    NothingQuoted("And");
    FirstIsKept();
    NoWordIn("And", "OR", '|');
    NoWordIn("And", "and", '&');
    NoWordIn("And", "or", '|');
  }

  lemma FirstIsKept()
    ensures Replaced("And", "AND", '&') == Some("And")
  {
    PieceStays('A', "nd", "", "AND", '&');
    assert "And"[1..] == "nd" && "nd" + "" == "nd";
    assert ['A'] + "nd" == "And";
  }

  /** A name that is no trigger's is not reported when it is spelled "And": it becomes variable 0. */
  lemma AndIsVariableZero(names: seq<string>)
    requires |names| <= MAX_NR_OF_TRIGVARS
    ensures CodeOf("And", names) == Compiled([0])
  {
    AndIsNoWord();
    AndParses();
    AndIsOp();
    hide ParseText, WithOperators, CodeOf, IsOp;
    CodeOfText("And", names);
  }

  lemma AndParses()
    ensures ParseText("And") == Name("And")
  {
    hide ParseText;
    ExprTheorems.ParsePrint(Name("And"));
    assert ExprTheorems.Print(Name("And")).Text() == "And";
  }

  lemma AndIsOp()
    ensures IsOp("And")
  {
    assert seq(3, i requires 0 <= i < 3 => Upper("And"[i])) == "AND";
  }

  // ---- the small letters ------------------------------------------------------------------------

  /** Operators may be spelled with small letters. */
  lemma SmallLettersCompile()
    ensures CodeOf("a and b", ["a", "b"]) == Compiled([0, 1, 101])
  {
    hide CodeOf, WithOperators, ParseText, BinaryOf;
    SmallWords();
    SmallTree();
    CodeOfText("a and b", ["a", "b"]);
    SmallCode();
  }

  lemma SmallCode()
    ensures var t := Op(OpAnd, Name("a"), Name("b"));
            WellNamed(t) && BinaryOf(t, ["a", "b"]) == Compiled([0, 1, 101])
  {
    var t, names := Op(OpAnd, Name("a"), Name("b")), ["a", "b"];
    NoOperators();
    ExprTheorems.NameIs("a");
    ExprTheorems.NameIs("b");
    hide IsOp, ExprTheorems.IsName;
    assert names[0] == "a" && names[1] == "b";
    assert IndexOf(names, "a").value == 0 && IndexOf(names, "b").value == 1;
    hide IndexOf;
    assert AsExpr(t, names) == Node(EXPR_OP_AND, Variable(0), Variable(1));
    assert |Words(t)| == 3;
  }

  lemma NoOperators()
    ensures !IsOp("a") && !IsOp("b")
  {}

  lemma SmallWords()
    ensures WithOperators("a and b") == Some("a & b")
  {
    var pieces, words := ["a ", " b"], ["and"];
    forall word: string, k | OperatorWordTheorems.Spelled(word) && 0 <= k < 2
      ensures OperatorWordTheorems.Free(pieces[k], word)
    {
      forall i: nat ensures !OperatorWordTheorems.StandsAt(pieces[k], i, word) {}
    }
    assert pieces[1..] == [" b"] && words[1..] == [];
    assert OperatorWordTheorems.Woven(pieces, words) == "a and b";
    OperatorWordTheorems.AllSpellings(pieces, words);
    var ops := OperatorWordTheorems.OperatorsOf(words);
    assert ops == ["&"] && ops[1..] == [];
    assert OperatorWordTheorems.Woven(pieces, ops) == "a & b";
  }

  lemma SmallTree()
    ensures ParseText("a & b") == Op(OpAnd, Name("a"), Name("b"))
  {
    var c := ExprTheorems.Pair(ExprTheorems.Word("", "a"), " ", OpAnd, ExprTheorems.Word(" ", "b"));
    ExprTheorems.NameIs("a");
    ExprTheorems.NameIs("b");
    ExprTheorems.BlankIs(" ");
    assert c.Text() + "" == "a & b";
    hide ExprTheorems.IsName, ExprTheorems.Blank, ExprTheorems.Syntax.Text, ParseText;
    ExprTheorems.BlankIs("");
    ExprTheorems.ParseAcceptsText(c, "");
  }

  // ---- device code printed and compiled again ------------------------------------------------

  /** The names that triggers get when a device's settings are listed: their numbers. */
  function ListedNames(n: nat): seq<string> {
    seq(n, k requires 0 <= k < n => Decimal(k))
  }

  lemma ListedIndex(v: nat, n: nat)
    ensures IndexOf(ListedNames(n), Decimal(v)) == if v < n then Some(v) else None
  {
    hide Decimal, Atoi;
    var names := ListedNames(n);
    var i := IndexOf(names, Decimal(v));
    AtoiDecimal(v);
    if i.Some? { AtoiDecimal(i.value); }
    if v < n { assert names[v] == Decimal(v); }
  }

  lemma {:induction false} PrintedTree(t: Expr, n: nat)
    requires t.Valid()
    ensures WellNamed(AsTree(t)) && Whole(AsTree(t)) && |Words(AsTree(t))| == |t.Postorder()|
    ensures AllKnown(AsTree(t), ListedNames(n)) <==> AllDefined(t.Postorder(), n)
    decreases t
  {
    hide ListedNames, IsOp, IndexOf, Decimal;
    match t
    case Variable(v) =>
      DecimalIsNoOperator(v);
      ListedIndex(v, n);
      assert [v][0] == v;
    case Node(op, l, r) =>
      PrintedTree(l, n);
      PrintedTree(r, n);
      DefinedParts(l.Postorder(), r.Postorder(), op, n);
  }

  lemma DefinedParts(a: seq<uint8>, b: seq<uint8>, op: uint8, n: nat)
    requires !IsOperand(op)
    ensures AllDefined(a + b + [op], n) <==> AllDefined(a, n) && AllDefined(b, n)
  {
    var c := a + b + [op];
    if AllDefined(c, n) {
      forall i | 0 <= i < |a| && IsOperand(a[i]) ensures a[i] < n { assert c[i] == a[i]; }
      forall i | 0 <= i < |b| && IsOperand(b[i]) ensures b[i] < n { assert c[|a| + i] == b[i]; }
    }
  }

  lemma {:induction false} PrintedExpr(t: Expr, n: nat)
    requires t.Valid() && n <= MAX_NR_OF_TRIGVARS && AllKnown(AsTree(t), ListedNames(n))
    requires WellNamed(AsTree(t)) && Whole(AsTree(t))
    ensures AsExpr(AsTree(t), ListedNames(n)) == t
    decreases t
  {
    hide ListedNames, IsOp, IndexOf, Decimal;
    match t
    case Variable(v) =>
      DecimalIsNoOperator(v);
      ListedIndex(v, n);
    case Node(op, l, r) =>
      PrintedExpr(l, n);
      PrintedExpr(r, n);
  }

  /** Device code, as it is printed and compiled again with triggers named by their numbers: the same code when all
      its variables are triggers and it has fewer than 32 items; an error when one is not; else an overrun. */
  lemma CodeSurvivesRoundTrip(t: Expr, n: nat)
    requires t.Valid() && n <= MAX_NR_OF_TRIGVARS
    ensures CodeOf(t.Infix(" AND ", " OR "), ListedNames(n)) ==
            if !AllDefined(t.Postorder(), n) then Invalid
            else if |t.Postorder()| >= MAX_EXPR_LEN then Overrun
            else Compiled(t.Postorder())
  {
    hide CodeOf, WithOperators, ParseText, ListedNames, Words, WellNamed, Whole, AllKnown, AsExpr, AllDefined, AsTree;
    PrintedOperators(t);
    InfixNotEmpty(t, " & ", " | ");
    InfixParsesBack(t);
    ListedNamesCount(n);
    CodeOfText(t.Infix(" AND ", " OR "), ListedNames(n));
    PrintedTree(t, n);
    if AllDefined(t.Postorder(), n) { PrintedExpr(t, n); }
  }

  lemma ListedNamesCount(n: nat)
    ensures |ListedNames(n)| == n
  {}

  /** A postorder has one operator less than variables, so that 32 items and 31 are the same bound. */
  lemma {:induction false} OddLength(t: Expr)
    ensures |t.Postorder()| % 2 == 1
  {
    if t.Node? {
      OddLength(t.left);
      OddLength(t.right);
    }
  }

  /** Code that a statement's array holds with its terminator always comes back, unless a variable is no trigger. */
  lemma StoredCodeSurvives(postfixExpr: seq<uint8>, t: Expr, n: nat)
    requires |postfixExpr| == MAX_EXPR_LEN && EXPR_OP_NONE in postfixExpr && n <= MAX_NR_OF_TRIGVARS
    requires t.Valid() && t.Postorder() == Code(postfixExpr)
    ensures CodeOf(t.Infix(" AND ", " OR "), ListedNames(n)) ==
            if AllDefined(t.Postorder(), n) then Compiled(Code(postfixExpr)) else Invalid
  {
    hide CodeOf, ListedNames, AllDefined;
    CodeSurvivesRoundTrip(t, n);
  }

  /** Variable 0, k times, joined by OR. */
  function Ors(k: nat): (t: Expr)
    requires k > 0
    ensures t.Valid() && |t.Postorder()| == 2 * k - 1 && AllDefined(t.Postorder(), 1)
  {
    if k == 1 then Variable(0) else Node(EXPR_OP_OR, Ors(k - 1), Variable(0))
  }

  /** Seventeen operands overrun the array of a statement, though each is a trigger; sixteen do not. */
  lemma SeventeenOperandsOverrun()
    ensures CodeOf(Ors(17).Infix(" AND ", " OR "), ListedNames(1)) == Overrun
    ensures CodeOf(Ors(16).Infix(" AND ", " OR "), ListedNames(1)) == Compiled(Ors(16).Postorder())
  {
    hide CodeOf, ListedNames, Ors;
    CodeSurvivesRoundTrip(Ors(17), 1);
    CodeSurvivesRoundTrip(Ors(16), 1);
  }

  // ---- the last step alone -------------------------------------------------------------------

  /** What is stored for a byte that is listed: variables from 32 up have no code. */
  function StoredCode(b: uint8): uint8 {
    if IsOperand(b) && b >= MAX_NR_OF_TRIGVARS then EXPR_OP_NONE else b
  }

  function StoredCodes(code: seq<uint8>): seq<uint8> {
    seq(|code|, i requires 0 <= i < |code| => StoredCode(code[i]))
  }

  lemma {:induction false} CodesOfPrinted(t: Expr)
    requires t.Valid()
    ensures ItemCodes(Words(AsTree(t))) == StoredCodes(t.Postorder())
    decreases t
  {
    hide Atoi, Decimal;
    match t
    case Variable(v) =>
      AtoiDecimal(v);
      DecimalIsNoOperator(v);
    case Node(op, l, r) =>
      CodesOfPrinted(l);
      CodesOfPrinted(r);
      var word := if op == EXPR_OP_AND then "AND" else "OR";
      assert Words(AsTree(t)) == Words(AsTree(l)) + Words(AsTree(r)) + [word];
      assert ItemCode(word) == op == StoredCode(op);
      hide Words, ItemCode, StoredCode, ItemCodes, StoredCodes;
      ItemCodesParts(Words(AsTree(l)), Words(AsTree(r)), word);
      StoredCodesParts(l.Postorder(), r.Postorder(), op);
  }

  lemma ItemCodesParts(a: seq<string>, b: seq<string>, word: string)
    ensures ItemCodes(a + b + [word]) == ItemCodes(a) + ItemCodes(b) + [ItemCode(word)]
  {
    hide ItemCode;
  }

  lemma StoredCodesParts(a: seq<uint8>, b: seq<uint8>, op: uint8)
    ensures StoredCodes(a + b + [op]) == StoredCodes(a) + StoredCodes(b) + [StoredCode(op)]
  {
    hide StoredCode;
  }

  lemma {:induction false} BalanceOfPostorder(t: Expr)
    requires t.Valid()
    ensures Balance(t.Postorder()) == 1
  {
    match t
    case Variable(v) =>
      BalanceOfOne(v);
    case Node(op, l, r) =>
      BalanceOfPostorder(l);
      BalanceOfPostorder(r);
      BalanceSplit(l.Postorder(), r.Postorder());
      BalanceSplit(l.Postorder() + r.Postorder(), [op]);
      BalanceOfOne(op);
  }

  /** Nothing in a listed text needs cleaning, and its items are the words of the printed tree. */
  lemma ListedText(t: Expr)
    requires t.Valid()
    ensures var text := Listed(t.Postorder(), "");
            NoSpace(text) == text && Items(text) == Words(AsTree(t)) && text != ""
  {
    hide Items, NoSpace, WalkExpression, Listed, Words, WellNamed;
    PrintedTree(t, 0);
    WalkListsPostorder(t, "");
    WalkWords(AsTree(t), "");
    NoItems();
    assert [] + Words(AsTree(t)) == Words(AsTree(t));
    PlainIsKept(Listed(t.Postorder(), ""));
  }

  /** The postfix text of a tree compiles into its postorder exactly when its variables are below 32 and there are
      fewer than 32 items. Names are not looked up here. */
  lemma ListedCode(t: Expr)
    requires t.Valid()
    ensures PostfixCode(Listed(t.Postorder(), "")) == Compiled(t.Postorder()) <==>
            AllDefined(t.Postorder(), MAX_NR_OF_TRIGVARS) && |t.Postorder()| < MAX_EXPR_LEN
  {
    var code := t.Postorder();
    ListedText(t);
    NoTerminator(t);
    CodesOfPrinted(t);
    PrintedTree(t, 0);
    BalanceOfPostorder(t);
    hide Listed, Items, NoSpace, Code, ItemCodes, Words, AllDefined, StoredCodes, Balance;
    if AllDefined(code, MAX_NR_OF_TRIGVARS) { StoredUncut(code); } else { StoredCut(code); }
  }

  lemma StoredUncut(code: seq<uint8>)
    requires EXPR_OP_NONE !in code && AllDefined(code, MAX_NR_OF_TRIGVARS)
    ensures Code(StoredCodes(code) + [EXPR_OP_NONE]) == code
  {
    hide Code;
    assert StoredCodes(code) == code;
    CodeStops(code, []);
    assert code + [EXPR_OP_NONE] + [] == code + [EXPR_OP_NONE];
  }

  lemma StoredCut(code: seq<uint8>)
    requires !AllDefined(code, MAX_NR_OF_TRIGVARS)
    ensures Code(StoredCodes(code) + [EXPR_OP_NONE]) != code
  {
    hide Code;
    var i :| 0 <= i < |code| && IsOperand(code[i]) && code[i] >= MAX_NR_OF_TRIGVARS;
    assert StoredCodes(code)[i] == EXPR_OP_NONE;
    CutAt(StoredCodes(code) + [EXPR_OP_NONE], i);
  }

  /** Taken alone, the last step cuts the code at a variable from 32 up, and what is left may pass for an expression. */
  lemma LargeVariableCutsCode()
    ensures PostfixCode(Listed([1, 40, EXPR_OP_AND], "")) == Compiled([1])
  {
    var t := Node(EXPR_OP_AND, Variable(1), Variable(40));
    assert t.Postorder() == [1, 40, EXPR_OP_AND];
    hide Listed, Items, NoSpace, Code, ItemCodes, Words, AsTree, StoredCodes, Balance, Expr.Postorder;
    ListedText(t);
    CodesOfPrinted(t);
    PrintedTree(t, 0);
    LargeVariableStored();
    CodeStops([1], [EXPR_OP_AND, EXPR_OP_NONE]);
    BalanceOfOne(1);
  }

  lemma LargeVariableStored()
    ensures StoredCodes([1, 40, EXPR_OP_AND]) + [EXPR_OP_NONE] == [1] + [EXPR_OP_NONE] + [EXPR_OP_AND, EXPR_OP_NONE]
  {}

  lemma CutAt(written: seq<uint8>, i: nat)
    requires i < |written| && written[i] == EXPR_OP_NONE
    ensures |Code(written)| <= i
  {
    var code := Code(written);
    forall j | 0 <= j < |code| ensures written[j] != EXPR_OP_NONE {
      assert written[j] == code[j] && code[j] in code;
    }
  }
}
