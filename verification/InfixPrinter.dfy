/** Postfix trigger expressions, as the device stores them, printed as infix text. */
module InfixPrinter {
  import opened Bits
  import opened ExprGrammar
  import opened ExprTheorems

  const EXPR_OP_NONE: uint8 := 100
  const EXPR_OP_AND: uint8 := 101
  const EXPR_OP_OR: uint8 := 102

  predicate IsOperand(b: uint8) {
    b != EXPR_OP_NONE && b != EXPR_OP_AND && b != EXPR_OP_OR
  }

  // ---- specification ---------------------------------------------------------------------

  datatype Expr =
    | Variable(v: uint8)
    | Node(op: uint8, left: Expr, right: Expr)
  {
    predicate Valid() {
      match this
      case Variable(v) => IsOperand(v)
      case Node(op, l, r) => (op == EXPR_OP_AND || op == EXPR_OP_OR) && l.Valid() && r.Valid()
    }

    function Postorder(): (code: seq<uint8>)
      ensures code != []
    {
      match this
      case Variable(v) => [v]
      case Node(op, l, r) => l.Postorder() + r.Postorder() + [op]
    }

    /** The fully parenthesised text, with the operators spelled as given. */
    function Infix(andText: string, orText: string): string {
      match this
      case Variable(v) => Decimal(v)
      case Node(op, l, r) =>
        "(" + l.Infix(andText, orText) + (if op == EXPR_OP_AND then andText else orText) + r.Infix(andText, orText) + ")"
    }
  }

  function Decimal(n: nat): (s: string)
    ensures |s| > 0 && (s[0] == '0' ==> n == 0 && s == "0")
    ensures forall i :: 0 <= i < |s| ==> '0' <= s[i] <= '9'
  {
    if n < 10 then [Digit(n)] else Decimal(n / 10) + [Digit(n % 10)]
  }

  function Digit(d: nat): (c: char)
    requires d < 10
    ensures '0' <= c <= '9'
  {
    '0' + d as char
  }

  /** The stack of trees after some code, or nothing if an operator finds too few of them. */
  datatype Stack = Underflow | Holding(trees: seq<Expr>)

  function Push(st: Stack, b: uint8): Stack
    requires b != EXPR_OP_NONE
  {
    match st
    case Underflow => Underflow
    case Holding(ts) =>
      var n := |ts|;
      if IsOperand(b) then Holding(ts + [Variable(b)])
      else if n < 2 then Underflow
      else Holding(ts[..n - 2] + [Node(b, ts[n - 2], ts[n - 1])])
  }

  function Run(st: Stack, code: seq<uint8>): Stack
    requires EXPR_OP_NONE !in code
    decreases |code|
  {
    if code == [] then st else Run(Push(st, code[0]), code[1..])
  }

  /** The code before the terminator. */
  function Code(postfixExpr: seq<uint8>): (code: seq<uint8>)
    requires EXPR_OP_NONE in postfixExpr
    ensures |code| < |postfixExpr| && code == postfixExpr[..|code|]
    ensures EXPR_OP_NONE !in code && postfixExpr[|code|] == EXPR_OP_NONE
  {
    if postfixExpr[0] == EXPR_OP_NONE then [] else [postfixExpr[0]] + Code(postfixExpr[1..])
  }

  // ---- the code ----------------------------------------------------------------------------

  /** `EmptyStack` stands for a read of the top of an empty stack. */
  datatype Outcome = Text(text: string) | TooFewSymbols | StackNotEmpty | EmptyStack

  function Infixes(ts: seq<Expr>): seq<string> {
    seq(|ts|, i requires 0 <= i < |ts| => ts[i].Infix(" AND ", " OR "))
  }

  /** Prints the code before the terminator: succeeds exactly when that is the postorder of some tree, and
      then gives that tree's text. */
  method GetInfixExpr(postfixExpr: seq<uint8>) returns (r: Outcome)
    requires EXPR_OP_NONE in postfixExpr
    ensures r.Text? <==> exists t: Expr :: t.Valid() && t.Postorder() == Code(postfixExpr)
    ensures forall t: Expr :: t.Valid() && t.Postorder() == Code(postfixExpr) ==> r == Text(t.Infix(" AND ", " OR "))
    ensures r.EmptyStack? <==> postfixExpr[0] == EXPR_OP_NONE
    ensures r.TooFewSymbols? <==> Run(Holding([]), Code(postfixExpr)).Underflow?
  {
    var symbolStack: seq<string> := [];
    ghost var trees: seq<Expr> := [];
    ghost var code := Code(postfixExpr);
    ghost var whole := Run(Holding([]), code);
    RunIsPostorder(code);
    var j := 0;
    hide Expr.Infix, Expr.Postorder, Code;
    while postfixExpr[j] != EXPR_OP_NONE
      invariant 0 <= j <= |code|
      invariant symbolStack == Infixes(trees) && (j > 0 ==> trees != [])
      invariant Run(Holding(trees), code[j..]) == whole
      decreases |code| - j
    {
      var b := postfixExpr[j];
      RunNext(Holding(trees), code, j);
      StackStep(trees, b);
      if b != EXPR_OP_AND && b != EXPR_OP_OR {
        symbolStack := symbolStack + [Decimal(b)];
      } else {
        var theOperator := if b == EXPR_OP_AND then " AND " else " OR ";
        var n := |symbolStack|;
        if n >= 2 {
          var symbol1, symbol2 := symbolStack[n - 1], symbolStack[n - 2];
          symbolStack := symbolStack[..n - 2] + ["(" + symbol2 + theOperator + symbol1 + ")"];
        } else {
          RunUnderflow(code[j + 1..]);
          return TooFewSymbols;
        }
      }
      trees := Push(Holding(trees), b).trees;
      j := j + 1;
    }
    if symbolStack == [] { return EmptyStack; }
    var infixString := symbolStack[|symbolStack| - 1];
    symbolStack := symbolStack[..|symbolStack| - 1];
    assert whole == Holding(trees);
    if symbolStack != [] {
      return StackNotEmpty;
    }
    r := Text(infixString);
    assert whole == Holding([trees[0]]);
    assert trees[0].Valid() && trees[0].Postorder() == code;
  }

  lemma RunNext(st: Stack, code: seq<uint8>, j: nat)
    requires EXPR_OP_NONE !in code && j < |code|
    ensures Run(st, code[j..]) == Run(Push(st, code[j]), code[j + 1..])
  {
    assert code[j..][1..] == code[j + 1..];
  }

  /** The strings on the stack are the texts of the trees there, before and after one more byte. */
  lemma StackStep(ts: seq<Expr>, b: uint8)
    requires b != EXPR_OP_NONE
    ensures var n, st := |ts|, Push(Holding(ts), b);
            if IsOperand(b) then st.Holding? && Infixes(st.trees) == Infixes(ts) + [Decimal(b)]
            else if n < 2 then st == Underflow
            else
              && st.Holding?
              && Infixes(st.trees) == Infixes(ts)[..n - 2] +
                  ["(" + Infixes(ts)[n - 2] + (if b == EXPR_OP_AND then " AND " else " OR ") + Infixes(ts)[n - 1] + ")"]
    ensures Push(Holding(ts), b).Holding? ==> Push(Holding(ts), b).trees != []
  {}

  lemma {:induction false} RunUnderflow(code: seq<uint8>)
    requires EXPR_OP_NONE !in code
    ensures Run(Underflow, code) == Underflow
    decreases |code|
  {
    if code != [] { RunUnderflow(code[1..]); }
  }

  // ---- the stack machine inverts postorder ------------------------------------------------------

  /** The code that the trees on the stack came from. */
  function Flatten(ts: seq<Expr>): seq<uint8> {
    if ts == [] then [] else Flatten(ts[..|ts| - 1]) + ts[|ts| - 1].Postorder()
  }

  predicate AllValid(ts: seq<Expr>) {
    forall i :: 0 <= i < |ts| ==> ts[i].Valid()
  }

  lemma {:induction false} NoTerminator(t: Expr)
    requires t.Valid()
    ensures EXPR_OP_NONE !in t.Postorder()
  {
    if t.Node? {
      NoTerminator(t.left);
      NoTerminator(t.right);
    }
  }

  lemma FlattenLast(ts: seq<Expr>, t: Expr)
    ensures Flatten(ts + [t]) == Flatten(ts) + t.Postorder()
  {
    assert (ts + [t])[..|ts|] == ts;
  }

  lemma PushKeepsCode(ts: seq<Expr>, b: uint8)
    requires b != EXPR_OP_NONE && AllValid(ts) && Push(Holding(ts), b).Holding?
    ensures AllValid(Push(Holding(ts), b).trees) && Flatten(Push(Holding(ts), b).trees) == Flatten(ts) + [b]
  {
    hide Flatten;
    if IsOperand(b) {
      FlattenLast(ts, Variable(b));
    } else {
      var n := |ts|;
      var us, l, r := ts[..n - 2], ts[n - 2], ts[n - 1];
      FlattenLast(us, Node(b, l, r));
      FlattenLast(us, l);
      FlattenLast(us + [l], r);
      assert us + [l] + [r] == ts;
    }
  }

  lemma {:induction false} RunKeepsCode(ts: seq<Expr>, code: seq<uint8>)
    requires EXPR_OP_NONE !in code && AllValid(ts) && Run(Holding(ts), code).Holding?
    ensures var us := Run(Holding(ts), code).trees; AllValid(us) && Flatten(us) == Flatten(ts) + code
    decreases |code|
  {
    hide Push, Flatten;
    if code != [] {
      if Push(Holding(ts), code[0]).Underflow? {
        RunUnderflow(code[1..]);
      } else {
        PushKeepsCode(ts, code[0]);
        RunKeepsCode(Push(Holding(ts), code[0]).trees, code[1..]);
        assert code == [code[0]] + code[1..];
      }
    }
  }

  lemma {:induction false} RunSplit(st: Stack, a: seq<uint8>, b: seq<uint8>)
    requires EXPR_OP_NONE !in a && EXPR_OP_NONE !in b
    ensures Run(st, a + b) == Run(Run(st, a), b)
    decreases |a|
  {
    hide Push;
    if a == [] {
      assert a + b == b;
    } else {
      assert (a + b)[1..] == a[1..] + b;
      RunSplit(Push(st, a[0]), a[1..], b);
    }
  }

  /** Running a tree's postorder pushes the tree. */
  lemma {:induction false} RunPostorder(ts: seq<Expr>, t: Expr)
    requires t.Valid()
    ensures EXPR_OP_NONE !in t.Postorder() && Run(Holding(ts), t.Postorder()) == Holding(ts + [t])
    decreases t
  {
    NoTerminator(t);
    match t
    case Variable(v) =>
      assert Run(Holding(ts), [v]) == Run(Push(Holding(ts), v), []);
    case Node(op, l, r) =>
      NoTerminator(l);
      NoTerminator(r);
      RunPostorder(ts, l);
      RunPostorder(ts + [l], r);
      RunSplit(Holding(ts), l.Postorder() + r.Postorder(), [op]);
      RunSplit(Holding(ts), l.Postorder(), r.Postorder());
      var us := ts + [l] + [r];
      assert Run(Holding(us), [op]) == Run(Push(Holding(us), op), []);
      assert us[..|us| - 2] == ts;
  }

  /** Code leaves exactly the tree t on the stack if and only if it is t's postorder. */
  lemma RunIsPostorder(code: seq<uint8>)
    requires EXPR_OP_NONE !in code
    ensures forall t: Expr :: Run(Holding([]), code) == Holding([t]) <==> t.Valid() && t.Postorder() == code
  {
    forall t: Expr ensures Run(Holding([]), code) == Holding([t]) <==> t.Valid() && t.Postorder() == code {
      if t.Valid() && t.Postorder() == code {
        RunPostorder([], t);
        assert [] + [t] == [t];
      }
      if Run(Holding([]), code) == Holding([t]) {
        RunKeepsCode([], code);
        assert [t][..0] == [];
        assert Flatten([t]) == t.Postorder();
      }
    }
  }

  // ---- compiling the text again ------------------------------------------------------------------

  function OperatorKind(op: uint8): Kind {
    if op == EXPR_OP_AND then OpAnd else OpOr
  }

  /** The tree that the expression parser builds. */
  function AsTree(t: Expr): Tree {
    match t
    case Variable(v) => Name(Decimal(v))
    case Node(op, l, r) => Op(OperatorKind(op), AsTree(l), AsTree(r))
  }

  function AsSyntax(t: Expr, pre: string): Syntax {
    match t
    case Variable(v) => Word(pre, Decimal(v))
    case Node(op, l, r) => Group(pre, Pair(AsSyntax(l, ""), " ", OperatorKind(op), AsSyntax(r, " ")), "")
  }

  lemma {:induction false} SyntaxOfInfix(t: Expr, pre: string)
    requires Blank(pre)
    ensures AsSyntax(t, pre).WellFormed() && !AsSyntax(t, pre).Pair? && AsSyntax(t, pre).Erase() == AsTree(t)
    ensures AsSyntax(t, pre).Text() == pre + t.Infix(" & ", " | ")
    decreases t
  {
    match t
    case Variable(v) =>
    case Node(op, l, r) =>
      SyntaxOfInfix(l, "");
      SyntaxOfInfix(r, " ");
      var c := AsSyntax(t, pre);
      var a, b := l.Infix(" & ", " | "), r.Infix(" & ", " | ");
      hide Syntax.Text, Expr.Infix;
      PairText(c.inner, a, b);
      GroupText(c, if op == EXPR_OP_AND then " & " else " | ", a, b);
  }

  lemma PairText(c: Syntax, a: string, b: string)
    requires c.Pair? && c.pre == " " && IsOperator(c.op) && c.left.Text() == "" + a && c.right.Text() == " " + b
    ensures c.Text() == a + (if c.op == OpAnd then " & " else " | ") + b
  {
    assert " " + OperatorText(c.op) + (" " + b) == (if c.op == OpAnd then " & " else " | ") + b;
    assert c.Text() == a + (" " + OperatorText(c.op) + (" " + b));
  }

  lemma GroupText(c: Syntax, op: string, a: string, b: string)
    requires c.Group? && c.post == "" && c.inner.Text() == a + op + b
    ensures c.Text() == c.pre + ("(" + a + op + b + ")")
  {
    assert c.Text() == c.pre + "(" + (a + op + b) + ")";
  }

  /** With its operators spelled "&" and "|" the printed text parses into the tree it was printed from. */
  lemma InfixParsesBack(t: Expr)
    ensures ParseText(t.Infix(" & ", " | ")) == AsTree(t) && !ParseText(t.Infix(" & ", " | ")).HasErrors()
  {
    SyntaxOfInfix(t, "");
    ParseAcceptsText(AsSyntax(t, ""), "");
    assert AsSyntax(t, "").Text() + "" == t.Infix(" & ", " | ");
  }

  /** The walk over the token tree that writes the postfix text. */
  function WalkExpression(t: Tree, postfix: string): string {
    match t
    case Op(op, l, r) => WalkExpression(r, WalkExpression(l, postfix)) + if op == OpAnd then ",AND" else ",OR"
    case Name(name) => (if postfix != "" then postfix + "," else postfix) + name
    case _ => postfix
  }

  function Item(b: uint8, postfix: string): string {
    if b == EXPR_OP_AND then postfix + ",AND"
    else if b == EXPR_OP_OR then postfix + ",OR"
    else (if postfix != "" then postfix + "," else postfix) + Decimal(b)
  }

  /** Postfix text of device code: the items in order, separated by commas. */
  function Listed(code: seq<uint8>, postfix: string): string {
    if code == [] then postfix else Listed(code[1..], Item(code[0], postfix))
  }

  lemma {:induction false} ListedSplit(a: seq<uint8>, b: seq<uint8>, postfix: string)
    ensures Listed(a + b, postfix) == Listed(b, Listed(a, postfix))
    decreases |a|
  {
    hide Item;
    if a == [] {
      assert a + b == b;
    } else {
      assert (a + b)[1..] == a[1..] + b;
      ListedSplit(a[1..], b, Item(a[0], postfix));
    }
  }

  lemma {:induction false} WalkListsPostorder(t: Expr, postfix: string)
    requires t.Valid()
    ensures WalkExpression(AsTree(t), postfix) == Listed(t.Postorder(), postfix)
    decreases t
  {
    match t
    case Variable(v) =>
      assert [v][1..] == [];
    case Node(op, l, r) =>
      WalkListsPostorder(l, postfix);
      WalkListsPostorder(r, WalkExpression(AsTree(l), postfix));
      ListedSplit(l.Postorder() + r.Postorder(), [op], postfix);
      ListedSplit(l.Postorder(), r.Postorder(), postfix);
      assert [op][1..] == [];
  }

  /** Device code, printed as text and parsed, is written out as the postfix text of that code. */
  lemma PostfixTextSurvives(t: Expr)
    requires t.Valid()
    ensures WalkExpression(ParseText(t.Infix(" & ", " | ")), "") == Listed(t.Postorder(), "")
  {
    InfixParsesBack(t);
    WalkListsPostorder(t, "");
  }
}
