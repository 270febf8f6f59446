/** What the trigger expression parser reports about texts that leave the grammar, and where. Each lemma takes a
    text of the grammar that goes on, or begins, in a wrong way. */
module ExprErrors {
  import opened ExprGrammar
  import opened ExprTheorems

  /** A text of the grammar, and what follows it. */
  lemma TextThen(c: Syntax, more: string)
    requires c.WellFormed() && more != "" && !IsLetterOrDigit(more[0])
    ensures var s, n := c.Text() + more, |c.Text()|;
            Parse(s, 0) == After(s, n, c) && At(s, n, more)
  {
    hide Parse, After;
    var s := c.Text() + more;
    assert At(s, 0, s);
    AtParts(s, 0, c.Text(), more);
    assert s[|c.Text()|] == more[0];
    ParseOfText(s, 0, c);
  }

  lemma SymbolAfter(c: Syntax, symbol: char, more: string)
    requires c.WellFormed() && (symbol == '&' || symbol == '|' || symbol == '(' || symbol == ')')
    ensures var s, n := c.Text() + ([symbol] + more), |c.Text()|;
            Parse(s, 0) == After(s, n, c) && Lex(s, n) == Lexeme(Symbol(symbol), n, n, n + 1) && At(s, n + 1, more)
  {
    hide Parse, After, Lex;
    var s, n := c.Text() + ([symbol] + more), |c.Text()|;
    TextThen(c, [symbol] + more);
    AtParts(s, n, [symbol], more);
    assert "" + [symbol] == [symbol];
    LexSymbol(s, n, "", symbol);
  }

  function Earlier(c: Syntax): Tree {
    if c.Pair? then c.Erase() else Null
  }

  lemma OperatorAfter(c: Syntax, op: char, more: string)
    requires c.WellFormed() && (op == '&' || op == '|')
    ensures var s, n := c.Text() + ([op] + more), |c.Text()|;
            At(s, n + 1, more) && Parse(s, 0) == AfterOperator(s, n + 1, Symbol(op), c.Erase(), Earlier(c))
  {
    hide Parse, Lex, AfterOperator, At;
    var s, n := c.Text() + ([op] + more), |c.Text()|;
    SymbolAfter(c, op, more);
    AtInside(s, n + 1, more);
    AfterIsAfterOperator(s, n, c);
  }

  /** No operand after an operator. */
  lemma NoOperand(s: string, p: nat, op: Kind, left: Tree, earlier: Tree)
    requires p <= |s| && !Operand(s, p).Got?
    ensures AfterOperator(s, p, op, left, earlier) ==
            var r := Operand(s, p); (if r.Stop? then r.tree else earlier, r.pos)
  {
    hide Operand, AfterPair;
  }

  lemma EndOfText(s: string)
    ensures Lex(s, |s|) == Lexeme(Eol, |s|, |s|, |s|)
    ensures Operand(s, |s|) == Stop(Error(EmptyExpr, |s|), |s|)
  {}

  /** An operator at the end. */
  lemma OperandMissing(c: Syntax, op: char)
    requires c.WellFormed() && (op == '&' || op == '|')
    ensures ParseText(c.Text() + [op]) == Error(EmptyExpr, |c.Text()| + 1)
  {
    hide Lex, Parse, Operand, AfterOperator, At;
    var s := c.Text() + [op];
    assert [op] + "" == [op];
    OperatorAfter(c, op, "");
    EndOfText(s);
    NoOperand(s, |s|, Symbol(op), c.Erase(), Earlier(c));
  }

  /** Two operators. */
  lemma OperatorTwice(c: Syntax, op: char, second: char)
    requires c.WellFormed() && (op == '&' || op == '|') && (second == '&' || second == '|')
    ensures ParseText(c.Text() + [op, second]) == Error(ExtraOperator, |c.Text()| + 2)
  {
    hide Lex, Parse, AfterOperator, At;
    var s, n := c.Text() + [op, second], |c.Text()|;
    assert [op] + [second] == [op, second] && "" + [second] == [second];
    OperatorAfter(c, op, [second]);
    LexSymbol(s, n + 1, "", second);
    NoOperand(s, n + 1, Symbol(op), c.Erase(), Earlier(c));
  }

  /** A ")" in place of an operand: the first pair is lost, a later one only loses the operator. */
  lemma OperatorThenClose(c: Syntax, op: char)
    requires c.WellFormed() && (op == '&' || op == '|')
    ensures ParseText(c.Text() + [op, ')']) == if c.Pair? then c.Erase() else Error(EmptyExpr, 0)
  {
    hide Lex, Parse, AfterOperator, At;
    var s, n := c.Text() + [op, ')'], |c.Text()|;
    assert [op] + ")" == [op, ')'] && "" + ")" == ")";
    OperatorAfter(c, op, ")");
    LexSymbol(s, n + 1, "", ')');
    NoOperand(s, n + 1, Symbol(op), c.Erase(), Earlier(c));
    EraseHasNoErrors(c);
  }

  /** A ")" too many. */
  lemma CloseTooMany(c: Syntax)
    requires c.WellFormed()
    ensures ParseText(c.Text() + ")") == Error(TrailingGarbage, |c.Text()|)
  {
    assert ")" + "" == ")";
    SymbolAfter(c, ')', "");
    hide Lex, Parse;
  }

  /** A group after an expression, without an operator. */
  lemma GroupAfterText(c: Syntax)
    requires c.WellFormed()
    ensures ParseText(c.Text() + "(") ==
            if c.Pair? then Error(TrailingGarbage, |c.Text()|) else Error(MissingOperator, |c.Text()| + 1)
  {
    assert "(" + "" == "(";
    SymbolAfter(c, '(', "");
    hide Lex, Parse;
  }

  /** A name after an expression, without an operator. */
  lemma NameAfterText(c: Syntax, name: string)
    requires c.WellFormed() && IsName(name)
    ensures ParseText(c.Text() + (" " + name)) ==
            if c.Pair? then Error(TrailingGarbage, |c.Text()|) else Error(MissingOperator, |c.Text()| + 1 + |name|)
  {
    var s, n := c.Text() + (" " + name), |c.Text()|;
    TextThen(c, " " + name);
    BlankIs(" ");
    hide Blank, IsName;
    LexName(s, n, " ", name);
    hide Lex, Parse;
  }

  /** A character of no token. */
  lemma LexIllegal(s: string, p: nat)
    requires p < |s| && s[p] !in LETTERS + SMALL_LETTERS + DIGITS + "_-" && s[p] !in WHITE_SPACE && s[p] !in "&|()"
    ensures Lex(s, p) == Lexeme(Illegal, p, p, p + 1) && !IsLetterOrDigit(s[p])
  {
    Alphabet(s[p]);
    hide IsLetterOrDigit, IsSpace;
  }

  lemma IllegalAfterText(c: Syntax, x: char)
    requires c.WellFormed()
    requires x !in LETTERS + SMALL_LETTERS + DIGITS + "_-" && x !in WHITE_SPACE && x !in "&|()"
    ensures ParseText(c.Text() + [x]) ==
            if c.Pair? then Error(TrailingGarbage, |c.Text()|) else Error(IllegalCharacter, |c.Text()|)
  {
    var s, n := c.Text() + [x], |c.Text()|;
    LexIllegal(s, n);
    TextThen(c, [x]);
    hide Lex, Parse;
  }

  lemma IllegalOperand(c: Syntax, op: char, x: char)
    requires c.WellFormed() && (op == '&' || op == '|')
    requires x !in LETTERS + SMALL_LETTERS + DIGITS + "_-" && x !in WHITE_SPACE && x !in "&|()"
    ensures ParseText(c.Text() + [op, x]) == Error(IllegalCharacter, |c.Text()| + 1)
  {
    hide Lex, Parse, AfterOperator, At;
    var s, n := c.Text() + [op, x], |c.Text()|;
    assert [op] + [x] == [op, x];
    OperatorAfter(c, op, [x]);
    LexIllegal(s, n + 1);
    NoOperand(s, n + 1, Symbol(op), c.Erase(), Earlier(c));
  }

  /** A group that is not closed. */
  lemma GroupNotClosed(c: Syntax)
    requires c.WellFormed()
    ensures ParseText("(" + c.Text()) == Error(UnbalancedParen, |c.Text()| + 1)
  {
    var s := "(" + c.Text();
    assert At(s, 0, s);
    AtParts(s, 0, "(", c.Text());
    assert "" + "(" == "(";
    LexSymbol(s, 0, "", '(');
    ParseOfText(s, 1, c);
    AfterAtEnd(s, c);
    EndOfText(s);
    hide Lex, After, AfterOperand, Parse;
    GroupFails(s, c);
  }

  lemma AfterAtEnd(s: string, c: Syntax)
    ensures After(s, |s|, c) == (c.Erase(), |s|)
  {
    EndOfText(s);
    hide Lex;
  }

  lemma GroupFails(s: string, c: Syntax)
    requires |s| > 0 && Lex(s, 0).kind == LParen && Lex(s, 0).next == 1
    requires Parse(s, 1) == (c.Erase(), |s|) && Lex(s, |s|).kind == Eol
    ensures Parse(s, 0) == (Error(UnbalancedParen, |s|), |s|)
  {
    hide Lex, AfterOperand;
    assert Operand(s, 0) == Stop(Error(UnbalancedParen, |s|), |s|);
  }

  /** Nothing, and a ")" at the beginning. */
  lemma NothingThere()
    ensures ParseText("") == Error(EmptyExpr, 0)
    ensures ParseText(")") == Error(ExtraRParen, 1)
  {
    EndOfText("");
    assert "" + ")" == ")";
    LexSymbol(")", 0, "", ')');
    hide Lex;
  }
}
