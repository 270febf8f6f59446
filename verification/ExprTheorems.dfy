/** Which texts the trigger expression parser accepts, and what tree they get. */
module ExprTheorems {
  import opened ExprGrammar

  // ---- the alphabet of the grammar ------------------------------------------------------

  const LETTERS := "ABCDEFGHIJKLMNOPQRSTUVWXYZ"
  const SMALL_LETTERS := "abcdefghijklmnopqrstuvwxyz"
  const DIGITS := "0123456789"

  /** Blank, tabulator, newline, vertical tabulator, form feed and return. */
  const WHITE_SPACE: string := [32 as char, 9 as char, 10 as char, 11 as char, 12 as char, 13 as char]

  predicate Blank(w: string) {
    forall i :: 0 <= i < |w| ==> w[i] in WHITE_SPACE
  }

  predicate IsName(w: string) {
    |w| > 0 && forall i :: 0 <= i < |w| ==> w[i] in LETTERS + SMALL_LETTERS + DIGITS + "_-"
  }

  lemma LetterRange(c: char)
    ensures c in LETTERS <==> 'A' <= c <= 'Z'
  {
    if 'A' <= c <= 'Z' { assert LETTERS[(c - 'A') as int] == c; }
  }

  lemma SmallLetterRange(c: char)
    ensures c in SMALL_LETTERS <==> 'a' <= c <= 'z'
  {
    if 'a' <= c <= 'z' { assert SMALL_LETTERS[(c - 'a') as int] == c; }
  }

  lemma DigitRange(c: char)
    ensures c in DIGITS <==> '0' <= c <= '9'
  {
    if '0' <= c <= '9' { assert DIGITS[(c - '0') as int] == c; }
  }

  /** The lexer tells names by their characters, and white space likewise. */
  lemma Alphabet(c: char)
    ensures IsLetterOrDigit(c) <==> c in LETTERS + SMALL_LETTERS + DIGITS + "_-"
    ensures IsSpace(c) <==> c in WHITE_SPACE
  {
    LetterRange(c);
    SmallLetterRange(c);
    DigitRange(c);
  }

  lemma NameIs(w: string)
    ensures IsName(w) <==> |w| > 0 && forall i :: 0 <= i < |w| ==> IsLetterOrDigit(w[i])
  {
    hide IsLetterOrDigit;
    forall i | 0 <= i < |w|
      ensures IsLetterOrDigit(w[i]) <==> w[i] in LETTERS + SMALL_LETTERS + DIGITS + "_-"
    {
      Alphabet(w[i]);
    }
  }

  lemma BlankIs(w: string)
    ensures Blank(w) <==> forall i :: 0 <= i < |w| ==> IsSpace(w[i])
  {
    hide IsSpace;
    forall i | 0 <= i < |w| ensures IsSpace(w[i]) <==> w[i] in WHITE_SPACE {
      Alphabet(w[i]);
    }
  }

  function OperatorText(op: Kind): string {
    if op.OpOr? then "|" else "&"
  }

  /** A text of the grammar, with its white space: names, groups, and operators that associate to the left. */
  datatype Syntax =
    | Word(pre: string, name: string)
    | Group(pre: string, inner: Syntax, post: string)
    | Pair(left: Syntax, pre: string, op: Kind, right: Syntax)
  {
    predicate WellFormed() {
      match this
      case Word(pre, name) => Blank(pre) && IsName(name)
      case Group(pre, inner, post) => Blank(pre) && inner.WellFormed() && Blank(post)
      case Pair(left, pre, op, right) =>
        left.WellFormed() && Blank(pre) && IsOperator(op) && right.WellFormed() && !right.Pair?
    }

    function Text(): string {
      match this
      case Word(pre, name) => pre + name
      case Group(pre, inner, post) => pre + "(" + inner.Text() + (post + ")")
      case Pair(left, pre, op, right) => left.Text() + (pre + OperatorText(op)) + right.Text()
    }

    function Erase(): Tree {
      match this
      case Word(_, name) => Name(name)
      case Group(_, inner, _) => inner.Erase()
      case Pair(left, _, op, right) => Op(op, left.Erase(), right.Erase())
    }
  }

  /** No operator stands directly before a ")", from position p on. */
  predicate Clean(s: string, p: nat)
    requires p <= |s|
    decreases |s| - p
  {
    var t := Lex(s, p);
    t.kind.Eol? || (!(IsOperator(t.kind) && Lex(s, t.next).kind.RParen?) && Clean(s, t.next))
  }

  predicate At(s: string, p: nat, text: string) {
    p + |text| <= |s| && s[p..p + |text|] == text
  }

  lemma AtParts(s: string, p: nat, a: string, b: string)
    ensures At(s, p, a + b) <==> At(s, p, a) && At(s, p + |a|, b)
  {
    if At(s, p, a + b) {
      assert s[p..p + |a|] == s[p..p + |a + b|][..|a|];
      assert s[p + |a|..p + |a| + |b|] == s[p..p + |a + b|][|a|..];
    }
    if At(s, p, a) && At(s, p + |a|, b) {
      assert s[p..p + |a + b|] == s[p..p + |a|] + s[p + |a|..p + |a| + |b|];
    }
  }

  // ---- tokens in a text -----------------------------------------------------------------

  lemma {:induction false} SkipBlank(s: string, p: nat, w: string)
    requires Blank(w) && At(s, p, w)
    requires p + |w| < |s| ==> !IsSpace(s[p + |w|])
    ensures SkipSpace(s, p) == p + |w|
    decreases |w|
  {
    BlankIs(w);
    hide Blank;
    if w != [] {
      assert s[p] == s[p..p + |w|][0] == w[0];
      assert s[p + 1..p + 1 + |w[1..]|] == s[p..p + |w|][1..];
      BlankIs(w[1..]);
      SkipBlank(s, p + 1, w[1..]);
    }
  }

  lemma LexSymbol(s: string, p: nat, pre: string, c: char)
    requires Blank(pre) && At(s, p, pre + [c])
    requires c == '&' || c == '|' || c == '(' || c == ')'
    ensures var q := p + |pre|; Lex(s, p) == Lexeme(Symbol(c), q, q, q + 1)
  {
    hide Blank;
    AtParts(s, p, pre, [c]);
    assert s[p + |pre|] == s[p + |pre|..p + |pre| + 1][0];
    SkipBlank(s, p, pre);
  }

  predicate Boundary(s: string, p: nat) {
    p < |s| ==> !IsLetterOrDigit(s[p])
  }

  lemma {:induction false} NameEnd(s: string, p: nat, w: string)
    requires At(s, p, w) && Boundary(s, p + |w|)
    requires forall i :: 0 <= i < |w| ==> IsLetterOrDigit(w[i])
    ensures IdEnd(s, p) == p + |w|
    decreases |w|
  {
    if w != [] {
      assert s[p] == s[p..p + |w|][0] == w[0];
      assert s[p + 1..p + 1 + |w[1..]|] == s[p..p + |w|][1..];
      NameEnd(s, p + 1, w[1..]);
    }
  }

  lemma LexName(s: string, p: nat, pre: string, name: string)
    requires Blank(pre) && IsName(name) && At(s, p, pre + name)
    requires Boundary(s, p + |pre + name|)
    ensures var q := p + |pre|; Lex(s, p) == Lexeme(Ident(name), q, q + |name|, q + |name|)
  {
    NameIs(name);
    hide Blank, IsName;
    var q := p + |pre|;
    AtParts(s, p, pre, name);
    assert s[q] == s[q..q + |name|][0] == name[0];
    SkipBlank(s, p, pre);
    NameEnd(s, q, name);
  }

  /** White space and a symbol other than a name after position q. */
  lemma BoundaryBefore(s: string, q: nat, pre: string, c: char)
    requires Blank(pre) && At(s, q, pre + [c]) && !IsLetterOrDigit(c)
    ensures Boundary(s, q)
  {
    BlankIs(pre);
    hide Blank;
    assert s[q] == s[q..q + |pre + [c]|][0] == (pre + [c])[0];
  }

  // ---- every text of the grammar is parsed ----------------------------------------------

  /** Where the parser stands after the text of c. */
  function After(s: string, q: nat, c: Syntax): (Tree, nat)
    requires q <= |s|
  {
    if c.Pair? then AfterPair(s, q, c.Erase()) else AfterOperand(s, q, c.Erase(), Null)
  }

  lemma GroupStep(s: string, p: nat, p1: nat, p2: nat, p3: nat, inner: Syntax)
    requires p <= |s| && p1 <= |s| && p2 <= |s|
    requires Lex(s, p).kind == LParen && Lex(s, p).next == p1
    requires Parse(s, p1) == After(s, p2, inner)
    requires Lex(s, p2).kind == RParen && Lex(s, p2).next == p3
    ensures Operand(s, p) == Got(inner.Erase(), p3)
  {
    hide Lex, Parse;
  }

  lemma PairStep(s: string, p: nat, p1: nat, p2: nat, p3: nat, left: Syntax, op: Kind, right: Tree)
    requires p <= |s| && p1 <= |s| && p2 <= |s| && p3 <= |s| && IsOperator(op)
    requires Parse(s, p) == After(s, p1, left)
    requires Lex(s, p1).kind == op && Lex(s, p1).next == p2
    requires Operand(s, p2) == Got(right, p3)
    ensures Parse(s, p) == AfterPair(s, p3, Op(op, left.Erase(), right))
  {
    hide Lex, Parse, Operand;
    var pair := Op(op, left.Erase(), right);
    assert AfterOperator(s, p2, op, left.Erase(), left.Erase()) == AfterPair(s, p3, pair);
    assert AfterOperator(s, p2, op, left.Erase(), Null) == AfterPair(s, p3, pair);
  }

  lemma WordOperand(s: string, p: nat, c: Syntax)
    requires c.Word? && c.WellFormed() && At(s, p, c.Text()) && Boundary(s, p + |c.Text()|)
    ensures Operand(s, p) == Got(c.Erase(), p + |c.Text()|)
  {
    hide Lex, Parse, IsName, Blank, Boundary;
    LexName(s, p, c.pre, c.name);
  }

  lemma {:induction false} OperandOfText(s: string, p: nat, c: Syntax)
    requires c.WellFormed() && !c.Pair? && At(s, p, c.Text()) && Boundary(s, p + |c.Text()|)
    ensures Operand(s, p) == Got(c.Erase(), p + |c.Text()|)
    decreases c, 0
  {
    match c
    case Word(pre, name) =>
      WordOperand(s, p, c);
    case Group(pre, inner, post) =>
      hide Lex, Parse, Operand, After, At, Boundary, Syntax.Text, Blank, IsName;
      var p1 := p + |pre| + 1;
      var p2 := p1 + |inner.Text()|;
      GroupTokens(s, p, c, p1, p2);
      ParseOfText(s, p1, inner);
      GroupStep(s, p, p1, p2, p2 + |post| + 1, inner);
  }

  lemma GroupTokens(s: string, p: nat, c: Syntax, p1: nat, p2: nat)
    requires c.Group? && c.WellFormed() && At(s, p, c.Text())
    requires p1 == p + |c.pre| + 1 && p2 == p1 + |c.inner.Text()|
    ensures p2 + |c.post| + 1 == p + |c.Text()| <= |s| && At(s, p1, c.inner.Text()) && Boundary(s, p2)
    ensures Lex(s, p).kind == LParen && Lex(s, p).next == p1
    ensures Lex(s, p2).kind == RParen && Lex(s, p2).next == p2 + |c.post| + 1
  {
    hide At, Boundary, Syntax.Text, Blank, IsName, Lex;
    GroupParts(s, p, c, p1, p2);
    LexSymbol(s, p, c.pre, '(');
    LexSymbol(s, p2, c.post, ')');
    BoundaryBefore(s, p2, c.post, ')');
  }

  /** The pieces of a group's and of a pair's text, where they stand. */
  lemma GroupParts(s: string, p: nat, c: Syntax, p1: nat, p2: nat)
    requires c.Group? && p1 == p + |c.pre| + 1 && p2 == p1 + |c.inner.Text()|
    ensures At(s, p, c.Text()) <==> At(s, p, c.pre + "(") && At(s, p1, c.inner.Text()) && At(s, p2, c.post + ")")
    ensures p + |c.Text()| == p2 + |c.post| + 1
    ensures At(s, p, c.Text()) ==> p2 + |c.post| + 1 <= |s|
  {
    if At(s, p, c.Text()) { AtInside(s, p, c.Text()); }
    hide At;
    AtParts(s, p, c.pre + "(" + c.inner.Text(), c.post + ")");
    AtParts(s, p, c.pre + "(", c.inner.Text());
  }

  lemma PairParts(s: string, p: nat, c: Syntax, p1: nat, p2: nat)
    requires c.Pair? && p1 == p + |c.left.Text()| && p2 == p1 + |c.pre| + 1
    ensures At(s, p, c.Text()) <==>
            At(s, p, c.left.Text()) && At(s, p1, c.pre + OperatorText(c.op)) && At(s, p2, c.right.Text())
    ensures p + |c.Text()| == p2 + |c.right.Text()|
    ensures At(s, p, c.Text()) ==> p2 + |c.right.Text()| <= |s|
  {
    if At(s, p, c.Text()) { AtInside(s, p, c.Text()); }
    hide At;
    AtParts(s, p, c.left.Text() + (c.pre + OperatorText(c.op)), c.right.Text());
    AtParts(s, p, c.left.Text(), c.pre + OperatorText(c.op));
  }

  lemma AtInside(s: string, p: nat, text: string)
    requires At(s, p, text)
    ensures p + |text| <= |s|
  {}

  lemma {:induction false} ParseOfText(s: string, p: nat, c: Syntax)
    requires c.WellFormed() && At(s, p, c.Text()) && Boundary(s, p + |c.Text()|)
    ensures p + |c.Text()| <= |s| && Parse(s, p) == After(s, p + |c.Text()|, c)
    decreases c, 1
  {
    match c
    case Pair(left, pre, op, right) =>
      hide Lex, Parse, Operand, At, Boundary, AfterPair, AfterOperand, Syntax.Text, Blank, IsName;
      var p1 := p + |left.Text()|;
      var p2 := p1 + |pre| + 1;
      PairParts(s, p, c, p1, p2);
      BoundaryBefore(s, p1, pre, OperatorText(op)[0]);
      ParseOfText(s, p, left);
      LexSymbol(s, p1, pre, OperatorText(op)[0]);
      OperandOfText(s, p2, right);
      PairStep(s, p, p1, p2, p + |c.Text()|, left, op, right.Erase());
    case _ =>
      hide Lex, Operand, Boundary, AfterPair, AfterOperand, Blank, IsName;
      OperandOfText(s, p, c);
  }

  lemma {:induction false} EraseHasNoErrors(c: Syntax)
    ensures !c.Erase().HasErrors() && !c.Erase().Null? && !c.Erase().Error?
  {
    match c
    case Word(_, _) =>
    case Group(_, inner, _) => EraseHasNoErrors(inner);
    case Pair(left, _, _, right) => EraseHasNoErrors(left); EraseHasNoErrors(right);
  }

  /** Printing and parsing: every text of an expression, with any white space and any extra parentheses,
      is parsed into exactly that expression, with no error and nothing left over. */
  lemma ParseAcceptsText(c: Syntax, trail: string)
    requires c.WellFormed() && Blank(trail)
    ensures var s := c.Text() + trail;
            Parse(s, 0) == (c.Erase(), |s|) && ParseText(s) == c.Erase() && !ParseText(s).HasErrors()
  {
    hide Operand, Parse;
    var s := c.Text() + trail;
    var q := |c.Text()|;
    assert At(s, 0, s);
    AtParts(s, 0, c.Text(), trail);
    EndIsBlank(s, q, trail);
    ParseOfText(s, 0, c);
    EraseHasNoErrors(c);
  }

  /** The tree of any expression printed without extra parentheses or spaces. */
  function Print(t: Tree): Syntax
    requires IsExpression(t)
  {
    match t
    case Name(name) => Word("", name)
    case Op(op, l, r) => Pair(Print(l), "", op, if r.Op? then Group("", Print(r), "") else Print(r))
  }

  predicate IsExpression(t: Tree) {
    match t
    case Name(name) => IsName(name)
    case Op(op, l, r) => IsOperator(op) && IsExpression(l) && IsExpression(r)
    case _ => false
  }

  lemma {:induction false} PrintIsText(t: Tree)
    requires IsExpression(t)
    ensures Print(t).WellFormed() && Print(t).Erase() == t && (Print(t).Pair? <==> t.Op?)
  {
    match t
    case Name(_) =>
    case Op(op, l, r) => PrintIsText(l); PrintIsText(r);
  }

  /** Parsing undoes printing. */
  lemma ParsePrint(t: Tree)
    requires IsExpression(t)
    ensures ParseText(Print(t).Text()) == t
  {
    PrintIsText(t);
    ParseAcceptsText(Print(t), "");
    assert Print(t).Text() + "" == Print(t).Text();
  }

  // ---- where a clean text stays clean ------------------------------------------------------

  lemma {:induction false} CleanOperand(s: string, p: nat)
    requires p <= |s| && Clean(s, p)
    ensures Clean(s, Operand(s, p).pos)
    decreases |s| - p, 0
  {
    var t := Lex(s, p);
    if t.kind.LParen? { CleanParse(s, t.next); }
  }

  lemma {:induction false} CleanParse(s: string, p: nat)
    requires p <= |s| && Clean(s, p)
    ensures Clean(s, Parse(s, p).1)
    decreases |s| - p, 1
  {
    hide Clean, Lex;
    CleanOperand(s, p);
    match Operand(s, p)
    case Got(left, q) => CleanAfterOperand(s, q, left, Null);
    case _ =>
  }

  lemma {:induction false} CleanAfterOperand(s: string, p: nat, left: Tree, earlier: Tree)
    requires p <= |s| && Clean(s, p)
    ensures Clean(s, AfterOperand(s, p, left, earlier).1)
    decreases |s| - p, 1
  {
    hide SkipSpace, Lex, AfterOperator;
    var t := Lex(s, p);
    if IsOperator(t.kind) { CleanAfterOperator(s, t.next, t.kind, left, earlier); }
  }

  lemma {:induction false} CleanAfterOperator(s: string, p: nat, op: Kind, left: Tree, earlier: Tree)
    requires p <= |s| && Clean(s, p)
    ensures Clean(s, AfterOperator(s, p, op, left, earlier).1)
    decreases |s| - p, 1
  {
    hide Clean, Lex;
    CleanOperand(s, p);
    match Operand(s, p)
    case Got(right, q) => CleanAfterPair(s, q, Op(op, left, right));
    case _ =>
  }

  lemma {:induction false} CleanAfterPair(s: string, p: nat, pair: Tree)
    requires p <= |s| && Clean(s, p)
    ensures Clean(s, AfterPair(s, p, pair).1)
    decreases |s| - p, 1
  {
    hide SkipSpace, Lex, AfterOperator;
    var t := Lex(s, p);
    if IsOperator(t.kind) { CleanAfterOperator(s, t.next, t.kind, pair, pair); }
  }

  // ---- in a clean text no error is lost ----------------------------------------------------

  lemma OperandInCleanText(s: string, p: nat)
    requires p <= |s| && !Lex(s, p).kind.RParen?
    ensures !Operand(s, p).Close?
    ensures Operand(s, p).Stop? ==> Operand(s, p).tree.Error?
  {
    hide Lex, Parse;
  }

  lemma {:induction false} ErrorsStayAfterOperator(s: string, p: nat, op: Kind, left: Tree, earlier: Tree)
    requires p <= |s| && Clean(s, p) && !Lex(s, p).kind.RParen?
    requires left.HasErrors() || (Operand(s, p).Got? && Operand(s, p).tree.HasErrors())
    ensures AfterOperator(s, p, op, left, earlier).0.HasErrors()
    decreases |s| - p, 1
  {
    hide Lex, Clean;
    OperandInCleanText(s, p);
    CleanOperand(s, p);
    match Operand(s, p)
    case Got(right, q) => ErrorsStayAfterPair(s, q, Op(op, left, right));
    case _ =>
  }

  lemma {:induction false} ErrorsStayAfterPair(s: string, p: nat, pair: Tree)
    requires p <= |s| && Clean(s, p) && pair.HasErrors()
    ensures AfterPair(s, p, pair).0.HasErrors()
    decreases |s| - p, 1
  {
    var t := Lex(s, p);
    if IsOperator(t.kind) { ErrorsStayAfterOperator(s, t.next, t.kind, pair, pair); }
  }

  lemma ErrorsStayAfterOperand(s: string, p: nat, left: Tree, earlier: Tree)
    requires p <= |s| && Clean(s, p) && left.HasErrors()
    ensures AfterOperand(s, p, left, earlier).0.HasErrors()
  {
    var t := Lex(s, p);
    if IsOperator(t.kind) { ErrorsStayAfterOperator(s, t.next, t.kind, left, earlier); }
  }

  // ---- every clean text that is accepted belongs to the grammar -------------------------------

  /** The text from p to q is that of c followed by `trail`, which is empty except at the end. */
  predicate Reads(s: string, p: nat, q: nat, c: Syntax, trail: string) {
    && c.WellFormed()
    && Blank(trail)
    && At(s, p, c.Text())
    && At(s, p + |c.Text()|, trail)
    && q == p + |c.Text()| + |trail|
    && (trail != "" ==> q == |s|)
  }

  lemma BlankBefore(s: string, p: nat)
    requires p <= |s|
    ensures var t := Lex(s, p);
            Blank(s[p..t.start]) && At(s, p, s[p..t.start])
  {
    var w := s[p..Lex(s, p).start];
    BlankIs(w);
    hide Blank;
  }

  lemma SymbolAt(s: string, p: nat, text: string)
    requires p <= |s|
    requires var k := Lex(s, p).kind;
             (k.LParen? && text == "(") || (k.RParen? && text == ")") || (IsOperator(k) && text == OperatorText(k))
    ensures var t := Lex(s, p);
            At(s, p, s[p..t.start] + text) && t.next == t.start + 1
  {
    var t := Lex(s, p);
    BlankBefore(s, p);
    assert s[t.start..t.start + 1] == text;
    AtParts(s, p, s[p..t.start], text);
  }

  lemma WordName(s: string, p: nat)
    requires p <= |s| && Lex(s, p).kind.Ident?
    ensures IsName(Lex(s, p).kind.name)
  {
    hide SkipSpace, IsName;
    NameIs(Lex(s, p).kind.name);
  }

  lemma WordSlice(s: string, p: nat)
    requires p <= |s| && Lex(s, p).kind.Ident?
    ensures var t := Lex(s, p); t.kind.name == s[t.start..t.next]
  {
    hide SkipSpace, IdEnd;
  }

  lemma AtSlices(s: string, p: nat, q: nat, e: nat)
    requires p <= q <= e <= |s|
    ensures At(s, p, s[p..q] + s[q..e])
  {
    assert s[p..q] + s[q..e] == s[p..e];
  }

  lemma WordAt(s: string, p: nat)
    requires p <= |s| && Lex(s, p).kind.Ident?
    ensures var t := Lex(s, p);
            IsName(t.kind.name) && At(s, p, s[p..t.start] + t.kind.name) && t.next == p + |s[p..t.start] + t.kind.name|
  {
    var t := Lex(s, p);
    WordName(s, p);
    WordSlice(s, p);
    hide IsName, Lex;
    AtSlices(s, p, t.start, t.next);
  }

  lemma GroupReads(s: string, p: nat, q: nat, inner: Syntax)
    requires p <= |s| && q <= |s| && Lex(s, p).kind.LParen? && Lex(s, q).kind.RParen?
    requires Reads(s, Lex(s, p).next, q, inner, "")
    ensures Reads(s, p, Lex(s, q).next, Group(s[p..Lex(s, p).start], inner, s[q..Lex(s, q).start]), "")
  {
    BlankBefore(s, p);
    BlankBefore(s, q);
    SymbolAt(s, p, "(");
    SymbolAt(s, q, ")");
    hide Lex, At, Blank, Syntax.Text;
    var c := Group(s[p..Lex(s, p).start], inner, s[q..Lex(s, q).start]);
    GroupParts(s, p, c, Lex(s, p).next, q);
  }

  lemma PairReads(s: string, p0: nat, p: nat, q: nat, left: Syntax, right: Syntax)
    requires p0 <= p <= |s| && IsOperator(Lex(s, p).kind)
    requires Reads(s, p0, p, left, "") && !right.Pair?
    requires Reads(s, Lex(s, p).next, q, right, "")
    ensures Reads(s, p0, q, Pair(left, s[p..Lex(s, p).start], Lex(s, p).kind, right), "")
  {
    BlankBefore(s, p);
    SymbolAt(s, p, OperatorText(Lex(s, p).kind));
    hide Lex, At, Blank, Syntax.Text;
    var c := Pair(left, s[p..Lex(s, p).start], Lex(s, p).kind, right);
    PairParts(s, p0, c, p, Lex(s, p).next);
  }

  lemma {:induction false} OperandReads(s: string, p: nat) returns (c: Syntax)
    requires p <= |s| && Clean(s, p)
    requires Operand(s, p).Got? && !Operand(s, p).tree.HasErrors()
    ensures Reads(s, p, Operand(s, p).pos, c, "") && !c.Pair? && c.Erase() == Operand(s, p).tree
    decreases |s| - p, 0
  {
    var t := Lex(s, p);
    if t.kind.Ident? {
      WordReads(s, p);
      c := Word(s[p..t.start], t.kind.name);
    } else {
      hide Lex, Parse, At, Blank, AfterOperand, AfterPair, Reads;
      var q := Parse(s, t.next).1;
      CleanParse(s, t.next);
      var inner, trail := ParseReads(s, t.next);
      NoTrail(s, t.next, q, inner, trail);
      GroupReads(s, p, q, inner);
      c := Group(s[p..t.start], inner, s[q..Lex(s, q).start]);
    }
  }

  lemma NoTrail(s: string, p: nat, q: nat, c: Syntax, trail: string)
    requires q < |s| && Reads(s, p, q, c, trail)
    ensures trail == ""
  {}

  lemma WordReads(s: string, p: nat)
    requires p <= |s| && Lex(s, p).kind.Ident?
    ensures var t := Lex(s, p); Reads(s, p, t.next, Word(s[p..t.start], t.kind.name), "")
  {
    BlankBefore(s, p);
    WordAt(s, p);
    hide Lex, IsName, Blank;
    var c := Word(s[p..Lex(s, p).start], Lex(s, p).kind.name);
  }

  lemma {:induction false} ParseReads(s: string, p: nat) returns (c: Syntax, trail: string)
    requires p <= |s| && Clean(s, p) && !Parse(s, p).0.HasErrors()
    ensures Reads(s, p, Parse(s, p).1, c, trail) && c.Erase() == Parse(s, p).0
    decreases |s| - p, 1
  {
    hide Lex, AfterOperand, AfterPair, Clean, At;
    var t := Lex(s, p);
    FirstOperand(s, p);
    var left := Operand(s, p).tree;
    var q := Operand(s, p).pos;
    CleanOperand(s, p);
    if left.HasErrors() {
      ErrorsStayAfterOperand(s, q, left, Null);
      assert false;
    }
    c := OperandReads(s, p);
    c, trail := AfterReads(s, p, q, c);
  }

  lemma FirstOperand(s: string, p: nat)
    requires p <= |s| && !Parse(s, p).0.HasErrors()
    ensures Operand(s, p).Got?
  {
    hide Lex, AfterOperand;
    var t := Lex(s, p);
    if !t.kind.RParen? { OperandInCleanText(s, p); }
  }

  lemma {:induction false} AfterReads(s: string, p0: nat, p: nat, c0: Syntax) returns (c: Syntax, trail: string)
    requires p0 <= p <= |s| && Clean(s, p)
    requires Reads(s, p0, p, c0, "")
    requires !After(s, p, c0).0.HasErrors()
    ensures Reads(s, p0, After(s, p, c0).1, c, trail) && c.Erase() == After(s, p, c0).0
    decreases |s| - p, 1
  {
    hide Lex, Operand, AfterPair, At, Reads, SkipSpace, Blank, IsName;
    var t := Lex(s, p);
    if IsOperator(t.kind) {
      var left := c0.Erase();
      AfterIsAfterOperator(s, p, c0);
      OperandInCleanText(s, t.next);
      CleanOperand(s, t.next);
      if Operand(s, t.next).Got? && Operand(s, t.next).tree.HasErrors() {
        ErrorsStayAfterOperator(s, t.next, t.kind, left, if c0.Pair? then left else Null);
        assert false;
      }
      var right := OperandReads(s, t.next);
      PairReads(s, p0, p, Operand(s, t.next).pos, c0, right);
      c, trail := AfterReads(s, p0, Operand(s, t.next).pos, Pair(c0, s[p..t.start], t.kind, right));
    } else {
      c := c0;
      trail := EndReads(s, p0, p, c0);
    }
  }

  /** The expression ends, at the end of the text with the white space there. */
  lemma EndReads(s: string, p0: nat, p: nat, c0: Syntax) returns (trail: string)
    requires p0 <= p <= |s| && Reads(s, p0, p, c0, "") && !IsOperator(Lex(s, p).kind)
    requires !After(s, p, c0).0.HasErrors()
    ensures Reads(s, p0, After(s, p, c0).1, c0, trail) && c0.Erase() == After(s, p, c0).0
  {
    trail := if Lex(s, p).kind.Eol? then s[p..] else "";
    BlankBefore(s, p);
    hide Blank, SkipSpace, AfterOperator, Syntax.WellFormed;
  }

  lemma AfterIsAfterOperator(s: string, p: nat, c: Syntax)
    requires p <= |s| && IsOperator(Lex(s, p).kind)
    ensures var t := Lex(s, p);
            After(s, p, c) == AfterOperator(s, t.next, t.kind, c.Erase(), if c.Pair? then c.Erase() else Null)
  {
    hide Lex, AfterOperator;
  }

  // ---- the texts of the grammar are clean ------------------------------------------------------

  lemma FirstToken(s: string, p: nat, c: Syntax)
    requires c.WellFormed() && !c.Pair? && At(s, p, c.Text()) && Boundary(s, p + |c.Text()|)
    ensures p <= |s| && (Lex(s, p).kind.Ident? || Lex(s, p).kind.LParen?)
  {
    hide At, Boundary, Lex, Blank, IsName;
    AtInside(s, p, c.Text());
    match c
    case Word(pre, name) =>
      LexName(s, p, pre, name);
    case Group(pre, inner, post) =>
      GroupParts(s, p, c, p + |pre| + 1, p + |pre| + 1 + |inner.Text()|);
      LexSymbol(s, p, pre, '(');
  }

  lemma {:induction false} TextIsClean(s: string, p: nat, c: Syntax)
    requires c.WellFormed() && At(s, p, c.Text()) && Boundary(s, p + |c.Text()|)
    requires p + |c.Text()| <= |s| && Clean(s, p + |c.Text()|)
    ensures Clean(s, p)
    decreases c
  {
    hide At, Boundary, Lex, Blank, IsName;
    match c
    case Word(pre, name) =>
      LexName(s, p, pre, name);
    case Group(pre, inner, post) =>
      var p1 := p + |pre| + 1;
      var p2 := p1 + |inner.Text()|;
      GroupParts(s, p, c, p1, p2);
      LexSymbol(s, p, pre, '(');
      LexSymbol(s, p2, post, ')');
      BoundaryBefore(s, p2, post, ')');
      TextIsClean(s, p1, inner);
    case Pair(left, pre, op, right) =>
      var p1 := p + |left.Text()|;
      var p2 := p1 + |pre| + 1;
      PairParts(s, p, c, p1, p2);
      BoundaryBefore(s, p1, pre, OperatorText(op)[0]);
      LexSymbol(s, p1, pre, OperatorText(op)[0]);
      FirstToken(s, p2, right);
      TextIsClean(s, p2, right);
      TextIsClean(s, p, left);
  }

  // ---- the accepted language ---------------------------------------------------------------------

  ghost predicate InGrammar(s: string) {
    exists c: Syntax, trail: string :: c.WellFormed() && Blank(trail) && s == c.Text() + trail
  }

  lemma EndIsBlank(s: string, q: nat, trail: string)
    requires Blank(trail) && At(s, q, trail) && q + |trail| == |s|
    ensures Boundary(s, q) && Lex(s, q).kind.Eol? && Clean(s, q)
  {
    if trail != "" { assert s[q] == s[q..q + |trail|][0] == trail[0]; }
    SkipBlank(s, q, trail);
  }

  lemma TextIsAccepted(c: Syntax, trail: string)
    requires c.WellFormed() && Blank(trail)
    ensures Clean(c.Text() + trail, 0) && !ParseText(c.Text() + trail).HasErrors()
  {
    hide Parse, Syntax.Text, Syntax.WellFormed;
    var s, q := c.Text() + trail, |c.Text()|;
    ParseAcceptsText(c, trail);
    assert At(s, 0, s);
    AtParts(s, 0, c.Text(), trail);
    EndIsBlank(s, q, trail);
    TextIsClean(s, 0, c);
  }

  /** The parser accepts a text without an error token and the text has no operator directly before a ")"
      exactly when the text belongs to the grammar. */
  lemma AcceptedLanguage(s: string)
    ensures !ParseText(s).HasErrors() && Clean(s, 0) <==> InGrammar(s)
  {
    if !ParseText(s).HasErrors() && Clean(s, 0) {
      var c, trail := ParseReads(s, 0);
      AtParts(s, 0, c.Text(), trail);
      assert s == s[0..|s|] == c.Text() + trail;
    }
    if InGrammar(s) {
      var c: Syntax, trail: string :| c.WellFormed() && Blank(trail) && s == c.Text() + trail;
      TextIsAccepted(c, trail);
    }
  }

  /** The condition is needed: the parser takes a ")" in place of an operand and drops the operator. */
  lemma StrayCloseIsAccepted()
    ensures ParseText("a&b&)") == Op(OpAnd, Name("a"), Name("b"))
    ensures !InGrammar("a&b&)")
  {
    var s := "a&b&)";
    assert Lex(s, 0) == Lexeme(Ident("a"), 0, 1, 1);
    assert Lex(s, 1) == Lexeme(OpAnd, 1, 1, 2);
    assert Lex(s, 2) == Lexeme(Ident("b"), 2, 3, 3);
    assert Lex(s, 3) == Lexeme(OpAnd, 3, 3, 4);
    assert Lex(s, 4) == Lexeme(RParen, 4, 4, 5);
    assert Operand(s, 4) == Close(5);
    assert AfterPair(s, 3, Op(OpAnd, Name("a"), Name("b"))) == (Op(OpAnd, Name("a"), Name("b")), 5);
    AcceptedLanguage(s);
    assert !Clean(s, 3);
    assert !Clean(s, 2);
    assert !Clean(s, 1);
  }
}
