/** What the trigger expression parser computes, as functions of the text: a lexer and a recursive
    descent over its tokens. Positions index the text; its end stands for the terminating NUL. */
module ExprGrammar {

  datatype Kind =
    | Ident(name: string)
    | OpAnd
    | OpOr
    | LParen
    | RParen
    | Eol
    | Illegal

  datatype ErrorCode =
    | UnbalancedParen
    | EmptyExpr
    | IllegalCharacter
    | ExtraOperator
    | MissingOperator
    | ExtraRParen
    | UnknownToken
    | TrailingGarbage

  /** A parsed expression. `Null` is the null pointer that the parser returns when it gives up
      without an error token; `Punctuation` stands for tokens that never become part of a result. */
  datatype Tree =
    | Null
    | Name(name: string)
    | Op(op: Kind, left: Tree, right: Tree)
    | Error(code: ErrorCode, pos: int)
    | Punctuation
  {
    predicate HasErrors() {
      match this
      case Null => false
      case Name(_) => false
      case Op(_, l, r) => l.HasErrors() || r.HasErrors()
      case Error(_, _) => true
      case Punctuation => false
    }
  }

  predicate IsLetterOrDigit(c: char) {
    '0' <= c <= '9' || 'A' <= c <= 'Z' || 'a' <= c <= 'z' || c == '_' || c == '-'
  }

  /** `isspace` in the C locale. */
  predicate IsSpace(c: char) {
    c == ' ' || c == '\t' || c == '\n' || c == '\r' || c == 11 as char || c == 12 as char
  }

  predicate IsOperator(k: Kind) {
    k.OpAnd? || k.OpOr?
  }

  // ---- lexer -----------------------------------------------------------------------

  function SkipSpace(s: string, p: nat): (q: nat)
    requires p <= |s|
    ensures p <= q <= |s|
    ensures q < |s| ==> !IsSpace(s[q])
    ensures forall i :: p <= i < q ==> IsSpace(s[i])
    decreases |s| - p
  {
    if p < |s| && IsSpace(s[p]) then SkipSpace(s, p + 1) else p
  }

  function IdEnd(s: string, p: nat): (q: nat)
    requires p <= |s|
    ensures p <= q <= |s|
    ensures q < |s| ==> !IsLetterOrDigit(s[q])
    ensures forall i :: p <= i < q ==> IsLetterOrDigit(s[i])
    decreases |s| - p
  {
    if p < |s| && IsLetterOrDigit(s[p]) then IdEnd(s, p + 1) else p
  }

  /** A token, where it starts and ends, and where the next one is looked for. */
  datatype Lexeme = Lexeme(kind: Kind, start: nat, end: nat, next: nat)

  function Lex(s: string, p: nat): (t: Lexeme)
    requires p <= |s|
    ensures p <= t.start <= t.next <= |s|
    ensures t.kind.Eol? <==> t.start == |s|
    ensures !t.kind.Eol? ==> p < t.next
  {
    var q := SkipSpace(s, p);
    if q == |s| then Lexeme(Eol, q, q, q)
    else if IsLetterOrDigit(s[q]) then
      var e := IdEnd(s, q);
      Lexeme(Ident(s[q..e]), q, e, e)
    else
      Lexeme(Symbol(s[q]), q, q, q + 1)
  }

  function Symbol(c: char): Kind {
    if c == '&' then OpAnd
    else if c == '|' then OpOr
    else if c == '(' then LParen
    else if c == ')' then RParen
    else Illegal
  }

  // ---- parser ----------------------------------------------------------------------

  /** What is found where an operand is expected: an operand, a reason to stop, or a ")". */
  datatype OperandResult =
    | Got(tree: Tree, pos: nat)
    | Stop(tree: Tree, pos: nat)
    | Close(pos: nat)

  function Operand(s: string, p: nat): (r: OperandResult)
    requires p <= |s|
    ensures p <= r.pos <= |s|
    ensures r.Got? || r.Close? ==> p < r.pos
    decreases |s| - p, 0
  {
    var t := Lex(s, p);
    match t.kind
    case Ident(name) => Got(Name(name), t.next)
    case LParen =>
      var (inner, q) := Parse(s, t.next);
      var u := Lex(s, q);
      if u.kind.RParen? then Got(inner, u.next) else Stop(Error(UnbalancedParen, q), q)
    case RParen => Close(t.next)
    case Eol => Stop(Error(EmptyExpr, t.next), t.next)
    case Illegal => Stop(Error(IllegalCharacter, t.start), t.next)
    case _ => Stop(Error(ExtraOperator, t.next), t.next)
  }

  /** An expression: an operand and as many operators with further operands as follow. */
  function Parse(s: string, p: nat): (r: (Tree, nat))
    requires p <= |s|
    ensures p <= r.1 <= |s|
    decreases |s| - p, 1
  {
    match Operand(s, p)
    case Got(left, q) => AfterOperand(s, q, left, Null)
    case Stop(tree, q) => (tree, q)
    case Close(q) => (Error(ExtraRParen, q), q)
  }

  /** What follows the operand `left`; `earlier` is the result if the next operand turns out to be ")". */
  function AfterOperand(s: string, p: nat, left: Tree, earlier: Tree): (r: (Tree, nat))
    requires p <= |s|
    ensures p <= r.1 <= |s|
    decreases |s| - p, 1
  {
    var t := Lex(s, p);
    match t.kind
    case RParen => (left, p)
    case Eol => (left, t.next)
    case Illegal => (Error(IllegalCharacter, t.start), t.next)
    case Ident(_) => (Error(MissingOperator, t.next), t.next)
    case LParen => (Error(MissingOperator, t.next), t.next)
    case op => AfterOperator(s, t.next, op, left, earlier)
  }

  function AfterOperator(s: string, p: nat, op: Kind, left: Tree, earlier: Tree): (r: (Tree, nat))
    requires p <= |s|
    ensures p <= r.1 <= |s|
    decreases |s| - p, 1
  {
    match Operand(s, p)
    case Got(right, q) => AfterPair(s, q, Op(op, left, right))
    case Stop(tree, q) => (tree, q)
    case Close(q) => (earlier, q)
  }

  /** What follows a complete pair of operands. */
  function AfterPair(s: string, p: nat, pair: Tree): (r: (Tree, nat))
    requires p <= |s|
    ensures p <= r.1 <= |s|
    decreases |s| - p, 1
  {
    var t := Lex(s, p);
    match t.kind
    case RParen => (pair, p)
    case Eol => (pair, t.next)
    case Illegal => (Error(IllegalCharacter, t.start), p)
    case LParen => (Error(MissingOperator, p), p)
    case Ident(_) => (pair, p)
    case op => AfterOperator(s, t.next, op, pair, pair)
  }

  /** The whole text must be used up. */
  function ParseText(s: string): Tree {
    var (tree, q) := Parse(s, 0);
    if q != |s| then Error(TrailingGarbage, q)
    else if tree.Null? then Error(EmptyExpr, 0)
    else tree
  }
}
