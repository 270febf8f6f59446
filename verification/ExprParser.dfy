/** The parser itself: loops over a state variable that build a token tree in place. */
module ExprParser {
  import opened ExprGrammar

  datatype TokenType = T_ID | T_OP_AND | T_OP_OR | T_LPAREN | T_RPAREN | T_EOL | T_ERROR

  class Token {
    var kind: TokenType
    var name: string
    var left: Token?
    var right: Token?
    var startPos: int
    var endPos: int
    var errCode: ErrorCode
    ghost var Repr: set<Token>
    ghost var tree: Tree

    /** The token heads a finite tree of tokens, and `tree` is that tree. */
    ghost predicate Valid()
      reads this, Repr
      decreases Repr
    {
      && this in Repr
      && (left != null ==> left in Repr && left.Repr <= Repr && this !in left.Repr && left.Valid())
      && (right != null ==> right in Repr && right.Repr <= Repr && this !in right.Repr && right.Valid())
      && (left != null || right != null ==> kind == T_OP_AND || kind == T_OP_OR)
      && tree == TreeFrom(if left == null then Null else left.tree, if right == null then Null else right.tree)
    }

    ghost function TreeFrom(l: Tree, r: Tree): Tree
      reads this
    {
      match kind
      case T_ID => Name(name)
      case T_OP_AND => Op(OpAnd, l, r)
      case T_OP_OR => Op(OpOr, l, r)
      case T_ERROR => Error(errCode, startPos)
      case _ => Punctuation
    }

    constructor (kind: TokenType, name: string, startPos: int, endPos: int, errCode: ErrorCode)
      ensures Valid() && fresh(Repr)
      ensures this.kind == kind && this.name == name && this.errCode == errCode
      ensures this.startPos == startPos && this.endPos == endPos
      ensures left == null && right == null && Repr == {this}
    {
      this.kind, this.name, this.startPos, this.endPos, this.errCode := kind, name, startPos, endPos, errCode;
      left, right := null, null;
      Repr := {this};
      tree := match kind
              case T_ID => Name(name)
              case T_OP_AND => Op(OpAnd, Null, Null)
              case T_OP_OR => Op(OpOr, Null, Null)
              case T_ERROR => Error(errCode, startPos)
              case _ => Punctuation;
    }
  }

  ghost function TreeOf(t: Token?): Tree
    reads t
  {
    if t == null then Null else t.tree
  }

  ghost predicate Built(t: Token?)
    reads t, if t == null then {} else t.Repr
  {
    t != null ==> t.Valid()
  }

  /** The token type of a lexeme. */
  function TypeOf(k: Kind): TokenType {
    match k
    case Ident(_) => T_ID
    case OpAnd => T_OP_AND
    case OpOr => T_OP_OR
    case LParen => T_LPAREN
    case RParen => T_RPAREN
    case Eol => T_EOL
    case Illegal => T_ERROR
  }

  ghost predicate IsTokenFor(t: Token, l: Lexeme)
    reads t
  {
    && t.kind == TypeOf(l.kind)
    && t.startPos == l.start
    && t.endPos == l.end
    && (l.kind.Ident? ==> t.name == l.kind.name)
    && (l.kind.Illegal? ==> t.errCode == IllegalCharacter)
    && t.left == null && t.right == null
  }

  method NextToken(s: string, linepos: nat) returns (tok: Token, p: nat)
    requires '\0' !in s && linepos <= |s|
    ensures fresh(tok) && tok.Valid() && tok.Repr == {tok}
    ensures IsTokenFor(tok, Lex(s, linepos)) && p == Lex(s, linepos).next
  {
    var state, idStart, idLen := 0, 0, 0;
    p := linepos;
    hide SkipSpace, IdEnd;
    while true
      invariant state == 0 || state == 1
      invariant state == 0 ==> linepos <= p <= |s| && SkipSpace(s, p) == SkipSpace(s, linepos)
      invariant state == 1 ==> idStart == SkipSpace(s, linepos) < p <= |s| && p == idStart + idLen
      invariant state == 1 ==> IsLetterOrDigit(s[idStart]) && IdEnd(s, p) == IdEnd(s, idStart)
      decreases |s| - p
    {
      // the terminating NUL ends the text
      var c := if p < |s| then s[p] else '\0';
      SkipTurn(s, p);
      IdTurn(s, p);
      if state == 0 {
        if IsLetterOrDigit(c) {
          idStart, idLen, state := p, 1, 1;
        } else if c == '&' {
          tok := new Token(T_OP_AND, "", p, p, UnknownToken);
          return tok, p + 1;
        } else if c == '|' {
          tok := new Token(T_OP_OR, "", p, p, UnknownToken);
          return tok, p + 1;
        } else if c == '(' {
          tok := new Token(T_LPAREN, "", p, p, UnknownToken);
          return tok, p + 1;
        } else if c == ')' {
          tok := new Token(T_RPAREN, "", p, p, UnknownToken);
          return tok, p + 1;
        } else if c == '\0' {
          tok := new Token(T_EOL, "", p, p, UnknownToken);
          return tok, p;
        } else if IsSpace(c) {
          // nothing to do
        } else {
          tok := new Token(T_ERROR, "", p, p, IllegalCharacter);
          return tok, p + 1;
        }
      } else {
        if IsLetterOrDigit(c) {
          idLen := idLen + 1;
        } else {
          tok := new Token(T_ID, s[idStart..idStart + idLen], idStart, idStart + idLen, UnknownToken);
          return tok, p;
        }
      }
      p := p + 1;
    }
  }

  lemma SkipTurn(s: string, p: nat)
    requires p <= |s|
    ensures SkipSpace(s, p) == if p < |s| && IsSpace(s[p]) then SkipSpace(s, p + 1) else p
  {}

  lemma IdTurn(s: string, p: nat)
    requires p <= |s|
    ensures IdEnd(s, p) == if p < |s| && IsLetterOrDigit(s[p]) then IdEnd(s, p + 1) else p
  {}

  method PeekToken(s: string, linepos: nat) returns (tok: Token)
    requires '\0' !in s && linepos <= |s|
    ensures fresh(tok) && tok.Valid() && tok.Repr == {tok}
    ensures IsTokenFor(tok, Lex(s, linepos))
  {
    var p;
    tok, p := NextToken(s, linepos);
  }

  method AllocateErrorToken(errCode: ErrorCode, pos: int) returns (tok: Token)
    ensures fresh(tok.Repr) && tok.Valid() && tok.tree == Error(errCode, pos)
  {
    tok := new Token(T_ERROR, "", pos, 0, errCode);
  }

  /** The operator token takes its operands. */
  method Reduce(op: Token, left: Token?, right: Token?)
    requires op.kind == T_OP_AND || op.kind == T_OP_OR
    requires Built(left) && Built(right)
    requires (left != null ==> op !in left.Repr) && (right != null ==> op !in right.Repr)
    modifies op
    ensures op.Valid() && op.tree == Op(OperatorOf(op), TreeOf(left), TreeOf(right))
    ensures op.Repr == {op} + Nodes(left) + Nodes(right)
    ensures op.kind == old(op.kind)
  {
    op.left := left;
    op.right := right;
    op.Repr := {op} + Nodes(left) + Nodes(right);
    op.tree := Op(OperatorOf(op), TreeOf(left), TreeOf(right));
  }

  ghost function Nodes(t: Token?): set<Token>
    reads t
  {
    if t == null then {} else t.Repr
  }

  ghost function OperatorOf(op: Token): Kind
    reads op
  {
    if op.kind == T_OP_OR then OpOr else OpAnd
  }

  datatype Found = FoundOperand | FoundError | FoundClose

  /** Where an operand is expected: states 0 and 2 of the parser do this alike. */
  method ParseOperand(s: string, linepos: nat) returns (found: Found, t: Token?, p: nat)
    requires '\0' !in s && linepos <= |s|
    ensures p <= |s| && Built(t) && fresh(Nodes(t))
    ensures Operand(s, linepos) == match found
                                   case FoundOperand => Got(TreeOf(t), p)
                                   case FoundError => Stop(TreeOf(t), p)
                                   case FoundClose => Close(p)
    decreases |s| - linepos, 0
  {
    t, p := NextToken(s, linepos);
    found := FoundError;
    match t.kind
    case T_LPAREN =>
      t, p := Parse(s, p);
      var tmp := PeekToken(s, p);
      if tmp.kind != T_RPAREN {
        t := AllocateErrorToken(UnbalancedParen, p);
      } else {
        tmp, p := NextToken(s, p);
        found := FoundOperand;
      }
    case T_ID =>
      found := FoundOperand;
    case T_EOL =>
      t := AllocateErrorToken(EmptyExpr, p);
    case T_ERROR =>
    case T_RPAREN =>
      found := FoundClose;
    case _ =>
      t := AllocateErrorToken(ExtraOperator, p);
  }

  /** State 1: an infix operator, or the end of the expression `left`. */
  method ExpectOperator(s: string, linepos: nat, left: Token?, ghost earlier: Tree)
    returns (op: Token?, result: Token?, p: nat)
    requires '\0' !in s && linepos <= |s| && Built(left)
    ensures linepos <= p <= |s|
    ensures op != null ==> IsOperatorToken(op) && linepos < p && result == null
    ensures op != null ==>
              AfterOperand(s, linepos, TreeOf(left), earlier) == AfterOperator(s, p, OperatorOf(op), TreeOf(left), earlier)
    ensures op != null ==> fresh(op)
    ensures op == null ==> Built(result) && (result == left || fresh(Nodes(result)))
    ensures op == null ==> AfterOperand(s, linepos, TreeOf(left), earlier) == (TreeOf(result), p)
  {
    hide AfterOperator, SkipSpace, Lex;
    op, result, p := null, null, linepos;
    var t := PeekToken(s, p);
    match t.kind
    case T_RPAREN =>
      result := left;
    case T_ERROR =>
      t, p := NextToken(s, p);
      result := t;
    case T_EOL =>
      result := left;
      t, p := NextToken(s, p);
    case T_ID =>
      t, p := NextToken(s, p);
      result := AllocateErrorToken(MissingOperator, p);
    case T_LPAREN =>
      t, p := NextToken(s, p);
      result := AllocateErrorToken(MissingOperator, p);
    case _ =>
      t, p := NextToken(s, p);
      op := t;
  }

  /** State 3: `op` takes its operands, and then another operator, which need not be there, or the end. */
  method ReduceAndLook(s: string, linepos: nat, op: Token, left: Token?, right: Token?)
    returns (more: bool, result: Token, p: nat)
    requires '\0' !in s && linepos <= |s|
    requires IsOperatorToken(op) && Built(left) && Built(right)
    requires op !in Nodes(left) && op !in Nodes(right)
    modifies op
    ensures linepos <= p <= |s|
    ensures op.Valid() && op.Repr == {op} + Nodes(left) + Nodes(right)
    ensures op.tree == old(Op(OperatorOf(op), TreeOf(left), TreeOf(right)))
    ensures more ==> p == linepos && result == op
    ensures more ==> AfterPair(s, linepos, op.tree) == AfterOperand(s, linepos, op.tree, op.tree)
    ensures !more ==> result.Valid() && (result == op || fresh(result.Repr))
    ensures !more ==> AfterPair(s, linepos, op.tree) == (result.tree, p)
  {
    hide AfterOperand, AfterPair, Lex;
    Reduce(op, left, right);
    more, result, p := Look(s, linepos, op);
  }

  /** What follows a reduced pair. */
  method Look(s: string, linepos: nat, op: Token) returns (more: bool, result: Token, p: nat)
    requires '\0' !in s && linepos <= |s| && op.Valid()
    ensures linepos <= p <= |s|
    ensures more ==> p == linepos && result == op
    ensures more ==> AfterPair(s, linepos, op.tree) == AfterOperand(s, linepos, op.tree, op.tree)
    ensures !more ==> result.Valid() && (result == op || fresh(result.Repr))
    ensures !more ==> AfterPair(s, linepos, op.tree) == (result.tree, p)
  {
    hide AfterOperator, Operand, Lex, SkipSpace;
    more, result, p := false, op, linepos;
    var t := PeekToken(s, p);
    match t.kind
    case T_ERROR =>
      result := t;
    case T_EOL =>
      t, p := NextToken(s, p);
    case T_RPAREN =>
    case T_LPAREN =>
      result := AllocateErrorToken(MissingOperator, p);
    case T_ID =>
    case _ =>
      more := true;
  }

  ghost predicate IsOperatorToken(op: Token)
    reads op
  {
    op.kind == T_OP_AND || op.kind == T_OP_OR
  }

  method Parse(s: string, linepos: nat) returns (result: Token?, p: nat)
    requires '\0' !in s && linepos <= |s|
    ensures p <= |s| && Built(result) && fresh(Nodes(result))
    ensures (TreeOf(result), p) == ExprGrammar.Parse(s, linepos)
    decreases |s| - linepos, 1
  {
    hide Operand, AfterOperand, AfterPair, Lex, SkipSpace;
    var left: Token?, right: Token?, op: Token?, ready, state := null, null, null, false, 0;
    result, p := null, linepos;
    ghost var whole := ExprGrammar.Parse(s, linepos);

    while !ready
      invariant 0 <= state <= 3 && linepos <= p <= |s|
      invariant Built(left) && Built(result) && fresh(Nodes(left)) && fresh(Nodes(result))
      invariant ready ==> (TreeOf(result), p) == whole
      invariant !ready && state == 0 ==> p == linepos && result == null
      invariant !ready && state == 1 ==> whole == AfterOperand(s, p, TreeOf(left), TreeOf(result))
      invariant !ready && state >= 2 ==> op != null && IsOperatorToken(op) && fresh(op)
      invariant !ready && state >= 2 ==> op !in Nodes(left) && op !in Nodes(result)
      invariant !ready && state == 2 ==> whole == AfterOperator(s, p, OperatorOf(op), TreeOf(left), TreeOf(result))
      invariant !ready && state == 3 ==> Built(right) && fresh(Nodes(right)) && op !in Nodes(right)
      invariant !ready && state == 3 ==> whole == AfterPair(s, p, Op(OperatorOf(op), TreeOf(left), TreeOf(right)))
      decreases !ready, |s| - p, state
    {
      var found, t;
      if state == 0 {
        // state 0: the first operand
        found, t, p := ParseOperand(s, p);
        match found
        case FoundOperand =>
          left, state := t, 1;
        case FoundError =>
          result, ready := t, true;
        case FoundClose =>
          result := AllocateErrorToken(ExtraRParen, p);
          ready := true;
      } else if state == 1 {
        // state 1: an operator or the end
        op, t, p := ExpectOperator(s, p, left, TreeOf(result));
        if op != null {
          state := 2;
        } else {
          result, ready := t, true;
        }
      } else if state == 2 {
        // state 2: the operand after an operator
        found, t, p := ParseOperand(s, p);
        match found
        case FoundOperand =>
          right, state := t, 3;
        case FoundError =>
          result, ready := t, true;
        case FoundClose =>
          ready := true;
      } else {
        // reduce, and look for another operator
        var more;
        more, result, p := ReduceAndLook(s, p, op, left, right);
        left := op;
        if more {
          state := 1;
        } else {
          ready := true;
        }
      }
    }
  }

  /** Parses a whole trigger expression; the result is never null. */
  method ParseExpr(expr: string) returns (t: Token)
    requires '\0' !in expr
    ensures t.Valid() && fresh(t.Repr)
    ensures t.tree == ParseText(expr)
  {
    var tok, pos := Parse(expr, 0);
    if pos != |expr| {
      tok := AllocateErrorToken(TrailingGarbage, pos);
    }
    if tok == null {
      tok := AllocateErrorToken(EmptyExpr, 0);
    }
    t := tok;
  }

  method ExprHasErrors(t: Token?) returns (errors: bool)
    requires Built(t)
    ensures errors <==> TreeOf(t).HasErrors()
    decreases Nodes(t)
  {
    if t == null { return false; }
    if t.kind == T_ERROR { return true; }
    errors := ExprHasErrors(t.left);
    if !errors { errors := ExprHasErrors(t.right); }
  }
}
