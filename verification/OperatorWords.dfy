/** The words AND and OR of trigger expressions, replaced by the operators that the parser knows. */
module OperatorWords {
  import opened Wrappers
  import opened InfixPrinter

  const NEIGHBOURS := "() "

  // ---- specification ---------------------------------------------------------------------

  function After(text: string, r: Option<string>): Option<string> {
    if r.None? then None else Some(text + r.value)
  }

  /** The rest of a text, whose last character before is `prev`, with the word replaced where it stands between
      neighbours; none when the text ends where a neighbour is looked for. */
  function ReplacedAfter(prev: char, rest: string, word: string, op: char): Option<string>
    requires word != ""
    decreases |rest|
  {
    if rest == "" then Some("")
    else if word <= rest && prev in NEIGHBOURS && |rest| == |word| then None
    else if word <= rest && prev in NEIGHBOURS && rest[|word|] in NEIGHBOURS then
      After([op], ReplacedAfter(op, rest[|word|..], word, op))
    else After([rest[0]], ReplacedAfter(rest[0], rest[1..], word, op))
  }

  /** The first character is never part of a word replaced. */
  function Replaced(s: string, word: string, op: char): Option<string>
    requires word != ""
  {
    if s == "" then Some("") else After([s[0]], ReplacedAfter(s[0], s[1..], word, op))
  }

  function Unquoted(s: string): string {
    if s == "" then "" else UnquotedChar(s[0]) + Unquoted(s[1..])
  }

  function UnquotedChar(c: char): string {
    if c == '"' then "" else [c]
  }

  /** All four spellings, one after the other. */
  function WithOperators(s: string): Option<string> {
    var a := Replaced(Unquoted(s), "AND", '&');
    var b := if a.Some? then Replaced(a.value, "OR", '|') else a;
    var c := if b.Some? then Replaced(b.value, "and", '&') else b;
    if c.Some? then Replaced(c.value, "or", '|') else c
  }

  // ---- the code --------------------------------------------------------------------------

  method ReplaceAllWithNeighbourConditions(s: string, word: string, op: char) returns (r: Option<string>)
    requires word != ""
    ensures r == Replaced(s, word, op)
  {
    var str, start := s, 1;
    if s == "" { return Some(""); }
    assert str[..1] == [s[0]];
    while start < |str|
      invariant 1 <= start <= |str|
      invariant Replaced(s, word, op) == After(str[..start], ReplacedAfter(str[start - 1], str[start..], word, op))
      decreases |str| - start
    {
      ghost var done, rest := str[..start], str[start..];
      ReplaceTurn(done, str[start - 1], rest, word, op);
      if word <= str[start..] && str[start - 1] in NEIGHBOURS {
        if start + |word| == |str| { return None; }
        if str[start + |word|] in NEIGHBOURS {
          str := str[..start] + [op] + str[start + |word|..];
          assert str[start + 1..] == rest[|word|..] && str[..start + 1] == done + [op];
          start := start + 1;
          continue;
        }
      }
      assert str[..start + 1] == done + [rest[0]] && str[start + 1..] == rest[1..];
      start := start + 1;
    }
    assert str[..start] == str && str[start..] == "";
    assert str + "" == str;
    return Some(str);
  }

  lemma ReplaceTurn(done: string, prev: char, rest: string, word: string, op: char)
    requires word != "" && rest != ""
    ensures After(done, ReplacedAfter(prev, rest, word, op)) ==
            if word <= rest && prev in NEIGHBOURS && |rest| == |word| then None
            else if word <= rest && prev in NEIGHBOURS && rest[|word|] in NEIGHBOURS then
              After(done + [op], ReplacedAfter(op, rest[|word|..], word, op))
            else After(done + [rest[0]], ReplacedAfter(rest[0], rest[1..], word, op))
  {
    if word <= rest && prev in NEIGHBOURS && |rest| > |word| && rest[|word|] in NEIGHBOURS {
      AfterTwice(done, [op], ReplacedAfter(op, rest[|word|..], word, op));
    } else {
      AfterTwice(done, [rest[0]], ReplacedAfter(rest[0], rest[1..], word, op));
    }
  }

  lemma AfterTwice(a: string, b: string, r: Option<string>)
    ensures After(a, After(b, r)) == After(a + b, r)
  {
    if r.Some? { assert a + (b + r.value) == a + b + r.value; }
  }

  method RemoveQuotes(s: string) returns (r: string)
    ensures r == Unquoted(s)
  {
    var i := 0;
    r := "";
    assert s[0..] == s;
    while i < |s|
      invariant 0 <= i <= |s| && r + Unquoted(s[i..]) == Unquoted(s)
    {
      UnquotedTurn(r, s, i);
      if s[i] != '"' { r := r + [s[i]]; }
      i := i + 1;
    }
  }

  lemma UnquotedTurn(r: string, s: string, i: nat)
    requires i < |s|
    ensures r + Unquoted(s[i..]) == (if s[i] != '"' then r + [s[i]] else r) + Unquoted(s[i + 1..])
  {
    var more := Unquoted(s[i + 1..]);
    assert s[i..][1..] == s[i + 1..];
    assert Unquoted(s[i..]) == UnquotedChar(s[i]) + more;
    hide Unquoted;
    assert r + (UnquotedChar(s[i]) + more) == r + UnquotedChar(s[i]) + more;
  }

  method ReplaceOperators(infixExpr: string) returns (r: Option<string>)
    ensures r == WithOperators(infixExpr)
  {
    var s := RemoveQuotes(infixExpr);
    r := ReplaceAllWithNeighbourConditions(s, "AND", '&');
    if r.None? { return; }
    r := ReplaceAllWithNeighbourConditions(r.value, "OR", '|');
    if r.None? { return; }
    r := ReplaceAllWithNeighbourConditions(r.value, "and", '&');
    if r.None? { return; }
    r := ReplaceAllWithNeighbourConditions(r.value, "or", '|');
  }

  // ---- printed expressions ---------------------------------------------------------------

  /** A piece that has no letter a word starts with stays. */
  lemma {:induction false} PieceStays(prev: char, piece: string, rest: string, word: string, op: char)
    requires word != "" && piece != "" && word[0] !in piece
    ensures ReplacedAfter(prev, piece + rest, word, op) ==
            After(piece, ReplacedAfter(piece[|piece| - 1], rest, word, op))
    decreases |piece|
  {
    var c, more := piece[0], piece[1..];
    assert (piece + rest)[1..] == more + rest && (piece + rest)[0] == c && c in piece;
    hide After;
    if more == "" {
      assert more + rest == rest && piece == [c];
    } else {
      PieceStays(c, more, rest, word, op);
      AfterTwice([c], more, ReplacedAfter(piece[|piece| - 1], rest, word, op));
      assert [c] + more == piece;
    }
  }

  /** A word between spaces is replaced. */
  lemma WordReplaced(prev: char, rest: string, word: string, op: char)
    requires word != "" && word[0] != ' '
    ensures ReplacedAfter(prev, " " + word + " " + rest, word, op) ==
            After([' ', op, ' '], ReplacedAfter(' ', rest, word, op))
  {
    hide After;
    var s := " " + word + " " + rest;
    var t := word + " " + rest;
    assert s[1..] == t && !(word <= s);
    assert t[|word|..] == " " + rest;
    SpaceStays(op, rest, word, op);
    var r := ReplacedAfter(' ', rest, word, op);
    AfterTwice([op], " ", r);
    AfterTwice(" ", [op] + " ", r);
    assert " " + ([op] + " ") == [' ', op, ' '];
  }

  lemma SpaceStays(prev: char, rest: string, word: string, op: char)
    requires word != "" && word[0] != ' '
    ensures ReplacedAfter(prev, " " + rest, word, op) == After(" ", ReplacedAfter(' ', rest, word, op))
  {
    PieceStays(prev, " ", rest, word, op);
  }

  /** The text between two operands becomes `to`: it is the word between spaces, or has no letter of a word. */
  predicate Becomes(mid: string, to: string, word: string, op: char) {
    || (mid == " " + word + " " && to == [' ', op, ' '])
    || (mid == to && |mid| > 1 && mid[|mid| - 1] == ' ' && word != "" && word[0] !in mid)
  }

  predicate StartsWithLetter(word: string) {
    word != "" && ('A' <= word[0] <= 'Z' || 'a' <= word[0] <= 'z')
  }

  lemma MidReplaced(prev: char, mid: string, to: string, rest: string, word: string, op: char)
    requires StartsWithLetter(word) && Becomes(mid, to, word, op)
    ensures ReplacedAfter(prev, mid + rest, word, op) == After(to, ReplacedAfter(' ', rest, word, op))
  {
    if mid == " " + word + " " {
      WordReplaced(prev, rest, word, op);
    } else {
      PieceStays(prev, mid, rest, word, op);
    }
  }

  function LastOf(s: string): char
    requires s != ""
  {
    s[|s| - 1]
  }

  lemma InfixNotEmpty(t: Expr, a: string, b: string)
    ensures t.Infix(a, b) != ""
  {}

  /** The pieces of a node's text, replaced from left to right. */
  lemma NodePieces(prev: char, l: string, l1: string, mid: string, to: string, r: string, r1: string, rest: string,
                   word: string, op: char)
    requires StartsWithLetter(word) && Becomes(mid, to, word, op) && l1 != "" && r1 != ""
    requires ReplacedAfter('(', l + (mid + (r + (")" + rest))), word, op) ==
             After(l1, ReplacedAfter(LastOf(l1), mid + (r + (")" + rest)), word, op))
    requires ReplacedAfter(' ', r + (")" + rest), word, op) == After(r1, ReplacedAfter(LastOf(r1), ")" + rest, word, op))
    ensures ReplacedAfter(prev, "(" + l + mid + r + ")" + rest, word, op) ==
            After("(" + l1 + to + r1 + ")", ReplacedAfter(')', rest, word, op))
  {
    hide ReplacedAfter, After, Becomes;
    var tail := ReplacedAfter(')', rest, word, op);
    PieceStays(LastOf(r1), ")", rest, word, op);
    MidReplaced(LastOf(l1), mid, to, r + (")" + rest), word, op);
    PieceStays(prev, "(", l + (mid + (r + (")" + rest))), word, op);
    assert "(" + l + mid + r + ")" + rest == "(" + (l + (mid + (r + (")" + rest))));
    AfterTwice(r1, ")", tail);
    AfterTwice(to, r1 + ")", tail);
    AfterTwice(l1, to + (r1 + ")"), tail);
    AfterTwice("(", l1 + (to + (r1 + ")")), tail);
    assert "(" + (l1 + (to + (r1 + ")"))) == "(" + l1 + to + r1 + ")";
  }

  lemma {:induction false} InfixReplaced(t: Expr, prev: char, rest: string, word: string, op: char,
                                         a: string, a1: string, b: string, b1: string)
    requires StartsWithLetter(word) && Becomes(a, a1, word, op) && Becomes(b, b1, word, op)
    ensures t.Infix(a1, b1) != ""
    ensures ReplacedAfter(prev, t.Infix(a, b) + rest, word, op) ==
            After(t.Infix(a1, b1), ReplacedAfter(LastOf(t.Infix(a1, b1)), rest, word, op))
    decreases t
  {
    hide ReplacedAfter, After, Becomes;
    match t
    case Variable(v) =>
      PieceStays(prev, Decimal(v), rest, word, op);
    case Node(o, l, r) =>
      var mid, to := if o == EXPR_OP_AND then a else b, if o == EXPR_OP_AND then a1 else b1;
      InfixReplaced(l, '(', mid + (r.Infix(a, b) + (")" + rest)), word, op, a, a1, b, b1);
      InfixReplaced(r, ' ', ")" + rest, word, op, a, a1, b, b1);
      NodePieces(prev, l.Infix(a, b), l.Infix(a1, b1), mid, to, r.Infix(a, b), r.Infix(a1, b1), rest, word, op);
  }

  lemma ReplacedIs(s: string, word: string, op: char)
    requires word != ""
    ensures Replaced(s, word, op) == ReplacedAfter('x', s, word, op)
  {}

  lemma OneReplacement(t: Expr, word: string, op: char, a: string, a1: string, b: string, b1: string)
    requires StartsWithLetter(word) && Becomes(a, a1, word, op) && Becomes(b, b1, word, op)
    ensures Replaced(t.Infix(a, b), word, op) == Some(t.Infix(a1, b1))
  {
    InfixReplaced(t, 'x', "", word, op, a, a1, b, b1);
    ReplacedIs(t.Infix(a, b), word, op);
    assert t.Infix(a, b) + "" == t.Infix(a, b) && t.Infix(a1, b1) + "" == t.Infix(a1, b1);
  }

  lemma {:induction false} InfixHasNot(t: Expr, c: char, a: string, b: string)
    requires c !in a && c !in b && c != '(' && c != ')' && !('0' <= c <= '9')
    ensures c !in t.Infix(a, b)
    decreases t
  {
    if t.Node? {
      InfixHasNot(t.left, c, a, b);
      InfixHasNot(t.right, c, a, b);
    }
  }

  lemma {:induction false} NothingQuoted(s: string)
    requires '"' !in s
    ensures Unquoted(s) == s
  {
    if s != "" { NothingQuoted(s[1..]); }
  }

  /** In the printed text of an expression the four replacements leave the operators that the parser knows. */
  lemma PrintedOperators(t: Expr)
    ensures WithOperators(t.Infix(" AND ", " OR ")) == Some(t.Infix(" & ", " | "))
  {
    hide Replaced, Unquoted, Expr.Infix;
    InfixHasNot(t, '"', " AND ", " OR ");
    NothingQuoted(t.Infix(" AND ", " OR "));
    OneReplacement(t, "AND", '&', " AND ", " & ", " OR ", " OR ");
    OneReplacement(t, "OR", '|', " & ", " & ", " OR ", " | ");
    OneReplacement(t, "and", '&', " & ", " & ", " | ", " | ");
    OneReplacement(t, "or", '|', " & ", " & ", " | ", " | ");
  }

  // ---- no NUL comes in -------------------------------------------------------------------

  lemma {:induction false} NoNulAfter(prev: char, rest: string, word: string, op: char)
    requires word != "" && '\0' !in rest && op != '\0'
    ensures var r := ReplacedAfter(prev, rest, word, op); r.Some? ==> '\0' !in r.value
    decreases |rest|
  {
    if rest != "" {
      if word <= rest && |rest| > |word| { NoNulAfter(op, rest[|word|..], word, op); }
      NoNulAfter(rest[0], rest[1..], word, op);
    }
  }

  lemma NoNulReplaced(s: string, word: string, op: char)
    requires word != "" && '\0' !in s && op != '\0'
    ensures var r := Replaced(s, word, op); r.Some? ==> '\0' !in r.value
  {
    ReplacedIs(s, word, op);
    NoNulAfter('x', s, word, op);
  }

  lemma {:induction false} NoNulUnquoted(s: string)
    requires '\0' !in s
    ensures '\0' !in Unquoted(s)
  {
    if s != "" { NoNulUnquoted(s[1..]); }
  }

  lemma NoNulWithOperators(s: string)
    requires '\0' !in s
    ensures WithOperators(s).Some? ==> '\0' !in WithOperators(s).value
  {
    hide Replaced;
    NoNulUnquoted(s);
    var a := Replaced(Unquoted(s), "AND", '&');
    NoNulReplaced(Unquoted(s), "AND", '&');
    if a.Some? {
      NoNulReplaced(a.value, "OR", '|');
      var b := Replaced(a.value, "OR", '|');
      if b.Some? {
        NoNulReplaced(b.value, "and", '&');
        var c := Replaced(b.value, "and", '&');
        if c.Some? { NoNulReplaced(c.value, "or", '|'); }
      }
    }
  }
}
