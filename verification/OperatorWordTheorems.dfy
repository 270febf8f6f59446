/** What the replacement of operator words does to every text, said without the functions that do it. */
module OperatorWordTheorems {
  import opened Wrappers
  import opened OperatorWords

  /** A text as pieces with a word between each two: piece, word, piece, word, ..., piece. */
  function Woven(pieces: seq<string>, words: seq<string>): string
    requires |pieces| == |words| + 1
  {
    if words == [] then pieces[0] else pieces[0] + (words[0] + Woven(pieces[1..], words[1..]))
  }

  /** The word stands at position i between neighbours, or at the end behind one. */
  predicate StandsAt(s: string, i: nat, word: string) {
    && 0 < i && i + |word| <= |s|
    && s[i..i + |word|] == word
    && s[i - 1] in "() "
    && (i + |word| < |s| ==> s[i + |word|] in "() ")
  }

  ghost predicate Free(s: string, word: string) {
    forall i: nat :: !StandsAt(s, i, word)
  }

  ghost predicate FreeOfWords(s: string) {
    Free(s, "AND") && Free(s, "OR") && Free(s, "and") && Free(s, "or")
  }

  /** Pieces end and begin with a blank or a parenthesis where they meet a word. */
  predicate Meet(pieces: seq<string>) {
    && (forall k :: 0 <= k < |pieces| - 1 ==> pieces[k] != "" && pieces[k][|pieces[k]| - 1] in "() ")
    && (forall k :: 0 < k < |pieces| ==> pieces[k] != "" && pieces[k][0] in "() ")
  }

  predicate Spelled(word: string) {
    word in {"AND", "OR", "and", "or"}
  }

  predicate Separator(word: string) {
    Spelled(word) || word == "&" || word == "|"
  }

  // ---- one word --------------------------------------------------------------------------

  /** At a place of a free piece nothing is replaced and nothing fails. */
  lemma NothingHere(s: string, i: nat, rest: string, word: string)
    requires Spelled(word) && Free(s, word) && 0 < i < |s| && s[i - 1] in NEIGHBOURS
    requires rest == "" || s[|s| - 1] in "() "
    ensures var t := s[i..] + rest; word <= t ==> |t| > |word| && t[|word|] !in NEIGHBOURS
  {
    var t, n := s[i..] + rest, |word|;
    if word <= t {
      WordInside(s, i, rest, word);
      assert s[i..i + n] == t[..n] == word;
      assert !StandsAt(s, i, word);
    }
  }

  lemma WordInside(s: string, i: nat, rest: string, word: string)
    requires Spelled(word) && i < |s| && (rest == "" || s[|s| - 1] in "() ") && word <= s[i..] + rest
    ensures i + |word| <= |s|
  {
    var t, k := s[i..] + rest, |s| - 1 - i;
    assert t[k] == s[|s| - 1];
    assert k < |word| ==> t[k] == word[k] && word[k] !in "() ";
  }

  /** A piece without the word, before a word or at the end, stays. */
  lemma {:induction false} PieceKept(prev: char, s: string, i: nat, rest: string, word: string, op: char)
    requires Spelled(word) && Free(s, word) && i < |s| && prev !in NEIGHBOURS
    requires rest == "" || s[|s| - 1] in "() "
    ensures ReplacedAfter(if i == 0 then prev else s[i - 1], s[i..] + rest, word, op) ==
            After(s[i..], ReplacedAfter(s[|s| - 1], rest, word, op))
    decreases |s| - i
  {
    var before, t := if i == 0 then prev else s[i - 1], s[i..] + rest;
    if before in NEIGHBOURS { NothingHere(s, i, rest, word); }
    assert t[1..] == s[i + 1..] + rest && t[0] == s[i];
    assert ReplacedAfter(before, t, word, op) == After([s[i]], ReplacedAfter(s[i], t[1..], word, op));
    hide ReplacedAfter, After, Free;
    if i + 1 < |s| {
      PieceKept(prev, s, i + 1, rest, word, op);
      AfterTwice([s[i]], s[i + 1..], ReplacedAfter(s[|s| - 1], rest, word, op));
      assert [s[i]] + s[i + 1..] == s[i..];
    } else {
      assert s[i + 1..] + rest == rest && [s[i]] == s[i..];
    }
  }

  /** Letters that are not between neighbours stay. */
  lemma {:induction false} LettersKept(prev: char, u: string, rest: string, word: string, op: char)
    requires word != "" && prev !in NEIGHBOURS && u != "" && forall k :: 0 <= k < |u| ==> u[k] !in NEIGHBOURS
    ensures ReplacedAfter(prev, u + rest, word, op) == After(u, ReplacedAfter(u[|u| - 1], rest, word, op))
    decreases |u|
  {
    var more := u[1..];
    assert (u + rest)[1..] == more + rest;
    hide After;
    if more == "" {
      assert more + rest == rest && u == [u[0]];
    } else {
      LettersKept(u[0], more, rest, word, op);
      AfterTwice([u[0]], more, ReplacedAfter(u[|u| - 1], rest, word, op));
      assert [u[0]] + more == u;
    }
  }

  /** A word between neighbours is replaced if it is the one looked for, and stays otherwise. */
  lemma SeparatorTurn(prev: char, separator: string, rest: string, word: string, op: char)
    requires Separator(separator) && Spelled(word) && prev in NEIGHBOURS && rest != "" && rest[0] in NEIGHBOURS
    ensures ReplacedAfter(prev, separator + rest, word, op) ==
            if separator == word then After([op], ReplacedAfter(op, rest, word, op))
            else After(separator, ReplacedAfter(separator[|separator| - 1], rest, word, op))
  {
    var t := separator + rest;
    if separator == word {
      assert word <= t && t[|word|..] == rest;
    } else {
      OtherWord(separator, rest, word);
      assert t[1..] == separator[1..] + rest;
      var more := separator[1..];
      assert ReplacedAfter(prev, t, word, op) == After([separator[0]], ReplacedAfter(separator[0], more + rest, word, op));
      hide ReplacedAfter, After;
      if more == "" {
        assert more + rest == rest && [separator[0]] == separator;
      } else {
        LettersKept(separator[0], more, rest, word, op);
        AfterTwice([separator[0]], more, ReplacedAfter(separator[|separator| - 1], rest, word, op));
        assert [separator[0]] + more == separator;
      }
    }
  }

  lemma OtherWord(separator: string, rest: string, word: string)
    requires Separator(separator) && Spelled(word) && rest != "" && rest[0] in NEIGHBOURS && separator != word
    ensures !(word <= separator + rest)
  {
    var t := separator + rest;
    assert t[0] == separator[0] && t[|separator|] == rest[0];
    assert |separator| > 1 ==> t[1] == separator[1];
  }

  // ---- woven texts -----------------------------------------------------------------------

  /** The words after one has been replaced. */
  function Turned(words: seq<string>, word: string, op: char): (r: seq<string>)
    ensures |r| == |words|
    ensures forall k :: 0 <= k < |words| ==> r[k] == if words[k] == word then [op] else words[k]
  {
    seq(|words|, k requires 0 <= k < |words| => if words[k] == word then [op] else words[k])
  }

  lemma WovenFirst(pieces: seq<string>, words: seq<string>)
    requires |pieces| == |words| + 1 && pieces[0] != ""
    ensures Woven(pieces, words) != "" && Woven(pieces, words)[0] == pieces[0][0]
  {}

  lemma {:induction false} Pass(prev: char, pieces: seq<string>, words: seq<string>, word: string, op: char)
    requires |pieces| == |words| + 1 && Meet(pieces) && Spelled(word) && prev !in NEIGHBOURS && op !in NEIGHBOURS
    requires forall k :: 0 <= k < |words| ==> Separator(words[k])
    requires forall k :: 0 <= k < |pieces| ==> Free(pieces[k], word)
    ensures ReplacedAfter(prev, Woven(pieces, words), word, op) == Some(Woven(pieces, Turned(words, word, op)))
    decreases |words|
  {
    hide Free, Separator, Turned;
    var p := pieces[0];
    if words == [] {
      assert Woven(pieces, []) == p;
      if p != "" {
        PieceKept(prev, p, 0, "", word, op);
        assert p[0..] + "" == p && p[0..] == p;
      }
    } else {
      var w, tail, others := words[0], pieces[1..], words[1..];
      var rest := Woven(tail, others);
      WovenFirst(tail, others);
      PieceKept(prev, p, 0, w + rest, word, op);
      assert p[0..] == p;
      SeparatorTurn(p[|p| - 1], w, rest, word, op);
      SeparatorEnds(w);
      var next := if w == word then op else w[|w| - 1];
      Pass(next, tail, others, word, op);
      var turned := Turned(words, word, op);
      assert turned[1..] == Turned(others, word, op);
      hide ReplacedAfter;
      WovenStep(pieces, turned);
    }
  }

  lemma SeparatorEnds(w: string)
    requires Separator(w)
    ensures w != "" && w[|w| - 1] !in NEIGHBOURS
  {}

  lemma WovenStep(pieces: seq<string>, words: seq<string>)
    requires |pieces| == |words| + 1 && words != []
    ensures After(pieces[0], After(words[0], Some(Woven(pieces[1..], words[1..])))) == Some(Woven(pieces, words))
  {}

  /** One call of the source's function: the word gives way to the operator wherever it stands between blanks or
      parentheses, and nothing else changes. */
  lemma WordReplacedEverywhere(pieces: seq<string>, words: seq<string>, word: string, op: char)
    requires |pieces| == |words| + 1 && Meet(pieces) && Spelled(word) && (op == '&' || op == '|')
    requires forall k :: 0 <= k < |words| ==> Separator(words[k])
    requires forall k :: 0 <= k < |pieces| ==> Free(pieces[k], word)
    ensures Replaced(Woven(pieces, words), word, op) == Some(Woven(pieces, Turned(words, word, op)))
  {
    hide Separator, Free, Woven, Turned, Meet;
    ReplacedIs(Woven(pieces, words), word, op);
    Pass('x', pieces, words, word, op);
  }

  /** The operators that words stand for. */
  function OperatorsOf(words: seq<string>): (r: seq<string>)
    ensures |r| == |words|
  {
    seq(|words|, k requires 0 <= k < |words| => if words[k] == "AND" || words[k] == "and" then "&" else "|")
  }

  /** In every text, each of the four words between blanks or parentheses becomes its operator. */
  lemma AllSpellings(pieces: seq<string>, words: seq<string>)
    requires |pieces| == |words| + 1 && Meet(pieces) && '"' !in Woven(pieces, words)
    requires forall k :: 0 <= k < |words| ==> Spelled(words[k])
    requires forall k :: 0 <= k < |pieces| ==> FreeOfWords(pieces[k])
    ensures WithOperators(Woven(pieces, words)) == Some(Woven(pieces, OperatorsOf(words)))
  {
    hide Free, Woven, Meet, Replaced, Unquoted;
    NothingQuoted(Woven(pieces, words));
    var a := Turned(words, "AND", '&');
    var b := Turned(a, "OR", '|');
    var c := Turned(b, "and", '&');
    var d := Turned(c, "or", '|');
    assert d == OperatorsOf(words);
    WordReplacedEverywhere(pieces, words, "AND", '&');
    WordReplacedEverywhere(pieces, a, "OR", '|');
    WordReplacedEverywhere(pieces, b, "and", '&');
    WordReplacedEverywhere(pieces, c, "or", '|');
  }

  // ---- quotes, and the end of the text -----------------------------------------------------

  lemma {:induction false} UnquotedSplit(a: string, b: string)
    ensures Unquoted(a + b) == Unquoted(a) + Unquoted(b)
  {
    hide UnquotedChar;
    if a == "" {
      assert a + b == b;
    } else {
      assert (a + b)[1..] == a[1..] + b;
      UnquotedSplit(a[1..], b);
      assert UnquotedChar(a[0]) + (Unquoted(a[1..]) + Unquoted(b)) == UnquotedChar(a[0]) + Unquoted(a[1..]) + Unquoted(b);
    }
  }

  /** Quotes count for nothing, wherever they stand. */
  lemma QuoteDropped(a: string, b: string)
    ensures WithOperators(a + "\"" + b) == WithOperators(a + b)
  {
    UnquotedSplit(a + "\"", b);
    UnquotedSplit(a, "\"");
    UnquotedSplit(a, b);
    assert Unquoted("\"") == "";
    assert Unquoted(a) + "" == Unquoted(a);
    hide Replaced, Unquoted;
  }

  /** A word at the end of a text, behind a blank or a parenthesis, makes the source fail. */
  lemma {:induction false} EndFailsAfter(prev: char, u: string, word: string, op: char)
    requires Spelled(word) && (if u == "" then prev in "() " else u[|u| - 1] in "() ")
    ensures ReplacedAfter(prev, u + word, word, op).None?
    decreases |u|
  {
    var t := u + word;
    if u == "" {
      assert t == word;
    } else {
      if word <= t && prev in NEIGHBOURS && |t| > |word| && t[|word|] in NEIGHBOURS {
        NeighbourInside(u, word);
        DropFirst(u, word, |word|);
        EndFailsAfter(op, u[|word|..], word, op);
      }
      DropFirst(u, word, 1);
      EndFailsAfter(u[0], u[1..], word, op);
    }
  }

  lemma DropFirst(u: string, v: string, n: nat)
    requires n <= |u|
    ensures (u + v)[n..] == u[n..] + v
  {}

  lemma NeighbourInside(u: string, word: string)
    requires Spelled(word) && |u| > 0 && (u + word)[|word|] in NEIGHBOURS
    ensures |word| < |u|
  {
    var t := u + word;
    assert forall k :: |u| <= k < |t| ==> t[k] == word[k - |u|] && word[k - |u|] !in NEIGHBOURS;
  }

  lemma EndFails(a: string, word: string, op: char)
    requires Spelled(word) && a != "" && a[|a| - 1] in "() "
    ensures Replaced(a + word, word, op).None?
  {
    ReplacedIs(a + word, word, op);
    EndFailsAfter('x', a, word, op);
  }
}
