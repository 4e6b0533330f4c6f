/**
 Query text as its writer sees it: words, comparison signs, commas and dots, quoted strings, with or without spaces
 between them. Tokenizing a line gives these back, each with its text and its exact range.
 */
module Lexemes {
  import opened Bytes
  import opened Results
  import opened Values
  import opened Canonical
  import opened Tokens
  import opened Literals

  datatype Lexeme = Word(text: Text) | Sign(text: Text) | Mark(dot: bool) | QuotedText(text: Text, single: bool)

  /** A lexeme and the white space behind it. */
  datatype Item = Item(lexeme: Lexeme, gap: Text)

  predicate IsGap(t: Text)
  {
    forall i | 0 <= i < |t| :: t[i] in {9, 10, 11, 12, 13, 32}
  }

  /** White space, one of = ! < >, or a comma. */
  predicate EndsAnyWord(c: byte)
  {
    c in {9, 10, 11, 12, 13, 32} || c in {61, 33, 60, 62} || c == 44
  }

  /** The byte at i is no space, sign or comma, and a dot only between two digits. */
  predicate InsideWord(t: Text, i: nat)
    requires i < |t|
  {
    !EndsAnyWord(t[i]) && (t[i] == DOT ==> 0 < i < |t| - 1 && IsDigit(t[i - 1]) && IsDigit(t[i + 1]))
  }

  predicate IsWord(t: Text)
  {
    |t| > 0 && !IsQuote(t[0]) && forall i | 0 <= i < |t| :: InsideWord(t, i)
  }

  /** = ! < > and != <= >=. */
  predicate IsSign(t: Text)
  {
    t in {[61], [33], [60], [62], [33, 61], [60, 61], [62, 61]}
  }

  predicate IsLexeme(l: Lexeme)
  {
    match l
    case Word(t) => IsWord(t)
    case Sign(t) => IsSign(t)
    case Mark(_) => true
    case QuotedText(_, _) => true
  }

  /** The text with a backslash before every quote of the kind around it and before every backslash. */
  function Protected(t: Text, quote: byte): Text
  {
    if t == [] then [] else (if t[0] == quote || t[0] == 92 then [92, t[0]] else [t[0]]) + Protected(t[1..], quote)
  }

  function QuoteOf(single: bool): byte
  {
    if single then 39 else 34
  }

  function Written(l: Lexeme): (t: Text)
  {
    match l
    case Word(t) => t
    case Sign(t) => t
    case Mark(dot) => if dot then [DOT] else [COMMA]
    case QuotedText(t, single) => [QuoteOf(single)] + (Protected(t, QuoteOf(single)) + [QuoteOf(single)])
  }

  /** What the token of a lexeme says. */
  function Said(l: Lexeme): Text
  {
    if l.QuotedText? then l.text else Written(l)
  }

  /** What may follow a lexeme directly without being taken for a part of it. */
  predicate MayFollow(l: Lexeme, rest: Text)
  {
    rest == []
    || match l
       case Word(t) =>
         || EndsAnyWord(rest[0])
         || (rest[0] == DOT && !(|t| > 0 && IsDigit(t[|t| - 1]) && |rest| > 1 && IsDigit(rest[1])))
       case Sign(t) => |t| == 2 || t == [EQUALS] || rest[0] != EQUALS
       case _ => true
  }

  function Line(items: seq<Item>): Text
  {
    if |items| == 0 then []
    else Written(items[0].lexeme) + (items[0].gap + Line(items[1..]))
  }

  /** Every lexeme is one, and nothing directly behind it can be mistaken for a part of it. */
  predicate WellSpaced(items: seq<Item>)
  {
    |items| == 0
    || (IsLexeme(items[0].lexeme) && IsGap(items[0].gap) && MayFollow(items[0].lexeme, items[0].gap + Line(items[1..]))
        && WellSpaced(items[1..]))
  }

  /** One token per lexeme, covering exactly what was written. */
  function TokensOfLine(items: seq<Item>, at: nat): (r: seq<Token>)
    ensures |r| == |items|
  {
    if |items| == 0 then [] else
    var l := items[0].lexeme;
    var end := at + |Written(l)|;
    [Token(Said(l), at, end)] + TokensOfLine(items[1..], end + |items[0].gap|)
  }

  // ---- one lexeme ----

  lemma {:induction false} RestAt(q: Text, pos: nat, e: Text, rest: Text)
    requires pos <= |q| && q[pos..] == e + rest
    ensures At(q, pos, e) && pos + |e| <= |q| && q[pos + |e|..] == rest
  {
    assert q[pos..pos + |e|] == q[pos..][..|e|];
    assert q[pos + |e|..] == q[pos..][|e|..];
  }

  lemma {:induction false} FollowingByte(q: Text, end: nat, rest: Text, i: nat)
    requires end <= |q| && q[end..] == rest && i < |rest|
    ensures end + i < |q| && q[end + i] == rest[i]
  {
    assert q[end..][i] == q[end + i];
  }

  lemma {:induction false} WordStops(q: Text, begin: nat, pos: nat, end: nat)
    requires pos <= end <= |q| && (end < |q| ==> EndsWord(q, begin, end))
    requires forall i | pos <= i < end :: !EndsWord(q, begin, i)
    ensures WordEnd(q, begin, pos) == end
    decreases end - pos
  {
    if pos < end {
      WordStops(q, begin, pos + 1, end);
    }
  }

  lemma {:induction false} WordTokenAt(q: Text, pos: nat, t: Text, rest: Text)
    requires pos <= |q| && q[pos..] == t + rest && IsWord(t) && MayFollow(Word(t), rest)
    ensures pos < |q| && !IsSpace(q[pos]) && TokenAt(q, pos) == Lexed(Token(t, pos, pos + |t|))
  {
    hide At;
    var end := pos + |t|;
    RestAt(q, pos, t, rest);
    forall i | 0 <= i < |t|
      ensures q[pos + i] == t[i]
    {
      AtByte(q, pos, t, i);
    }
    assert q[pos + 0] == t[0];
    if rest != [] {
      FollowingByte(q, end, rest, 0);
      assert q[end - 1] == t[|t| - 1];
      if |rest| > 1 {
        FollowingByte(q, end, rest, 1);
      } else {
        assert |q| == end + |q[end..]|;
      }
    } else {
      assert |q[end..]| == |q| - end;
    }
    forall i | pos + 1 <= i < end
      ensures !EndsWord(q, pos, i)
    {
      assert q[i] == q[pos + (i - pos)] == t[i - pos] && InsideWord(t, i - pos);
      if t[i - pos] == DOT {
        assert q[pos + (i - pos - 1)] == t[i - pos - 1] && q[pos + (i - pos + 1)] == t[i - pos + 1];
      }
    }
    assert q[pos] == t[0] && InsideWord(t, 0);
    WordStops(q, pos, pos + 1, end);
    AtIsSlice(q, pos, t);
  }

  lemma {:induction false} SignTokenAt(q: Text, pos: nat, t: Text, rest: Text)
    requires pos <= |q| && q[pos..] == t + rest && IsSign(t) && MayFollow(Sign(t), rest)
    ensures pos < |q| && !IsSpace(q[pos]) && TokenAt(q, pos) == Lexed(Token(t, pos, pos + |t|))
  {
    hide At, Unquote, WordEnd;
    var end := pos + |t|;
    RestAt(q, pos, t, rest);
    AtByte(q, pos, t, 0);
    AtByte(q, pos, t, |t| - 1);
    if rest != [] {
      FollowingByte(q, end, rest, 0);
    } else {
      assert |q[end..]| == |q| - end;
    }
    AtIsSlice(q, pos, t);
  }

  lemma {:induction false} MarkTokenAt(q: Text, pos: nat, dot: bool, rest: Text)
    requires pos <= |q| && q[pos..] == Written(Mark(dot)) + rest
    ensures pos < |q| && !IsSpace(q[pos]) && TokenAt(q, pos) == Lexed(Token(Written(Mark(dot)), pos, pos + 1))
  {
    hide At, Unquote, WordEnd;
    RestAt(q, pos, Written(Mark(dot)), rest);
    AtByte(q, pos, Written(Mark(dot)), 0);
    AtInside(q, pos, Written(Mark(dot)));
  }

  lemma {:induction false} LexemeTokenAt(q: Text, pos: nat, l: Lexeme, rest: Text)
    requires pos <= |q| && q[pos..] == Written(l) + rest && IsLexeme(l) && MayFollow(l, rest)
    ensures pos < |q| && !IsSpace(q[pos])
    ensures TokenAt(q, pos) == Lexed(Token(Said(l), pos, pos + |Written(l)|)) && pos + |Written(l)| <= |q|
  {
    hide At, TokenAt, IsWord, IsSign, MayFollow, Protected, IsSpace;
    RestAt(q, pos, Written(l), rest);
    match l
    case Word(t) => WordTokenAt(q, pos, t, rest);
    case Sign(t) => SignTokenAt(q, pos, t, rest);
    case Mark(dot) => MarkTokenAt(q, pos, dot, rest);
    case QuotedText(t, single) => QuotedTokenAt(q, pos, t, single, rest);
  }

  /** Unquoting one protected byte. */
  lemma {:induction false} UnquoteProtectedByte(q: Text, pos: nat, c: byte, quote: byte, rest: Text, end: nat)
    requires quote == 34 || quote == 39
    requires At(q, pos, if c == quote || c == 92 then [92, c] else [c])
    requires Unquote(q, pos + (if c == quote || c == 92 then 2 else 1), quote) == Some((rest, end))
    ensures Unquote(q, pos, quote) == Some(([c] + rest, end))
  {
    hide At;
    var e := if c == quote || c == 92 then [92, c] else [c];
    AtInside(q, pos, e);
    AtByte(q, pos, e, 0);
    AtByte(q, pos, e, |e| - 1);
  }

  lemma {:induction false} UnquoteProtected(q: Text, pos: nat, t: Text, quote: byte)
    requires (quote == 34 || quote == 39) && At(q, pos, Protected(t, quote) + [quote])
    ensures Unquote(q, pos, quote) == Some((t, pos + |Protected(t, quote)|))
    decreases |t|
  {
    hide At;
    if t == [] {
      assert Protected(t, quote) + [quote] == [quote];
      AtByte(q, pos, [quote], 0);
      AtInside(q, pos, [quote]);
    } else {
      var head := if t[0] == quote || t[0] == 92 then [92, t[0]] else [t[0]];
      var tail := Protected(t[1..], quote);
      ConcatAssociative(head, tail, [quote]);
      AtSplit(q, pos, head, tail + [quote]);
      UnquoteProtected(q, pos + |head|, t[1..], quote);
      UnquoteProtectedByte(q, pos, t[0], quote, t[1..], pos + |head| + |tail|);
      assert t == [t[0]] + t[1..];
    }
  }

  lemma {:induction false} QuoteStarts(q: Text, pos: nat, t: Text, end: nat)
    requires pos < |q| && (q[pos] == 34 || q[pos] == 39) && Unquote(q, pos + 1, q[pos]) == Some((t, end))
    ensures !IsSpace(q[pos]) && TokenAt(q, pos) == Lexed(Token(t, pos, end + 1))
  {
    hide Unquote, WordEnd;
  }

  lemma QuotedWritten(t: Text, single: bool)
    ensures Written(QuotedText(t, single)) == [QuoteOf(single)] + (Protected(t, QuoteOf(single)) + [QuoteOf(single)])
    ensures QuoteOf(single) == 34 || QuoteOf(single) == 39
  {
  }

  lemma {:induction false} QuotedTokenAt(q: Text, pos: nat, t: Text, single: bool, rest: Text)
    requires pos <= |q| && q[pos..] == Written(QuotedText(t, single)) + rest
    ensures var l := QuotedText(t, single);
            && pos < |q| && !IsSpace(q[pos])
            && TokenAt(q, pos) == Lexed(Token(t, pos, pos + |Written(l)|))
  {
    hide At, Unquote, Protected, TokenAt, IsSpace, Written, QuoteOf;
    QuotedWritten(t, single);
    var quote := QuoteOf(single);
    var tail := Protected(t, quote) + [quote];
    RestAt(q, pos, [quote] + tail, rest);
    AtSplit(q, pos, [quote], tail);
    AtByte(q, pos, [quote], 0);
    AtInside(q, pos, [quote]);
    UnquoteProtected(q, pos + 1, t, quote);
    QuoteStarts(q, pos, t, pos + 1 + |Protected(t, quote)|);
  }

  // ---- a line ----

  lemma {:induction false} OneBlank(q: Text, pos: nat)
    requires pos < |q| && q[pos] in {9, 10, 11, 12, 13, 32}
    ensures TokensFrom(q, pos) == TokensFrom(q, pos + 1)
  {
    hide TokenAt;
  }

  lemma {:induction false} SkipsGap(q: Text, pos: nat, gap: Text, rest: Text)
    requires pos <= |q| && q[pos..] == gap + rest && IsGap(gap)
    ensures pos + |gap| <= |q| && q[pos + |gap|..] == rest && TokensFrom(q, pos) == TokensFrom(q, pos + |gap|)
    decreases |gap|
  {
    hide TokensFrom;
    RestAt(q, pos, gap, rest);
    if |gap| > 0 {
      AtByte(q, pos, gap, 0);
      OneBlank(q, pos);
      assert q[pos + 1..] == q[pos..][1..] == gap[1..] + rest;
      SkipsGap(q, pos + 1, gap[1..], rest);
    }
  }

  lemma {:induction false} LineStarts(items: seq<Item>)
    requires |items| > 0
    ensures Line(items) == Written(items[0].lexeme) + (items[0].gap + Line(items[1..]))
    ensures WellSpaced(items) <==>
              && IsLexeme(items[0].lexeme) && IsGap(items[0].gap)
              && MayFollow(items[0].lexeme, items[0].gap + Line(items[1..]))
              && WellSpaced(items[1..])
  {
    hide Written, IsLexeme, MayFollow, IsGap;
  }

  /** Tokenizing a well-spaced line gives its lexemes back in order: no more, no fewer, with their exact ranges. */
  lemma {:induction false} LineTokens(q: Text, pos: nat, items: seq<Item>)
    requires pos <= |q| && q[pos..] == Line(items) && WellSpaced(items)
    ensures TokensFrom(q, pos) == Lexed(TokensOfLine(items, pos))
    decreases |items|
  {
    hide Line, WellSpaced, Written, Said, IsLexeme, MayFollow, IsGap, TokenAt, TokensFrom, IsSpace;
    if |items| == 0 {
      EmptyLine(items);
      assert |q[pos..]| == |q| - pos;
      EndsHere(q);
    } else {
      var l, gap, more := items[0].lexeme, items[0].gap, items[1..];
      LineStarts(items);
      LexemeTokenAt(q, pos, l, gap + Line(more));
      RestAt(q, pos, Written(l), gap + Line(more));
      var end := pos + |Written(l)|;
      SkipsGap(q, end, gap, Line(more));
      LineTokens(q, end + |gap|, more);
      FirstToken(q, pos, Token(Said(l), pos, end), TokensOfLine(more, end + |gap|));
    }
  }

  lemma EmptyLine(items: seq<Item>)
    requires |items| == 0
    ensures Line(items) == []
  {
  }
}
