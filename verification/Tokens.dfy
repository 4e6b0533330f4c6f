/**
 The query tokenizer and literal parser, and how they undo the escaping printer: a line of printed values
 tokenizes to one token per value, and the literal parser recovers every value it can.
 */
module Tokens {
  import opened Bytes
  import opened Results
  import opened Values
  import opened Canonical

  const SPACE: byte := 32
  const DOT: byte := 46
  const COMMA: byte := 44
  const EQUALS: byte := 61
  const DOLLAR: byte := 36
  const APOSTROPHE: byte := 39

  predicate IsSpace(c: byte)
  {
    c == 32 || 9 <= c <= 13
  }

  predicate IsQuote(c: byte)
  {
    c == QUOTE || c == APOSTROPHE
  }

  /** One of = ! < >. */
  predicate IsOperator(c: byte)
  {
    c == EQUALS || c == 33 || c == 60 || c == 62
  }

  datatype Token = Token(text: Text, begin: nat, end: nat)

  datatype Range = Range(begin: nat, end: nat)

  /** What tokenizing gives, or the error and the part of the query it is about. */
  datatype Lexed<+T> = Lexed(value: T) | Refused(error: ErrorCode, range: Option<Range>)

  // ---- what the tokenizer computes ----

  function SkipSpaces(q: Text, pos: nat): (end: nat)
    requires pos <= |q|
    ensures pos <= end <= |q| && (end < |q| ==> !IsSpace(q[end]))
    decreases |q| - pos
  {
    if pos < |q| && IsSpace(q[pos]) then SkipSpaces(q, pos + 1) else pos
  }

  /** The text up to the closing quote and where that quote is; a backslash protects what follows it. */
  function Unquote(q: Text, pos: nat, quote: byte): (r: Option<(Text, nat)>)
    requires pos <= |q|
    ensures r.Some? ==> pos <= r.value.1 < |q|
    decreases |q| - pos
  {
    if pos == |q| then None
    else if q[pos] == quote then Some(([], pos))
    else
      var at := if q[pos] == BACKSLASH && pos + 1 < |q| then pos + 1 else pos;
      match Unquote(q, at + 1, quote)
      case None => None
      case Some((rest, end)) => Some(([q[at]] + rest, end))
  }

  predicate DecimalDot(q: Text, begin: nat, pos: nat)
  {
    begin < pos && pos + 1 < |q| && IsDigit(q[pos - 1]) && IsDigit(q[pos + 1])
  }

  /** Whether a word that began at begin ends before pos. */
  predicate EndsWord(q: Text, begin: nat, pos: nat)
    requires pos < |q|
  {
    IsSpace(q[pos]) || IsOperator(q[pos]) || q[pos] == COMMA || (q[pos] == DOT && !DecimalDot(q, begin, pos))
  }

  function WordEnd(q: Text, begin: nat, pos: nat): (end: nat)
    requires pos <= |q|
    ensures pos <= end <= |q|
    decreases |q| - pos
  {
    if pos < |q| && !EndsWord(q, begin, pos) then WordEnd(q, begin, pos + 1) else pos
  }

  /** The token that starts at a position that is not a space. */
  function TokenAt(q: Text, begin: nat): (r: Lexed<Token>)
    requires begin < |q| && !IsSpace(q[begin])
    ensures r.Lexed? ==> r.value.begin == begin < r.value.end <= |q|
  {
    var c := q[begin];
    if IsQuote(c) then
      match Unquote(q, begin + 1, c)
      case None => Refused(QuerySyntax, Some(Range(begin, |q|)))
      case Some((text, end)) => Lexed(Token(text, begin, end + 1))
    else if IsOperator(c) then
      var end := if begin + 1 < |q| && q[begin + 1] == EQUALS && c != EQUALS then begin + 2 else begin + 1;
      Lexed(Token(q[begin..end], begin, end))
    else if c == COMMA || c == DOT then Lexed(Token([c], begin, begin + 1))
    else
      var end := WordEnd(q, begin, begin + 1);
      Lexed(Token(q[begin..end], begin, end))
  }

  function TokensFrom(q: Text, pos: nat): Lexed<seq<Token>>
    requires pos <= |q|
    decreases |q| - pos
  {
    var begin := SkipSpaces(q, pos);
    if begin == |q| then Lexed([]) else
    match TokenAt(q, begin)
    case Refused(e, range) => Refused(e, range)
    case Lexed(token) =>
      match TokensFrom(q, token.end)
      case Refused(e, range) => Refused(e, range)
      case Lexed(rest) => Lexed([token] + rest)
  }

  function Before(tokens: seq<Token>, rest: Lexed<seq<Token>>): Lexed<seq<Token>>
  {
    match rest case Refused(e, range) => Refused(e, range) case Lexed(more) => Lexed(tokens + more)
  }

  lemma UnquoteStep(q: Text, start: nat, pos: nat, quote: byte, text: Text)
    requires start <= pos < |q| && q[pos] != quote
    ensures var at := if q[pos] == BACKSLASH && pos + 1 < |q| then pos + 1 else pos;
            && (Unquote(q, pos, quote).Some? <==> Unquote(q, at + 1, quote).Some?)
            && (Unquote(q, pos, quote).Some? ==>
                  && Unquote(q, pos, quote).value.1 == Unquote(q, at + 1, quote).value.1
                  && text + Unquote(q, pos, quote).value.0 == (text + [q[at]]) + Unquote(q, at + 1, quote).value.0)
  {
  }

  /** Reads a quoted string; the position is left at the closing quote or at the end. */
  method ReadQuoted(q: Text, start: nat, quote: byte) returns (r: Option<(Text, nat)>)
    requires start <= |q|
    ensures r == Unquote(q, start, quote)
  {
    var text: Text := [];
    var pos := start;
    assert Unquote(q, start, quote).Some? ==> [] + Unquote(q, start, quote).value.0 == Unquote(q, start, quote).value.0;
    while pos < |q| && q[pos] != quote
      invariant start <= pos <= |q|
      invariant Unquote(q, start, quote).Some? <==> Unquote(q, pos, quote).Some?
      invariant Unquote(q, pos, quote).Some? ==>
                  Unquote(q, start, quote).value == (text + Unquote(q, pos, quote).value.0, Unquote(q, pos, quote).value.1)
      decreases |q| - pos
    {
      UnquoteStep(q, start, pos, quote, text);
      if q[pos] == BACKSLASH && pos + 1 < |q| {
        pos := pos + 1;
      }
      text := text + [q[pos]];
      pos := pos + 1;
    }
    if pos >= |q| {
      return None;
    }
    assert text + [] == text;
    return Some((text, pos));
  }

  /** Reads a word; a dot belongs to it only between digits. */
  method ReadWord(q: Text, begin: nat) returns (pos: nat)
    requires begin < |q| && !EndsWord(q, begin, begin)
    ensures pos == WordEnd(q, begin, begin + 1)
  {
    pos := begin;
    while pos < |q| && !IsSpace(q[pos]) && q[pos] != EQUALS && q[pos] != 33 && q[pos] != 60 && q[pos] != 62 && q[pos] != COMMA
      invariant begin <= pos <= |q| && WordEnd(q, begin, begin) == WordEnd(q, begin, pos)
    {
      if q[pos] == DOT {
        var decimalDot := pos > begin && pos + 1 < |q| && IsDigit(q[pos - 1]) && IsDigit(q[pos + 1]);
        if !decimalDot {
          break;
        }
      }
      pos := pos + 1;
    }
  }

  /** Reads one token: a quoted string, an operator, a comma or dot, or a word. */
  method ReadToken(q: Text, begin: nat) returns (r: Lexed<Token>)
    requires begin < |q| && !IsSpace(q[begin])
    ensures r == TokenAt(q, begin)
  {
    hide Unquote;
    var pos := begin;
    if q[pos] == QUOTE || q[pos] == APOSTROPHE {
      var quoted := ReadQuoted(q, pos + 1, q[pos]);
      if quoted.None? {
        return Refused(QuerySyntax, Some(Range(begin, |q|)));
      }
      return Lexed(Token(quoted.value.0, begin, quoted.value.1 + 1));
    }
    if q[pos] == EQUALS || q[pos] == 33 || q[pos] == 60 || q[pos] == 62 {
      var op := [q[pos]];
      pos := pos + 1;
      if pos < |q| && q[pos] == EQUALS && op[0] != EQUALS {
        op := op + [q[pos]];
        pos := pos + 1;
      }
      assert q[begin..pos] == op;
      return Lexed(Token(op, begin, pos));
    }
    if q[pos] == COMMA || q[pos] == DOT {
      return Lexed(Token([q[pos]], pos, pos + 1));
    }
    pos := ReadWord(q, pos);
    return Lexed(Token(q[begin..pos], begin, pos));
  }

  /** Splits a query into tokens with their source ranges. */
  method Tokenize(q: Text, limits: Limits) returns (r: Lexed<seq<Token>>)
    ensures r == if |q| > limits.maxQueryBytes then Refused(ResourceLimit, None) else TokensFrom(q, 0)
  {
    hide TokenAt;
    if |q| > limits.maxQueryBytes {
      return Refused(ResourceLimit, None);
    }
    var tokens: seq<Token> := [];
    var pos := 0;
    StartOfLine(q);
    while pos < |q|
      invariant pos <= |q| && TokensFrom(q, 0) == Before(tokens, TokensFrom(q, pos))
      decreases |q| - pos
    {
      ghost var from := pos;
      while pos < |q| && IsSpace(q[pos])
        invariant from <= pos <= |q| && SkipSpaces(q, from) == SkipSpaces(q, pos)
      {
        pos := pos + 1;
      }
      if pos >= |q| {
        EndOfLine(q, from, tokens);
        break;
      }
      NextToken(q, from, pos, tokens);
      var token := ReadToken(q, pos);
      if token.Refused? {
        return Refused(token.error, token.range);
      }
      tokens := tokens + [token.value];
      pos := token.value.end;
    }
    EndOfLine(q, pos, tokens);
    return Lexed(tokens);
  }

  lemma {:induction false} StartOfLine(q: Text)
    ensures TokensFrom(q, 0) == Before([], TokensFrom(q, 0))
  {
    match TokensFrom(q, 0)
    case Lexed(all) => assert [] + all == all;
    case Refused(_, _) =>
  }

  lemma {:induction false} EndOfLine(q: Text, pos: nat, tokens: seq<Token>)
    requires pos <= |q| && SkipSpaces(q, pos) == |q|
    ensures Before(tokens, TokensFrom(q, pos)) == Lexed(tokens)
  {
    assert tokens + [] == tokens;
  }

  lemma {:induction false} NextToken(q: Text, from: nat, begin: nat, tokens: seq<Token>)
    requires from <= begin < |q| && SkipSpaces(q, from) == begin && !IsSpace(q[begin])
    ensures Before(tokens, TokensFrom(q, from))
         == match TokenAt(q, begin)
            case Refused(e, range) => Refused(e, range)
            case Lexed(token) => Before(tokens + [token], TokensFrom(q, token.end))
  {
    hide TokenAt, SkipSpaces;
    match TokenAt(q, begin)
    case Refused(_, _) =>
    case Lexed(token) =>
      match TokensFrom(q, token.end)
      case Refused(_, _) =>
      case Lexed(rest) => assert tokens + ([token] + rest) == (tokens + [token]) + rest;
  }


  /** The one thing a query can be refused for is a string that never ends; the range is from its quote on. */
  lemma {:induction false} RefusedIsUnterminated(q: Text, pos: nat)
    requires pos <= |q| && TokensFrom(q, pos).Refused?
    ensures var r := TokensFrom(q, pos);
            && r.error == QuerySyntax && r.range.Some? && pos <= r.range.value.begin < |q| && r.range.value.end == |q|
            && IsQuote(q[r.range.value.begin])
            && Unquote(q, r.range.value.begin + 1, q[r.range.value.begin]) == None
    decreases |q| - pos
  {
    hide Unquote, WordEnd, SkipSpaces;
    var begin := SkipSpaces(q, pos);
    var token := TokenAt(q, begin);
    if token.Lexed? {
      RefusedIsUnterminated(q, token.value.end);
    }
  }
}
