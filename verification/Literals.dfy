/**
 Literals: what the parser makes of a token's text, which printed values survive printing, tokenizing and
 parsing, and the hop bound.
 */
module Literals {
  import opened Bytes
  import opened Results
  import opened Values
  import opened Canonical
  import opened Checked
  import opened Tokens

  // ---- a line of printed values ----

  ghost predicate NoDoubles(vs: seq<Value>)
  {
    forall i | 0 <= i < |vs| :: !vs[i].DoubleValue?
  }

  /** The values printed one after the other with a space in between. */
  function Joined(vs: seq<Value>, printer: DoublePrinter): Text
  {
    if |vs| == 0 then []
    else if |vs| == 1 then CanonicalValue(vs[0], printer)
    else CanonicalValue(vs[0], printer) + ([SPACE] + Joined(vs[1..], printer))
  }

  /** What a value's token says: a string's own text, the printed form of anything else. */
  function TokenText(v: Value, printer: DoublePrinter): Text
  {
    if v.TextValue? then v.text else CanonicalValue(v, printer)
  }

  /** One token per value, covering exactly its printed form. */
  function TokensOf(vs: seq<Value>, at: nat, printer: DoublePrinter): (r: seq<Token>)
    ensures |r| == |vs|
  {
    if |vs| == 0 then [] else
    var end := at + |CanonicalValue(vs[0], printer)|;
    [Token(TokenText(vs[0], printer), at, end)] + TokensOf(vs[1..], end + 1, printer)
  }

  lemma {:induction false} AtByte(q: Text, pos: nat, e: Text, i: nat)
    requires At(q, pos, e) && i < |e|
    ensures q[pos + i] == e[i]
  {
    assert q[pos + i] == q[pos..pos + |e|][i];
  }

  /** Unquoting one escaped byte. */
  lemma {:induction false} UnquoteByte(q: Text, pos: nat, c: byte, rest: Text, end: nat)
    requires At(q, pos, EscapeByte(c)) && Unquote(q, pos + |EscapeByte(c)|, QUOTE) == Some((rest, end))
    ensures Unquote(q, pos, QUOTE) == Some(([c] + rest, end))
  {
    hide At;
    AtInside(q, pos, EscapeByte(c));
    AtByte(q, pos, EscapeByte(c), 0);
    AtByte(q, pos, EscapeByte(c), |EscapeByte(c)| - 1);
  }

  /** Unquoting undoes escaping. */
  lemma {:induction false} UnquoteEscaped(q: Text, pos: nat, s: Text)
    requires At(q, pos, Escape(s) + [QUOTE])
    ensures Unquote(q, pos, QUOTE) == Some((s, pos + |Escape(s)|))
    decreases |s|
  {
    hide At, EscapeByte;
    if s == [] {
      assert Escape(s) + [QUOTE] == [QUOTE];
      AtByte(q, pos, [QUOTE], 0);
      AtInside(q, pos, [QUOTE]);
    } else {
      var head, tail := EscapeByte(s[0]), Escape(s[1..]);
      ConcatAssociative(head, tail, [QUOTE]);
      AtSplit(q, pos, head, tail + [QUOTE]);
      UnquoteEscaped(q, pos + |head|, s[1..]);
      UnquoteByte(q, pos, s[0], s[1..], pos + |head| + |tail|);
      assert s == [s[0]] + s[1..];
    }
  }

  lemma AtInside(q: Text, pos: nat, e: Text)
    requires At(q, pos, e)
    ensures pos + |e| <= |q|
  {
  }

  predicate WordByte(c: byte)
  {
    !IsSpace(c) && !IsQuote(c) && !IsOperator(c) && c != COMMA && c != DOT
  }

  lemma {:induction false} WordRun(q: Text, begin: nat, pos: nat, end: nat)
    requires pos <= end <= |q| && (end == |q| || IsSpace(q[end]))
    requires forall i | pos <= i < end :: WordByte(q[i])
    ensures WordEnd(q, begin, pos) == end
    decreases end - pos
  {
    if pos < end {
      WordRun(q, begin, pos + 1, end);
    }
  }

  lemma {:induction false} PlainWords(v: Value, printer: DoublePrinter, i: nat)
    requires !v.TextValue? && !v.DoubleValue? && i < |CanonicalValue(v, printer)|
    ensures WordByte(CanonicalValue(v, printer)[i])
  {
    if v.IntValue? {
      var n: int := v.number;
      if n >= 0 {
        DigitAt(n, i);
      } else if i > 0 {
        DigitAt(-n, i - 1);
        assert SignedDigits(n)[i] == Digits(-n)[i - 1];
      }
    }
  }

  lemma {:induction false} QuotedToken(q: Text, pos: nat, text: Text)
    requires At(q, pos, Quoted(text))
    ensures pos < |q| && q[pos] == QUOTE
    ensures TokenAt(q, pos) == Lexed(Token(text, pos, pos + |Quoted(text)|))
  {
    hide At, Unquote, Escape;
    var tail := Escape(text) + [QUOTE];
    assert Quoted(text) == [QUOTE] + tail;
    AtSplit(q, pos, [QUOTE], tail);
    AtByte(q, pos, [QUOTE], 0);
    AtInside(q, pos, [QUOTE]);
    UnquoteEscaped(q, pos + 1, text);
  }

  lemma {:induction false} WordToken(q: Text, pos: nat, c: Text)
    requires At(q, pos, c) && |c| > 0 && (pos + |c| == |q| || IsSpace(q[pos + |c|]))
    requires forall i | 0 <= i < |c| :: WordByte(c[i])
    ensures pos < |q| && WordByte(q[pos])
    ensures TokenAt(q, pos) == Lexed(Token(c, pos, pos + |c|))
  {
    hide At, EndsWord;
    AtInside(q, pos, c);
    forall i | pos <= i < pos + |c|
      ensures WordByte(q[i])
    {
      AtByte(q, pos, c, i - pos);
    }
    WordRun(q, pos, pos + 1, pos + |c|);
    AtIsSlice(q, pos, c);
  }

  lemma AtIsSlice(q: Text, pos: nat, e: Text)
    requires At(q, pos, e)
    ensures pos + |e| <= |q| && q[pos..pos + |e|] == e
  {
  }

  /** A printed value followed by a space or the end is one token. */
  lemma {:induction false} TokenOfValue(q: Text, pos: nat, v: Value, printer: DoublePrinter)
    requires !v.DoubleValue? && At(q, pos, CanonicalValue(v, printer))
    requires var end := pos + |CanonicalValue(v, printer)|; end == |q| || q[end] == SPACE
    ensures |CanonicalValue(v, printer)| > 0 && pos < |q| && !IsSpace(q[pos])
    ensures TokenAt(q, pos) == Lexed(Token(TokenText(v, printer), pos, pos + |CanonicalValue(v, printer)|))
  {
    hide At, TokenAt;
    if v.TextValue? {
      QuotedToken(q, pos, v.text);
    } else {
      var c := CanonicalValue(v, printer);
      forall i | 0 <= i < |c|
        ensures WordByte(c[i])
      {
        PlainWords(v, printer, i);
      }
      CanonicalPlain(v, printer);
      WordToken(q, pos, c);
    }
  }

  lemma {:induction false} JoinedSplits(q: Text, pos: nat, vs: seq<Value>, printer: DoublePrinter)
    requires pos <= |q| && |vs| > 0 && q[pos..] == Joined(vs, printer)
    ensures var end := pos + |CanonicalValue(vs[0], printer)|;
            && At(q, pos, CanonicalValue(vs[0], printer))
            && (|vs| == 1 ==> end == |q|)
            && (|vs| > 1 ==> end < |q| && q[end] == SPACE && q[end + 1..] == Joined(vs[1..], printer))
  {
    hide CanonicalValue;
    var c, tail := CanonicalValue(vs[0], printer), q[pos..];
    var end := pos + |c|;
    assert q[pos..end] == tail[..|c|];
    if |vs| > 1 {
      assert q[end] == tail[|c|];
      assert q[end + 1..] == tail[|c| + 1..];
    }
  }

  lemma {:induction false} OneSpace(q: Text, pos: nat)
    requires pos < |q| && q[pos] == SPACE
    ensures TokensFrom(q, pos) == TokensFrom(q, pos + 1)
  {
    hide TokenAt;
  }

  lemma NothingJoined(printer: DoublePrinter)
    ensures Joined([], printer) == []
  {
  }

  lemma EndsHere(q: Text)
    ensures TokensFrom(q, |q|) == Lexed([])
  {
  }

  lemma {:induction false} FirstToken(q: Text, pos: nat, token: Token, rest: seq<Token>)
    requires pos < |q| && !IsSpace(q[pos]) && TokenAt(q, pos) == Lexed(token) && token.end <= |q|
    requires TokensFrom(q, token.end) == Lexed(rest)
    ensures TokensFrom(q, pos) == Lexed([token] + rest)
  {
    hide TokenAt;
  }

  /** Printing undone by tokenizing: one token per value, with its text and its exact range. */
  lemma {:induction false} PrintedLine(q: Text, pos: nat, vs: seq<Value>, printer: DoublePrinter)
    requires NoDoubles(vs) && pos <= |q| && q[pos..] == Joined(vs, printer)
    ensures TokensFrom(q, pos) == Lexed(TokensOf(vs, pos, printer))
    decreases |vs|
  {
    hide CanonicalValue, TokenAt, TokenText, Joined, At, IsSpace, TokensFrom;
    if |vs| == 0 {
      NothingJoined(printer);
      assert |q[pos..]| == |q| - pos;
      EndsHere(q);
    } else {
      var end := pos + |CanonicalValue(vs[0], printer)|;
      JoinedSplits(q, pos, vs, printer);
      TokenOfValue(q, pos, vs[0], printer);
      if |vs| > 1 {
        OneSpace(q, end);
        PrintedLine(q, end + 1, vs[1..], printer);
      } else {
        EndsHere(q);
        assert vs[1..] == [];
      }
      FirstToken(q, pos, Token(TokenText(vs[0], printer), pos, end), TokensOf(vs[1..], end + 1, printer));
    }
  }

  // ---- literals ----

  function Upper(c: byte): byte
  {
    if 97 <= c <= 122 then c - 32 else c
  }

  predicate SameLetters(a: Text, b: Text)
  {
    |a| == |b| && forall i | 0 <= i < |a| :: Upper(a[i]) == Upper(b[i])
  }

  predicate BoolShaped(t: Text)
  {
    SameLetters(t, TRUE_TEXT) || SameLetters(t, FALSE_TEXT)
  }

  function SignLength(t: Text): (n: nat)
    ensures n <= |t|
  {
    if t != [] && t[0] == MINUS then 1 else 0
  }

  predicate HasDot(t: Text, from: nat, to: nat)
    requires to <= |t|
  {
    exists i | from <= i < to :: t[i] == DOT
  }

  /** The byte at i is a digit or the first dot. */
  predicate NumberByte(t: Text, i: nat)
    requires i < |t|
  {
    IsDigit(t[i]) || (t[i] == DOT && !HasDot(t, SignLength(t), i))
  }

  /** An optional minus sign, then digits with at most one dot among them, at least one byte in all. */
  predicate NumberShaped(t: Text)
  {
    SignLength(t) < |t| && forall i | SignLength(t) <= i < |t| :: NumberByte(t, i)
  }

  function DigitValue(c: byte): int
  {
    var code: int := c;
    code - 48
  }

  function FromDigits(t: Text): int
  {
    if |t| == 0 then 0 else 10 * FromDigits(t[..|t| - 1]) + DigitValue(t[|t| - 1])
  }

  predicate FitsInt64(n: int)
  {
    -0x8000_0000_0000_0000 <= n < 0x8000_0000_0000_0000
  }

  /** The number a dotless number-shaped text denotes. */
  function IntegerOf(t: Text): int
  {
    var magnitude := FromDigits(t[SignLength(t)..]);
    if SignLength(t) == 1 then -magnitude else magnitude
  }

  /** How the library reads a decimal; None where it throws. */
  type DecimalReader = Text -> Option<u64>

  /** The value of a literal; None where the number does not fit and the library throws. */
  function LiteralOf(t: Text, stod: DecimalReader): Option<Value>
  {
    if SameLetters(t, TRUE_TEXT) then Some(BoolValue(true))
    else if SameLetters(t, FALSE_TEXT) then Some(BoolValue(false))
    else if !NumberShaped(t) then Some(TextValue(t))
    else if HasDot(t, SignLength(t), |t|) then
      match stod(t) case None => None case Some(bits) => Some(DoubleValue(bits))
    else if FitsInt64(IntegerOf(t)) then Some(IntValue(IntegerOf(t)))
    else None
  }

  lemma DotSeen(t: Text, from: nat, i: nat)
    requires from <= i < |t|
    ensures HasDot(t, from, i + 1) <==> HasDot(t, from, i) || t[i] == DOT
  {
  }

  /** One pass over the text decides whether it is a number and whether it has a dot. */
  method ParseLiteral(t: Text, stod: DecimalReader) returns (r: Option<Value>)
    ensures r == LiteralOf(t, stod)
  {
    hide SameLetters, FromDigits, HasDot, NumberSoFar, NumberShaped;
    if SameLetters(t, TRUE_TEXT) {
      return Some(BoolValue(true));
    }
    if SameLetters(t, FALSE_TEXT) {
      return Some(BoolValue(false));
    }
    var numeric, decimal := |t| > 0, false;
    var start := if |t| > 0 && t[0] == MINUS then 1 else 0;
    var i := start;
    NothingRead(t);
    while i < |t|
      invariant start <= i <= |t|
      invariant decimal <==> HasDot(t, start, i)
      invariant numeric <==> |t| > 0 && NumberSoFar(t, i)
    {
      DotSeen(t, start, i);
      NumberGoesOn(t, i);
      if t[i] == DOT && !decimal {
        decimal := true;
      } else {
        numeric := numeric && IsDigit(t[i]);
      }
      i := i + 1;
    }
    NumberInFull(t);
    if numeric && start < |t| {
      if decimal {
        var bits := stod(t);
        return if bits.None? then None else Some(DoubleValue(bits.value));
      }
      var number := IntegerOf(t);
      return if FitsInt64(number) then Some(IntValue(number)) else None;
    }
    return Some(TextValue(t));
  }

  predicate NumberSoFar(t: Text, to: nat)
    requires to <= |t|
  {
    forall i | SignLength(t) <= i < to :: NumberByte(t, i)
  }

  lemma {:induction false} NumberGoesOn(t: Text, i: nat)
    requires SignLength(t) <= i < |t|
    ensures NumberSoFar(t, i + 1) <==> NumberSoFar(t, i) && NumberByte(t, i)
  {
    hide NumberByte;
  }

  lemma {:induction false} NumberInFull(t: Text)
    ensures NumberShaped(t) <==> SignLength(t) < |t| && NumberSoFar(t, |t|)
  {
    hide NumberByte;
  }

  lemma NothingRead(t: Text)
    ensures !HasDot(t, SignLength(t), SignLength(t)) && NumberSoFar(t, SignLength(t))
  {
  }

  lemma {:induction false} DigitsDenote(n: nat)
    ensures FromDigits(Digits(n)) == n
  {
    if n >= 10 {
      DigitsDenote(n / 10);
      assert Digits(n)[..|Digits(n)| - 1] == Digits(n / 10);
    } else {
      assert Digits(n)[..0] == [];
    }
  }

  lemma {:induction false} SignedDigitsShape(n: int)
    ensures var t := SignedDigits(n);
            && !BoolShaped(t) && NumberShaped(t) && !HasDot(t, SignLength(t), |t|) && IntegerOf(t) == n
  {
    var t := SignedDigits(n);
    var m: nat := if n < 0 then -n else n;
    DigitAt(m, 0);
    assert SignLength(t) == (if n < 0 then 1 else 0);
    assert t[SignLength(t)..] == Digits(m);
    DigitsDenote(m);
    forall i | SignLength(t) <= i < |t|
      ensures IsDigit(t[i])
    {
      DigitAt(m, i - SignLength(t));
      assert t[i] == t[SignLength(t)..][i - SignLength(t)];
    }
    assert Upper(t[0]) == t[0] && Upper(TRUE_TEXT[0]) == 84 && Upper(FALSE_TEXT[0]) == 70;
  }

  lemma {:induction false} TextLiteral(t: Text, stod: DecimalReader)
    ensures LiteralOf(t, stod) == Some(TextValue(t)) <==> !BoolShaped(t) && !NumberShaped(t)
  {
    hide SameLetters, NumberShaped, HasDot;
  }

  /**
   Parsing undone: every boolean and integer is recovered from its token, and exactly those strings that do
   not look like a boolean or a number.
   */
  lemma {:induction false} LiteralRoundTrip(v: Value, printer: DoublePrinter, stod: DecimalReader)
    requires !v.DoubleValue?
    ensures LiteralOf(TokenText(v, printer), stod) == Some(v)
       <==> (v.TextValue? ==> !BoolShaped(v.text) && !NumberShaped(v.text))
  {
    hide NumberShaped, HasDot, IntegerOf;
    match v
    case BoolValue(flag) =>
      assert |TRUE_TEXT| == 4 && |FALSE_TEXT| == 5;
    case IntValue(number) => SignedDigitsShape(number);
    case TextValue(text) => TextLiteral(text, stod);
  }

  /** A byte is a lower-case letter of the word, or that letter in upper case. */
  ghost predicate Spells(t: Text, word: string)
  {
    |t| == |word| && forall i | 0 <= i < |t| :: t[i] == word[i] as int || t[i] == word[i] as int - 32
  }

  /** The booleans are the two words, in any mixture of cases. */
  lemma {:induction false} BooleanLiterals(t: Text, stod: DecimalReader)
    ensures LiteralOf(t, stod) == Some(BoolValue(true)) <==> Spells(t, "true")
    ensures LiteralOf(t, stod) == Some(BoolValue(false)) <==> Spells(t, "false")
  {
    hide NumberShaped, HasDot, IntegerOf;
    LettersMean(t, TRUE_TEXT, "true");
    LettersMean(t, FALSE_TEXT, "false");
  }

  lemma {:induction false} LettersMean(t: Text, letters: Text, word: string)
    requires |letters| == |word| && forall i | 0 <= i < |word| :: letters[i] == word[i] as int && 97 <= letters[i] <= 122
    ensures SameLetters(t, letters) <==> Spells(t, word)
  {
    if |t| == |word| {
      forall i | 0 <= i < |t|
        ensures Upper(t[i]) == Upper(letters[i]) <==> t[i] == word[i] as int || t[i] == word[i] as int - 32
      {
        assert letters[i] == word[i] as int;
      }
    }
  }

  /** An optional minus sign and digits are an integer if it fits; with one dot among or beside the digits, a decimal. */
  lemma {:induction false} NumberLiterals(negative: bool, a: Text, b: Text, stod: DecimalReader)
    requires AllDigits(a) && AllDigits(b)
    ensures var t := (if negative then [MINUS] else []) + a;
            |a| > 0 ==>
              LiteralOf(t, stod) == var n := if negative then -FromDigits(a) else FromDigits(a);
                                    if FitsInt64(n) then Some(IntValue(n)) else None
    ensures var t := (if negative then [MINUS] else []) + a + [DOT] + b;
            LiteralOf(t, stod) == match stod(t) case None => None case Some(bits) => Some(DoubleValue(bits))
  {
    hide FromDigits;
    var sign := if negative then [MINUS] else [];
    var whole, decimal := sign + a, sign + a + [DOT] + b;
    if |a| > 0 {
      DigitsOnly(whole, sign, a);
    }
    OneDot(decimal, sign, a, b);
  }

  lemma {:induction false} DigitsOnly(t: Text, sign: Text, a: Text)
    requires t == sign + a && AllDigits(a) && |a| > 0 && (sign == [] || sign == [MINUS])
    ensures SignLength(t) == |sign| && t[SignLength(t)..] == a
    ensures !BoolShaped(t) && NumberShaped(t) && !HasDot(t, SignLength(t), |t|)
  {
    assert t[|sign|..] == a && t[|sign|] == a[0];
    forall i | |sign| <= i < |t|
      ensures IsDigit(t[i])
    {
      assert t[i] == a[i - |sign|];
    }
    NoLetter(t);
  }

  lemma {:induction false} OneDot(t: Text, sign: Text, a: Text, b: Text)
    requires t == sign + a + [DOT] + b && AllDigits(a) && AllDigits(b) && (sign == [] || sign == [MINUS])
    ensures SignLength(t) == |sign| && !BoolShaped(t) && NumberShaped(t) && HasDot(t, SignLength(t), |t|)
  {
    var dot := |sign| + |a|;
    assert t[dot] == DOT;
    assert |a| > 0 ==> t[|sign|] == a[0];
    forall i | |sign| <= i < |t| && i != dot
      ensures IsDigit(t[i])
    {
      assert t[i] == if i < dot then a[i - |sign|] else b[i - dot - 1];
    }
    NoLetter(t);
  }

  lemma {:induction false} NoLetter(t: Text)
    requires |t| > 0 && (IsDigit(t[0]) || t[0] == DOT || t[0] == MINUS)
    ensures !BoolShaped(t)
  {
    assert Upper(t[0]) == t[0] && Upper(TRUE_TEXT[0]) == 84 && Upper(FALSE_TEXT[0]) == 70;
  }

  /** The right-hand side of a predicate: a parameter name or a literal. */
  datatype Operand = Parameter(name: Text) | Literal(value: Option<Value>)

  /** A leading dollar makes a parameter of any token, quoted or not. */
  function OperandOf(t: Text, stod: DecimalReader): Result<Operand>
  {
    if t != [] && t[0] == DOLLAR then
      if |t| == 1 then Err(QuerySyntax) else Ok(Parameter(t[1..]))
    else Ok(Literal(LiteralOf(t, stod)))
  }

  /** A dollar sign and a name, quoted or not, name a parameter; a dollar sign alone is an error. */
  lemma {:induction false} ParameterNames(name: Text, stod: DecimalReader)
    ensures OperandOf([36] + name, stod) == if |name| == 0 then Err(QuerySyntax) else Ok(Parameter(name))
  {
    assert ([36] + name)[1..] == name;
  }

  /** Which values can be written literally into a predicate and mean themselves. */
  lemma {:induction false} OperandRoundTrip(v: Value, printer: DoublePrinter, stod: DecimalReader)
    requires !v.DoubleValue?
    ensures OperandOf(TokenText(v, printer), stod) == Ok(Literal(Some(v)))
       <==> (v.TextValue? ==> !BoolShaped(v.text) && !NumberShaped(v.text) && (v.text == [] || v.text[0] != DOLLAR))
  {
    hide LiteralOf, NumberShaped, BoolShaped;
    LiteralRoundTrip(v, printer, stod);
    if v.IntValue? {
      var n: int := v.number;
      DigitAt(if n < 0 then -n else n, 0);
    }
  }

  // ---- the hop bound ----

  predicate AllDigits(t: Text)
  {
    forall i | 0 <= i < |t| :: IsDigit(t[i])
  }

  lemma {:induction false} FromDigitsGrows(t: Text, k: nat)
    requires k <= |t| && AllDigits(t)
    ensures 0 <= FromDigits(t[..k]) <= FromDigits(t)
    decreases |t|
  {
    if k < |t| {
      var front := t[..|t| - 1];
      FromDigitsGrows(front, k);
      assert front[..k] == t[..k];
      FromDigitsGrows(front, |front|);
      assert front[..|front|] == front;
    } else {
      assert t[..k] == t;
      if |t| > 0 {
        var front := t[..|t| - 1];
        FromDigitsGrows(front, |front|);
        assert front[..|front|] == front;
      }
    }
  }

  lemma {:induction false} FromDigitsPushBack(t: Text, k: nat)
    requires k < |t|
    ensures FromDigits(t[..k + 1]) == 10 * FromDigits(t[..k]) + DigitValue(t[k])
  {
    assert t[..k + 1][..k] == t[..k];
  }

  /** Reads an unsigned number, refusing other bytes and overflow. */
  method ParseU64(t: Text) returns (r: Result<u64>)
    ensures r.Ok? <==> AllDigits(t) && FromDigits(t) < TWO_64
    ensures r.Ok? ==> r.value == FromDigits(t)
    ensures r.Err? ==> r.error == ResourceLimit || (r.error == QuerySyntax && !AllDigits(t))
  {
    hide FromDigits;
    var value: u64 := 0;
    EmptyNumber(t);
    for k := 0 to |t|
      invariant forall i | 0 <= i < k :: IsDigit(t[i])
      invariant value == FromDigits(t[..k])
    {
      if !IsDigit(t[k]) {
        return Err(QuerySyntax);
      }
      FromDigitsPushBack(t, k);
      if AllDigits(t) {
        FromDigitsGrows(t, k + 1);
      }
      var tens := CheckedMul(value, 10);
      if tens.Err? {
        return Err(tens.error);
      }
      var sum := CheckedAdd(tens.value, DigitValue(t[k]));
      if sum.Err? {
        return Err(sum.error);
      }
      value := sum.value;
    }
    assert t[..|t|] == t;
    return Ok(value);
  }

  lemma EmptyNumber(t: Text)
    ensures FromDigits(t[..0]) == 0
  {
  }

  /** The bound after HOPS: a number from one to the configured limit. */
  method ParseHopBound(t: Text, limits: Limits) returns (r: Result<u64>)
    ensures r.Ok? <==> AllDigits(t) && 1 <= FromDigits(t) <= limits.maxPathHops
    ensures r.Ok? ==> r.value == FromDigits(t)
  {
    hide FromDigits, AllDigits;
    r := ParseU64(t);
    if r.Ok? && (r.value == 0 || r.value > limits.maxPathHops) {
      return Err(ResourceLimit);
    }
  }
}
