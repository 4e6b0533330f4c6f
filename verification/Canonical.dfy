/**
 Printed values: decimal numbers, the escaping printer whose output is used as an index key, and path
 strings. Each printer is injective, so equal keys mean equal things.
 */
module Canonical {
  import opened Bytes
  import opened Values

  const QUOTE: byte := 34
  const BACKSLASH: byte := 92
  const MINUS: byte := 45
  const ARROW: Text := [45, 62]
  const TRUE_TEXT: Text := [116, 114, 117, 101]
  const FALSE_TEXT: Text := [102, 97, 108, 115, 101]

  // ---- spelling ----

  predicate IsAscii(s: string)
  {
    forall i | 0 <= i < |s| :: s[i] as int < 128
  }

  function Ascii(s: string): (t: Text)
    requires IsAscii(s)
    ensures |t| == |s|
  {
    seq(|s|, i requires 0 <= i < |s| => s[i] as int)
  }

  /** The fixed texts, spelled out. */
  lemma Spelled()
    ensures TRUE_TEXT == Ascii("true") && FALSE_TEXT == Ascii("false") && ARROW == Ascii("->")
    ensures [QUOTE] == Ascii("\"") && [BACKSLASH] == Ascii("\\") && [MINUS] == Ascii("-")
  {
  }

  // ---- decimal numbers ----

  predicate IsDigit(c: byte)
  {
    48 <= c <= 57
  }

  function Digits(n: nat): (t: Text)
    ensures |t| > 0
  {
    if n < 10 then [48 + n] else Digits(n / 10) + [48 + n % 10]
  }

  lemma {:induction false} DigitsAreDigits(n: nat)
    ensures forall c | c in Digits(n) :: IsDigit(c)
  {
    if n >= 10 {
      DigitsAreDigits(n / 10);
    }
  }

  lemma {:induction false} DigitAt(n: nat, i: nat)
    requires i < |Digits(n)|
    ensures IsDigit(Digits(n)[i])
  {
    DigitsAreDigits(n);
    assert Digits(n)[i] in Digits(n);
  }

  lemma {:induction false} DigitsInjective(m: nat, n: nat)
    requires Digits(m) == Digits(n)
    ensures m == n
  {
    var a, b := Digits(m), Digits(n);
    assert a[|a| - 1] == 48 + m % 10 && b[|b| - 1] == 48 + n % 10;
    if m >= 10 && n >= 10 {
      assert Digits(m / 10) == a[..|a| - 1] && Digits(n / 10) == b[..|b| - 1];
      DigitsInjective(m / 10, n / 10);
    }
  }

  function SignedDigits(i: int): (t: Text)
    ensures |t| > 0
  {
    if i < 0 then [MINUS] + Digits(-i) else Digits(i)
  }

  lemma {:induction false} SignedDigitsInjective(i: int, j: int)
    requires SignedDigits(i) == SignedDigits(j)
    ensures i == j
  {
    DigitsAreDigits(if i < 0 then -i else i);
    DigitsAreDigits(if j < 0 then -j else j);
    var a, b := SignedDigits(i), SignedDigits(j);
    assert i >= 0 ==> a[0] in Digits(i);
    assert j >= 0 ==> b[0] in Digits(j);
    if i < 0 {
      assert Digits(-i) == a[1..] && Digits(-j) == b[1..];
      DigitsInjective(-i, -j);
    } else {
      DigitsInjective(i, j);
    }
  }

  // ---- escaped text ----

  predicate Special(c: byte)
  {
    c == QUOTE || c == BACKSLASH
  }

  function EscapeByte(c: byte): Text
  {
    if Special(c) then [BACKSLASH, c] else [c]
  }

  function Escape(s: Text): Text
  {
    if s == [] then [] else EscapeByte(s[0]) + Escape(s[1..])
  }

  lemma {:induction false} EscapePushBack(s: Text, c: byte)
    ensures Escape(s + [c]) == Escape(s) + EscapeByte(c)
  {
    if s == [] {
      assert s + [c] == [c];
      assert Escape([c][1..]) == [];
    } else {
      EscapePushBack(s[1..], c);
      assert (s + [c])[1..] == s[1..] + [c];
      ConcatAssociative(EscapeByte(s[0]), Escape(s[1..]), EscapeByte(c));
    }
  }

  lemma {:induction false} EscapeInjective(s: Text, t: Text)
    requires Escape(s) == Escape(t)
    ensures s == t
  {
    if s != [] && t != [] {
      var a, b := Escape(s), Escape(t);
      assert a[0] == b[0];
      assert s[0] == t[0] by {
        assert a == EscapeByte(s[0]) + Escape(s[1..]) && b == EscapeByte(t[0]) + Escape(t[1..]);
        assert Special(s[0]) ==> a[0] == BACKSLASH && a[1] == s[0];
        assert Special(t[0]) ==> b[0] == BACKSLASH && b[1] == t[0];
      }
      var n := |EscapeByte(s[0])|;
      assert Escape(s[1..]) == a[n..] && Escape(t[1..]) == b[n..];
      EscapeInjective(s[1..], t[1..]);
      assert s == [s[0]] + s[1..] && t == [t[0]] + t[1..];
    }
  }

  /** Only quotes and backslashes are escaped. */
  lemma {:induction false} PlainTextStays(s: Text)
    requires forall i | 0 <= i < |s| :: s[i] != QUOTE && s[i] != BACKSLASH
    ensures Escape(s) == s
  {
    if s != [] {
      PlainTextStays(s[1..]);
      assert s == [s[0]] + s[1..];
    }
  }

  /** A quote inside escaped text always follows a backslash. */
  lemma {:induction false} EscapedQuote(s: Text, j: nat)
    requires j < |Escape(s)| && Escape(s)[j] == QUOTE
    ensures j > 0 && Escape(s)[j - 1] == BACKSLASH
  {
    var n := |EscapeByte(s[0])|;
    if j >= n {
      EscapedQuote(s[1..], j - n);
    }
  }

  function Quoted(s: Text): Text
  {
    [QUOTE] + Escape(s) + [QUOTE]
  }

  // ---- canonical values ----

  /** Neither NUL nor a quote occurs, so the text cannot be mistaken for part of an escaped string. */
  predicate Plain(t: Text)
  {
    |t| > 0 && forall c | c in t :: c != 0 && c != QUOTE
  }

  ghost predicate PrintsPlainly(f: u64 -> Text)
  {
    forall bits :: Plain(f(bits))
  }

  /** How the C++ library prints a double is a parameter; its output is plain. */
  type DoublePrinter = f: u64 -> Text | PrintsPlainly(f) witness (bits: u64) => [48]

  function CanonicalValue(v: Value, printer: DoublePrinter): Text
  {
    match v
    case BoolValue(flag) => if flag then TRUE_TEXT else FALSE_TEXT
    case IntValue(number) => SignedDigits(number)
    case DoubleValue(bits) => printer(bits)
    case TextValue(text) => Quoted(text)
  }

  method PrintValue(v: Value, printer: DoublePrinter) returns (out: Text)
    ensures out == CanonicalValue(v, printer)
  {
    match v
    case BoolValue(flag) => out := if flag then TRUE_TEXT else FALSE_TEXT;
    case IntValue(number) => out := SignedDigits(number);
    case DoubleValue(bits) => out := printer(bits);
    case TextValue(text) =>
      out := [QUOTE];
      for i := 0 to |text|
        invariant out == [QUOTE] + Escape(text[..i])
      {
        EscapePushBack(text[..i], text[i]);
        assert text[..i + 1] == text[..i] + [text[i]];
        if text[i] == QUOTE || text[i] == BACKSLASH {
          out := out + [BACKSLASH];
        }
        out := out + [text[i]];
      }
      assert text[..|text|] == text;
      out := out + [QUOTE];
  }

  lemma {:induction false} CanonicalPlain(v: Value, printer: DoublePrinter)
    requires !v.TextValue?
    ensures Plain(CanonicalValue(v, printer))
  {
    match v
    case IntValue(number) =>
      var i: int := number;
      DigitsAreDigits(if i < 0 then -i else i);
    case _ =>
  }

  lemma {:induction false} NumberIsNotWord(i: int)
    ensures SignedDigits(i) != TRUE_TEXT && SignedDigits(i) != FALSE_TEXT
  {
    var t := SignedDigits(i);
    var k := |t| - 1;
    assert t[k] == Digits(if i < 0 then -i else i)[if i < 0 then k - 1 else k];
    DigitAt(if i < 0 then -i else i, if i < 0 then k - 1 else k);
  }

  /** Printing is injective on booleans, integers and strings. */
  lemma {:induction false} CanonicalInjective(v: Value, w: Value, printer: DoublePrinter)
    requires !v.DoubleValue? && !w.DoubleValue?
    requires CanonicalValue(v, printer) == CanonicalValue(w, printer)
    ensures v == w
  {
    var a := CanonicalValue(v, printer);
    if v.TextValue? && w.TextValue? {
      assert Escape(v.text) == a[1..|a| - 1] == Escape(w.text);
      EscapeInjective(v.text, w.text);
    } else if v.TextValue? {
      assert a[0] == QUOTE && a[0] in a;
      CanonicalPlain(w, printer);
    } else if w.TextValue? {
      assert a[0] == QUOTE && a[0] in a;
      CanonicalPlain(v, printer);
    } else if v.IntValue? && w.IntValue? {
      SignedDigitsInjective(v.number, w.number);
    } else if v.IntValue? {
      NumberIsNotWord(v.number);
    } else if w.IntValue? {
      NumberIsNotWord(w.number);
    }
  }

  /** The key under which a property is indexed: name, NUL, printed value. */
  function PropertyIndexKey(key: Text, value: Value, printer: DoublePrinter): Text
  {
    key + ([0] + CanonicalValue(value, printer))
  }

  /** No printed value can be split into anything, a NUL and another printed value. */
  lemma {:induction false} NoNestedKey(z: Text, v: Value, w: Value, printer: DoublePrinter)
    ensures CanonicalValue(v, printer) != z + [0] + CanonicalValue(w, printer)
  {
    var a, b := CanonicalValue(v, printer), CanonicalValue(w, printer);
    if a == z + [0] + b {
      var p := |z| + 1;
      assert a[p - 1] == 0 && a[p - 1] in a && a[p..] == b;
      if !v.TextValue? {
        CanonicalPlain(v, printer);
      } else if !w.TextValue? {
        assert b[|b| - 1] == a[|a| - 1] == QUOTE && b[|b| - 1] in b;
        CanonicalPlain(w, printer);
      } else {
        assert a[p] == b[0] == QUOTE && |b| >= 2;
        assert Escape(v.text) == a[1..|a| - 1];
        assert p > 1 ==> Escape(v.text)[p - 2] == 0;
        EscapedQuote(v.text, p - 1);
      }
    }
  }

  lemma {:induction false} KeyNotLonger(k: Text, v: Value, l: Text, w: Value, printer: DoublePrinter)
    requires PropertyIndexKey(k, v, printer) == PropertyIndexKey(l, w, printer)
    ensures |l| <= |k|
  {
    var a, b := CanonicalValue(v, printer), CanonicalValue(w, printer);
    var joined := PropertyIndexKey(k, v, printer);
    if |l| > |k| {
      assert joined[|k| + 1..] == a;
      var z := joined[|k| + 1..|l|];
      assert joined[|l|] == 0 && joined[|l| + 1..] == b;
      assert a == z + [0] + b;
      NoNestedKey(z, v, w, printer);
    }
  }

  /** Equal index keys mean the same property name and equal printed values, whatever bytes they hold. */
  lemma {:induction false} IndexKeyInjective(k: Text, v: Value, l: Text, w: Value, printer: DoublePrinter)
    requires PropertyIndexKey(k, v, printer) == PropertyIndexKey(l, w, printer)
    ensures k == l && CanonicalValue(v, printer) == CanonicalValue(w, printer)
  {
    KeyNotLonger(k, v, l, w, printer);
    KeyNotLonger(l, w, k, v, printer);
    var joined := PropertyIndexKey(k, v, printer);
    assert k == joined[..|k|] == l;
    assert CanonicalValue(v, printer) == joined[|k| + 1..] == CanonicalValue(w, printer);
  }

  // ---- path strings ----

  /** Node ids joined by arrows. */
  function PathString(path: seq<u64>): Text
  {
    if |path| == 0 then []
    else if |path| == 1 then Digits(path[0])
    else PathString(path[..|path| - 1]) + (ARROW + Digits(path[|path| - 1]))
  }

  method PrintPath(path: seq<u64>) returns (out: Text)
    ensures out == PathString(path)
  {
    out := [];
    for i := 0 to |path|
      invariant out == PathString(path[..i])
    {
      assert path[..i + 1][..i] == path[..i];
      if i != 0 {
        out := out + ARROW;
      }
      out := out + Digits(path[i]);
    }
    assert path[..|path|] == path;
  }

  /** The characters after the last arrow. */
  lemma {:induction false} LastDigits(a: Text, m: nat, b: Text, n: nat)
    requires a + ARROW + Digits(m) == b + ARROW + Digits(n)
    ensures a == b && m == n
  {
    var joined := a + ARROW + Digits(m);
    assert joined[|a| + 2..] == Digits(m) && joined[|b| + 2..] == Digits(n);
    if |a| < |b| {
      assert Digits(m)[|b| - 1 - |a|] == joined[|b| + 1] == 62;
      DigitAt(m, |b| - 1 - |a|);
    } else if |b| < |a| {
      assert Digits(n)[|a| - 1 - |b|] == joined[|a| + 1] == 62;
      DigitAt(n, |a| - 1 - |b|);
    } else {
      assert a == joined[..|a|] == b;
      DigitsInjective(m, n);
    }
  }

  lemma {:induction false} ArrowlessDigits(a: Text, m: nat, n: nat)
    ensures a + (ARROW + Digits(m)) != Digits(n)
  {
    if a + (ARROW + Digits(m)) == Digits(n) {
      assert Digits(n)[|a|] == 45;
      DigitAt(n, |a|);
    }
  }

  /** A path string determines its node list. */
  lemma {:induction false} PathStringInjective(p: seq<u64>, q: seq<u64>)
    requires PathString(p) == PathString(q)
    ensures p == q
    decreases |p| + |q|
  {
    if |p| == 0 || |q| == 0 {
      PathStringEmpty(p);
      PathStringEmpty(q);
    } else if |p| == 1 && |q| == 1 {
      DigitsInjective(p[0], q[0]);
    } else if |p| == 1 {
      ArrowlessDigits(PathString(q[..|q| - 1]), q[|q| - 1], p[0]);
    } else if |q| == 1 {
      ArrowlessDigits(PathString(p[..|p| - 1]), p[|p| - 1], q[0]);
    } else {
      var a, b := p[..|p| - 1], q[..|q| - 1];
      ConcatAssociative(PathString(a), ARROW, Digits(p[|p| - 1]));
      ConcatAssociative(PathString(b), ARROW, Digits(q[|q| - 1]));
      LastDigits(PathString(a), p[|p| - 1], PathString(b), q[|q| - 1]);
      PathStringInjective(a, b);
      assert p == a + [p[|p| - 1]] && q == b + [q[|q| - 1]];
    }
  }

  lemma PathStringEmpty(p: seq<u64>)
    ensures PathString(p) == [] <==> p == []
  {
  }

  /** A path's string comes before the string of every one-step extension of the path. */
  lemma {:induction false} PathStringGrows(p: seq<u64>, last: u64)
    requires |p| > 0
    ensures Less(PathString(p), PathString(p + [last]))
  {
    assert (p + [last])[..|p|] == p;
    LessExtension(PathString(p), ARROW + Digits(last));
  }
}
