/**
 * The numeric literal `[+-]?\d+\.?\d*` that both the normaliser and the value
 * extractor look for, as a scanner (the regular expression's greedy match at
 * one position) and the spelling that the scanner reads back.
 */
module NumberLiteral {
  import opened Chars
  import opened Optional
  import opened Sequences

  datatype Sign = Unsigned | Plus | Minus

  /** A match of `[+-]?\d+\.?\d*`: the sign, the digits before the point, whether a point follows, the digits after it. */
  datatype Literal = Literal(sign: Sign, whole: string, point: bool, fraction: string)

  predicate AllDigits(s: string) {
    forall i :: 0 <= i < |s| ==> IsDigit(s[i])
  }

  /** The shapes the regular expression can match: at least one whole digit, and fraction digits only after a point. */
  predicate WellFormed(lit: Literal) {
    |lit.whole| > 0 && AllDigits(lit.whole) && AllDigits(lit.fraction) && (!lit.point ==> lit.fraction == [])
  }

  function SignText(sign: Sign): string {
    match sign
    case Unsigned => ""
    case Plus => "+"
    case Minus => "-"
  }

  /** The characters a literal occupies in the text it was matched in. */
  function Spelling(lit: Literal): string {
    SignText(lit.sign) + UnsignedSpelling(lit)
  }

  /**
   * The greedy match ends where `rest` begins: `\d*` stops only before a
   * non-digit, and without a point `\.?` would have taken a leading '.'.
   */
  predicate StopsBefore(lit: Literal, rest: string) {
    rest == [] || (!IsDigit(rest[0]) && (lit.point || rest[0] != '.'))
  }

  /** Whether the regular expression matches at the start of `s`: a digit, or a sign followed by a digit. */
  predicate StartsLiteral(s: string) {
    (|s| > 0 && IsDigit(s[0])) || (|s| > 1 && IsSign(s[0]) && IsDigit(s[1]))
  }

  /** The length of the longest run of digits at the start of `s`. */
  function DigitRun(s: string): (n: nat)
    ensures n <= |s|
  {
    if s != [] && IsDigit(s[0]) then 1 + DigitRun(s[1..]) else 0
  }

  /** The run is all digits, and stops before a non-digit. */
  lemma {:induction false} DigitRunSpec(s: string)
    ensures AllDigits(s[..DigitRun(s)])
    ensures DigitRun(s) < |s| ==> !IsDigit(s[DigitRun(s)])
  {
    if s != [] && IsDigit(s[0]) {
      DigitRunSpec(s[1..]);
      assert s[..DigitRun(s)] == [s[0]] + s[1..][..DigitRun(s[1..])];
    }
  }

  /** A literal is spelled with digits, a point and at most a leading sign: never whitespace. */
  lemma SpellingChars(lit: Literal)
    requires WellFormed(lit)
    ensures |Spelling(lit)| > 0 && |UnsignedSpelling(lit)| > 0
    ensures forall i :: 0 <= i < |UnsignedSpelling(lit)| ==> IsDigit(UnsignedSpelling(lit)[i]) || UnsignedSpelling(lit)[i] == '.'
    ensures forall i :: 0 <= i < |Spelling(lit)| ==> IsDigit(Spelling(lit)[i]) || IsSign(Spelling(lit)[i]) || Spelling(lit)[i] == '.'
    ensures forall i :: 0 <= i < |Spelling(lit)| ==> !IsSpace(Spelling(lit)[i])
  {
    var u := UnsignedSpelling(lit);
    assert forall i :: 0 <= i < |u| ==> u[i] == if i < |lit.whole| then lit.whole[i] else if i == |lit.whole| then '.' else lit.fraction[i - |lit.whole| - 1];
    var w := Spelling(lit);
    var k := |SignText(lit.sign)|;
    assert forall i :: k <= i < |w| ==> w[i] == u[i - k];
  }

  /** The characters of a literal after its sign. */
  function UnsignedSpelling(lit: Literal): string {
    lit.whole + (if lit.point then "." + lit.fraction else "")
  }

  /** The greedy match of `\d+\.?\d*` at the start of `s`, given the sign already read. */
  function ScanUnsigned(sign: Sign, s: string): (r: Option<Literal>)
    ensures r.Some? <==> |s| > 0 && IsDigit(s[0])
    ensures r.Some? ==> r.value.sign == sign
  {
    var w := DigitRun(s);
    if w == 0 then None else Some(LiteralAt(sign, s, w))
  }

  /** The literal whose whole part is the first `w` characters of `s`: a point and a second digit run are taken if present. */
  function LiteralAt(sign: Sign, s: string, w: nat): (lit: Literal)
    requires w <= |s|
    ensures lit.sign == sign
  {
    if w < |s| && s[w] == '.' then
      Literal(sign, s[..w], true, s[w + 1..][..DigitRun(s[w + 1..])])
    else
      Literal(sign, s[..w], false, [])
  }

  /** What the unsigned scan finds is a well-formed literal that `s` begins with, read greedily. */
  lemma ScanUnsignedMatch(sign: Sign, s: string)
    requires ScanUnsigned(sign, s).Some?
    ensures WellFormed(ScanUnsigned(sign, s).value)
    ensures |UnsignedSpelling(ScanUnsigned(sign, s).value)| <= |s|
    ensures s[..|UnsignedSpelling(ScanUnsigned(sign, s).value)|] == UnsignedSpelling(ScanUnsigned(sign, s).value)
    ensures StopsBefore(ScanUnsigned(sign, s).value, s[|UnsignedSpelling(ScanUnsigned(sign, s).value)|..])
  {
    var w := DigitRun(s);
    DigitRunSpec(s);
    if w < |s| && s[w] == '.' {
      PointMatch(sign, s, w);
    }
  }

  /** The point case: the literal spells the digits, the point and the digit run after it. */
  lemma PointMatch(sign: Sign, s: string, w: nat)
    requires w < |s| && s[w] == '.'
    ensures UnsignedSpelling(LiteralAt(sign, s, w)) == s[..w + 1 + DigitRun(s[w + 1..])]
    ensures AllDigits(LiteralAt(sign, s, w).fraction)
    ensures w + 1 + DigitRun(s[w + 1..]) < |s| ==> !IsDigit(s[w + 1 + DigitRun(s[w + 1..])])
  {
    var f := DigitRun(s[w + 1..]);
    DigitRunSpec(s[w + 1..]);
    PrefixAround(s, w, w + 1 + f);
    if w + 1 + f < |s| {
      assert s[w + 1..][f] == s[w + 1 + f];
    }
  }

  /**
   * The match of `[+-]?\d+\.?\d*` at the start of `s`, if any: `s` begins with
   * the literal's spelling and the match is greedy. A sign is part of the
   * match only when a digit follows it.
   */
  function ScanLiteral(s: string): (r: Option<Literal>)
    ensures r.Some? <==> StartsLiteral(s)
  {
    if |s| > 1 && IsSign(s[0]) && IsDigit(s[1]) then
      ScanUnsigned(if s[0] == '+' then Plus else Minus, s[1..])
    else
      ScanUnsigned(Unsigned, s)
  }

  /** What the scan finds is a well-formed literal that `s` begins with, read greedily. */
  lemma ScanLiteralMatch(s: string)
    requires ScanLiteral(s).Some?
    ensures WellFormed(ScanLiteral(s).value)
    ensures |Spelling(ScanLiteral(s).value)| <= |s| && s[..|Spelling(ScanLiteral(s).value)|] == Spelling(ScanLiteral(s).value)
    ensures StopsBefore(ScanLiteral(s).value, s[|Spelling(ScanLiteral(s).value)|..])
  {
    if |s| > 1 && IsSign(s[0]) && IsDigit(s[1]) {
      var sign := if s[0] == '+' then Plus else Minus;
      ScanUnsignedMatch(sign, s[1..]);
      SignedPrefix(s, ScanUnsigned(sign, s[1..]).value);
    } else {
      ScanUnsignedMatch(Unsigned, s);
    }
  }

  /** A sign character followed by the unsigned spelling of `lit` spells `lit`. */
  lemma SignedPrefix(s: string, lit: Literal)
    requires |s| > 1 && IsSign(s[0]) && lit.sign == (if s[0] == '+' then Plus else Minus)
    requires |UnsignedSpelling(lit)| <= |s| - 1 && s[1..][..|UnsignedSpelling(lit)|] == UnsignedSpelling(lit)
    ensures |Spelling(lit)| <= |s| && s[..|Spelling(lit)|] == Spelling(lit)
    ensures s[|Spelling(lit)|..] == s[1..][|UnsignedSpelling(lit)|..]
  {
    var u := UnsignedSpelling(lit);
    assert SignText(lit.sign) == [s[0]];
    assert s[..1 + |u|] == [s[0]] + s[1..][..|u|];
  }

  /** Reading back a spelled literal: the scanner finds exactly that literal again. */
  lemma ScanSpelling(lit: Literal, rest: string)
    requires WellFormed(lit) && StopsBefore(lit, rest)
    ensures ScanLiteral(Spelling(lit) + rest) == Some(lit)
  {
    ScanUnsignedSpelling(lit, rest);
    if lit.sign == Unsigned {
      ScanUnsignedLiteral(lit, rest);
    } else {
      ScanSignedLiteral(lit, rest);
    }
  }

  lemma ScanUnsignedLiteral(lit: Literal, rest: string)
    requires WellFormed(lit) && lit.sign == Unsigned
    requires ScanUnsigned(lit.sign, UnsignedSpelling(lit) + rest) == Some(lit)
    ensures ScanLiteral(Spelling(lit) + rest) == Some(lit)
  {
    var s := Spelling(lit) + rest;
    assert s == UnsignedSpelling(lit) + rest;
    assert s[0] == lit.whole[0];
  }

  lemma ScanSignedLiteral(lit: Literal, rest: string)
    requires WellFormed(lit) && lit.sign != Unsigned
    requires ScanUnsigned(lit.sign, UnsignedSpelling(lit) + rest) == Some(lit)
    ensures ScanLiteral(Spelling(lit) + rest) == Some(lit)
  {
    var sign, u := SignText(lit.sign), UnsignedSpelling(lit);
    AppendAssoc(sign, u, rest);
    SplitAppend(sign, u + rest);
    IndexPastPrefix(sign, u + rest, 0);
    assert (u + rest)[0] == lit.whole[0];
  }

  lemma ScanUnsignedSpelling(lit: Literal, rest: string)
    requires WellFormed(lit) && StopsBefore(lit, rest)
    ensures ScanUnsigned(lit.sign, UnsignedSpelling(lit) + rest) == Some(lit)
  {
    if lit.point {
      ScanPointSpelling(lit, rest);
    } else {
      ScanWholeSpelling(lit, rest);
    }
  }

  /** Digits with no point, then a character that ends them. */
  lemma ScanWholeSpelling(lit: Literal, rest: string)
    requires WellFormed(lit) && StopsBefore(lit, rest) && !lit.point
    ensures ScanUnsigned(lit.sign, UnsignedSpelling(lit) + rest) == Some(lit)
  {
    var s := lit.whole + rest;
    assert UnsignedSpelling(lit) == lit.whole;
    DigitRunOf(lit.whole, rest);
    SplitAppend(lit.whole, rest);
    LiteralAtWhole(lit.sign, s, |lit.whole|);
  }

  lemma LiteralAtWhole(sign: Sign, s: string, w: nat)
    requires w <= |s| && (w == |s| || s[w] != '.')
    ensures LiteralAt(sign, s, w) == Literal(sign, s[..w], false, [])
  {
  }

  /** Digits, a point, digits, then a character that ends them. */
  lemma ScanPointSpelling(lit: Literal, rest: string)
    requires WellFormed(lit) && StopsBefore(lit, rest) && lit.point
    ensures ScanUnsigned(lit.sign, UnsignedSpelling(lit) + rest) == Some(lit)
  {
    var w := |lit.whole|;
    var t := "." + (lit.fraction + rest);
    var s := lit.whole + t;
    AppendAssoc(lit.whole, "." + lit.fraction, rest);
    AppendAssoc(".", lit.fraction, rest);
    DigitRunOf(lit.whole, t);
    SplitAppend(lit.whole, t);
    DropAppend(".", lit.fraction + rest, 1);
    DropTwice(s, w, 1);
    DigitRunOf(lit.fraction, rest);
    SplitAppend(lit.fraction, rest);
    LiteralAtPoint(lit.sign, s, w);
  }

  lemma LiteralAtPoint(sign: Sign, s: string, w: nat)
    requires w < |s| && s[w] == '.'
    ensures LiteralAt(sign, s, w) == Literal(sign, s[..w], true, s[w + 1..][..DigitRun(s[w + 1..])])
  {
  }

  /** A digit run followed by a non-digit is measured exactly. */
  lemma {:induction false} DigitRunOf(ds: string, rest: string)
    requires AllDigits(ds)
    requires rest == [] || !IsDigit(rest[0])
    ensures DigitRun(ds + rest) == |ds|
  {
    if ds != [] {
      assert (ds + rest)[1..] == ds[1..] + rest;
      DigitRunOf(ds[1..], rest);
    } else {
      assert ds + rest == rest;
    }
  }

  /** Text after a whitespace character cannot change the match at the start. */
  lemma ScanIgnoresTail(x: string, tail: string)
    requires |x| > 0 && IsSpace(x[|x| - 1])
    ensures ScanLiteral(x + tail) == ScanLiteral(x)
  {
    var s := x + tail;
    assert s[0] == x[0];
    if |x| > 1 {
      assert s[1] == x[1];
      assert s[1..] == x[1..] + tail;
      ScanUnsignedTail(if x[0] == '+' then Plus else Minus, x[1..], tail);
    }
    ScanUnsignedTail(Unsigned, x, tail);
  }

  /** The digit run at the start of a text that ends in a non-digit does not reach into what follows. */
  lemma {:induction false} DigitRunTail(x: string, tail: string)
    requires |x| > 0 && !IsDigit(x[|x| - 1])
    ensures DigitRun(x + tail) == DigitRun(x)
  {
    if IsDigit(x[0]) {
      assert |x| > 1;
      assert (x + tail)[1..] == x[1..] + tail;
      DigitRunTail(x[1..], tail);
    }
  }

  /** The unsigned scan of a text that ends in whitespace does not reach into what follows. */
  lemma ScanUnsignedTail(sign: Sign, x: string, tail: string)
    requires |x| > 0 && IsSpace(x[|x| - 1])
    ensures ScanUnsigned(sign, x + tail) == ScanUnsigned(sign, x)
  {
    DigitRunTail(x, tail);
    var w := DigitRun(x);
    DigitRunSpec(x);
    if w > 0 {
      assert w < |x|;
      if x[w] == '.' {
        PointTail(sign, x, tail, w);
      } else {
        WholeTail(sign, x, tail, w);
      }
    }
  }

  lemma WholeTail(sign: Sign, x: string, tail: string, w: nat)
    requires 0 < w < |x| && w == DigitRun(x) && w == DigitRun(x + tail) && x[w] != '.'
    ensures ScanUnsigned(sign, x + tail) == ScanUnsigned(sign, x)
  {
    var s := x + tail;
    assert s[w] == x[w];
    assert s[..w] == x[..w];
  }

  lemma PointTail(sign: Sign, x: string, tail: string, w: nat)
    requires |x| > 0 && IsSpace(x[|x| - 1])
    requires 0 < w < |x| && w == DigitRun(x) && w == DigitRun(x + tail) && x[w] == '.'
    ensures ScanUnsigned(sign, x + tail) == ScanUnsigned(sign, x)
  {
    var s := x + tail;
    assert s[w] == x[w];
    assert w + 1 < |x|;
    var y := x[w + 1..];
    assert y[|y| - 1] == x[|x| - 1];
    assert s[w + 1..] == y + tail;
    DigitRunTail(y, tail);
    var f := DigitRun(y);
    assert s[..w] == x[..w];
    assert (y + tail)[..f] == y[..f];
  }

  /** `\d+` read as a decimal integer. */
  function WholeValue(ds: string): (v: nat)
    requires AllDigits(ds)
  {
    if ds == [] then 0 else WholeValue(ds[..|ds| - 1]) * 10 + DigitValue(ds[|ds| - 1])
  }

  /** The digits after the decimal point read as a fraction. */
  function FractionValue(ds: string): (v: real)
    requires AllDigits(ds)
    ensures 0.0 <= v < 1.0
  {
    if ds == [] then 0.0 else (DigitValue(ds[0]) as real + FractionValue(ds[1..])) / 10.0
  }

  /** What `parseFloat` gives for a matched literal, exactly (no binary rounding). */
  function Value(lit: Literal): (v: real)
    requires WellFormed(lit)
    ensures lit.sign == Minus ==> v <= 0.0
    ensures lit.sign != Minus ==> v >= 0.0
  {
    var magnitude := WholeValue(lit.whole) as real + FractionValue(lit.fraction);
    if lit.sign == Minus then -magnitude else magnitude
  }

  /** `k` times ten to the power `n`: the integer `k` followed by `n` zero digits. */
  function ShiftLeft(k: int, n: nat): int {
    if n == 0 then k else ShiftLeft(k, n - 1) * 10
  }

  /** `x` times ten to the power `n`, for real `x`: the decimal point moved `n` places right. */
  function MovePoint(x: real, n: nat): real {
    if n == 0 then x else MovePoint(x, n - 1) * 10.0
  }

  /** Reading two digit strings one after the other: the first is shifted left by the length of the second. */
  lemma {:induction false} WholeValueAppend(a: string, b: string)
    requires AllDigits(a) && AllDigits(b)
    ensures AllDigits(a + b)
    ensures WholeValue(a + b) == ShiftLeft(WholeValue(a), |b|) + WholeValue(b)
  {
    var ab := a + b;
    assert AllDigits(ab) by {
      forall i | 0 <= i < |ab| ensures IsDigit(ab[i]) {
        if i < |a| { assert ab[i] == a[i]; } else { assert ab[i] == b[i - |a|]; }
      }
    }
    if b == [] {
      assert ab == a;
    } else {
      var c := b[..|b| - 1];
      assert AllDigits(c);
      assert ab[..|ab| - 1] == a + c;
      assert ab[|ab| - 1] == b[|b| - 1];
      WholeValueAppend(a, c);
    }
  }

  /** Moving the point one place right first, or last, is the same. */
  lemma {:induction false} MovePointFirst(x: real, n: nat)
    ensures MovePoint(x * 10.0, n) == MovePoint(x, n + 1)
  {
    if n > 0 {
      MovePointFirst(x, n - 1);
    }
  }

  /** Moving the point is additive, and on an integer it shifts that integer left. */
  lemma {:induction false} MovePointSum(k: int, f: real, n: nat)
    ensures MovePoint(k as real + f, n) == ShiftLeft(k, n) as real + MovePoint(f, n)
  {
    if n > 0 {
      MovePointSum(k, f, n - 1);
    }
  }

  /** Moving the point commutes with negation. */
  lemma {:induction false} MovePointNegate(x: real, n: nat)
    ensures MovePoint(-x, n) == -MovePoint(x, n)
  {
    if n > 0 {
      MovePointNegate(x, n - 1);
    }
  }

  /** The fraction digits with the point moved past all of them are the same digits read as an integer. */
  lemma {:induction false} FractionScaled(ds: string)
    requires AllDigits(ds)
    ensures MovePoint(FractionValue(ds), |ds|) == WholeValue(ds) as real
  {
    if ds != [] {
      var d, rest := ds[..1], ds[1..];
      assert AllDigits(d) && AllDigits(rest);
      FractionScaled(rest);
      assert d + rest == ds;
      WholeValueAppend(d, rest);
      assert d[..0] == [];
      assert WholeValue(d) == DigitValue(ds[0]);
      var x := FractionValue(ds);
      assert x * 10.0 == DigitValue(ds[0]) as real + FractionValue(rest);
      MovePointFirst(x, |rest|);
      MovePointSum(DigitValue(ds[0]), FractionValue(rest), |rest|);
    }
  }

  /**
   * The value of a literal with its point moved past every fraction digit is
   * its digits without the point read as an integer, with the literal's sign:
   * "-12.50" is -1250 hundredths.
   */
  lemma ValueScaled(lit: Literal)
    requires WellFormed(lit)
    ensures AllDigits(lit.whole + lit.fraction)
    ensures MovePoint(Value(lit), |lit.fraction|)
         == (if lit.sign == Minus then -1.0 else 1.0) * WholeValue(lit.whole + lit.fraction) as real
  {
    var n := |lit.fraction|;
    WholeValueAppend(lit.whole, lit.fraction);
    FractionScaled(lit.fraction);
    MovePointSum(WholeValue(lit.whole), FractionValue(lit.fraction), n);
    MovePointNegate(WholeValue(lit.whole) as real + FractionValue(lit.fraction), n);
  }
}
