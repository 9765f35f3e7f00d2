/**
 * What the normaliser does to numbers: a numeric literal between a word
 * boundary and a non-numeric character becomes '#' whatever its digits, so
 * stat lines that differ only in their rolled values normalise alike.
 */
module StatTextFacts {
  import opened Chars
  import opened NumberLiteral
  import opened StatText
  import opened Sequences

  /** A character that ends a number and that rewrites 1 to 4 leave in place. */
  predicate NumberStop(c: char) {
    !IsDigit(c) && c != '.' && c != '+' && c != '[' && c != ']' && c != '|'
  }

  /** A text that only rewrite 1 changes: no digit, '+', bracket or '|'. */
  predicate PlainText(s: string) {
    forall i :: 0 <= i < |s| ==> !IsDigit(s[i]) && s[i] != '+' && s[i] != '[' && s[i] != ']' && s[i] != '|'
  }

  predicate EndsAtSpace(s: string) {
    s == [] || IsSpace(s[|s| - 1])
  }

  // ---------------------------------------------------------------------------
  // A suffix of a text that ends in whitespace ends in whitespace too
  // ---------------------------------------------------------------------------

  lemma SuffixEndsAtSpace(a: string, n: nat)
    requires EndsAtSpace(a) && n <= |a|
    ensures EndsAtSpace(a[n..])
  {
    if n < |a| {
      assert a[n..][|a| - n - 1] == a[|a| - 1];
    }
  }

  // ---------------------------------------------------------------------------
  // Each rewrite works piecewise when the pieces meet at whitespace
  // ---------------------------------------------------------------------------

  lemma {:induction false} DropPlusAppend(a: string, b: string)
    requires a == [] || a[|a| - 1] != '+'
    ensures DropPlusBeforeDigit(a + b) == DropPlusBeforeDigit(a) + DropPlusBeforeDigit(b)
  {
    if a != [] {
      assert (a + b)[1..] == a[1..] + b;
      DropPlusAppend(a[1..], b);
    } else {
      assert a + b == b;
    }
  }

  lemma {:induction false} DropPlusKeepsLast(s: string)
    requires s != [] && s[|s| - 1] != '+'
    ensures DropPlusBeforeDigit(s) != [] && DropPlusBeforeDigit(s)[|DropPlusBeforeDigit(s)| - 1] == s[|s| - 1]
  {
    if |s| > 1 {
      DropPlusKeepsLast(s[1..]);
    }
  }

  lemma {:induction false} DropPlusFixed(s: string)
    requires forall i :: 0 <= i < |s| ==> s[i] != '+'
    ensures DropPlusBeforeDigit(s) == s
  {
    if s != [] {
      DropPlusFixed(s[1..]);
    }
  }

  lemma {:induction false} DropBracketsAppend(a: string, b: string)
    ensures DropBrackets(a + b) == DropBrackets(a) + DropBrackets(b)
  {
    if a != [] {
      assert (a + b)[1..] == a[1..] + b;
      DropBracketsAppend(a[1..], b);
    } else {
      assert a + b == b;
    }
  }

  lemma {:induction false} DropBracketsKeepsLast(s: string)
    requires s != [] && s[|s| - 1] != '[' && s[|s| - 1] != ']'
    ensures DropBrackets(s) != [] && DropBrackets(s)[|DropBrackets(s)| - 1] == s[|s| - 1]
  {
    if |s| > 1 {
      DropBracketsKeepsLast(s[1..]);
    }
  }

  lemma {:induction false} DropBracketsFixed(s: string)
    requires forall i :: 0 <= i < |s| ==> s[i] != '[' && s[i] != ']'
    ensures DropBrackets(s) == s
  {
    if s != [] {
      DropBracketsFixed(s[1..]);
    }
  }

  lemma {:induction false} UntilSpaceAppend(a: string, b: string)
    requires a != [] && IsSpace(a[|a| - 1])
    ensures UntilSpace(a + b) == UntilSpace(a)
  {
    if !IsSpace(a[0]) {
      DropAppend(a, b, 1);
      UntilSpaceAppend(a[1..], b);
    }
  }

  lemma {:induction false} DropPipeAppend(a: string, b: string)
    requires EndsAtSpace(a)
    ensures DropPipeNotes(a + b) == DropPipeNotes(a) + DropPipeNotes(b)
    decreases |a|, 1
  {
    if a == [] {
      assert a + b == b;
    } else if a[0] == '|' {
      NoteAppend(a, b);
    } else {
      CharAppend(a, b);
    }
  }

  lemma {:induction false} NoteAppend(a: string, b: string)
    requires a != [] && a[0] == '|' && IsSpace(a[|a| - 1])
    ensures DropPipeNotes(a + b) == DropPipeNotes(a) + DropPipeNotes(b)
    decreases |a|, 0
  {
    PipeSkip(a);
    PipeSkipAppend(a, b);
    DropPipeAppend(a[NoteEnd(a)..], b);
  }

  lemma {:induction false} CharAppend(a: string, b: string)
    requires a != [] && a[0] != '|' && IsSpace(a[|a| - 1])
    ensures DropPipeNotes(a + b) == DropPipeNotes(a) + DropPipeNotes(b)
    decreases |a|, 0
  {
    KeepStep(a);
    KeepStep(a + b);
    DropAppend(a, b, 1);
    SuffixEndsAtSpace(a, 1);
    DropPipeAppend(a[1..], b);
    AppendAssoc([a[0]], DropPipeNotes(a[1..]), DropPipeNotes(b));
  }

  /** A note that starts a text ending in whitespace ends before the text does. */
  lemma PipeSkip(s: string)
    requires s != [] && s[0] == '|' && IsSpace(s[|s| - 1])
    ensures NoteEnd(s) < |s|
    ensures DropPipeNotes(s) == DropPipeNotes(s[NoteEnd(s)..])
    ensures EndsAtSpace(s[NoteEnd(s)..])
  {
    SuffixEndsAtSpace(s, 1);
    UntilSpaceBeforeLast(s[1..]);
    SuffixEndsAtSpace(s, NoteEnd(s));
    NoteStep(s);
  }

  /** A note that starts `a` does not reach into what follows `a`. */
  lemma PipeSkipAppend(a: string, b: string)
    requires a != [] && a[0] == '|' && IsSpace(a[|a| - 1])
    ensures DropPipeNotes(a + b) == DropPipeNotes(a[NoteEnd(a)..] + b)
  {
    assert |a| > 1;
    NoteEndAppend(a, b);
    DropAppend(a, b, NoteEnd(a));
    NoteStep(a + b);
  }

  /** The note that starts `a` ends inside `a` whatever follows. */
  lemma NoteEndAppend(a: string, b: string)
    requires |a| > 1 && IsSpace(a[|a| - 1])
    ensures NoteEnd(a + b) == NoteEnd(a)
  {
    DropAppend(a, b, 1);
    LastOfSuffix(a, 1);
    UntilSpaceAppend(a[1..], b);
  }

  /** Rewrite 4 drops a note that starts the text. */
  lemma NoteStep(s: string)
    requires s != [] && s[0] == '|'
    ensures DropPipeNotes(s) == DropPipeNotes(s[NoteEnd(s)..])
  {
  }

  lemma {:induction false} DropPipeKeepsLast(s: string)
    requires s != [] && IsSpace(s[|s| - 1])
    ensures DropPipeNotes(s) != [] && DropPipeNotes(s)[|DropPipeNotes(s)| - 1] == s[|s| - 1]
    decreases |s|, 1
  {
    if s[0] == '|' {
      NoteKeepsLast(s);
    } else if |s| == 1 {
      KeepStep(s);
      assert s[1..] == [];
    } else {
      CharKeepsLast(s);
    }
  }

  lemma {:induction false} NoteKeepsLast(s: string)
    requires s != [] && s[0] == '|' && IsSpace(s[|s| - 1])
    ensures DropPipeNotes(s) != [] && DropPipeNotes(s)[|DropPipeNotes(s)| - 1] == s[|s| - 1]
    decreases |s|, 0
  {
    PipeSkip(s);
    var n := NoteEnd(s);
    LastOfSuffix(s, n);
    DropPipeKeepsLast(s[n..]);
  }

  lemma {:induction false} CharKeepsLast(s: string)
    requires |s| > 1 && s[0] != '|' && IsSpace(s[|s| - 1])
    ensures DropPipeNotes(s) != [] && DropPipeNotes(s)[|DropPipeNotes(s)| - 1] == s[|s| - 1]
    decreases |s|, 0
  {
    KeepStep(s);
    LastOfSuffix(s, 1);
    DropPipeKeepsLast(s[1..]);
    LastOfPrepend(s[0], DropPipeNotes(s[1..]));
  }

  /** Rewrite 4 keeps a first character other than '|' and carries on after it. */
  lemma KeepStep(s: string)
    requires s != [] && s[0] != '|'
    ensures DropPipeNotes(s) == [s[0]] + DropPipeNotes(s[1..])
  {
  }

  lemma {:induction false} DropPipePrepend(a: string, b: string)
    requires forall i :: 0 <= i < |a| ==> a[i] != '|'
    ensures DropPipeNotes(a + b) == a + DropPipeNotes(b)
  {
    if a != [] {
      assert (a + b)[1..] == a[1..] + b;
      DropPipePrepend(a[1..], b);
    } else {
      assert a + b == b;
    }
  }

  lemma {:induction false} CollapseNumbersAppend(a: string, b: string)
    requires EndsAtSpace(a)
    ensures CollapseNumbers(a + b) == CollapseNumbers(a) + CollapseNumbers(b)
    decreases |a|, 1
  {
    if a == [] {
      assert a + b == b;
    } else {
      TokenAppend(a, b);
    }
  }

  lemma {:induction false} TokenAppend(a: string, b: string)
    requires a != [] && EndsAtSpace(a)
    ensures CollapseNumbers(a + b) == CollapseNumbers(a) + CollapseNumbers(b)
    decreases |a|, 0
  {
    var n := TokenLength(a);
    TokenStep(a, b);
    CollapseStep(a);
    CollapseNumbersAppend(a[n..], b);
    AppendAssoc(MaskedToken(a), CollapseNumbers(a[n..]), CollapseNumbers(b));
  }

  lemma CollapseStep(a: string)
    requires a != []
    ensures CollapseNumbers(a) == MaskedToken(a) + CollapseNumbers(a[TokenLength(a)..])
  {
  }

  /** Rewrite 5 masks the first token of `a + b` as it masks that of `a`, and carries on in the rest of `a`. */
  lemma TokenStep(a: string, b: string)
    requires a != [] && EndsAtSpace(a)
    ensures CollapseNumbers(a + b) == MaskedToken(a) + CollapseNumbers(a[TokenLength(a)..] + b)
    ensures EndsAtSpace(a[TokenLength(a)..])
  {
    var n := TokenLength(a);
    TokenOfAppend(a, b);
    CollapseStep(a + b);
    DropAppend(a, b, n);
    SuffixEndsAtSpace(a, n);
  }

  /** The first token of `a + b` lies inside `a` when `a` ends in whitespace. */
  lemma TokenOfAppend(a: string, b: string)
    requires a != [] && EndsAtSpace(a)
    ensures TokenLength(a + b) == TokenLength(a) && MaskedToken(a + b) == MaskedToken(a)
  {
    ScanIgnoresTail(a, b);
  }

  // ---------------------------------------------------------------------------
  // A number between a word boundary and a non-numeric character becomes '#'
  // ---------------------------------------------------------------------------

  /** Rewrites 1 to 4 keep a final whitespace character. */
  lemma MarkupKeepsFinalSpace(p: string)
    requires EndsAtSpace(p)
    ensures EndsAtSpace(DropPipeNotes(DropBrackets(DropPlusBeforeDigit(Lowercase(p)))))
  {
    if p != [] {
      var p1 := Lowercase(p);
      LowercaseEach(p);
      DropPlusKeepsLast(p1);
      var p2 := DropPlusBeforeDigit(p1);
      DropBracketsKeepsLast(p2);
      DropPipeKeepsLast(DropBrackets(p2));
    }
  }

  /** The literal as rewrite 2 leaves it: a '+' sign before its first digit is dropped. */
  function Unplussed(lit: Literal): Literal {
    if lit.sign == Plus then lit.(sign := Unsigned) else lit
  }

  /** A number `lit` written between `p` and `t` is masked to '#' and the rest is masked piecewise. */
  lemma MaskNumberWord(p: string, lit: Literal, t: string)
    requires EndsAtSpace(p)
    requires WellFormed(lit)
    requires t == [] || NumberStop(t[0])
    ensures MaskNumbers(p + Spelling(lit) + t) == MaskNumbers(p) + "#" + MaskNumbers(t)
  {
    var bare := Unplussed(lit);
    var w' := Spelling(bare);
    var p2, t2 := DropPlusBeforeDigit(Lowercase(p)), DropPlusBeforeDigit(Lowercase(t));
    var p3, t3 := DropBrackets(p2), DropBrackets(t2);
    var p4, t4 := DropPipeNotes(p3), DropPipeNotes(t3);
    assert EndsAtSpace(p2) && (t2 == [] || NumberStop(t2[0])) by {
      LowerAndDropPlus(p, lit, t);
    }
    assert EndsAtSpace(p4) && (t4 == [] || NumberStop(t4[0])) by {
      MarkupKeepsFinalSpace(p);
    }
    calc {
      MaskNumbers(p + Spelling(lit) + t);
      CollapseNumbers(DropPipeNotes(DropBrackets(DropPlusBeforeDigit(Lowercase(p + Spelling(lit) + t)))));
      { LowerAndDropPlus(p, lit, t); }
      CollapseNumbers(DropPipeNotes(DropBrackets(p2 + w' + t2)));
      { BracketsAndNotes(p2, bare, t2); }
      CollapseNumbers(p4 + w' + t4);
      { MaskLiteralThenRest(p4, bare, t4); }
      CollapseNumbers(p4) + "#" + CollapseNumbers(t4);
    }
  }

  /** Rewrites 3 and 4 leave a number alone and work on its two sides separately. */
  lemma BracketsAndNotes(p2: string, lit: Literal, t2: string)
    requires EndsAtSpace(p2)
    requires WellFormed(lit)
    ensures DropPipeNotes(DropBrackets(p2 + Spelling(lit) + t2))
      == DropPipeNotes(DropBrackets(p2)) + Spelling(lit) + DropPipeNotes(DropBrackets(t2))
  {
    BracketsAroundNumber(p2, lit, t2);
    DropBracketsKeepsLastOrEmpty(p2);
    NotesAroundNumber(DropBrackets(p2), lit, DropBrackets(t2));
  }

  lemma BracketsAroundNumber(p2: string, lit: Literal, t2: string)
    requires WellFormed(lit)
    ensures DropBrackets(p2 + Spelling(lit) + t2) == DropBrackets(p2) + Spelling(lit) + DropBrackets(t2)
  {
    var w := Spelling(lit);
    SpellingChars(lit);
    DropBracketsAppend(p2 + w, t2);
    DropBracketsAppend(p2, w);
    DropBracketsFixed(w);
  }

  lemma NotesAroundNumber(p3: string, lit: Literal, t3: string)
    requires EndsAtSpace(p3)
    requires WellFormed(lit)
    ensures DropPipeNotes(p3 + Spelling(lit) + t3) == DropPipeNotes(p3) + Spelling(lit) + DropPipeNotes(t3)
  {
    var w := Spelling(lit);
    AppendAssoc(p3, w, t3);
    DropPipeAppend(p3, w + t3);
    SpellingChars(lit);
    DropPipePrepend(w, t3);
    AppendAssoc(DropPipeNotes(p3), w, DropPipeNotes(t3));
  }

  /** Rewrites 1 and 2 on a number between `p` and `t`: only a '+' sign of the number goes. */
  lemma LowerAndDropPlus(p: string, lit: Literal, t: string)
    requires EndsAtSpace(p)
    requires WellFormed(lit)
    requires t == [] || NumberStop(t[0])
    ensures DropPlusBeforeDigit(Lowercase(p + Spelling(lit) + t))
      == DropPlusBeforeDigit(Lowercase(p)) + Spelling(Unplussed(lit)) + DropPlusBeforeDigit(Lowercase(t))
    ensures EndsAtSpace(DropPlusBeforeDigit(Lowercase(p)))
    ensures var t2 := DropPlusBeforeDigit(Lowercase(t)); t2 == [] || NumberStop(t2[0])
  {
    LowerAroundNumber(p, lit, t);
    DropPlusKeepsLastOrEmpty(Lowercase(p));
    PlusAroundNumber(Lowercase(p), lit, Lowercase(t));
  }

  lemma LowerAroundNumber(p: string, lit: Literal, t: string)
    requires EndsAtSpace(p)
    requires WellFormed(lit)
    requires t == [] || NumberStop(t[0])
    ensures Lowercase(p + Spelling(lit) + t) == Lowercase(p) + Spelling(lit) + Lowercase(t)
    ensures EndsAtSpace(Lowercase(p))
    ensures Lowercase(t) == [] || NumberStop(Lowercase(t)[0])
  {
    var w := Spelling(lit);
    LowercaseAppend(p + w, t);
    LowercaseAppend(p, w);
    LowercaseEach(w);
    LowercaseEach(p);
    LowercaseEach(t);
    assert Lowercase(w) == w;
  }

  lemma PlusAroundNumber(p1: string, lit: Literal, t1: string)
    requires EndsAtSpace(p1)
    requires WellFormed(lit)
    ensures DropPlusBeforeDigit(p1 + Spelling(lit) + t1)
      == DropPlusBeforeDigit(p1) + Spelling(Unplussed(lit)) + DropPlusBeforeDigit(t1)
  {
    var w := Spelling(lit);
    AppendAssoc(p1, w, t1);
    DropPlusAppend(p1, w + t1);
    DropSign(lit, t1);
    AppendAssoc(DropPlusBeforeDigit(p1), Spelling(Unplussed(lit)), DropPlusBeforeDigit(t1));
  }

  /** Rewrite 2 on a number: a '+' sign goes, a '-' sign and the digits stay. */
  lemma DropSign(lit: Literal, t1: string)
    requires WellFormed(lit)
    ensures DropPlusBeforeDigit(Spelling(lit) + t1) == Spelling(Unplussed(lit)) + DropPlusBeforeDigit(t1)
  {
    DigitsStay(lit, t1);
    match lit.sign
    case Unsigned =>
      assert Spelling(lit) == UnsignedSpelling(lit);
    case Plus =>
      PlusGoes(lit, t1);
    case Minus =>
      MinusStays(lit, t1);
  }

  /** Rewrite 2 leaves the digits and the point of a number as they are. */
  lemma DigitsStay(lit: Literal, t1: string)
    requires WellFormed(lit)
    ensures DropPlusBeforeDigit(UnsignedSpelling(lit) + t1) == UnsignedSpelling(lit) + DropPlusBeforeDigit(t1)
  {
    var u := UnsignedSpelling(lit);
    SpellingChars(lit);
    DropPlusAppend(u, t1);
    DropPlusFixed(u);
  }

  lemma PlusGoes(lit: Literal, t1: string)
    requires WellFormed(lit) && lit.sign == Plus
    requires DropPlusBeforeDigit(UnsignedSpelling(lit) + t1) == UnsignedSpelling(lit) + DropPlusBeforeDigit(t1)
    ensures DropPlusBeforeDigit(Spelling(lit) + t1) == Spelling(Unplussed(lit)) + DropPlusBeforeDigit(t1)
  {
    var u := UnsignedSpelling(lit);
    var s := Spelling(lit) + t1;
    assert Spelling(lit) == "+" + u;
    AppendAssoc("+", u, t1);
    assert s[1..] == u + t1;
    assert s[1] == lit.whole[0];
    assert Spelling(Unplussed(lit)) == u;
  }

  lemma MinusStays(lit: Literal, t1: string)
    requires WellFormed(lit) && lit.sign == Minus
    requires DropPlusBeforeDigit(UnsignedSpelling(lit) + t1) == UnsignedSpelling(lit) + DropPlusBeforeDigit(t1)
    ensures DropPlusBeforeDigit(Spelling(lit) + t1) == Spelling(Unplussed(lit)) + DropPlusBeforeDigit(t1)
  {
    var u := UnsignedSpelling(lit);
    var s := Spelling(lit) + t1;
    assert Spelling(lit) == "-" + u;
    AppendAssoc("-", u, t1);
    assert s[1..] == u + t1;
    AppendAssoc("-", u, DropPlusBeforeDigit(t1));
  }

  /** Rewrite 5 on a number: it becomes '#' and the two sides are masked separately. */
  lemma MaskLiteralThenRest(p4: string, lit: Literal, t4: string)
    requires EndsAtSpace(p4)
    requires WellFormed(lit)
    requires t4 == [] || NumberStop(t4[0])
    ensures CollapseNumbers(p4 + Spelling(lit) + t4) == CollapseNumbers(p4) + "#" + CollapseNumbers(t4)
  {
    var w := Spelling(lit);
    AppendAssoc(p4, w, t4);
    CollapseNumbersAppend(p4, w + t4);
    MaskSpelled(lit, t4);
    AppendAssoc(CollapseNumbers(p4), "#", CollapseNumbers(t4));
  }

  /** A spelled literal followed by a character that ends it is one '#'. */
  lemma MaskSpelled(lit: Literal, t: string)
    requires WellFormed(lit)
    requires t == [] || NumberStop(t[0])
    ensures CollapseNumbers(Spelling(lit) + t) == "#" + CollapseNumbers(t)
  {
    var w := Spelling(lit);
    ScanSpelling(lit, t);
    assert (w + t)[|w|..] == t;
  }

  lemma DropPlusKeepsLastOrEmpty(s: string)
    requires EndsAtSpace(s)
    ensures EndsAtSpace(DropPlusBeforeDigit(s))
  {
    if s != [] { DropPlusKeepsLast(s); }
  }

  lemma DropBracketsKeepsLastOrEmpty(s: string)
    requires EndsAtSpace(s)
    ensures EndsAtSpace(DropBrackets(s))
  {
    if s != [] { DropBracketsKeepsLast(s); }
  }

  /**
   * Numeral invariance: two stat lines that differ only in one number (its
   * digits, its sign, its decimal part) normalise to the same text.
   */
  lemma NumeralInvariance(p: string, lit1: Literal, lit2: Literal, t: string)
    requires EndsAtSpace(p)
    requires WellFormed(lit1) && WellFormed(lit2)
    requires t == [] || NumberStop(t[0])
    ensures NormalizeStatText(p + Spelling(lit1) + t) == NormalizeStatText(p + Spelling(lit2) + t)
  {
    MaskNumberWord(p, lit1, t);
    MaskNumberWord(p, lit2, t);
  }

  /** On a text with no digit, '+', bracket or '|', rewrites 1 to 5 only lower the case. */
  lemma MaskPlainText(s: string)
    requires PlainText(s)
    ensures MaskNumbers(s) == Lowercase(s)
  {
    var s1 := Lowercase(s);
    LowercaseEach(s);
    DropPlusFixed(s1);
    DropBracketsFixed(s1);
    DropPipeNotesFixed(s1);
    CollapseNumbersFixed(s1);
  }

  /** A text already single-spaced with plain spaces is left alone by rewrite 6. */
  lemma {:induction false} CollapseSpacesFixed(s: string)
    requires SingleSpaced(s)
    requires forall i :: 0 <= i < |s| ==> IsSpace(s[i]) ==> s[i] == ' '
    ensures CollapseSpaces(s) == s
  {
    if s != [] {
      CollapseSpacesFixed(s[1..]);
      if IsSpace(s[0]) {
        assert LeadingSpaces(s) == 1 by {
          assert |s| > 1 ==> !IsSpace(s[1]);
        }
      }
    }
  }
}
