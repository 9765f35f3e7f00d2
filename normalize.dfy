/**
 * `normalizeStatText`: the fixed chain of rewrites that turns a stat line or a
 * catalog template into the text both are compared by. Each rewrite of the
 * chain is one function below, in the order the chain applies them.
 */
module StatText {
  import opened Chars
  import opened NumberLiteral
  import opened Optional
  import opened Sequences

  // ---------------------------------------------------------------------------
  // Small views used to state what the rewrites keep
  // ---------------------------------------------------------------------------

  /** `s` with every occurrence of `c` taken out. */
  function Without(s: string, c: char): string {
    if s == [] then [] else (if s[0] == c then [] else [s[0]]) + Without(s[1..], c)
  }

  /** The whitespace characters of `s`, in order. */
  function Spaces(s: string): string {
    if s == [] then [] else (if IsSpace(s[0]) then [s[0]] else []) + Spaces(s[1..])
  }

  /** The characters of `s` that are not whitespace, in order. */
  function Words(s: string): string {
    if s == [] then [] else (if IsSpace(s[0]) then [] else [s[0]]) + Words(s[1..])
  }

  /** The number of whitespace characters `s` starts with. */
  function LeadingSpaces(s: string): (n: nat)
    ensures n <= |s|
    ensures forall i :: 0 <= i < n ==> IsSpace(s[i])
    ensures n < |s| ==> !IsSpace(s[n])
  {
    if s != [] && IsSpace(s[0]) then 1 + LeadingSpaces(s[1..]) else 0
  }

  /** The number of whitespace characters `s` ends with. */
  function TrailingSpaces(s: string): (n: nat)
    ensures n <= |s|
    ensures forall i :: |s| - n <= i < |s| ==> IsSpace(s[i])
    ensures n < |s| ==> !IsSpace(s[|s| - n - 1])
  {
    if s != [] && IsSpace(s[|s| - 1]) then 1 + TrailingSpaces(s[..|s| - 1]) else 0
  }

  /** The number of characters before the first whitespace of `s`. */
  function UntilSpace(s: string): (n: nat)
    ensures n <= |s|
  {
    if s != [] && !IsSpace(s[0]) then 1 + UntilSpace(s[1..]) else 0
  }

  /** The stretch holds no whitespace and ends at whitespace or at the end of the text. */
  lemma {:induction false} UntilSpaceSpec(s: string)
    ensures forall i :: 0 <= i < UntilSpace(s) ==> !IsSpace(s[i])
    ensures UntilSpace(s) < |s| ==> IsSpace(s[UntilSpace(s)])
  {
    if s != [] && !IsSpace(s[0]) {
      UntilSpaceSpec(s[1..]);
    }
  }

  /** In a text ending in whitespace the stretch stops before the end. */
  lemma {:induction false} UntilSpaceBeforeLast(s: string)
    requires s != [] && IsSpace(s[|s| - 1])
    ensures UntilSpace(s) < |s|
  {
    if !IsSpace(s[0]) {
      UntilSpaceBeforeLast(s[1..]);
    }
  }

  /** Where a note that opens `s` ends: at the first whitespace character after its first character, or at the end. */
  function NoteEnd(s: string): (n: nat)
    requires s != []
    ensures 0 < n <= |s|
  {
    1 + UntilSpace(s[1..])
  }

  // ---------------------------------------------------------------------------
  // The rewrites, in the order normalizeStatText applies them
  // ---------------------------------------------------------------------------

  /** 1. `toLowerCase()`, on ASCII letters. */
  function Lowercase(s: string): string {
    seq(|s|, i requires 0 <= i < |s| => LowerChar(s[i]))
  }

  lemma LowercaseEach(s: string)
    ensures |Lowercase(s)| == |s|
    ensures forall i :: 0 <= i < |s| ==> Lowercase(s)[i] == LowerChar(s[i])
  {
  }

  /**
   * After rewrite 1 no ASCII upper-case letter is left, and each position
   * either keeps its character or holds the lower-case form of the letter
   * that was there.
   */
  lemma LowercaseClean(s: string)
    ensures |Lowercase(s)| == |s|
    ensures forall i :: 0 <= i < |s| ==> !IsUpper(Lowercase(s)[i])
    ensures forall i :: 0 <= i < |s| ==>
      Lowercase(s)[i] == s[i] || (IsUpper(s[i]) && Lowercase(s)[i] as int == s[i] as int + 32)
  {
    LowercaseEach(s);
  }

  /** Rewrite 1 leaves a text unchanged exactly when it holds no ASCII upper-case letter. */
  lemma LowercaseFixed(s: string)
    ensures Lowercase(s) == s <==> forall i :: 0 <= i < |s| ==> !IsUpper(s[i])
  {
    LowercaseEach(s);
    if Lowercase(s) == s {
      assert forall i :: 0 <= i < |s| ==> !IsUpper(Lowercase(s)[i]);
    }
  }

  /** Rewrite 1 works character by character, so it distributes over concatenation. */
  lemma {:induction false} LowercaseAppend(a: string, b: string)
    ensures Lowercase(a + b) == Lowercase(a) + Lowercase(b)
  {
    if a != [] {
      assert (a + b)[1..] == a[1..] + b;
      LowercaseAppend(a[1..], b);
    } else {
      assert a + b == b;
    }
  }

  /** Lowercasing twice is lowercasing once. */
  lemma LowercaseIdempotent(s: string)
    ensures Lowercase(Lowercase(s)) == Lowercase(s)
  {
    LowercaseClean(s);
    LowercaseFixed(Lowercase(s));
  }

  /**
   * 2. `replace(/\+(?=\d)/g, '')`: a '+' is dropped when, in the text being
   * rewritten, a digit follows it; nothing but '+' characters is removed.
   */
  function DropPlusBeforeDigit(s: string): (r: string)
    ensures |r| <= |s|
  {
    if s == [] then []
    else if s[0] == '+' && |s| > 1 && IsDigit(s[1]) then DropPlusBeforeDigit(s[1..])
    else [s[0]] + DropPlusBeforeDigit(s[1..])
  }

  /** The number of '+' characters of `s` that a digit directly follows. */
  function PlusesBeforeDigits(s: string): nat {
    if |s| < 2 then 0
    else (if s[0] == '+' && IsDigit(s[1]) then 1 else 0) + PlusesBeforeDigits(s[1..])
  }

  /**
   * Rewrite 2 takes out '+' characters and nothing else, and it takes out as
   * many as there are '+' characters directly followed by a digit.
   */
  lemma {:induction false} DropPlusOnlyDropsPlus(s: string)
    ensures Without(DropPlusBeforeDigit(s), '+') == Without(s, '+')
    ensures forall i :: 0 <= i < |DropPlusBeforeDigit(s)| ==> DropPlusBeforeDigit(s)[i] in s
    ensures |DropPlusBeforeDigit(s)| + PlusesBeforeDigits(s) == |s|
  {
    if s != [] {
      DropPlusOnlyDropsPlus(s[1..]);
      var r := DropPlusBeforeDigit(s);
      if !(s[0] == '+' && |s| > 1 && IsDigit(s[1])) {
        assert r == [s[0]] + DropPlusBeforeDigit(s[1..]);
        assert r[1..] == DropPlusBeforeDigit(s[1..]);
        assert s == [s[0]] + s[1..];
      }
    }
  }

  /** 3. `replace(/\[|\]/g, '')`: the bracket characters go, every other character stays. */
  function DropBrackets(s: string): (r: string)
    ensures |r| <= |s|
  {
    if s == [] then []
    else if s[0] == '[' || s[0] == ']' then DropBrackets(s[1..])
    else [s[0]] + DropBrackets(s[1..])
  }

  /**
   * Rewrite 3 keeps exactly the characters that are not brackets, in their
   * order: it is the text with every '[' and then every ']' taken out.
   */
  lemma {:induction false} DropBracketsKeepsTheRest(s: string)
    ensures DropBrackets(s) == Without(Without(s, '['), ']')
    ensures forall c :: c in DropBrackets(s) <==> c in s && c != '[' && c != ']'
  {
    if s != [] {
      DropBracketsKeepsTheRest(s[1..]);
      assert s == [s[0]] + s[1..];
      var w := Without(s[1..], '[');
      if s[0] == '[' {
        assert Without(s, '[') == [] + w == w;
      } else {
        assert Without(s, '[') == [s[0]] + w;
        assert ([s[0]] + w)[1..] == w;
        if s[0] == ']' {
          assert Without([s[0]] + w, ']') == [] + Without(w, ']') == Without(w, ']');
        } else {
          assert Without([s[0]] + w, ']') == [s[0]] + Without(w, ']');
        }
      }
    }
  }

  /**
   * 4. `replace(/\|.*?(?=\s|$)/g, '')`: each '|' is removed with everything up
   * to the next whitespace character or the end. Every whitespace character
   * survives, and a text without '|' is left as it is.
   */
  function DropPipeNotes(s: string): (r: string)
    ensures |r| <= |s|
  {
    if s == [] then []
    else if s[0] == '|' then DropPipeNotes(s[NoteEnd(s)..])
    else [s[0]] + DropPipeNotes(s[1..])
  }

  /** Rewrite 4 leaves no '|' and adds no character. */
  lemma {:induction false} DropPipeNotesChars(s: string)
    ensures forall i :: 0 <= i < |DropPipeNotes(s)| ==> DropPipeNotes(s)[i] != '|' && DropPipeNotes(s)[i] in s
    decreases |s|
  {
    if s == [] {
    } else if s[0] == '|' {
      var rest := s[NoteEnd(s)..];
      DropPipeNotesChars(rest);
      assert forall i :: 0 <= i < |rest| ==> rest[i] == s[|s| - |rest| + i];
    } else {
      DropPipeNotesChars(s[1..]);
      assert s == [s[0]] + s[1..];
      assert DropPipeNotes(s) == [s[0]] + DropPipeNotes(s[1..]);
    }
  }

  /** Rewrite 4 keeps every whitespace character, so a note never swallows a word boundary. */
  lemma {:induction false} DropPipeNotesKeepsSpaces(s: string)
    ensures Spaces(DropPipeNotes(s)) == Spaces(s)
    decreases |s|
  {
    if s == [] {
    } else if s[0] == '|' {
      var n := UntilSpace(s[1..]);
      var rest := s[1 + n..];
      DropPipeNotesKeepsSpaces(rest);
      UntilSpaceSpec(s[1..]);
      NoSpacesInNote(s[1..], n);
      assert s[1..][n..] == rest;
    } else {
      DropPipeNotesKeepsSpaces(s[1..]);
      assert DropPipeNotes(s) == [s[0]] + DropPipeNotes(s[1..]);
      assert ([s[0]] + DropPipeNotes(s[1..]))[1..] == DropPipeNotes(s[1..]);
    }
  }

  /** Rewrite 4 leaves a text without '|' as it is. */
  lemma {:induction false} DropPipeNotesFixed(s: string)
    requires '|' !in s
    ensures DropPipeNotes(s) == s
  {
    if s != [] {
      assert s == [s[0]] + s[1..];
      DropPipeNotesFixed(s[1..]);
    }
  }

  /**
   * Rewrite 4 on a text whose first '|' opens the note `w`: the text before
   * the bar is kept, the bar and the whole note go, and the rest, which
   * starts at whitespace or is empty, is rewritten on its own.
   */
  lemma {:induction false} DropPipeNote(a: string, w: string, b: string)
    requires forall i :: 0 <= i < |a| ==> a[i] != '|'
    requires forall i :: 0 <= i < |w| ==> !IsSpace(w[i])
    requires b == [] || IsSpace(b[0])
    ensures DropPipeNotes(a + ("|" + (w + b))) == a + DropPipeNotes(b)
  {
    var note := "|" + (w + b);
    if a == [] {
      assert a + note == note;
      NoteThenRest(w, b);
    } else {
      var c, t, r := a[0], a[1..], DropPipeNotes(b);
      assert a == [c] + t;
      assert a + note == [c] + (t + note);
      KeepFirst(c, t + note);
      DropPipeNote(t, w, b);
      assert [c] + (t + r) == ([c] + t) + r;
    }
  }

  /** Rewrite 4 keeps a first character other than '|'. */
  lemma KeepFirst(c: char, t: string)
    requires c != '|'
    ensures DropPipeNotes([c] + t) == [c] + DropPipeNotes(t)
  {
    assert ([c] + t)[1..] == t;
  }

  /** A note runs up to the first whitespace character, and what follows it is rewritten on its own. */
  lemma NoteThenRest(w: string, b: string)
    requires forall i :: 0 <= i < |w| ==> !IsSpace(w[i])
    requires b == [] || IsSpace(b[0])
    ensures DropPipeNotes("|" + (w + b)) == DropPipeNotes(b)
  {
    var s := "|" + (w + b);
    assert s[1..] == w + b;
    UntilSpaceOver(w, b);
    assert s[1 + |w|..] == b;
  }

  /** The stretch before the first whitespace of `w + b` is all of `w` when `b` is empty or starts with whitespace. */
  lemma {:induction false} UntilSpaceOver(w: string, b: string)
    requires forall i :: 0 <= i < |w| ==> !IsSpace(w[i])
    requires b == [] || IsSpace(b[0])
    ensures UntilSpace(w + b) == |w|
  {
    if w == [] {
      assert w + b == b;
    } else {
      assert (w + b)[1..] == w[1..] + b;
      UntilSpaceOver(w[1..], b);
    }
  }

  /** Skipping a stretch without whitespace keeps the whitespace of the text. */
  lemma {:induction false} NoSpacesInNote(s: string, n: nat)
    requires n <= |s|
    requires forall i :: 0 <= i < n ==> !IsSpace(s[i])
    ensures Spaces(s) == Spaces(s[n..])
  {
    if n > 0 {
      NoSpacesInNote(s[1..], n - 1);
      assert s[1..][n - 1..] == s[n..];
    }
  }

  /**
   * 5. `replace(/[+-]?\d+\.?\d*\/g, '#')`: every numeric literal, found left to
   * right, becomes one '#'. No digit survives, and a text without digits is
   * left as it is.
   */
  function CollapseNumbers(s: string): (r: string)
    ensures |r| <= |s|
    decreases |s|
  {
    if s == [] then []
    else MaskedToken(s) + CollapseNumbers(s[TokenLength(s)..])
  }

  /** Rewrite 5 leaves no digit, and every other character it writes comes from `s`. */
  lemma {:induction false} CollapseNumbersChars(s: string)
    ensures forall i :: 0 <= i < |CollapseNumbers(s)| ==>
      !IsDigit(CollapseNumbers(s)[i]) && (CollapseNumbers(s)[i] == '#' || CollapseNumbers(s)[i] in s)
    decreases |s|
  {
    if s != [] {
      var n := TokenLength(s);
      var rest := s[n..];
      CollapseNumbersChars(rest);
      assert forall c :: c in rest ==> c in s by {
        assert forall i :: 0 <= i < |rest| ==> rest[i] == s[i + n];
      }
    }
  }

  /** Rewrite 5 leaves a text without digits as it is. */
  lemma {:induction false} CollapseNumbersFixed(s: string)
    requires forall i :: 0 <= i < |s| ==> !IsDigit(s[i])
    ensures CollapseNumbers(s) == s
    decreases |s|
  {
    if s != [] {
      assert !StartsLiteral(s);
      assert TokenLength(s) == 1 && MaskedToken(s) == [s[0]];
      CollapseNumbersFixed(s[1..]);
      assert s == [s[0]] + s[1..];
    }
  }

  /** How many characters rewrite 5 consumes at the start of `s`: a whole literal, or one character. */
  function TokenLength(s: string): (n: nat)
    requires s != []
    ensures 0 < n <= |s|
    ensures n > 1 ==> ScanLiteral(s).Some?
  {
    match ScanLiteral(s)
    case Some(lit) =>
      ScanLiteralMatch(s);
      SpellingChars(lit);
      |Spelling(lit)|
    case None => 1
  }

  /** What rewrite 5 writes for the characters it consumes at the start of `s`. */
  function MaskedToken(s: string): (r: string)
    requires s != []
    ensures r == "#" || (r == [s[0]] && !IsDigit(s[0]))
    ensures IsDigit(s[0]) ==> r == "#"
  {
    if ScanLiteral(s).Some? then "#" else [s[0]]
  }

  /** 6. `replace(/\s+/g, ' ')`: each whitespace run becomes one ' '. */
  function CollapseSpaces(s: string): (r: string)
    ensures |r| <= |s|
  {
    if s == [] then []
    else if IsSpace(s[0]) then " " + CollapseSpaces(s[LeadingSpaces(s)..])
    else [s[0]] + CollapseSpaces(s[1..])
  }

  /**
   * What rewrite 6 makes of `s`: only ' ' is left as whitespace, never twice
   * in a row; the other characters come from `s` and are its non-whitespace
   * characters in order; and the text is empty, or starts with whitespace,
   * exactly when `s` is or does.
   */
  predicate Collapsed(s: string, r: string) {
    (forall i :: 0 <= i < |r| ==> (IsSpace(r[i]) ==> r[i] == ' ') && (r[i] == ' ' || r[i] in s))
    && SingleSpaced(r)
    && Words(r) == Words(s)
    && (|r| == 0 <==> |s| == 0)
    && (|s| > 0 ==> (IsSpace(r[0]) <==> IsSpace(s[0])))
  }

  lemma {:induction false} CollapseSpacesSpec(s: string)
    ensures Collapsed(s, CollapseSpaces(s))
    decreases |s|, 1
  {
    if s != [] {
      if IsSpace(s[0]) {
        CollapseRun(s);
      } else {
        CollapseChar(s);
      }
    }
  }

  /** A leading whitespace run becomes one ' ', and the rest is collapsed on its own. */
  lemma {:induction false} CollapseRun(s: string)
    requires s != [] && IsSpace(s[0])
    ensures Collapsed(s, CollapseSpaces(s))
    decreases |s|, 0
  {
    var n := LeadingSpaces(s);
    var rest := s[n..];
    CollapseSpacesSpec(rest);
    var rr := CollapseSpaces(rest);
    var r := " " + rr;
    assert CollapseSpaces(s) == r;
    forall i | 0 <= i < |r|
      ensures (IsSpace(r[i]) ==> r[i] == ' ') && (r[i] == ' ' || r[i] in s)
    {
      if i > 0 {
        assert r[i] == rr[i - 1];
        if rr[i - 1] != ' ' {
          var k :| 0 <= k < |rest| && rest[k] == rr[i - 1];
          assert rest[k] == s[n + k];
        }
      }
    }
    forall i | 0 <= i < |r| - 1
      ensures !(r[i] == ' ' && r[i + 1] == ' ')
    {
      if i > 0 {
        assert r[i] == rr[i - 1] && r[i + 1] == rr[i];
      } else {
        assert r[1] == rr[0];
      }
    }
    NoWordsInRun(s, n);
    assert r[1..] == rr;
  }

  /** A leading non-whitespace character is kept, and the rest is collapsed on its own. */
  lemma {:induction false} CollapseChar(s: string)
    requires s != [] && !IsSpace(s[0])
    ensures Collapsed(s, CollapseSpaces(s))
    decreases |s|, 0
  {
    CollapseSpacesSpec(s[1..]);
    var rr := CollapseSpaces(s[1..]);
    assert CollapseSpaces(s) == [s[0]] + rr;
    assert s == [s[0]] + s[1..];
    assert ([s[0]] + rr)[1..] == rr;
  }

  /** Skipping a whitespace run keeps the words of the text. */
  lemma {:induction false} NoWordsInRun(s: string, n: nat)
    requires n <= |s|
    requires forall i :: 0 <= i < n ==> IsSpace(s[i])
    ensures Words(s) == Words(s[n..])
  {
    if n > 0 {
      NoWordsInRun(s[1..], n - 1);
      assert s[1..][n - 1..] == s[n..];
    }
  }

  /** A text that ends in a non-whitespace character starts with the same whitespace run whatever follows it. */
  lemma {:induction false} LeadingSpacesAppend(a: string, b: string)
    requires a != [] && !IsSpace(a[|a| - 1])
    ensures LeadingSpaces(a + b) == LeadingSpaces(a)
  {
    if IsSpace(a[0]) {
      assert (a + b)[1..] == a[1..] + b;
      LeadingSpacesAppend(a[1..], b);
    }
  }

  /** The whitespace run `w + b` starts with is all of `w` when `b` is empty or starts with another character. */
  lemma {:induction false} LeadingSpacesOver(w: string, b: string)
    requires forall i :: 0 <= i < |w| ==> IsSpace(w[i])
    requires b == [] || !IsSpace(b[0])
    ensures LeadingSpaces(w + b) == |w|
  {
    if w == [] {
      assert w + b == b;
    } else {
      assert (w + b)[1..] == w[1..] + b;
      LeadingSpacesOver(w[1..], b);
    }
  }

  /** Rewrite 6 works on each side of a cut made just after a non-whitespace character. */
  lemma {:induction false} CollapseSpacesAppend(a: string, b: string)
    requires a != [] && !IsSpace(a[|a| - 1])
    ensures CollapseSpaces(a + b) == CollapseSpaces(a) + CollapseSpaces(b)
    decreases |a|, 1
  {
    if IsSpace(a[0]) {
      CollapseAppendRun(a, b);
    } else if |a| == 1 {
      assert (a + b)[1..] == b;
      assert CollapseSpaces(a) == [a[0]] + CollapseSpaces([]);
    } else {
      CollapseAppendChar(a, b);
    }
  }

  lemma {:induction false} CollapseAppendRun(a: string, b: string)
    requires a != [] && !IsSpace(a[|a| - 1]) && IsSpace(a[0])
    ensures CollapseSpaces(a + b) == CollapseSpaces(a) + CollapseSpaces(b)
    decreases |a|, 0
  {
    var n := LeadingSpaces(a);
    var x, y := CollapseSpaces(a[n..]), CollapseSpaces(b);
    LeadingSpacesAppend(a, b);
    DropAppend(a, b, n);
    CollapseSpacesAppend(a[n..], b);
    RunStep(a);
    RunStep(a + b);
    AppendAssoc(" ", x, y);
  }

  /** Rewrite 6 on a text that starts with whitespace. */
  lemma RunStep(s: string)
    requires s != [] && IsSpace(s[0])
    ensures CollapseSpaces(s) == " " + CollapseSpaces(s[LeadingSpaces(s)..])
  {
  }

  lemma {:induction false} CollapseAppendChar(a: string, b: string)
    requires |a| > 1 && !IsSpace(a[|a| - 1]) && !IsSpace(a[0])
    ensures CollapseSpaces(a + b) == CollapseSpaces(a) + CollapseSpaces(b)
    decreases |a|, 0
  {
    var x, y := CollapseSpaces(a[1..]), CollapseSpaces(b);
    assert (a + b)[0] == a[0];
    DropAppend(a, b, 1);
    CollapseSpacesAppend(a[1..], b);
    assert CollapseSpaces(a + b) == [a[0]] + (x + y);
    assert CollapseSpaces(a) == [a[0]] + x;
    AppendAssoc([a[0]], x, y);
  }

  /** A whole whitespace run becomes one ' ', and what follows it is collapsed on its own. */
  lemma CollapseRunThen(w: string, b: string)
    requires w != [] && forall i :: 0 <= i < |w| ==> IsSpace(w[i])
    requires b == [] || !IsSpace(b[0])
    ensures CollapseSpaces(w + b) == " " + CollapseSpaces(b)
  {
    LeadingSpacesOver(w, b);
    assert (w + b)[|w|..] == b;
  }

  /**
   * Between two words, a whitespace run of any length and make-up becomes
   * exactly one ' ', and the two sides are collapsed each on its own.
   */
  lemma CollapseBetweenWords(a: string, w: string, b: string)
    requires a != [] && !IsSpace(a[|a| - 1])
    requires w != [] && forall i :: 0 <= i < |w| ==> IsSpace(w[i])
    requires b == [] || !IsSpace(b[0])
    ensures CollapseSpaces(a + (w + b)) == CollapseSpaces(a) + (" " + CollapseSpaces(b))
  {
    CollapseSpacesAppend(a, w + b);
    CollapseRunThen(w, b);
  }

  /** 7. `replace(/^adds /, '')` and its two siblings: drop `p` once if the text starts with it. */
  function StripPrefix(s: string, p: string): (r: string)
    ensures |r| <= |s| && r == s[|s| - |r|..]
    ensures |p| <= |s| && s[..|p|] == p ==> p + r == s
    ensures !(|p| <= |s| && s[..|p|] == p) ==> r == s
  {
    if |p| <= |s| && s[..|p|] == p then s[|p|..] else s
  }

  /** Round trip: stripping `p` from `p + t` gives back `t`. */
  lemma StripPrefixOfPrefixed(p: string, t: string)
    ensures StripPrefix(p + t, p) == t
  {
    assert (p + t)[..|p|] == p;
  }

  /** A text that does not start with `p` is left as it is. */
  lemma StripPrefixMiss(s: string, p: string)
    requires s != [] && p != [] && s[0] != p[0]
    ensures StripPrefix(s, p) == s
  {
    if |p| <= |s| {
      assert s[..|p|][0] != p[0];
    }
  }

  const ImplicitTag := "(implicit)"

  predicate EndsWithImplicitTag(s: string) {
    |s| >= |ImplicitTag| && s[|s| - |ImplicitTag|..] == ImplicitTag
  }

  /**
   * 8. `replace(/\s*\(implicit\)$/, '')`: a trailing "(implicit)" goes together
   * with the whole whitespace run before it; otherwise the text is unchanged.
   */
  function StripImplicitSuffix(s: string): (r: string)
    ensures |r| <= |s| && r == s[..|r|]
    ensures !EndsWithImplicitTag(s) ==> r == s
    ensures EndsWithImplicitTag(s) ==>
      |r| <= |s| - |ImplicitTag| && (r == [] || !IsSpace(r[|r| - 1]))
      && forall i :: |r| <= i < |s| - |ImplicitTag| ==> IsSpace(s[i])
  {
    if EndsWithImplicitTag(s) then
      var body := s[..|s| - |ImplicitTag|];
      body[..|body| - TrailingSpaces(body)]
    else s
  }

  /** 9. `trim()`: the longest part of `s` that neither starts nor ends with whitespace. */
  function Trim(s: string): (r: string)
    ensures r == [] || (!IsSpace(r[0]) && !IsSpace(r[|r| - 1]))
    ensures r == [] <==> forall i :: 0 <= i < |s| ==> IsSpace(s[i])
  {
    var lo := LeadingSpaces(s);
    var rest := s[lo..];
    rest[..|rest| - TrailingSpaces(rest)]
  }

  /**
   * `trim` only cuts whitespace off the two ends: the text is a whitespace
   * run, then the result, then another whitespace run.
   */
  lemma TrimSpec(s: string)
    ensures LeadingSpaces(s) + |Trim(s)| <= |s|
    ensures s == s[..LeadingSpaces(s)] + Trim(s) + s[LeadingSpaces(s) + |Trim(s)|..]
    ensures forall i :: 0 <= i < LeadingSpaces(s) ==> IsSpace(s[i])
    ensures forall i :: LeadingSpaces(s) + |Trim(s)| <= i < |s| ==> IsSpace(s[i])
  {
    var lo := LeadingSpaces(s);
    var hi := |s| - TrailingSpaces(s[lo..]);
    TrimIsSlice(s, lo, hi);
    var r := Trim(s);
    assert lo + |r| == hi;
    TrailingRun(s, lo, hi);
    CutInThree(s, lo, hi);
    assert s == s[..lo] + r + s[hi..];
  }

  lemma TrailingRun(s: string, lo: nat, hi: nat)
    requires lo <= |s| && hi == |s| - TrailingSpaces(s[lo..])
    ensures forall i :: hi <= i < |s| ==> IsSpace(s[i])
  {
    var rest := s[lo..];
    forall i | hi <= i < |s|
      ensures IsSpace(s[i])
    {
      assert s[i] == rest[i - lo];
    }
  }

  lemma TrimIsSlice(s: string, lo: nat, hi: nat)
    requires lo == LeadingSpaces(s) && hi == |s| - TrailingSpaces(s[lo..])
    ensures lo <= hi && Trim(s) == s[lo..hi]
  {
    TrimUnfold(s, s[lo..]);
    TakeOfDrop(s, lo, hi);
  }

  lemma TrimUnfold(s: string, rest: string)
    requires rest == s[LeadingSpaces(s)..]
    ensures Trim(s) == rest[..|rest| - TrailingSpaces(rest)]
  {
  }

  lemma CutInThree(s: string, lo: nat, hi: nat)
    requires lo <= hi <= |s|
    ensures s == s[..lo] + s[lo..hi] + s[hi..]
  {
  }

  /** A text that neither starts nor ends with whitespace is left as it is. */
  lemma TrimKeeps(s: string)
    requires s != [] && !IsSpace(s[0]) && !IsSpace(s[|s| - 1])
    ensures Trim(s) == s
  {
    assert LeadingSpaces(s) == 0;
    assert s[0..] == s;
    assert TrailingSpaces(s) == 0;
  }

  /** Trimming twice is trimming once. */
  lemma TrimIdempotent(s: string)
    ensures Trim(Trim(s)) == Trim(s)
  {
    if Trim(s) != [] {
      TrimKeeps(Trim(s));
    }
  }

  // ---------------------------------------------------------------------------
  // The whole chain
  // ---------------------------------------------------------------------------

  /** Rewrites 1 to 5: lowercase, strip markup, replace every number with '#'. */
  function MaskNumbers(text: string): string {
    CollapseNumbers(DropPipeNotes(DropBrackets(DropPlusBeforeDigit(Lowercase(text)))))
  }

  /** Rewrites 7 to 9, applied to the whitespace-collapsed text. */
  function StripDecorations(s: string): string {
    Trim(StripImplicitSuffix(StripPrefix(StripPrefix(StripPrefix(s, "adds "), "gain "), "you ")))
  }

  /** No two neighbouring spaces. */
  predicate SingleSpaced(s: string) {
    forall i :: 0 <= i < |s| - 1 ==> !(s[i] == ' ' && s[i + 1] == ' ')
  }

  /**
   * No character that the chain removes or replaces: no digit, no ASCII
   * upper-case letter, no bracket, no '|', and no whitespace but ' '.
   */
  predicate CleanChars(s: string) {
    forall i :: 0 <= i < |s| ==>
      !IsDigit(s[i]) && !IsUpper(s[i]) && s[i] != '[' && s[i] != ']' && s[i] != '|'
      && (IsSpace(s[i]) ==> s[i] == ' ')
  }

  /** The shape of every normalised text. */
  predicate Canonical(s: string) {
    CleanChars(s) && SingleSpaced(s) && (s == [] || (s[0] != ' ' && s[|s| - 1] != ' '))
  }

  /** `normalizeStatText`: rewrites 1 to 5, then 6, then 7 to 9. */
  function NormalizeStatText(text: string): string {
    StripDecorations(CollapseSpaces(MaskNumbers(text)))
  }

  /**
   * Every normalised text is canonical: no digit, upper-case ASCII letter,
   * bracket or '|'; whitespace only as single ' ' characters, none at either end.
   */
  lemma NormalizedIsCanonical(text: string)
    ensures Canonical(NormalizeStatText(text))
  {
    MaskedIsClean(text);
    CollapseSpacesSpec(MaskNumbers(text));
    StripKeepsShape(CollapseSpaces(MaskNumbers(text)));
  }

  /** Rewrites 1 to 5 leave no digit, upper-case letter, bracket or '|'. */
  lemma MaskedIsClean(text: string)
    ensures forall i :: 0 <= i < |MaskNumbers(text)| ==>
      var c := MaskNumbers(text)[i];
      !IsDigit(c) && !IsUpper(c) && c != '[' && c != ']' && c != '|'
  {
    var s1 := Lowercase(text);
    var s2 := DropPlusBeforeDigit(s1);
    var s3 := DropBrackets(s2);
    var s4 := DropPipeNotes(s3);
    var s5 := CollapseNumbers(s4);
    LowercaseEach(text);
    DropPlusOnlyDropsPlus(s1);
    DropBracketsKeepsTheRest(s2);
    DropPipeNotesChars(s3);
    CollapseNumbersChars(s4);
    assert forall i :: 0 <= i < |s1| ==> !IsUpper(s1[i]);
    assert forall c :: c in s2 ==> !IsUpper(c);
    assert forall c :: c in s3 ==> !IsUpper(c) && c != '[' && c != ']';
    assert forall i :: 0 <= i < |s4| ==> s4[i] in s3;
  }

  /** Rewrites 7 to 9 take the collapsed text apart only at its ends, so its shape survives. */
  lemma StripKeepsShape(s: string)
    requires CleanChars(s) && SingleSpaced(s)
    ensures Canonical(StripDecorations(s))
  {
    var s7 := StripPrefix(StripPrefix(StripPrefix(s, "adds "), "gain "), "you ");
    PrefixesKeepShape(s);
    UntagKeepsShape(s7);
    TrimKeepsShape(StripImplicitSuffix(s7));
  }

  lemma PrefixesKeepShape(s: string)
    requires CleanChars(s) && SingleSpaced(s)
    ensures var s7 := StripPrefix(StripPrefix(StripPrefix(s, "adds "), "gain "), "you ");
      CleanChars(s7) && SingleSpaced(s7)
  {
    StripPrefixKeepsShape(s, "adds ");
    StripPrefixKeepsShape(StripPrefix(s, "adds "), "gain ");
    StripPrefixKeepsShape(StripPrefix(StripPrefix(s, "adds "), "gain "), "you ");
  }

  /** What is left after a prefix is stripped is a suffix, so it keeps the shape. */
  lemma StripPrefixKeepsShape(s: string, p: string)
    requires CleanChars(s) && SingleSpaced(s)
    ensures CleanChars(StripPrefix(s, p)) && SingleSpaced(StripPrefix(s, p))
  {
    SliceKeepsShape(s, |s| - |StripPrefix(s, p)|, |s|);
  }

  lemma UntagKeepsShape(s: string)
    requires CleanChars(s) && SingleSpaced(s)
    ensures CleanChars(StripImplicitSuffix(s)) && SingleSpaced(StripImplicitSuffix(s))
  {
    SliceKeepsShape(s, 0, |StripImplicitSuffix(s)|);
  }

  lemma TrimKeepsShape(s: string)
    requires CleanChars(s) && SingleSpaced(s)
    ensures Canonical(Trim(s))
  {
    var lo := LeadingSpaces(s);
    var rest := s[lo..];
    SliceKeepsShape(s, lo, |s|);
    SliceKeepsShape(rest, 0, |rest| - TrailingSpaces(rest));
  }

  lemma SliceKeepsShape(s: string, lo: nat, hi: nat)
    requires lo <= hi <= |s|
    requires CleanChars(s) && SingleSpaced(s)
    ensures CleanChars(s[lo..hi]) && SingleSpaced(s[lo..hi])
  {
    var t := s[lo..hi];
    assert forall i :: 0 <= i < |t| ==> t[i] == s[lo + i];
  }
}
