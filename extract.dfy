/**
 * `extractValue`: the number a stat line carries. The global match of
 * `[+-]?\d+\.?\d*` on the raw line is taken; its first match is the leftmost
 * position where the literal starts, read greedily, and `parseFloat` turns it
 * into a number. A line without any match gives 0.
 */
module ValueExtractor {
  import opened Chars
  import opened Optional
  import opened NumberLiteral

  /** A literal found at position `at` of the text. */
  datatype Match = Match(at: nat, lit: Literal)

  /** The leftmost match at or after position `from`. */
  function FirstMatch(s: string, from: nat): (r: Option<Match>)
    requires from <= |s|
    ensures r.Some? ==>
      from <= r.value.at < |s| && ScanLiteral(s[r.value.at..]) == Some(r.value.lit)
      && forall q :: from <= q < r.value.at ==> !StartsLiteral(s[q..])
    ensures r.None? ==> forall q :: from <= q < |s| ==> !StartsLiteral(s[q..])
    decreases |s| - from
  {
    if from == |s| then None
    else
      match ScanLiteral(s[from..])
      case Some(lit) => Some(Match(from, lit))
      case None => FirstMatch(s, from + 1)
  }

  /** `extractValue`: the value of the first match, or 0 when there is none. */
  function ExtractValue(s: string): (v: real)
    ensures (forall i :: 0 <= i < |s| ==> !IsDigit(s[i])) ==> v == 0.0
  {
    MatchIffDigit(s);
    match FirstMatch(s, 0)
    case None => 0.0
    case Some(m) =>
      ScanLiteralMatch(s[m.at..]);
      Value(m.lit)
  }

  /** A match exists exactly when the text has a digit: a digit always starts one. */
  lemma MatchIffDigit(s: string)
    ensures FirstMatch(s, 0).Some? <==> exists i :: 0 <= i < |s| && IsDigit(s[i])
  {
    var r := FirstMatch(s, 0);
    if r.Some? {
      var at := r.value.at;
      assert StartsLiteral(s[at..]);
      if IsDigit(s[at]) {
        assert IsDigit(s[at]);
      } else {
        assert s[at..][1] == s[at + 1];
      }
    } else {
      forall i | 0 <= i < |s|
        ensures !IsDigit(s[i])
      {
        assert !StartsLiteral(s[i..]);
        assert s[i..][0] == s[i];
      }
    }
  }

  /** Text before the number that can neither hold a match nor lend it a sign. */
  predicate Unnumbered(p: string) {
    (forall i :: 0 <= i < |p| ==> !IsDigit(p[i])) && (p == [] || !IsSign(p[|p| - 1]))
  }

  /**
   * The value is the first number of the line: text `p` without digits, then
   * the literal `lit` read to its greedy end, then anything.
   */
  lemma LeadingNumber(p: string, lit: Literal, t: string)
    requires Unnumbered(p)
    requires WellFormed(lit) && StopsBefore(lit, t)
    ensures ExtractValue(p + Spelling(lit) + t) == Value(lit)
  {
    LeadingMatch(p, lit, t);
  }

  /** The first match of such a line is `lit`, right after `p`. */
  lemma LeadingMatch(p: string, lit: Literal, t: string)
    requires Unnumbered(p)
    requires WellFormed(lit) && StopsBefore(lit, t)
    ensures FirstMatch(p + Spelling(lit) + t, 0) == Some(Match(|p|, lit))
  {
    SkipUnnumbered(p, lit, t, 0);
  }

  /** Scanning from inside `p`, no position of `p` starts a match, and `lit` is found right after it. */
  lemma {:induction false} SkipUnnumbered(p: string, lit: Literal, t: string, from: nat)
    requires Unnumbered(p)
    requires WellFormed(lit) && StopsBefore(lit, t)
    requires from <= |p|
    ensures FirstMatch(p + Spelling(lit) + t, from) == Some(Match(|p|, lit))
    decreases |p| - from
  {
    var s := p + Spelling(lit) + t;
    if from < |p| {
      assert !StartsLiteral(s[from..]) by {
        assert s[from..][0] == p[from];
        if from + 1 < |p| {
          assert s[from..][1] == p[from + 1];
        }
      }
      SkipUnnumbered(p, lit, t, from + 1);
    } else {
      assert s[from..] == Spelling(lit) + t;
      ScanSpelling(lit, t);
    }
  }
}
