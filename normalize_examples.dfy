module StatTextExamples {
  import opened Chars
  import opened NumberLiteral
  import opened StatText
  import opened StatTextFacts

  // Texts with capital letters are written as concatenations such as
  // "F" + "ire ", with each capital as a one-character literal of its own, so
  // that `LowercaseAppend` can split the capital from the lower-case rest and
  // `LowercaseFixed` can treat the rest as unchanged.

  // ----- generic steps used by the examples -----

  lemma AfterMask(text: string, m: string)
    requires MaskNumbers(text) == m
    requires SingleSpaced(m)
    requires forall i :: 0 <= i < |m| ==> IsSpace(m[i]) ==> m[i] == ' '
    ensures NormalizeStatText(text) == StripDecorations(m)
  {
    CollapseSpacesFixed(m);
  }

  lemma StripDecorationsKeeps(s: string)
    requires s != [] && !IsSpace(s[0]) && !IsSpace(s[|s| - 1])
    requires s[0] != 'a' && s[0] != 'g' && s[0] != 'y'
    requires !EndsWithImplicitTag(s)
    ensures StripDecorations(s) == s
  {
    StripPrefixMiss(s, "adds ");
    StripPrefixMiss(s, "gain ");
    StripPrefixMiss(s, "you ");
    TrimKeeps(s);
  }

  // ----- "+12% increased Fire Damage" -----

  lemma SpellTwelve()
    ensures "+12% increased Fire Damage" == Spelling(Literal(Plus, "12", false, "")) + ("% increased " + ("F" + "ire " + ("D" + "amage")))
  {
  }

  lemma Capital(c: char, s: string)
    requires IsUpper(c) && forall i :: 0 <= i < |s| ==> !IsUpper(s[i])
    ensures Lowercase([c] + s) == [LowerChar(c)] + s
  {
    assert ([c] + s)[1..] == s;
    LowercaseFixed(s);
  }

  lemma LowerFireDamage()
    ensures Lowercase(("F" + "ire " + ("D" + "amage"))) == ("f" + "ire " + ("d" + "amage"))
  {
    Capital('F', "ire ");
    Capital('D', "amage");
    LowercaseAppend("F" + "ire ", "D" + "amage");
    assert LowerChar('F') == 'f' && LowerChar('D') == 'd';
  }

  lemma LowerIncreased()
    ensures Lowercase("% increased ") == "% increased "
  {
    LowercaseFixed("% increased ");
  }

  lemma LowerIncreasedFire()
    ensures Lowercase("% increased " + ("F" + "ire " + ("D" + "amage"))) == "% increased " + ("f" + "ire " + ("d" + "amage"))
  {
    LowercaseAppend("% increased ", ("F" + "ire " + ("D" + "amage")));
    LowerIncreased();
    LowerFireDamage();
  }

  lemma PlainAppend(a: string, b: string)
    requires PlainText(a) && PlainText(b)
    ensures PlainText(a + b)
  {
    assert forall i :: 0 <= i < |a + b| ==> (a + b)[i] == if i < |a| then a[i] else b[i - |a|];
  }

  lemma MaskIncreasedFire()
    ensures MaskNumbers("% increased " + ("F" + "ire " + ("D" + "amage"))) == "% increased " + ("f" + "ire " + ("d" + "amage"))
  {
    assert PlainText("% increased ");
    assert PlainText(("F" + "ire " + ("D" + "amage")));
    PlainAppend("% increased ", ("F" + "ire " + ("D" + "amage")));
    MaskPlainText("% increased " + ("F" + "ire " + ("D" + "amage")));
    LowerIncreasedFire();
  }

  lemma MaskLeadingNumber(s: string, lit: Literal, t: string, mt: string)
    requires WellFormed(lit) && s == Spelling(lit) + t
    requires t == [] || NumberStop(t[0])
    requires MaskNumbers(t) == mt
    ensures MaskNumbers(s) == "#" + mt
  {
    MaskNumberWord([], lit, t);
    EmptyFirst(Spelling(lit), t);
    MaskEmpty();
    EmptyFirst("#", mt);
  }

  lemma EmptyFirst(a: string, b: string)
    ensures [] + a + b == a + b
  {
  }

  lemma MaskEmpty()
    ensures MaskNumbers([]) == []
  {
  }

  lemma MaskTwelve()
    ensures MaskNumbers("+12% increased Fire Damage") == "#" + ("% increased " + ("f" + "ire " + ("d" + "amage")))
  {
    SpellTwelve();
    MaskIncreasedFire();
    MaskLeadingNumber("+12% increased Fire Damage", Literal(Plus, "12", false, ""), "% increased " + ("F" + "ire " + ("D" + "amage")), "% increased " + ("f" + "ire " + ("d" + "amage")));
  }

  lemma JoinFire()
    ensures "#" + ("% increased " + ("f" + "ire " + ("d" + "amage"))) == "#% increased fire damage"
  {
  }

  lemma TidyFire()
    ensures SingleSpaced("#% increased fire damage")
    ensures forall i :: 0 <= i < |"#% increased fire damage"| ==> IsSpace("#% increased fire damage"[i]) ==> "#% increased fire damage"[i] == ' '
  {
  }

  lemma NormalizeVia(text: string, m: string, r: string)
    requires MaskNumbers(text) == m
    requires SingleSpaced(m)
    requires forall i :: 0 <= i < |m| ==> IsSpace(m[i]) ==> m[i] == ' '
    requires StripDecorations(m) == r
    ensures NormalizeStatText(text) == r
  {
    AfterMask(text, m);
  }

  lemma MaskFire()
    ensures MaskNumbers("+12% increased Fire Damage") == "#% increased fire damage"
  {
    MaskTwelve();
    JoinFire();
  }

  lemma KeepFire()
    ensures StripDecorations("#% increased fire damage") == "#% increased fire damage"
  {
    StripDecorationsKeeps("#% increased fire damage");
  }

  lemma FireDamage()
    ensures NormalizeStatText("+12% increased Fire Damage") == "#% increased fire damage"
  {
    MaskFire();
    KeepFire();
    TidyFire();
    NormalizeVia("+12% increased Fire Damage", "#% increased fire damage", "#% increased fire damage");
  }

  // ----- the prefixes are stripped once each, so normalising twice can differ -----

  lemma MaskLowerPlain(s: string)
    requires PlainText(s)
    requires forall i :: 0 <= i < |s| ==> !IsUpper(s[i])
    ensures MaskNumbers(s) == s
  {
    MaskPlainText(s);
    LowercaseEach(s);
  }

  lemma MaskAddsAddsX()
    ensures MaskNumbers("adds adds x") == "adds adds x"
  {
    MaskLowerPlain("adds adds x");
  }

  lemma StripAddsAddsX()
    ensures StripDecorations("adds adds x") == "adds x"
  {
    assert "adds adds x" == "adds " + "adds x";
    StripPrefixOfPrefixed("adds ", "adds x");
    StripPrefixMiss("adds x", "gain ");
    StripPrefixMiss("adds x", "you ");
    TrimKeeps("adds x");
  }

  lemma TidyAddsAddsX()
    ensures SingleSpaced("adds adds x")
    ensures forall i :: 0 <= i < |"adds adds x"| ==> IsSpace("adds adds x"[i]) ==> "adds adds x"[i] == ' '
  {
  }

  lemma AddsAddsX()
    ensures NormalizeStatText("adds adds x") == "adds x"
  {
    MaskAddsAddsX();
    TidyAddsAddsX();
    StripAddsAddsX();
    NormalizeVia("adds adds x", "adds adds x", "adds x");
  }

  lemma MaskAddsX()
    ensures MaskNumbers("adds x") == "adds x"
  {
    MaskLowerPlain("adds x");
  }

  lemma TidyAddsX()
    ensures SingleSpaced("adds x")
    ensures forall i :: 0 <= i < |"adds x"| ==> IsSpace("adds x"[i]) ==> "adds x"[i] == ' '
  {
  }

  lemma StripAddsX()
    ensures StripDecorations("adds x") == "x"
  {
    assert "adds x" == "adds " + "x";
    StripPrefixOfPrefixed("adds ", "x");
    StripPrefixMiss("x", "gain ");
    StripPrefixMiss("x", "you ");
    TrimKeeps("x");
  }

  lemma AddsX()
    ensures NormalizeStatText("adds x") == "x"
  {
    MaskAddsX();
    TidyAddsX();
    StripAddsX();
    NormalizeVia("adds x", "adds x", "x");
  }

  /** Normalising a normalised text can change it again. */
  lemma NotIdempotent()
    ensures NormalizeStatText(NormalizeStatText("adds adds x")) != NormalizeStatText("adds adds x")
  {
    AddsAddsX();
    AddsX();
  }

  // ----- "+15 to Strength (implicit)" against the catalog's "+# to Strength" -----

  lemma ImplicitTagged(w: string)
    requires w != [] && !IsSpace(w[|w| - 1])
    ensures StripImplicitSuffix(w + " " + ImplicitTag) == w
  {
    var s := w + " " + ImplicitTag;
    assert s[|s| - |ImplicitTag|..] == ImplicitTag;
    var body := s[..|s| - |ImplicitTag|];
    assert body == w + " ";
    assert body[..|body| - 1] == w;
    assert TrailingSpaces(body) == 1;
  }

  lemma SpellFifteen()
    ensures "+15 to Strength (implicit)" == Spelling(Literal(Plus, "15", false, "")) + ((" to " + ("S" + "trength")) + " (implicit)")
  {
  }

  lemma LowerStrength()
    ensures Lowercase((" to " + ("S" + "trength"))) == (" to " + ("s" + "trength"))
  {
    Capital('S', "trength");
    LowercaseAppend(" to ", "S" + "trength");
    LowercaseFixed(" to ");
    assert LowerChar('S') == 's';
  }

  lemma LowerToStrength()
    ensures Lowercase((" to " + ("S" + "trength")) + " (implicit)") == (" to " + ("s" + "trength")) + " (implicit)"
  {
    LowercaseAppend((" to " + ("S" + "trength")), " (implicit)");
    LowerStrength();
    LowerTag();
  }

  lemma LowerTag()
    ensures Lowercase(" (implicit)") == " (implicit)"
  {
    LowercaseFixed(" (implicit)");
  }

  lemma MaskToStrength()
    ensures MaskNumbers((" to " + ("S" + "trength")) + " (implicit)") == (" to " + ("s" + "trength")) + " (implicit)"
  {
    assert PlainText((" to " + ("S" + "trength")));
    assert PlainText(" (implicit)");
    PlainAppend((" to " + ("S" + "trength")), " (implicit)");
    MaskPlainText((" to " + ("S" + "trength")) + " (implicit)");
    LowerToStrength();
  }

  lemma MaskFifteen()
    ensures MaskNumbers("+15 to Strength (implicit)") == "#" + ((" to " + ("s" + "trength")) + " (implicit)")
  {
    SpellFifteen();
    MaskToStrength();
    MaskLeadingNumber("+15 to Strength (implicit)", Literal(Plus, "15", false, ""), (" to " + ("S" + "trength")) + " (implicit)", (" to " + ("s" + "trength")) + " (implicit)");
  }

  lemma JoinStrength()
    ensures "#" + ((" to " + ("s" + "trength")) + " (implicit)") == "# to strength (implicit)"
    ensures "# to strength (implicit)" == "# to strength" + " " + ImplicitTag
  {
  }

  lemma TidyStrength()
    ensures SingleSpaced("# to strength (implicit)")
    ensures forall i :: 0 <= i < |"# to strength (implicit)"| ==> IsSpace("# to strength (implicit)"[i]) ==> "# to strength (implicit)"[i] == ' '
  {
  }

  lemma StripHashPrefixes(s: string)
    requires s != [] && s[0] == '#'
    ensures StripPrefix(StripPrefix(StripPrefix(s, "adds "), "gain "), "you ") == s
  {
    StripPrefixMiss(s, "adds ");
    StripPrefixMiss(s, "gain ");
    StripPrefixMiss(s, "you ");
  }

  lemma UntagStrength()
    ensures StripImplicitSuffix("# to strength (implicit)") == "# to strength"
  {
    JoinStrength();
    ImplicitTagged("# to strength");
  }

  lemma StripStrength()
    ensures StripDecorations("# to strength (implicit)") == "# to strength"
  {
    StripHashPrefixes("# to strength (implicit)");
    UntagStrength();
    TrimKeeps("# to strength");
  }

  lemma ImplicitStrength()
    ensures NormalizeStatText("+15 to Strength (implicit)") == "# to strength"
  {
    MaskFifteen();
    JoinStrength();
    TidyStrength();
    StripStrength();
    NormalizeVia("+15 to Strength (implicit)", "# to strength (implicit)", "# to strength");
  }

  /** A '+' before the catalog's '#' placeholder is not before a digit, so it stays. */
  lemma MaskPlusHash(t: string)
    requires PlainText(t) && t != [] && t[0] == '#'
    ensures MaskNumbers("+" + t) == "+" + Lowercase(t)
  {
    var lt := Lowercase(t);
    LowercaseAppend("+", t);
    LowercaseEach("+");
    LowercaseEach(t);
    var s1 := "+" + lt;
    assert Lowercase("+" + t) == s1;
    assert s1[1..] == lt;
    DropPlusFixed(lt);
    assert DropPlusBeforeDigit(s1) == s1;
    assert forall i :: 0 <= i < |s1| ==> s1[i] != '[' && s1[i] != ']' && s1[i] != '|' && !IsDigit(s1[i]) by {
      assert forall i :: 1 <= i < |s1| ==> s1[i] == lt[i - 1];
    }
    DropBracketsFixed(s1);
    DropPipeNotesFixed(s1);
    CollapseNumbersFixed(s1);
  }

  lemma SpellHashStrength()
    ensures "+# to Strength" == "+" + ("#" + (" to " + ("S" + "trength")))
  {
  }

  lemma LowerHashStrength()
    ensures Lowercase("#" + (" to " + ("S" + "trength"))) == "#" + (" to " + ("s" + "trength"))
  {
    LowercaseAppend("#", (" to " + ("S" + "trength")));
    LowercaseFixed("#");
    LowerStrength();
  }

  lemma MaskHashStrength()
    ensures MaskNumbers("+# to Strength") == "+" + ("#" + (" to " + ("s" + "trength")))
  {
    SpellHashStrength();
    assert PlainText("#" + (" to " + ("S" + "trength")));
    MaskPlusHash("#" + (" to " + ("S" + "trength")));
    LowerHashStrength();
  }

  lemma JoinHashStrength()
    ensures "+" + ("#" + (" to " + ("s" + "trength"))) == "+# to strength"
  {
  }

  lemma TidyHashStrength()
    ensures SingleSpaced("+# to strength")
    ensures forall i :: 0 <= i < |"+# to strength"| ==> IsSpace("+# to strength"[i]) ==> "+# to strength"[i] == ' '
  {
  }

  lemma KeepHashStrength()
    ensures StripDecorations("+# to strength") == "+# to strength"
  {
    StripDecorationsKeeps("+# to strength");
  }

  lemma HashStrength()
    ensures NormalizeStatText("+# to Strength") == "+# to strength"
  {
    MaskHashStrength();
    JoinHashStrength();
    TidyHashStrength();
    KeepHashStrength();
    NormalizeVia("+# to Strength", "+# to strength", "+# to strength");
  }

  /**
   * The in-game line and the catalog text of the same stat do not normalise
   * to the same text: the exact pass cannot pair them.
   */
  lemma ImplicitStrengthMissesCatalogText()
    ensures NormalizeStatText("+15 to Strength (implicit)") != NormalizeStatText("+# to Strength")
  {
    ImplicitStrength();
    HashStrength();
  }

  // ----- the catalog text "#% increased Fire Damage" -----

  lemma SpellHashFire()
    ensures "#% increased Fire Damage" == "#" + ("% increased " + ("F" + "ire " + ("D" + "amage")))
  {
  }

  lemma MaskHashFire()
    ensures MaskNumbers("#" + ("% increased " + ("F" + "ire " + ("D" + "amage")))) == "#" + ("% increased " + ("f" + "ire " + ("d" + "amage")))
  {
    var t := "% increased " + ("F" + "ire " + ("D" + "amage"));
    assert PlainText("% increased ");
    assert PlainText(("F" + "ire " + ("D" + "amage")));
    PlainAppend("% increased ", ("F" + "ire " + ("D" + "amage")));
    assert PlainText("#");
    PlainAppend("#", t);
    MaskPlainText("#" + t);
    LowercaseAppend("#", t);
    LowercaseFixed("#");
    LowerIncreasedFire();
  }

  /** The catalog's own text for the stat of `FireDamage` normalises to the same text. */
  lemma HashFire()
    ensures NormalizeStatText("#% increased Fire Damage") == "#% increased fire damage"
  {
    SpellHashFire();
    MaskHashFire();
    JoinFire();
    TidyFire();
    KeepFire();
    NormalizeVia("#% increased Fire Damage", "#% increased fire damage", "#% increased fire damage");
  }
}
