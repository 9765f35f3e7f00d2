/**
 * Worked lines for rewrite 5: whatever number a stat line rolled, and
 * whatever its sign, the normalised text carries '#' in its place.
 */
module NumberExamples {
  import opened Chars
  import opened NumberLiteral
  import opened StatText
  import opened StatTextFacts
  import opened StatTextExamples

  // Texts with capital letters are written as concatenations such as
  // "F" + "ire " or "A" + "dds ", with each capital as a one-character
  // literal of its own, so that `LowercaseAppend` can split the capital from
  // the lower-case rest and `LowercaseFixed` can treat the rest as unchanged.

  // ----- "+45% increased Fire Damage" normalises like "+12% increased Fire Damage" -----

  lemma SpellFortyFive()
    ensures "+45% increased Fire Damage" == Spelling(Literal(Plus, "45", false, "")) + ("% increased " + ("F" + "ire " + ("D" + "amage")))
  {
  }

  /** Two rolls of the same stat meet at the same normalised text. */
  lemma FortyFiveFire()
    ensures NormalizeStatText("+45% increased Fire Damage") == NormalizeStatText("+12% increased Fire Damage")
    ensures NormalizeStatText("+45% increased Fire Damage") == "#% increased fire damage"
  {
    var t := "% increased " + ("F" + "ire " + ("D" + "amage"));
    var twelve, fortyFive := Literal(Plus, "12", false, ""), Literal(Plus, "45", false, "");
    SpellTwelve();
    SpellFortyFive();
    EmptyFirst(Spelling(twelve), t);
    EmptyFirst(Spelling(fortyFive), t);
    NumeralInvariance([], fortyFive, twelve, t);
    FireDamage();
  }

  // ----- "-5% x": the minus sign goes into the '#' -----

  lemma SpellMinusFive()
    ensures "-5% x" == Spelling(Literal(Minus, "5", false, "")) + ("%" + " x")
  {
  }

  lemma MaskMinusFiveParts()
    ensures MaskNumbers("-5% x") == "#" + ("%" + " x")
  {
    SpellMinusFive();
    MaskLowerPlain("%" + " x");
    MaskLeadingNumber("-5% x", Literal(Minus, "5", false, ""), "%" + " x", "%" + " x");
  }

  lemma JoinMinusFive()
    ensures "#" + ("%" + " x") == "#% x"
  {
  }

  lemma MaskMinusFive()
    ensures MaskNumbers("-5% x") == "#% x"
  {
    MaskMinusFiveParts();
    JoinMinusFive();
  }

  lemma TidyMinusFive()
    ensures SingleSpaced("#% x")
    ensures forall i :: 0 <= i < |"#% x"| ==> IsSpace("#% x"[i]) ==> "#% x"[i] == ' '
  {
  }

  lemma MinusFive()
    ensures NormalizeStatText("-5% x") == "#% x"
  {
    MaskMinusFive();
    StripDecorationsKeeps("#% x");
    TidyMinusFive();
    NormalizeVia("-5% x", "#% x", "#% x");
  }

  // ----- "Adds 5 to 10 Fire Damage": two numbers, and the "adds " prefix -----

  lemma SpellAddsFive()
    ensures "Adds 5 to 10 Fire Damage"
         == ("A" + "dds ") + Spelling(Literal(Unsigned, "5", false, ""))
          + ((" " + "to ") + Spelling(Literal(Unsigned, "10", false, "")) + (" " + ("F" + "ire " + ("D" + "amage"))))
  {
  }

  lemma MaskAdds()
    ensures MaskNumbers("A" + "dds ") == "a" + "dds "
  {
    assert PlainText("A" + "dds ");
    MaskPlainText("A" + "dds ");
    Capital('A', "dds ");
    assert LowerChar('A') == 'a';
  }

  lemma MaskSpaceFire()
    ensures MaskNumbers(" " + ("F" + "ire " + ("D" + "amage"))) == " " + ("f" + "ire " + ("d" + "amage"))
  {
    var t := "F" + "ire " + ("D" + "amage");
    assert PlainText(t);
    PlainAppend(" ", t);
    MaskPlainText(" " + t);
    LowercaseAppend(" ", t);
    LowercaseFixed(" ");
    LowerFireDamage();
  }

  lemma MaskTo()
    ensures MaskNumbers(" " + "to ") == " " + "to "
  {
    MaskLowerPlain(" " + "to ");
  }

  lemma MaskToTen()
    ensures MaskNumbers((" " + "to ") + Spelling(Literal(Unsigned, "10", false, "")) + (" " + ("F" + "ire " + ("D" + "amage"))))
         == (" " + "to ") + "#" + (" " + ("f" + "ire " + ("d" + "amage")))
  {
    MaskNumberWord(" " + "to ", Literal(Unsigned, "10", false, ""), " " + ("F" + "ire " + ("D" + "amage")));
    MaskTo();
    MaskSpaceFire();
  }

  lemma MaskAddsFiveParts()
    ensures MaskNumbers("Adds 5 to 10 Fire Damage")
         == ("a" + "dds ") + "#" + ((" " + "to ") + "#" + (" " + ("f" + "ire " + ("d" + "amage"))))
  {
    SpellAddsFive();
    MaskNumberWord("A" + "dds ", Literal(Unsigned, "5", false, ""),
      (" " + "to ") + Spelling(Literal(Unsigned, "10", false, "")) + (" " + ("F" + "ire " + ("D" + "amage"))));
    MaskAdds();
    MaskToTen();
  }

  lemma JoinAddsFive()
    ensures ("a" + "dds ") + "#" + ((" " + "to ") + "#" + (" " + ("f" + "ire " + ("d" + "amage")))) == "adds " + "# to # fire damage"
  {
  }

  lemma MaskAddsFive()
    ensures MaskNumbers("Adds 5 to 10 Fire Damage") == "adds " + "# to # fire damage"
  {
    MaskAddsFiveParts();
    JoinAddsFive();
  }

  /** "adds " is stripped from a text that goes on with '#' and does not end in the implicit tag. */
  lemma StripAddsHash(r: string)
    requires r != [] && r[0] == '#' && !IsSpace(r[|r| - 1])
    requires !EndsWithImplicitTag(r)
    ensures StripDecorations("adds " + r) == r
  {
    StripPrefixOfPrefixed("adds ", r);
    StripHashPrefixes(r);
    TrimKeeps(r);
  }

  lemma TidyAddsFive()
    ensures SingleSpaced("adds " + "# to # fire damage")
    ensures forall i :: 0 <= i < |"adds " + "# to # fire damage"| ==> IsSpace(("adds " + "# to # fire damage")[i]) ==> ("adds " + "# to # fire damage")[i] == ' '
  {
    var m := "adds " + "# to # fire damage";
    assert m == "adds # to # fire damage";
  }

  /** Both numbers become '#', and the leading "adds " goes. */
  lemma AddsFiveToTenText()
    ensures NormalizeStatText("Adds 5 to 10 Fire Damage") == "# to # fire damage"
  {
    MaskAddsFive();
    TidyAddsFive();
    StripAddsHash("# to # fire damage");
    NormalizeVia("Adds 5 to 10 Fire Damage", "adds " + "# to # fire damage", "# to # fire damage");
  }
}
