/** `extractValue` on sample stat lines. */
module ValueExamples {
  import Chars
  import opened NumberLiteral
  import opened ValueExtractor

  lemma ThirtyPercent()
    ensures ExtractValue("+30% increased Physical Damage") == 30.0
  {
    var lit := Literal(Plus, "30", false, "");
    ThirtySpelled();
    LeadingNumber([], lit, "% increased Physical Damage");
    ThirtyValue();
  }

  lemma ThirtySpelled()
    ensures "+30% increased Physical Damage" == [] + Spelling(Literal(Plus, "30", false, "")) + "% increased Physical Damage"
  {
  }

  lemma ThirtyValue()
    ensures Value(Literal(Plus, "30", false, "")) == 30.0
  {
    assert WholeValue("30") == 30;
  }

  /** The first of two numbers is taken. */
  lemma AddsFiveToTen()
    ensures ExtractValue("Adds 5 to 10 Fire Damage") == 5.0
  {
    var lit := Literal(Unsigned, "5", false, "");
    FiveSpelled();
    LeadingNumber("Adds ", lit, " to 10 Fire Damage");
    assert WholeValue("5") == 5;
  }

  lemma FiveSpelled()
    ensures "Adds 5 to 10 Fire Damage" == "Adds " + Spelling(Literal(Unsigned, "5", false, "")) + " to 10 Fire Damage"
  {
  }

  /** A minus sign right before the digits belongs to the number, even inside a word. */
  lemma MinusAfterLetter()
    ensures ExtractValue("a-5") == -5.0
  {
    var lit := Literal(Minus, "5", false, "");
    assert "a-5" == "a" + Spelling(lit) + "";
    LeadingNumber("a", lit, "");
    assert WholeValue("5") == 5;
  }

  /** The literal takes one decimal point and stops at the second. */
  lemma TwoPoints()
    ensures ExtractValue("1.2.3") == 1.2
  {
    var lit := Literal(Unsigned, "1", true, "2");
    assert "1.2.3" == [] + Spelling(lit) + ".3";
    LeadingNumber([], lit, ".3");
    assert WholeValue("1") == 1;
    assert FractionValue("2") == 0.2;
  }

  /** No digit, no number. */
  lemma NoNumber()
    ensures ExtractValue("Grants a random Skill") == 0.0
  {
    assert forall i :: 0 <= i < |"Grants a random Skill"| ==> !Chars.IsDigit("Grants a random Skill"[i]);
  }
}
