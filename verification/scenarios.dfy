/**
 Worked examples on concrete inputs: footer lines and the placement of the
 dot in an address.
 */
module Scenarios {
  import opened Email
  import opened Copyright
  import opened Decimal

  /** A footer written in 2023 shows the current year after the rewrite. */
  lemma FooterRewritten(year: int)
    ensures ReplaceFirstYear("\U{00A9} 2023 Kai", year) == "\U{00A9} " + YearString(year) + " Kai"
  {
    var t := "\U{00A9} 2023 Kai";
    assert !IsDigit(t[0]) && !IsDigit(t[1]);
    assert FindYear(t) == Some(2);
    assert t[0] == CopyrightSign;
    assert t[..2] == "\U{00A9} " && t[6..] == " Kai";
  }

  /** Only the first four digits of a longer run are replaced. */
  lemma LongRunPartlyRewritten(year: int)
    ensures ReplaceFirstYear("\U{00A9} 12345", year) == "\U{00A9} " + YearString(year) + "5"
  {
    var t := "\U{00A9} 12345";
    assert !IsDigit(t[0]) && !IsDigit(t[1]);
    assert FindYear(t) == Some(2);
    assert t[0] == CopyrightSign;
    assert t[..2] == "\U{00A9} " && t[6..] == "5";
  }

  /** The year 2026 is written as the four characters "2026". */
  lemma Year2026()
    ensures YearString(2026) == "2026"
  {
    assert NatString(20) == "20";
    assert NatString(202) == "202";
    assert NatString(2026) == "2026";
  }

  /** The year 0 is written as the single digit "0". */
  lemma YearZero()
    ensures YearString(0) == "0"
  {
  }

  /** A dot right after the `@` does not count as the inner dot. */
  lemma DotAfterAt()
    ensures !IsEmail("a@.b") && IsEmail("a@.b.c")
  {
    assert "a@.b.c"[2..] == ".b.c" && ".b.c"[2] == '.';
    assert "a@.b.c"[..1] == "a";
  }
}
