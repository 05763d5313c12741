/** The values the repository's tests pin down, checked against the model.
    The long naming tests are checked at the level of the groups human()
    writes (the count and the unit of each group, in order), a short span
    character for character, and the rounding tests value for value. */
module DurationCases {
  import opened Text
  import opened Duration

  // Each test's groups, defined once. The units are spelled as their
  // nanosecond values (31536000000000000 is Year, 1 is Nanosecond) because
  // the verifier evaluates sums and comparisons over literal numbers but
  // not over named constants.

  /** The groups of "253 years 35 weeks 2 days 14 hours 13 minutes 19
      seconds 999 milliseconds 999999 nanoseconds". */
  const SevenTerms: seq<Term> := [Term(253, 31536000000000000), Term(35, 604800000000000), Term(2, 86400000000000), Term(14, 3600000000000), Term(13, 60000000000), Term(19, 1000000000), Term(999, 1000000), Term(999999, 1)]

  /** The groups of "285 years 20 weeks 1 day 15 hours 59 minutes 59
      seconds 999 milliseconds 999999 nanoseconds". */
  const EightTerms: seq<Term> := [Term(285, 31536000000000000), Term(20, 604800000000000), Term(1, 86400000000000), Term(15, 3600000000000), Term(59, 60000000000), Term(59, 1000000000), Term(999, 1000000), Term(999999, 1)]

  /** The groups of "31 years 37 weeks 1 hour 46 minutes 39 seconds 999
      milliseconds 999999 nanoseconds", before " ago". */
  const PastTerms: seq<Term> := [Term(31, 31536000000000000), Term(37, 604800000000000), Term(1, 3600000000000), Term(46, 60000000000), Term(39, 1000000000), Term(999, 1000000), Term(999999, 1)]

  lemma SevenAddsUp()
    ensures Sum(SevenTerms) == 7999999999999999999
  {
  }

  lemma SevenDescending()
    ensures TermsDescending(SevenTerms)
  {
  }

  lemma SevenCarries()
    ensures CarryFits(SevenTerms)
  {
  }

  lemma EightAddsUp()
    ensures Sum(EightTerms) == 8999999999999999999
  {
  }

  lemma EightDescending()
    ensures TermsDescending(EightTerms)
  {
  }

  lemma EightCarries()
    ensures CarryFits(EightTerms)
  {
  }

  lemma PastAddsUp()
    ensures Sum(PastTerms) == 999999999999999999
  {
  }

  lemma PastDescending()
    ensures TermsDescending(PastTerms)
  {
  }

  lemma PastCarries()
    ensures CarryFits(PastTerms)
  {
  }

  // One lemma per group of the tests' expected strings. Evaluating the
  // decimal text of a count is costly for the verifier, so each group is
  // checked on its own, for a term given as a parameter (a literal term
  // would have its whole rendering evaluated again wherever it appears).

  lemma Renders253Years(t: Term)
    requires t == Term(253, Year)
    ensures Render(t) == "253 years"
  {
    assert DecimalString(253) == "253";
    assert UnitName(t.unit) == "year";
  }

  lemma Renders35Weeks(t: Term)
    requires t == Term(35, Week)
    ensures Render(t) == "35 weeks"
  {
    assert DecimalString(35) == "35";
    assert UnitName(t.unit) == "week";
  }

  lemma Renders2Days(t: Term)
    requires t == Term(2, Day)
    ensures Render(t) == "2 days"
  {
    assert DecimalString(2) == "2";
    assert UnitName(t.unit) == "day";
  }

  lemma Renders14Hours(t: Term)
    requires t == Term(14, Hour)
    ensures Render(t) == "14 hours"
  {
    assert DecimalString(14) == "14";
    assert UnitName(t.unit) == "hour";
  }

  lemma Renders13Minutes(t: Term)
    requires t == Term(13, Minute)
    ensures Render(t) == "13 minutes"
  {
    assert DecimalString(13) == "13";
    assert UnitName(t.unit) == "minute";
  }

  lemma Renders19Seconds(t: Term)
    requires t == Term(19, Second)
    ensures Render(t) == "19 seconds"
  {
    assert DecimalString(19) == "19";
    assert UnitName(t.unit) == "second";
  }

  lemma Renders999Milliseconds(t: Term)
    requires t == Term(999, Millisecond)
    ensures Render(t) == "999 milliseconds"
  {
    assert DecimalString(999) == "999";
    assert UnitName(t.unit) == "millisecond";
  }

  lemma Renders999999Nanoseconds(t: Term)
    requires t == Term(999999, Nanosecond)
    ensures Render(t) == "999999 nanoseconds"
  {
    assert DecimalString(999) == "999";
    assert DecimalString(999999) == "999999";
    assert UnitName(t.unit) == "nanosecond";
  }

  lemma Renders285Years(t: Term)
    requires t == Term(285, Year)
    ensures Render(t) == "285 years"
  {
    assert DecimalString(285) == "285";
    assert UnitName(t.unit) == "year";
  }

  lemma Renders20Weeks(t: Term)
    requires t == Term(20, Week)
    ensures Render(t) == "20 weeks"
  {
    assert DecimalString(20) == "20";
    assert UnitName(t.unit) == "week";
  }

  lemma Renders1Day(t: Term)
    requires t == Term(1, Day)
    ensures Render(t) == "1 day"
  {
    assert DecimalString(1) == "1";
    assert UnitName(t.unit) == "day";
  }

  lemma Renders15Hours(t: Term)
    requires t == Term(15, Hour)
    ensures Render(t) == "15 hours"
  {
    assert DecimalString(15) == "15";
    assert UnitName(t.unit) == "hour";
  }

  lemma Renders59Minutes(t: Term)
    requires t == Term(59, Minute)
    ensures Render(t) == "59 minutes"
  {
    assert DecimalString(59) == "59";
    assert UnitName(t.unit) == "minute";
  }

  lemma Renders59Seconds(t: Term)
    requires t == Term(59, Second)
    ensures Render(t) == "59 seconds"
  {
    assert DecimalString(59) == "59";
    assert UnitName(t.unit) == "second";
  }

  lemma Renders31Years(t: Term)
    requires t == Term(31, Year)
    ensures Render(t) == "31 years"
  {
    assert DecimalString(31) == "31";
    assert UnitName(t.unit) == "year";
  }

  lemma Renders37Weeks(t: Term)
    requires t == Term(37, Week)
    ensures Render(t) == "37 weeks"
  {
    assert DecimalString(37) == "37";
    assert UnitName(t.unit) == "week";
  }

  lemma Renders1Hour(t: Term)
    requires t == Term(1, Hour)
    ensures Render(t) == "1 hour"
  {
    assert DecimalString(1) == "1";
    assert UnitName(t.unit) == "hour";
  }

  lemma Renders46Minutes(t: Term)
    requires t == Term(46, Minute)
    ensures Render(t) == "46 minutes"
  {
    assert DecimalString(46) == "46";
    assert UnitName(t.unit) == "minute";
  }

  lemma Renders39Seconds(t: Term)
    requires t == Term(39, Second)
    ensures Render(t) == "39 seconds"
  {
    assert DecimalString(39) == "39";
    assert UnitName(t.unit) == "second";
  }

  const SevenText: seq<string> := ["253 years", "35 weeks", "2 days", "14 hours", "13 minutes", "19 seconds", "999 milliseconds", "999999 nanoseconds"]

  /** Each of the eight groups renders as the test's text spells it. */
  lemma SevenRendered()
    ensures Renders(SevenTerms) == SevenText
  {
    forall i | 0 <= i < |SevenTerms|
      ensures Render(SevenTerms[i]) == SevenText[i]
    {
      if i == 0 { Renders253Years(SevenTerms[i]); }
      else if i == 1 { Renders35Weeks(SevenTerms[i]); }
      else if i == 2 { Renders2Days(SevenTerms[i]); }
      else if i == 3 { Renders14Hours(SevenTerms[i]); }
      else if i == 4 { Renders13Minutes(SevenTerms[i]); }
      else if i == 5 { Renders19Seconds(SevenTerms[i]); }
      else if i == 6 { Renders999Milliseconds(SevenTerms[i]); }
      else { Renders999999Nanoseconds(SevenTerms[i]); }
    }
    RendersAs(SevenTerms, SevenText);
  }

  /** Duration(7999999999999999999) is written "253 years 35 weeks 2 days 14 hours 13 minutes 19 seconds 999 milliseconds 999999 nanoseconds": its terms are the test's groups, and its name is their text joined by spaces. */
  lemma SevenGroups()
    ensures Decompose(7999999999999999999, Units) == SevenTerms
    ensures Name(7999999999999999999) == String(7999999999999999999) == JoinSpace(SevenText)
  {
    SevenAddsUp();
    SevenDescending();
    SevenCarries();
    TermsOfSpan(7999999999999999999, SevenTerms);
    SevenRendered();
  }

  const EightText: seq<string> := ["285 years", "20 weeks", "1 day", "15 hours", "59 minutes", "59 seconds", "999 milliseconds", "999999 nanoseconds"]

  /** Each of the eight groups renders as the test's text spells it. */
  lemma EightRendered()
    ensures Renders(EightTerms) == EightText
  {
    forall i | 0 <= i < |EightTerms|
      ensures Render(EightTerms[i]) == EightText[i]
    {
      if i == 0 { Renders285Years(EightTerms[i]); }
      else if i == 1 { Renders20Weeks(EightTerms[i]); }
      else if i == 2 { Renders1Day(EightTerms[i]); }
      else if i == 3 { Renders15Hours(EightTerms[i]); }
      else if i == 4 { Renders59Minutes(EightTerms[i]); }
      else if i == 5 { Renders59Seconds(EightTerms[i]); }
      else if i == 6 { Renders999Milliseconds(EightTerms[i]); }
      else { Renders999999Nanoseconds(EightTerms[i]); }
    }
    RendersAs(EightTerms, EightText);
  }

  /** Duration(8999999999999999999) is written "285 years 20 weeks 1 day 15 hours 59 minutes 59 seconds 999 milliseconds 999999 nanoseconds": its terms are the test's groups, and its name is their text joined by spaces. */
  lemma EightGroups()
    ensures Decompose(8999999999999999999, Units) == EightTerms
    ensures Name(8999999999999999999) == String(8999999999999999999) == JoinSpace(EightText)
  {
    EightAddsUp();
    EightDescending();
    EightCarries();
    TermsOfSpan(8999999999999999999, EightTerms);
    EightRendered();
  }

  const PastText: seq<string> := ["31 years", "37 weeks", "1 hour", "46 minutes", "39 seconds", "999 milliseconds", "999999 nanoseconds"]

  /** Each of the seven groups renders as the test's text spells it. */
  lemma PastRendered()
    ensures Renders(PastTerms) == PastText
  {
    forall i | 0 <= i < |PastTerms|
      ensures Render(PastTerms[i]) == PastText[i]
    {
      if i == 0 { Renders31Years(PastTerms[i]); }
      else if i == 1 { Renders37Weeks(PastTerms[i]); }
      else if i == 2 { Renders1Hour(PastTerms[i]); }
      else if i == 3 { Renders46Minutes(PastTerms[i]); }
      else if i == 4 { Renders39Seconds(PastTerms[i]); }
      else if i == 5 { Renders999Milliseconds(PastTerms[i]); }
      else { Renders999999Nanoseconds(PastTerms[i]); }
    }
    RendersAs(PastTerms, PastText);
  }

  /** Duration(-999999999999999999) is written "31 years 37 weeks 1 hour 46 minutes 39 seconds 999 milliseconds 999999 nanoseconds ago": its terms are the test's groups, and its name is their text joined by spaces. */
  lemma PastGroups()
    ensures Decompose(999999999999999999, Units) == PastTerms
    ensures Name(-999999999999999999) == String(-999999999999999999) == JoinSpace(PastText) + " ago"
  {
    PastAddsUp();
    PastDescending();
    PastCarries();
    TermsOfSpan(999999999999999999, PastTerms);
    PastRendered();
  }

  /** Ninety nanoseconds is no constant, so its name is its human() text,
      written out character for character. */
  lemma NameOfNinety()
    ensures Name(90) == String(90) == "90 nanoseconds"
  {
    TermsOfSpan(90, [Term(90, 1)]);
    assert DecimalString(90) == "90";
  }

  /** The eight constants are named by their singular lower-case names,
      through Name() and through String(). */
  lemma NameOfConstants()
    ensures Name(Year) == String(Year) == "year"
    ensures Name(Week) == String(Week) == "week"
    ensures Name(Day) == String(Day) == "day"
    ensures Name(Hour) == String(Hour) == "hour"
    ensures Name(Minute) == String(Minute) == "minute"
    ensures Name(Second) == String(Second) == "second"
    ensures Name(Millisecond) == String(Millisecond) == "millisecond"
    ensures Name(Nanosecond) == String(Nanosecond) == "nanosecond"
  {
  }

  /** Rounding 123456789123 and -123456789123 to each of the eight units;
      the negative result for the minute is not a multiple of a minute. */
  lemma RoundCases()
    ensures Round(123456789123, 31536000000000000) == 31536000000000000
    ensures Round(123456789123, 604800000000000) == 604800000000000
    ensures Round(123456789123, 86400000000000) == 86400000000000
    ensures Round(123456789123, 3600000000000) == 3600000000000
    ensures Round(123456789123, 60000000000) == 180000000000
    ensures Round(123456789123, 1000000000) == 124000000000
    ensures Round(123456789123, 1000000) == 123457000000
    ensures Round(123456789123, 1) == 123456789124
    ensures Round(-123456789123, 31536000000000000) == -31536246913578246
    ensures Round(-123456789123, 604800000000000) == -605046913578246
    ensures Round(-123456789123, 86400000000000) == -86646913578246
    ensures Round(-123456789123, 3600000000000) == -3846913578246
    ensures Round(-123456789123, 60000000000) == -186913578246
    ensures Round(-123456789123, 1000000000) == -124913578246
    ensures Round(-123456789123, 1000000) == -123458578246
    ensures Round(-123456789123, 1) == -123456789124
    ensures Round(-123456789123, 60000000000) % Minute != 0
  {
  }
}
