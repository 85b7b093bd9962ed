/** The selection worked out on the catalog for searches the page offers. */
module FilterExamples {
  import opened Wrappers
  import opened Text
  import opened Dates
  import opened Catalog
  import opened Filter

  lemma Digits2(s: string)
    requires |s| == 2 && AllDigits(s)
    ensures DigitsValue(s) == 10 * DigitValue(s[0]) + DigitValue(s[1])
  {
    var p := s[..1];
    assert p[..0] == [] && p[0] == s[0];
    assert DigitsValue(p) == DigitValue(s[0]);
    assert s[..|s| - 1] == p;
  }

  lemma Digits3(s: string)
    requires |s| == 3 && AllDigits(s)
    ensures DigitsValue(s) == 100 * DigitValue(s[0]) + 10 * DigitValue(s[1]) + DigitValue(s[2])
  {
    Digits2(s[..2]);
  }

  lemma Digits4(s: string)
    requires |s| == 4 && AllDigits(s)
    ensures DigitsValue(s) == 1000 * DigitValue(s[0]) + 100 * DigitValue(s[1]) + 10 * DigitValue(s[2]) + DigitValue(s[3])
  {
    Digits3(s[..3]);
  }

  /** Reading a zero-padded "YYYY-MM-DD" string field by field. */
  lemma IsoFields(s: string)
    requires |s| == 10 && s[4] == '-' && s[7] == '-'
    requires AllDigits(s[..4]) && AllDigits(s[5..7]) && AllDigits(s[8..])
    ensures var y, m, d := DigitsValue(s[..4]), DigitsValue(s[5..7]), DigitsValue(s[8..]);
      ParseIsoDate(s) == if ValidDate(y, m, d) then Some((y, m, d)) else None
    ensures DigitsValue(s[..4]) == 1000 * DigitValue(s[0]) + 100 * DigitValue(s[1]) + 10 * DigitValue(s[2]) + DigitValue(s[3])
    ensures DigitsValue(s[5..7]) == 10 * DigitValue(s[5]) + DigitValue(s[6])
    ensures DigitsValue(s[8..]) == 10 * DigitValue(s[8]) + DigitValue(s[9])
  {
    Digits4(s[..4]);
    Digits2(s[5..7]);
    Digits2(s[8..]);
  }

  /** The month of each catalog date. */
  lemma CatalogMonthAt(i: nat)
    requires i < |Marathons|
    ensures DateMonth(Marathons[i].date) == Some([4, 5, 9, 10, 11, 11][i])
  {
    if i == 0 { CatalogMonth0(); }
    else if i == 1 { CatalogMonth1(); }
    else if i == 2 { CatalogMonth2(); }
    else if i == 3 { CatalogMonth3(); }
    else if i == 4 { CatalogMonth4(); }
    else { CatalogMonth5(); }
  }

  lemma CatalogMonth0()
    ensures DateMonth(Marathons[0].date) == Some(4)
  {
    DateOf("2024-04-16", 2024, 4, 16);
  }

  lemma CatalogMonth1()
    ensures DateMonth(Marathons[1].date) == Some(5)
  {
    DateOf("2024-05-21", 2024, 5, 21);
  }

  lemma CatalogMonth2()
    ensures DateMonth(Marathons[2].date) == Some(9)
  {
    DateOf("2024-09-10", 2024, 9, 10);
  }

  lemma CatalogMonth3()
    ensures DateMonth(Marathons[3].date) == Some(10)
  {
    DateOf("2024-10-15", 2024, 10, 15);
  }

  lemma CatalogMonth4()
    ensures DateMonth(Marathons[4].date) == Some(11)
  {
    DateOf("2024-11-05", 2024, 11, 5);
  }

  lemma CatalogMonth5()
    ensures DateMonth(Marathons[5].date) == Some(11)
  {
    DateOf("2024-11-19", 2024, 11, 19);
  }

  lemma DateOf(s: string, year: int, month: int, day: int)
    requires |s| == 10 && s[4] == '-' && s[7] == '-'
    requires IsDigit(s[0]) && IsDigit(s[1]) && IsDigit(s[2]) && IsDigit(s[3])
    requires IsDigit(s[5]) && IsDigit(s[6]) && IsDigit(s[8]) && IsDigit(s[9])
    requires year == 1000 * DigitValue(s[0]) + 100 * DigitValue(s[1]) + 10 * DigitValue(s[2]) + DigitValue(s[3])
    requires month == 10 * DigitValue(s[5]) + DigitValue(s[6])
    requires day == 10 * DigitValue(s[8]) + DigitValue(s[9])
    requires ValidDate(year, month, day)
    ensures ParseIsoDate(s) == Some((year, month, day)) && DateMonth(s) == Some(month)
  {
    assert AllDigits(s[..4]) && AllDigits(s[5..7]) && AllDigits(s[8..]);
    IsoFields(s);
  }

  /** Every catalog name and location is Hangul, which `lower` leaves alone. */
  lemma CatalogLowered()
    ensures forall i | 0 <= i < |Marathons| ::
      Lower(Marathons[i].name) == Marathons[i].name && Lower(Marathons[i].location) == Marathons[i].location
  {
    forall i | 0 <= i < |Marathons|
      ensures Lower(Marathons[i].name) == Marathons[i].name && Lower(Marathons[i].location) == Marathons[i].location
    {
      LowerIdentity(Marathons[i].name);
      LowerIdentity(Marathons[i].location);
    }
  }

  lemma EmptySearchHits(e: Marathon)
    ensures SearchHit(e, "")
  {
    assert Lower("") == "";
    ContainsEmpty(Lower(e.name));
  }

  /** With no search term and no distance, an event whose date parses is
      kept exactly when its month is the chosen one. */
  lemma KeepOnMonth(e: Marathon, month: string, value: int)
    requires month != "" && ParseInt(month) == Some(value) && DateMonth(e.date).Some?
    ensures Keep(e, "", month, "") == Ok(DateMonth(e.date).value == value)
  {
    EmptySearchHits(e);
  }

  /** With no search term and no month, an event is kept exactly when its
      distance is the parsed one. */
  lemma KeepOnDistance(e: Marathon, distance: string, value: real)
    requires distance != "" && ParseDecimal(distance) == Some(value)
    ensures Keep(e, "", "", distance) == Ok(e.distance == value)
  {
    EmptySearchHits(e);
  }

  lemma Month11()
    ensures ParseInt("11") == Some(11)
  {
    Digits2("11");
  }

  lemma Month5()
    ensures ParseInt("5") == Some(5)
  {
    assert "5"[..0] == [];
  }

  /** Any month text that reads as 11 keeps exactly the last two events. */
  lemma KeepNovember(month: string)
    requires month != "" && ParseInt(month) == Some(11)
    ensures forall i | 0 <= i < |Marathons| :: Keep(Marathons[i], "", month, "") == Ok(i >= 4)
  {
    forall i | 0 <= i < |Marathons| ensures Keep(Marathons[i], "", month, "") == Ok(i >= 4) {
      CatalogMonthAt(i);
      KeepOnMonth(Marathons[i], month, 11);
    }
  }

  /** The month "11" keeps exactly the two November events. */
  lemma SearchNovember()
    ensures Select(Marathons, "", "11", "") == Ok([Marathons[4], Marathons[5]])
  {
    Month11();
    KeepNovember("11");
    SelectSuffix(Marathons, 4, "", "11", "");
    assert Marathons[4..] == [Marathons[4], Marathons[5]];
  }

  lemma Decimal42195()
    ensures ParseDecimal("42.195") == Some(42.195)
  {
    var s := "42.195";
    assert PointIndex(s) == 2 by {
      assert s[1..][1..][0] == '.';
    }
    assert s[..2] == "42" && s[3..] == "195";
    Digits2("42");
    Digits3("195");
    assert Pow10(3) == 1000;
  }

  /** Any distance text that reads as 42.195 keeps exactly the first four events. */
  lemma KeepFullMarathon(distance: string)
    requires distance != "" && ParseDecimal(distance) == Some(42.195)
    ensures forall i | 0 <= i < |Marathons| :: Keep(Marathons[i], "", "", distance) == Ok(i < 4)
  {
    forall i | 0 <= i < |Marathons| ensures Keep(Marathons[i], "", "", distance) == Ok(i < 4) {
      KeepOnDistance(Marathons[i], distance, 42.195);
    }
  }

  /** The distance "42.195" keeps the four full-marathon events, in order. */
  lemma SearchFullMarathon()
    ensures Select(Marathons, "", "", "42.195") == Ok(Marathons[..4])
  {
    Decimal42195();
    KeepFullMarathon("42.195");
    SelectPrefix(Marathons, 4, "", "", "42.195");
  }

  /** An event that fails the search test is dropped before anything is parsed. */
  lemma KeepMissingTerm(e: Marathon, searchTerm: string, month: string, distance: string)
    requires !SearchHit(e, searchTerm)
    ensures Keep(e, searchTerm, month, distance) == Ok(false)
  {
  }

  lemma NoGyeong(i: nat)
    requires i < 6 && i != 1
    ensures !SearchHit(Marathons[i], "경주")
  {
    CatalogLowered();
    LowerIdentity("경주");
    NotContainsMissing(Marathons[i].name, "경주", 0);
    NotContainsMissing(Marathons[i].location, "경주", 0);
  }

  lemma KeepGyeongju()
    ensures Keep(Marathons[1], "경주", "5", "") == Ok(true)
  {
    CatalogLowered();
    LowerIdentity("경주");
    ContainsAt(Marathons[1].location, "경주", 0);
    Month5();
    CatalogMonth1();
  }

  /** "경주" with month "5" keeps only the Gyeongju event. */
  lemma SearchGyeongjuInMay()
    ensures Select(Marathons, "경주", "5", "") == Ok([Marathons[1]])
  {
    var front, back := Marathons[..2], Marathons[2..];
    forall i | 0 <= i < |Marathons| && i != 1 ensures Keep(Marathons[i], "경주", "5", "") == Ok(false) {
      NoGyeong(i);
      KeepMissingTerm(Marathons[i], "경주", "5", "");
    }
    KeepGyeongju();
    SelectSuffix(front, 1, "경주", "5", "");
    assert front[1..] == [Marathons[1]];
    assert forall i | 0 <= i < |back| :: back[i] == Marathons[i + 2];
    SelectNoneMatching(back, "경주", "5", "");
    SelectAppend(front, back, "경주", "5", "");
    assert front + back == Marathons;
    assert [Marathons[1]] + [] == [Marathons[1]];
  }

  lemma MarathonWordHits()
    ensures forall i | 0 <= i < |Marathons| :: SearchHit(Marathons[i], "마라톤")
  {
    CatalogLowered();
    LowerIdentity("마라톤");
    forall i | 0 <= i < |Marathons| ensures SearchHit(Marathons[i], "마라톤") {
      ContainsAt(Marathons[i].name, "마라톤", if i == 3 || i == 5 then 2 else 4);
    }
  }

  /** All six names contain "마라톤", so the search keeps every event. */
  lemma SearchMarathonWord()
    ensures Select(Marathons, "마라톤", "", "") == Ok(Marathons)
  {
    MarathonWordHits();
    SelectAllMatching(Marathons, "마라톤", "", "");
  }

  /** A term found nowhere selects nothing; the month is then never parsed,
      so even an unparsable month does not raise. */
  lemma SearchNothing(month: string, distance: string)
    ensures Select(Marathons, "없음", month, distance) == Ok([])
  {
    forall i | 0 <= i < |Marathons| ensures Keep(Marathons[i], "없음", month, distance) == Ok(false) {
      CatalogLowered();
      LowerIdentity("없음");
      NotContainsMissing(Marathons[i].name, "없음", 0);
      NotContainsMissing(Marathons[i].location, "없음", 0);
      KeepMissingTerm(Marathons[i], "없음", month, distance);
    }
    SelectNoneMatching(Marathons, "없음", month, distance);
  }

  /** An event whose date parses and which passes the search test raises on
      a month that `int` rejects. */
  lemma KeepBadMonth(e: Marathon, searchTerm: string, month: string, distance: string)
    requires SearchHit(e, searchTerm) && DateMonth(e.date).Some?
    requires month != "" && ParseInt(month).None?
    ensures Keep(e, searchTerm, month, distance) == Err(UnparsableMonth(month))
  {
  }

  /** An unparsable month with an empty search term raises at the first event. */
  lemma MonthNotANumber()
    ensures Select(Marathons, "", "abc", "") == Err(UnparsableMonth("abc"))
  {
    assert ParseInt("abc").None? by {
      assert !IsDigit("abc"[0]);
    }
    forall i | 0 <= i < |Marathons| ensures Keep(Marathons[i], "", "abc", "") == Err(UnparsableMonth("abc")) {
      CatalogMonthAt(i);
      EmptySearchHits(Marathons[i]);
      KeepBadMonth(Marathons[i], "", "abc", "");
    }
    SelectFails(Marathons, "", "abc", "");
  }
}
