/** The calendar worked out for November 2024, the month with two events. */
module CalendarExamples {
  import opened Wrappers
  import opened Text
  import opened Dates
  import opened Catalog
  import opened Calendar

  lemma Year2024()
    ensures NatToString(2024) == "2024"
  {
    assert NatToString(2) == "2";
    assert NatToString(20) == "20";
    assert NatToString(202) == "202";
  }

  lemma November2024Length()
    ensures DaysInMonth(2024, 11) == Ok(30)
    ensures DaysInMonth(2024, 2) == Ok(29)
    ensures DaysInMonth(2023, 2) == Ok(28)
  {
  }

  lemma DayStrings()
    ensures NatToString(11) == "11"
    ensures NatToString(19) == "19"
    ensures ZFill("5", 2) == "05"
    ensures ZFill("1", 2) == "01"
  {
    assert NatToString(1) == "1";
  }

  lemma Day5()
    ensures DayString(2024, 11, 5) == "2024-11-05"
  {
    Year2024();
    DayStrings();
  }

  lemma Day19()
    ensures DayString(2024, 11, 19) == "2024-11-19"
  {
    Year2024();
    DayStrings();
  }

  lemma Day1()
    ensures DayString(2024, 11, 1) == "2024-11-01"
  {
    Year2024();
    DayStrings();
  }

  lemma OnlyJeju()
    ensures NamesOn(Marathons, "2024-11-05") == ["제주국제마라톤"]
  {
    forall j | 0 <= j < |Marathons| && j != 4 ensures Marathons[j].date != "2024-11-05" {
      assert Marathons[j].date[9] != '5' || Marathons[j].date[6] != '1';
    }
    NamesOnSingle(Marathons, "2024-11-05", 4);
  }

  lemma OnlyGwangju()
    ensures NamesOn(Marathons, "2024-11-19") == ["광주마라톤"]
  {
    forall j | 0 <= j < |Marathons| && j != 5 ensures Marathons[j].date != "2024-11-19" {
      assert Marathons[j].date[9] != '9';
    }
    NamesOnSingle(Marathons, "2024-11-19", 5);
  }

  /** The line of a day with events, once its names are known. */
  lemma GridLineOfNames(catalog: seq<Marathon>, year: nat, month: nat, day: nat, names: seq<string>)
    requires NamesOn(catalog, DayString(year, month, day)) == names && names != []
    ensures GridLine(catalog, year, month, day) == NatToString(day) + ": " + Join(names, ", ")
  {
  }

  /** The Jeju half marathon on the fifth. */
  lemma November5()
    ensures GridLine(Marathons, 2024, 11, 5) == NatToString(5) + ": " + "제주국제마라톤"
  {
    Day5();
    OnlyJeju();
    GridLineOfNames(Marathons, 2024, 11, 5, ["제주국제마라톤"]);
  }

  /** The Gwangju 10 km on the nineteenth. */
  lemma November19()
    ensures GridLine(Marathons, 2024, 11, 19) == NatToString(19) + ": " + "광주마라톤"
  {
    Day19();
    OnlyGwangju();
    GridLineOfNames(Marathons, 2024, 11, 19, ["광주마라톤"]);
  }

  lemma NothingOnFirst()
    ensures NamesOn(Marathons, "2024-11-01") == []
  {
    forall j | 0 <= j < |Marathons| ensures Marathons[j].date != "2024-11-01" {
      assert Marathons[j].date[9] != '1' || Marathons[j].date[6] != '1';
    }
    NamesOnNone(Marathons, "2024-11-01");
  }

  /** A day without events is the bare day number. */
  lemma November1()
    ensures GridLine(Marathons, 2024, 11, 1) == NatToString(1)
  {
    Day1();
    NothingOnFirst();
  }
}
