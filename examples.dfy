/**
 * The dashboard's sample data set (the "expected CSV format" table it shows before
 * a file is uploaded), as it reads once loaded, and what each operation makes of it.
 */
module Examples {

  import opened Wrappers
  import opened Text
  import opened Dates
  import opened Frames
  import opened Dashboard

  const Columns: set<string> := {
    TitleColumn, AuthorsColumn, StatusColumn, ConditionColumn,
    CategoryColumn, IssueDateColumn, ReturnDateColumn, YearColumn }

  /** Days 19737 and 19754 after 1970-01-01 are 2024-01-15 and 2024-02-01. */
  const Gatsby: Record := Record(Some("The Great Gatsby"), Some("F. Scott Fitzgerald"), Some("Available"),
    Some("Good"), Some("Fiction"), Some(19737 * TicksPerDay), None, Some(2020))
  const Mockingbird: Record := Record(Some("To Kill a Mockingbird"), Some("Harper Lee"), Some("Issued"),
    Some("Good"), Some("Fiction"), Some(19754 * TicksPerDay), None, Some(2019))
  const Orwell: Record := Record(Some("1984"), Some("George Orwell"), Some("Available"),
    Some("Damaged"), Some("Dystopian"), None, None, Some(2021))

  const Sample: Table := Table(Columns, [Gatsby, Mockingbird, Orwell])

  /** The row `b` alone when the mask holds for it, nothing otherwise. */
  function Kept(c: Criterion, b: Record): seq<Record>
  {
    if Holds(c, b) then [b] else []
  }

  /** Selecting from three rows, one row at a time. */
  lemma WhereThree(x: Record, y: Record, z: Record, c: Criterion)
    ensures Where([x, y, z], c) == Kept(c, x) + (Kept(c, y) + Kept(c, z))
  {
    assert [x, y, z] == [x] + [y, z] && [y, z] == [y] + [z] && [z] == [z] + [];
    WhereCons(z, [], c);
    assert Where([z], c) == Kept(c, z);
    WhereCons(y, [z], c);
    assert Where([y, z], c) == Kept(c, y) + Kept(c, z);
    WhereCons(x, [y, z], c);
  }

  lemma WhereSample(c: Criterion)
    ensures Where(Sample.rows, c) == Kept(c, Gatsby) + (Kept(c, Mockingbird) + Kept(c, Orwell))
  {
    WhereThree(Gatsby, Mockingbird, Orwell, c);
  }

  lemma SampleSummary()
    ensures BookSummaryOf(Sample) == BookSummary(3, 2, 1, 0, 1, 0, 0)
  {
    WhereSample(StatusIs("Available"));
    WhereSample(StatusIs("Issued"));
    WhereSample(StatusIs("Returned"));
    WhereSample(ConditionIs("Damaged"));
    WhereSample(ConditionIs("Lost"));
    WhereSample(ConditionIs("To Be Replaced"));
  }

  lemma SampleFlagged()
    ensures FlaggedBooks(Sample) == Table(Columns, [Orwell])
  {
    WhereSample(ConditionIn(FlaggedConditions));
  }

  /** Both genres of the sample have fewer than five books; with a threshold of 2 only Dystopian does. */
  lemma SampleGenres()
    ensures UnderrepresentedGenres(Sample) == map["Fiction" := 2, "Dystopian" := 1]
    ensures UnderrepresentedGenres(Sample, 2) == map["Dystopian" := 1]
  {
    var rows := Sample.rows;
    assert rows[1..][1..][1..] == [];
    assert ValueCounts(rows[1..][1..]) == map["Dystopian" := 1];
    assert ValueCounts(rows[1..]) == map["Dystopian" := 1, "Fiction" := 1];
    assert ValueCounts(rows) == map["Fiction" := 2, "Dystopian" := 1];
  }

  lemma LowerQueries()
    ensures Lower("orwell") == "orwell" && Lower("ORWELL") == "orwell"
  {
  }

  lemma GatsbyAuthorNoMatch()
    ensures !Holds(TextContains(Authors, "orwell"), Gatsby)
  {
    var author := "F. Scott Fitzgerald";
    assert CellText(TextOf(Gatsby, Authors)) == author;
    LowerMember(author, 'w');
    MissingCharNotContained(Lower(author), "orwell", 'w');
  }

  lemma MockingbirdAuthorNoMatch()
    ensures !Holds(TextContains(Authors, "orwell"), Mockingbird)
  {
    var author := "Harper Lee";
    assert CellText(TextOf(Mockingbird, Authors)) == author;
    LowerMember(author, 'o');
    MissingCharNotContained(Lower(author), "orwell", 'o');
  }

  lemma OrwellAuthorMatch()
    ensures Holds(TextContains(Authors, "orwell"), Orwell)
  {
    var author := Lower("George Orwell");
    assert CellText(TextOf(Orwell, Authors)) == "George Orwell";
    assert author[7..13] == "orwell";
    assert OccursAt("orwell", author, 7);
    ContainsIsSubstring(author, "orwell");
  }

  /**
   * Searching the authors for "orwell", in any letter case, finds George Orwell's
   * book alone; an empty query keeps every row.
   */
  lemma SampleSearch()
    ensures SearchBooks(Sample, Authors, "orwell").rows == [Orwell]
    ensures SearchBooks(Sample, Authors, "ORWELL") == SearchBooks(Sample, Authors, "orwell")
    ensures SearchBooks(Sample, Title, "") == Sample
  {
    LowerQueries();
    GatsbyAuthorNoMatch();
    MockingbirdAuthorNoMatch();
    OrwellAuthorMatch();
    WhereSample(TextContains(Authors, "orwell"));
  }

  /** A loan of the sample's "1984", issued at `issued` and returned at `returned`. */
  function Loan(issued: int, returned: Option<int>): Record
  {
    Record(Some("1984"), Some("George Orwell"), Some("Issued"), Some("Good"), Some("Dystopian"),
      Some(issued), returned, Some(2021))
  }

  lemma OneRowOverdue(b: Record, now: int)
    requires b.status == Some("Issued") && b.issueDate.Some?
    ensures OverdueBooks(Table(Columns, [b]), now).rows ==
      if b.returnDate.None? && WholeDays(now, b.issueDate.value) > LoanDays then [b] else []
  {
    var issued := Where([b], StatusIs("Issued"));
    WhereCons(b, [], StatusIs("Issued"));
    assert issued == [b];
    WhereCons(b, [], Both(ReturnDateMissing, DaysSinceIssueOver(now, LoanDays)));
  }

  /**
   * A book issued 45 days ago and not returned is overdue; the same book with a
   * return date is not, and neither is one issued 10 days ago or 30 and a half days ago.
   */
  lemma OverdueExamples(now: int)
    ensures var b := Loan(now - 45 * TicksPerDay, None);
      OverdueBooks(Table(Columns, [b]), now).rows == [b]
    ensures var b := Loan(now - 45 * TicksPerDay, Some(now - TicksPerDay));
      OverdueBooks(Table(Columns, [b]), now).rows == []
    ensures var b := Loan(now - 10 * TicksPerDay, None);
      OverdueBooks(Table(Columns, [b]), now).rows == []
    ensures var b := Loan(now - 30 * TicksPerDay - TicksPerDay / 2, None);
      OverdueBooks(Table(Columns, [b]), now).rows == []
  {
    OneRowOverdue(Loan(now - 45 * TicksPerDay, None), now);
    OneRowOverdue(Loan(now - 45 * TicksPerDay, Some(now - TicksPerDay)), now);
    OneRowOverdue(Loan(now - 10 * TicksPerDay, None), now);
    OneRowOverdue(Loan(now - 30 * TicksPerDay - TicksPerDay / 2, None), now);
    WholeDaysOfSpan(now, now - 45 * TicksPerDay, 45);
    WholeDaysOfSpan(now, now - 10 * TicksPerDay, 10);
    WholeDaysOfSpan(now, now - 30 * TicksPerDay - TicksPerDay / 2, 30);
  }

  /** From 2024-03-03 on, "To Kill a Mockingbird", issued on 2024-02-01 and not returned, is the sample's one overdue book. */
  lemma SampleOverdue(now: int)
    requires now >= (19754 + LoanDays + 1) * TicksPerDay
    ensures OverdueBooks(Sample, now).rows == [Mockingbird]
  {
    WhereSample(StatusIs("Issued"));
    WhereCons(Mockingbird, [], Both(ReturnDateMissing, DaysSinceIssueOver(now, LoanDays)));
    WholeDaysExceed(now, 19754 * TicksPerDay, LoanDays);
  }
}
