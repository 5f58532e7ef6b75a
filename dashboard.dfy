/**
 * The record-classification core of the library dashboard: summary counts,
 * books needing attention, overdue books, under-represented genres and the
 * search box's filter. Every operation builds a new value from the table it is given.
 */
module Dashboard {

  import opened Wrappers
  import opened Text
  import opened Dates
  import opened Frames

  // ---------------------------------------------------------------------------
  // Summary counts

  datatype BookSummary = BookSummary(
    total: nat,
    available: nat,
    issued: nat,
    returned: nat,
    damaged: nat,
    lost: nat,
    toBeReplaced: nat)

  const ZeroSummary: BookSummary := BookSummary(0, 0, 0, 0, 0, 0, 0)

  /** Number of rows for which the mask holds, or 0 when the column it reads is absent. */
  function CountIn(t: Table, column: string, c: Criterion): nat
  {
    if column in t.columns then |Where(t.rows, c)| else 0
  }

  /** Statistics shown at the top of the dashboard. */
  function BookSummaryOf(t: Table): BookSummary
  {
    if IsEmpty(t) then ZeroSummary
    else BookSummary(
      |t.rows|,
      CountIn(t, StatusColumn, StatusIs("Available")),
      CountIn(t, StatusColumn, StatusIs("Issued")),
      CountIn(t, StatusColumn, StatusIs("Returned")),
      CountIn(t, ConditionColumn, ConditionIs("Damaged")),
      CountIn(t, ConditionColumn, ConditionIs("Lost")),
      CountIn(t, ConditionColumn, ConditionIs("To Be Replaced")))
  }

  /**
   * An empty table summarises to zeros; otherwise the total is the number of rows,
   * no count exceeds it, the three status counts and the three condition counts
   * each add up to at most the total, and an absent column gives zeros.
   */
  lemma BookSummaryBounds(t: Table)
    ensures IsEmpty(t) ==> BookSummaryOf(t) == ZeroSummary
    ensures !IsEmpty(t) ==> BookSummaryOf(t).total == |t.rows|
    ensures var s := BookSummaryOf(t);
      && s.available + s.issued + s.returned <= s.total
      && s.damaged + s.lost + s.toBeReplaced <= s.total
    ensures var s := BookSummaryOf(t);
      && s.available <= s.total && s.issued <= s.total && s.returned <= s.total
      && s.damaged <= s.total && s.lost <= s.total && s.toBeReplaced <= s.total
    ensures StatusColumn !in t.columns ==>
      var s := BookSummaryOf(t); s.available == s.issued == s.returned == 0
    ensures ConditionColumn !in t.columns ==>
      var s := BookSummaryOf(t); s.damaged == s.lost == s.toBeReplaced == 0
  {
    WhereDisjointCounts(t.rows, StatusIs("Available"), StatusIs("Issued"), StatusIs("Returned"));
    WhereDisjointCounts(t.rows, ConditionIs("Damaged"), ConditionIs("Lost"), ConditionIs("To Be Replaced"));
  }

  /** The summary field that counts status `status`. */
  function StatusField(s: BookSummary, status: string): nat
  {
    if status == "Available" then s.available
    else if status == "Issued" then s.issued
    else s.returned
  }

  /** The summary field that counts condition `condition`. */
  function ConditionField(s: BookSummary, condition: string): nat
  {
    if condition == "Damaged" then s.damaged
    else if condition == "Lost" then s.lost
    else s.toBeReplaced
  }

  /** Each status count of a non-empty table is the number of positions whose status is exactly that literal. */
  lemma BookSummaryStatusCounts(t: Table, status: string)
    requires !IsEmpty(t) && StatusColumn in t.columns
    requires status in {"Available", "Issued", "Returned"}
    ensures exists idx :: Picks(t.rows, idx, Where(t.rows, StatusIs(status)))
                          && |idx| == StatusField(BookSummaryOf(t), status)
                          && forall i :: 0 <= i < |t.rows| ==> (i in idx <==> t.rows[i].status == Some(status))
  {
    WherePicks(t.rows, StatusIs(status));
  }

  /** Each condition count of a non-empty table is the number of positions whose condition is exactly that literal. */
  lemma BookSummaryConditionCounts(t: Table, condition: string)
    requires !IsEmpty(t) && ConditionColumn in t.columns
    requires condition in {"Damaged", "Lost", "To Be Replaced"}
    ensures exists idx :: Picks(t.rows, idx, Where(t.rows, ConditionIs(condition)))
                          && |idx| == ConditionField(BookSummaryOf(t), condition)
                          && forall i :: 0 <= i < |t.rows| ==> (i in idx <==> t.rows[i].condition == Some(condition))
  {
    WherePicks(t.rows, ConditionIs(condition));
  }

  // ---------------------------------------------------------------------------
  // Books needing attention

  const FlaggedConditions: set<string> := {"Damaged", "Lost", "To Be Replaced"}

  /** Reference definition of a book that needs attention. */
  predicate NeedsAttention(b: Record)
  {
    b.condition == Some("Damaged") || b.condition == Some("Lost") || b.condition == Some("To Be Replaced")
  }

  function FlaggedBooks(t: Table): Table
  {
    if IsEmpty(t) || ConditionColumn !in t.columns then EmptyFrame
    else Table(t.columns, Where(t.rows, ConditionIn(FlaggedConditions)))
  }

  /**
   * Without rows, columns or a Condition column the result is the frame with
   * nothing in it. Otherwise it keeps the table's columns and is the subsequence
   * of the rows, in order, at exactly the positions of the books needing attention.
   */
  lemma FlaggedBooksSpec(t: Table)
    ensures IsEmpty(t) || ConditionColumn !in t.columns ==> FlaggedBooks(t) == EmptyFrame
    ensures !IsEmpty(t) && ConditionColumn in t.columns ==>
      && FlaggedBooks(t).columns == t.columns
      && exists idx :: Picks(t.rows, idx, FlaggedBooks(t).rows)
                       && forall i :: 0 <= i < |t.rows| ==> (i in idx <==> NeedsAttention(t.rows[i]))
    ensures forall b :: b in FlaggedBooks(t).rows ==> b in t.rows && NeedsAttention(b)
  {
    var c := ConditionIn(FlaggedConditions);
    assert forall b :: Holds(c, b) <==> NeedsAttention(b);
    WherePicks(t.rows, c);
  }

  // ---------------------------------------------------------------------------
  // Overdue books

  /** Length of a loan in whole days; a book out for longer is overdue. */
  const LoanDays: int := 30

  /** The detector needs rows, a Status column and an Issue_Date column. */
  predicate OverdueApplies(t: Table)
  {
    !IsEmpty(t) && StatusColumn in t.columns && IssueDateColumn in t.columns
  }

  /**
   * Reference definition: issued, with a known issue date at least 31 full days
   * before `now`, and not returned when the table records returns at all.
   */
  ghost predicate IsOverdue(t: Table, now: int, b: Record)
  {
    && b.status == Some("Issued")
    && b.issueDate.Some?
    && now - b.issueDate.value >= (LoanDays + 1) * TicksPerDay
    && (ReturnDateColumn in t.columns ==> b.returnDate.None?)
  }

  /** Books overdue at time `now`. */
  function OverdueBooks(t: Table, now: int): Table
  {
    if !OverdueApplies(t) then EmptyFrame
    else
      var issued := Where(t.rows, StatusIs("Issued"));
      if issued == [] then EmptyFrame
      else if ReturnDateColumn in t.columns then
        Table(t.columns, Where(issued, Both(ReturnDateMissing, DaysSinceIssueOver(now, LoanDays))))
      else
        Table(t.columns, Where(issued, DaysSinceIssueOver(now, LoanDays)))
  }

  /** The mask that the two selection steps amount to. */
  function OverdueCriterion(t: Table, now: int): Criterion
  {
    if ReturnDateColumn in t.columns
    then Both(StatusIs("Issued"), Both(ReturnDateMissing, DaysSinceIssueOver(now, LoanDays)))
    else Both(StatusIs("Issued"), DaysSinceIssueOver(now, LoanDays))
  }

  /**
   * When the detector cannot run the result is the frame with nothing in it.
   * Otherwise the result is the subsequence of the rows, in order, at exactly the
   * positions of the overdue books; a book exactly 30 whole days out is not among them.
   */
  lemma OverdueBooksSpec(t: Table, now: int)
    ensures !OverdueApplies(t) ==> OverdueBooks(t, now) == EmptyFrame
    ensures OverdueApplies(t) ==>
      exists idx :: Picks(t.rows, idx, OverdueBooks(t, now).rows)
                    && forall i :: 0 <= i < |t.rows| ==> (i in idx <==> IsOverdue(t, now, t.rows[i]))
    ensures forall b :: b in OverdueBooks(t, now).rows ==> b in t.rows && IsOverdue(t, now, b)
    ensures OverdueApplies(t) && Where(t.rows, StatusIs("Issued")) == [] ==> OverdueBooks(t, now) == EmptyFrame
    ensures OverdueApplies(t) && Where(t.rows, StatusIs("Issued")) != [] ==> OverdueBooks(t, now).columns == t.columns
  {
    if OverdueApplies(t) {
      var c := OverdueCriterion(t, now);
      forall b | true
        ensures Holds(c, b) <==> IsOverdue(t, now, b)
      {
        var late := DaysSinceIssueOver(now, LoanDays);
        if ReturnDateColumn in t.columns {
          assert Holds(c, b) <==> Holds(StatusIs("Issued"), b) && Holds(ReturnDateMissing, b) && Holds(late, b);
        } else {
          assert Holds(c, b) <==> Holds(StatusIs("Issued"), b) && Holds(late, b);
        }
        if b.issueDate.Some? {
          WholeDaysExceed(now, b.issueDate.value, LoanDays);
        }
      }
      var issued := Where(t.rows, StatusIs("Issued"));
      if ReturnDateColumn in t.columns {
        WhereBoth(t.rows, StatusIs("Issued"), Both(ReturnDateMissing, DaysSinceIssueOver(now, LoanDays)));
      } else {
        WhereBoth(t.rows, StatusIs("Issued"), DaysSinceIssueOver(now, LoanDays));
      }
      assert OverdueBooks(t, now).rows == Where(t.rows, c);
      WherePicks(t.rows, c);
    }
  }

  /** A book issued between 30 and 31 days before `now` is not yet overdue; one issued 31 days or more before is. */
  lemma OverdueBoundary(t: Table, now: int, b: Record)
    requires b.status == Some("Issued") && b.issueDate.Some? && b.returnDate.None?
    ensures now - b.issueDate.value < (LoanDays + 1) * TicksPerDay ==> !IsOverdue(t, now, b)
    ensures WholeDays(now, b.issueDate.value) > LoanDays <==> IsOverdue(t, now, b)
  {
    WholeDaysExceed(now, b.issueDate.value, LoanDays);
  }

  // ---------------------------------------------------------------------------
  // Under-represented genres

  /** Number of rows whose category is `g`. */
  function CategoryCount(rows: seq<Record>, g: string): nat
  {
    |Where(rows, CategoryIs(g))|
  }

  /** Occurrences of each non-missing category, one row at a time. */
  function ValueCounts(rows: seq<Record>): map<string, nat>
  {
    if rows == [] then map[]
    else
      var m := ValueCounts(rows[1..]);
      match rows[0].category
      case None => m
      case Some(g) => m[g := (if g in m then m[g] else 0) + 1]
  }

  /** The tally holds exactly the categories that occur, each with its number of rows. */
  lemma {:induction false} ValueCountsSpec(rows: seq<Record>)
    ensures forall g :: g in ValueCounts(rows) <==> CategoryCount(rows, g) > 0
    ensures forall g :: g in ValueCounts(rows) ==> ValueCounts(rows)[g] == CategoryCount(rows, g)
  {
    if rows != [] {
      ValueCountsSpec(rows[1..]);
      forall g
        ensures CategoryCount(rows, g) ==
                (if rows[0].category == Some(g) then 1 else 0) + CategoryCount(rows[1..], g)
      {
      }
    }
  }

  const DefaultThreshold: int := 5

  /** Categories with fewer than `threshold` books, each with its number of books. */
  function UnderrepresentedGenres(t: Table, threshold: int := DefaultThreshold): map<string, nat>
  {
    if IsEmpty(t) || CategoryColumn !in t.columns then map[]
    else
      var counts := ValueCounts(t.rows);
      map g | g in counts && counts[g] < threshold :: counts[g]
  }

  /**
   * A category is reported exactly when the table has rows, columns and a Category
   * column and the category occurs at least once and fewer than `threshold` times;
   * its reported value is its number of rows.
   */
  lemma UnderrepresentedGenresSpec(t: Table, threshold: int)
    ensures forall g :: g in UnderrepresentedGenres(t, threshold) <==>
      (!IsEmpty(t) && CategoryColumn in t.columns && 0 < CategoryCount(t.rows, g) < threshold)
    ensures forall g :: g in UnderrepresentedGenres(t, threshold) ==>
      UnderrepresentedGenres(t, threshold)[g] == CategoryCount(t.rows, g)
  {
    ValueCountsSpec(t.rows);
  }

  // ---------------------------------------------------------------------------
  // Search box

  /** The text columns offered for searching, Title before Authors, when present. */
  function SearchColumns(t: Table): seq<TextColumn>
  {
    (if TitleColumn in t.columns then [Title] else []) + (if AuthorsColumn in t.columns then [Authors] else [])
  }

  /** The search choice names a present column whenever there is one to choose. */
  predicate ValidSearchField(t: Table, field: TextColumn)
  {
    SearchColumns(t) != [] ==> field in SearchColumns(t)
  }

  /**
   * The rows matching the search box. `field` is the column chosen from
   * SearchColumns(t); `query` is the text typed, before lower-casing.
   */
  function SearchBooks(t: Table, field: TextColumn, query: string): Table
    requires ValidSearchField(t, field)
  {
    if SearchColumns(t) == [] then t
    else
      var q := Lower(query);
      if q == [] then t
      else Table(t.columns, Where(t.rows, TextContains(field, q)))
  }

  /** Reference definition of a match: the lower-cased query occurs in the lower-cased cell text. */
  ghost predicate MatchesQuery(b: Record, field: TextColumn, query: string)
  {
    IsSubstringOf(Lower(query), Lower(CellText(TextOf(b, field))))
  }

  /**
   * An empty query, or a table with neither Title nor Authors, leaves the table
   * as it is. Otherwise the result keeps the columns and is the subsequence of the
   * rows, in order, at exactly the positions whose chosen field matches the query.
   */
  lemma SearchBooksSpec(t: Table, field: TextColumn, query: string)
    requires ValidSearchField(t, field)
    ensures query == [] || SearchColumns(t) == [] ==> SearchBooks(t, field, query) == t
    ensures query != [] && SearchColumns(t) != [] ==>
      && SearchBooks(t, field, query).columns == t.columns
      && ColumnName(field) in t.columns
      && exists idx :: Picks(t.rows, idx, SearchBooks(t, field, query).rows)
                       && forall i :: 0 <= i < |t.rows| ==> (i in idx <==> MatchesQuery(t.rows[i], field, query))
  {
    LowerKeepsLength(query);
    if query != [] && SearchColumns(t) != [] {
      var c := TextContains(field, Lower(query));
      forall b | true
        ensures Holds(c, b) <==> MatchesQuery(b, field, query)
      {
        ContainsIsSubstring(Lower(CellText(TextOf(b, field))), Lower(query));
      }
      WherePicks(t.rows, c);
    }
  }

  /** The query's letter case does not matter. */
  lemma SearchIgnoresCase(t: Table, field: TextColumn, query: string)
    requires ValidSearchField(t, field)
    ensures SearchBooks(t, field, query) == SearchBooks(t, field, Lower(query))
  {
    LowerIdempotent(query);
  }

  /** A missing cell is searched as the text "nan": it matches exactly the queries occurring in "nan". */
  lemma MissingCellMatchesNan(b: Record, field: TextColumn, query: string)
    requires TextOf(b, field) == None
    ensures Holds(TextContains(field, Lower(query)), b) <==> IsSubstringOf(Lower(query), "nan")
  {
    assert Lower(CellText(TextOf(b, field))) == "nan";
    ContainsIsSubstring("nan", Lower(query));
  }
}
