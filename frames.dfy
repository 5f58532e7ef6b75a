/**
 * The book table as loaded from the uploaded CSV file: a set of column names and
 * the rows in file order, with the date columns already parsed. Boolean row masks
 * are `Criterion` values, and selecting the rows of a mask is `Where`.
 */
module Frames {

  import opened Wrappers
  import opened Text
  import Dates

  const TitleColumn: string := "Title"
  const AuthorsColumn: string := "Authors"
  const StatusColumn: string := "Status"
  const ConditionColumn: string := "Condition"
  const CategoryColumn: string := "Category"
  const IssueDateColumn: string := "Issue_Date"
  const ReturnDateColumn: string := "Return_Date"
  const YearColumn: string := "Year"

  /**
   * One book. A field is None when the cell is missing or (for a date) could not be
   * parsed; a field of a column that the table does not have is never consulted.
   */
  datatype Record = Record(
    title: Option<string>,
    authors: Option<string>,
    status: Option<string>,
    condition: Option<string>,
    category: Option<string>,
    issueDate: Option<int>,
    returnDate: Option<int>,
    year: Option<int>)

  /** A data frame: the column names it has (recognised or not) and its rows in order. */
  datatype Table = Table(columns: set<string>, rows: seq<Record>)

  /** A frame is empty when it has no rows or no columns. */
  predicate IsEmpty(t: Table)
  {
    |t.rows| == 0 || t.columns == {}
  }

  /** A freshly constructed frame, with neither rows nor columns. */
  const EmptyFrame: Table := Table({}, [])

  /** The two text columns the search box can search. */
  datatype TextColumn = Title | Authors

  function ColumnName(f: TextColumn): string
  {
    match f
    case Title => TitleColumn
    case Authors => AuthorsColumn
  }

  function TextOf(b: Record, f: TextColumn): Option<string>
  {
    match f
    case Title => b.title
    case Authors => b.authors
  }

  /** Converting a cell to text: a missing cell becomes the text "nan". */
  function CellText(v: Option<string>): string
  {
    match v
    case Some(s) => s
    case None => "nan"
  }

  /** A boolean mask over the rows, computed from each row alone. */
  datatype Criterion =
    | StatusIs(status: string)                  // Status == status
    | ConditionIs(condition: string)            // Condition == condition
    | ConditionIn(conditions: set<string>)      // Condition.isin(conditions)
    | CategoryIs(category: string)              // Category == category
    | ReturnDateMissing                         // Return_Date.isna()
    | DaysSinceIssueOver(now: int, days: int)   // (now - Issue_Date).days > days
    | TextContains(field: TextColumn, query: string)
    | Both(left: Criterion, right: Criterion)   // left & right

  /** Whether the mask is true for a row. A missing value fails every comparison. */
  predicate Holds(c: Criterion, b: Record)
  {
    match c
    case StatusIs(s) => b.status == Some(s)
    case ConditionIs(s) => b.condition == Some(s)
    case ConditionIn(ss) => b.condition.Some? && b.condition.value in ss
    case CategoryIs(g) => b.category == Some(g)
    case ReturnDateMissing => b.returnDate.None?
    case DaysSinceIssueOver(now, days) =>
      b.issueDate.Some? && Dates.WholeDays(now, b.issueDate.value) > days
    case TextContains(f, q) => Contains(Lower(CellText(TextOf(b, f))), q)
    case Both(l, r) => Holds(l, b) && Holds(r, b)
  }

  /** The rows for which the mask holds, in their original order. */
  function Where(s: seq<Record>, c: Criterion): (r: seq<Record>)
    ensures |r| <= |s|
    ensures forall b :: b in r ==> b in s && Holds(c, b)
    ensures forall i :: 0 <= i < |s| && Holds(c, s[i]) ==> s[i] in r
  {
    if s == [] then []
    else if Holds(c, s[0]) then [s[0]] + Where(s[1..], c)
    else Where(s[1..], c)
  }

  /** Selecting from a row followed by more rows. */
  lemma WhereCons(b: Record, s: seq<Record>, c: Criterion)
    ensures Where([b] + s, c) == (if Holds(c, b) then [b] else []) + Where(s, c)
  {
    assert ([b] + s)[1..] == s;
  }

  /**
   * `r` is the subsequence of `s` at the strictly increasing positions `idx`:
   * order is kept and no row is taken twice.
   */
  ghost predicate Picks<T>(s: seq<T>, idx: seq<int>, r: seq<T>)
  {
    && |idx| == |r|
    && (forall k :: 0 <= k < |idx| ==> 0 <= idx[k] < |s| && r[k] == s[idx[k]])
    && (forall j, k :: 0 <= j < k < |idx| ==> idx[j] < idx[k])
  }

  /** Every position moved one further along. */
  ghost function Shift(idx: seq<int>): (r: seq<int>)
    ensures |r| == |idx|
    ensures forall k :: 0 <= k < |idx| ==> r[k] == idx[k] + 1
  {
    seq(|idx|, k requires 0 <= k < |idx| => idx[k] + 1)
  }

  /** The positions of `s` at which the mask holds, in increasing order. */
  ghost function Positions(s: seq<Record>, c: Criterion): seq<int>
  {
    if s == [] then []
    else if Holds(c, s[0]) then [0] + Shift(Positions(s[1..], c))
    else Shift(Positions(s[1..], c))
  }

  lemma ShiftMember(idx: seq<int>, i: int)
    ensures i in Shift(idx) <==> i - 1 in idx
  {
    if i - 1 in idx {
      var k :| 0 <= k < |idx| && idx[k] == i - 1;
      assert Shift(idx)[k] == i;
    }
  }

  /** Picks from the tail of a sequence carry over to the whole sequence, with or without its head. */
  lemma PicksCons<T>(s: seq<T>, idx: seq<int>, r: seq<T>)
    requires s != [] && Picks(s[1..], idx, r)
    ensures Picks(s, Shift(idx), r)
    ensures Picks(s, [0] + Shift(idx), [s[0]] + r)
  {
    var sh := Shift(idx);
    assert forall k :: 0 <= k < |sh| ==> 1 <= sh[k] < |s| && r[k] == s[sh[k]];
    var idx', r' := [0] + sh, [s[0]] + r;
    assert forall k :: 1 <= k < |idx'| ==> idx'[k] == sh[k - 1] && r'[k] == r[k - 1];
  }

  lemma {:induction false} PositionsPick(s: seq<Record>, c: Criterion)
    ensures Picks(s, Positions(s, c), Where(s, c))
    ensures forall i :: 0 <= i < |s| ==> (i in Positions(s, c) <==> Holds(c, s[i]))
  {
    if s != [] {
      var rest := Positions(s[1..], c);
      PositionsPick(s[1..], c);
      PicksCons(s, rest, Where(s[1..], c));
      forall i | 0 <= i < |s|
        ensures i in Positions(s, c) <==> Holds(c, s[i])
      {
        ShiftMember(rest, i);
        if i > 0 {
          assert s[i] == s[1..][i - 1];
        }
      }
    }
  }

  /**
   * Selecting by a mask keeps exactly the rows at which the mask holds, in order:
   * the result is picked at increasing positions, and those positions are all of
   * the positions where the mask is true.
   */
  lemma WherePicks(s: seq<Record>, c: Criterion)
    ensures exists idx :: Picks(s, idx, Where(s, c))
                          && forall i :: 0 <= i < |s| ==> (i in idx <==> Holds(c, s[i]))
  {
    PositionsPick(s, c);
  }

  /** Selecting by one mask and then by another is selecting by their conjunction. */
  lemma {:induction false} WhereBoth(s: seq<Record>, a: Criterion, b: Criterion)
    ensures Where(Where(s, a), b) == Where(s, Both(a, b))
  {
    if s != [] {
      var h, tail := s[0], s[1..];
      assert s == [h] + tail;
      WhereBoth(tail, a, b);
      WhereCons(h, tail, a);
      WhereCons(h, tail, Both(a, b));
      assert Holds(Both(a, b), h) <==> Holds(a, h) && Holds(b, h);
      if Holds(a, h) {
        WhereCons(h, Where(tail, a), b);
      }
    }
  }

  /** Three masks that are never true together on one row select at most all the rows between them. */
  lemma {:induction false} WhereDisjointCounts(s: seq<Record>, a: Criterion, b: Criterion, c: Criterion)
    requires forall i :: 0 <= i < |s| ==> !(Holds(a, s[i]) && Holds(b, s[i]))
    requires forall i :: 0 <= i < |s| ==> !(Holds(a, s[i]) && Holds(c, s[i]))
    requires forall i :: 0 <= i < |s| ==> !(Holds(b, s[i]) && Holds(c, s[i]))
    ensures |Where(s, a)| + |Where(s, b)| + |Where(s, c)| <= |s|
  {
    if s != [] {
      assert forall i :: 0 <= i < |s[1..]| ==> s[1..][i] == s[i + 1];
      WhereDisjointCounts(s[1..], a, b, c);
    }
  }
}
