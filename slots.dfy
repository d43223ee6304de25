/** Where a requested hour lives on the booking portal: which of the three
    time-of-day tables shows it (the `D2` bucket code of the booking URL),
    which block of rows of that table belongs to it, and which cells of
    those rows may hold its reservation button. */
module Slots {
  import opened GoLib
  import Hours

  /** The rows `start..end` (inclusive) of the booking table that belong to
      one hour. */
  datatype Rows = Rows(start: int, end: int)

  /** A table cell: `tr[row]/td[col]` of the booking table's body. */
  datatype Cell = Cell(row: int, col: int)

  const ReserveUrlBase: string :=
    "https://bwd.xuanen.com.tw/wd02.aspx?module=net_booking&files=booking_place&StepFlag=2&PT=1&D="

  /** `getCellIndex`: the block of 13 rows holding hour `v` in its table,
      computed with Go's truncating remainder. */
  function CellIndex(v: int): (r: Rows)
  {
    var remainder := GoRem(v, 6);
    var start := remainder * 13 + 2;
    Rows(start, start + 12)
  }

  /** Every block is 13 rows long; for a non-negative hour it starts at
      row `(v mod 6) * 13 + 2`, so it lies within rows 2..79. */
  lemma CellIndexShape(v: int)
    ensures CellIndex(v).end - CellIndex(v).start + 1 == 13
    ensures v >= 0 ==> CellIndex(v).start == (v % 6) * 13 + 2
    ensures v >= 0 ==> 2 <= CellIndex(v).start && CellIndex(v).end <= 79
  {
  }

  /** Two hours six apart share their rows (they are shown in different
      tables). This needs `v >= 0`: Go's `%` keeps the sign of `v`. */
  lemma CellIndexPeriodic(v: int)
    requires v >= 0
    ensures CellIndex(v + 6) == CellIndex(v)
  {
  }

  /** For negative numbers the rows are not periodic: -1 and 5 differ. */
  lemma CellIndexNotPeriodicBelowZero()
    ensures CellIndex(-1) == Rows(-11, 1)
    ensures CellIndex(-1) != CellIndex(5)
  {
  }

  lemma CellIndexExamples()
    ensures CellIndex(14) == Rows(28, 40)
    ensures CellIndex(6) == CellIndex(12) == CellIndex(18) == Rows(2, 14)
  {
  }

  /** The time-of-day code chosen in `reserve`: "1" morning, "2" afternoon
      (12..17), "3" evening (after 17). */
  function BucketCode(hour: int): (code: string)
  {
    if 12 <= hour <= 17 then "2"
    else if hour > 17 then "3"
    else "1"
  }

  /** For a bookable hour the bucket is the hour's sixth: 6..11, 12..17 and
      18..21 form the three tables. */
  lemma BucketIsSixth(h1: int, h2: int)
    requires Hours.ValidHour(h1) && Hours.ValidHour(h2)
    ensures BucketCode(h1) == BucketCode(h2) <==> h1 / 6 == h2 / 6
  {
  }

  /** Within one table, a later bookable hour has its whole block of rows
      strictly below the block of an earlier one. */
  lemma SameBucketOrdered(h1: int, h2: int)
    requires Hours.ValidHour(h1) && Hours.ValidHour(h2)
    requires h1 < h2 && BucketCode(h1) == BucketCode(h2)
    ensures CellIndex(h1).end < CellIndex(h2).start
  {
    BucketIsSixth(h1, h2);
    var q := h1 / 6;
    assert h1 % 6 == h1 - 6 * q && h2 % 6 == h2 - 6 * q;
  }

  /** The table and the rows together identify a bookable hour. */
  lemma SlotIdentifiesHour(h1: int, h2: int)
    requires Hours.ValidHour(h1) && Hours.ValidHour(h2)
    requires BucketCode(h1) == BucketCode(h2) && CellIndex(h1) == CellIndex(h2)
    ensures h1 == h2
  {
    if h1 < h2 { SameBucketOrdered(h1, h2); }
    else if h2 < h1 { SameBucketOrdered(h2, h1); }
  }

  // ------------------------------------------------------- candidate cells

  /** Column 3 of rows `lo..hi`, top to bottom. */
  function ColumnThree(lo: int, hi: int): (cs: seq<Cell>)
    decreases hi - lo + 1
    ensures |cs| == if lo <= hi then hi - lo + 1 else 0
    ensures forall i :: 0 <= i < |cs| ==> cs[i] == Cell(lo + i, 3)
  {
    if lo > hi then [] else [Cell(lo, 3)] + ColumnThree(lo + 1, hi)
  }

  /** The cells the XPath union in `ensure` selects, in document order:
      column 4 of the first row, column 3 of every later row. */
  function Candidates(rows: Rows): (cs: seq<Cell>)
  {
    [Cell(rows.start, 4)] + ColumnThree(rows.start + 1, rows.end)
  }

  /** A cell is a candidate exactly when it is column 4 of the first row or
      column 3 of one of the other rows; candidates are listed with strictly
      increasing rows, so each appears once. */
  lemma CandidatesExact(rows: Rows)
    ensures forall c :: c in Candidates(rows) <==>
      c == Cell(rows.start, 4) || (c.col == 3 && rows.start + 1 <= c.row <= rows.end)
    ensures forall i, j :: 0 <= i < j < |Candidates(rows)| ==>
      Candidates(rows)[i].row < Candidates(rows)[j].row
    ensures rows.start <= rows.end ==> |Candidates(rows)| == rows.end - rows.start + 1
  {
    var cs := Candidates(rows);
    forall c | c == Cell(rows.start, 4) || (c.col == 3 && rows.start + 1 <= c.row <= rows.end)
      ensures c in cs
    {
      if c != Cell(rows.start, 4) { assert cs[c.row - rows.start] == c; }
    }
  }

  /** The position of the first cell of `cs`, at or after `from`, that holds
      a reservation button on `page`. */
  function FirstFrom(cs: seq<Cell>, page: set<Cell>, from: nat): (k: Option<nat>)
    requires from <= |cs|
    decreases |cs| - from
    ensures k.Some? ==> from <= k.value < |cs| && cs[k.value] in page
    ensures k.Some? ==> forall j :: from <= j < k.value ==> cs[j] !in page
    ensures k.None? ==> forall j :: from <= j < |cs| ==> cs[j] !in page
  {
    if from == |cs| then None
    else if cs[from] in page then Some(from)
    else FirstFrom(cs, page, from + 1)
  }

  /** The node `ensure` clicks: the first match of its lookup, where `page`
      is the set of cells that show a `PlaceBtn` image. */
  function FindSlot(rows: Rows, page: set<Cell>): (slot: Option<Cell>)
  {
    var cs := Candidates(rows);
    match FirstFrom(cs, page, 0)
    case None => None
    case Some(k) => Some(cs[k])
  }

  /** The clicked cell is a candidate holding a button, and no candidate
      above it holds one; no cell is clicked only when no candidate holds
      a button. */
  lemma FindSlotFirst(rows: Rows, page: set<Cell>)
    ensures FindSlot(rows, page).Some? ==>
      var c := FindSlot(rows, page).value;
      c in page && c in Candidates(rows) &&
      forall d :: d in page && d in Candidates(rows) ==> c.row <= d.row
    ensures FindSlot(rows, page).None? <==>
      forall d :: d in Candidates(rows) ==> d !in page
  {
    var cs := Candidates(rows);
    CandidatesExact(rows);
    var k := FirstFrom(cs, page, 0);
    if k.Some? {
      forall d | d in page && d in cs ensures cs[k.value].row <= d.row {
        var j :| 0 <= j < |cs| && cs[j] == d;
        if j < k.value { assert false; }
      }
    }
  }

  // ----------------------------------------------------------- booking URL

  /** The booking page for a date and an hour: `reserveUrlBase` followed by
      `YYYY/MM/DD&D2=<bucket>`, month and day zero padded to two digits. */
  function BookingUrl(year: int, month: int, day: int, hour: int): (url: string)
  {
    ReserveUrlBase + Itoa(year) + "/" + Pad2(month) + "/" + Pad2(day) + "&D2=" + BucketCode(hour)
  }

  /** The month, the day and the bucket can be read back from fixed offsets
      after the year, for any month and day of at most two digits (the date
      check lets a month 13 through in late December). */
  lemma BookingUrlFields(year: int, month: int, day: int, hour: int)
    requires 0 <= month <= 99 && 0 <= day <= 99
    ensures var u := BookingUrl(year, month, day, hour);
      var p := |ReserveUrlBase + Itoa(year) + "/"|;
      && |u| == p + 10
      && u[..p] == ReserveUrlBase + Itoa(year) + "/"
      && AllDigits(u[p..p + 2]) && DigitsValue(u[p..p + 2]) == month
      && u[p + 2] == '/'
      && AllDigits(u[p + 3..p + 5]) && DigitsValue(u[p + 3..p + 5]) == day
      && u[p + 5..] == "&D2=" + BucketCode(hour)
  {
    Pad2Digits(month);
    Pad2Digits(day);
    UrlLayout(ReserveUrlBase + Itoa(year) + "/", Pad2(month), Pad2(day), BucketCode(hour));
  }

  /** Where the pieces of `pre + m/d&D2=code` sit, for two-character `m`
      and `d`. */
  lemma UrlLayout(pre: string, m: string, d: string, code: string)
    requires |m| == 2 && |d| == 2
    ensures var u := pre + m + "/" + d + "&D2=" + code;
      var p := |pre|;
      && |u| == p + 9 + |code|
      && u[..p] == pre && u[p..p + 2] == m && u[p + 2] == '/'
      && u[p + 3..p + 5] == d && u[p + 5..] == "&D2=" + code
  {
    var u := pre + m + "/" + d + "&D2=" + code;
    var p := |pre|;
    assert u == pre + (m + ("/" + (d + ("&D2=" + code))));
  }
}
