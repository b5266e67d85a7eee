/**
 * The Summary page: the daily ingredient totals of a date range, shown one
 * card per order date, and exported as CSV. The range starts at today and
 * tomorrow; its two bounds are corrected as on the Orders page (the
 * RangeFilter class of module DateRange).
 */
module Summary {
  import opened Wrappers
  import opened JsText
  import opened Calendar
  import opened ZonedDate
  import opened Csv
  import opened Grouping

  /** A row of the daily ingredient summary view. */
  datatype SummaryRow = SummaryRow(orderDate: string, dayName: string, ingredient: string, unit: string, totalQuantity: real)

  function RowDate(r: SummaryRow): string { r.orderDate }

  // ----- The default range

  /**
   * The range starts at today and `addDaysInTZ(today, 1)`: for today's day
   * number `k`, the next day's text, which is strictly later as a string, so
   * the initial range is ordered.
   */
  lemma DefaultRangeOrdered(k: int, j: int)
    requires j == k + 1 && InYears(k) && InYears(j)
    ensures AddDays(DayText(k), 1) == Text(DayText(j))
    ensures LexLess(DayText(k), DayText(j))
  {
    AddDaysOfDay(k, 1, j);
    DayTextValid(k);
    DayTextValid(j);
    DateStringOrder(DayText(k), DayText(j));
  }

  // ----- CSV export

  const Headers: seq<string> := ["Date", "Day", "Ingredient", "Total Quantity", "Unit"]

  /** One exported row. `show` is `String(total_quantity)`. */
  function CsvFields(r: SummaryRow, show: real -> string): seq<string> {
    [r.orderDate, r.dayName, r.ingredient, show(r.totalQuantity), r.unit]
  }

  function CsvBody(rows: seq<SummaryRow>, show: real -> string): (b: seq<seq<string>>)
    ensures |b| == |rows| && forall i :: 0 <= i < |rows| ==> b[i] == CsvFields(rows[i], show)
  {
    if rows == [] then [] else [CsvFields(rows[0], show)] + CsvBody(rows[1..], show)
  }

  /** exportToCSV: the header row, then one row per summary row, every field quoted. */
  function SummaryCsv(rows: seq<SummaryRow>, show: real -> string): string {
    Document([Headers] + CsvBody(rows, show))
  }

  /** No header name holds a double quote, so each is written only wrapped in quotes. */
  lemma HeaderFieldsQuoted()
    ensures |QuoteAll(Headers)| == 5
    ensures forall i :: 0 <= i < 5 ==> QuoteAll(Headers)[i] == "\"" + Headers[i] + "\""
  {
    assert '"' !in Headers[0];
    assert '"' !in Headers[1];
    assert '"' !in Headers[2];
    assert '"' !in Headers[3];
    assert '"' !in Headers[4];
    QuoteAllWithoutQuotes(Headers);
  }

  /**
   * The file starts with the header line, the five quoted names joined by
   * commas, followed by a newline when there are rows.
   */
  lemma SummaryCsvHeader(rows: seq<SummaryRow>, show: real -> string)
    ensures var doc, head := SummaryCsv(rows, show), Join(QuoteAll(Headers), ',');
      |doc| >= |head| && doc[..|head|] == head
      && (rows != [] ==> |doc| > |head| && doc[|head|] == '\n')
  {
    DocumentStartsWithFirstRow([Headers] + CsvBody(rows, show));
  }

  /** Reading the file back gives the header and then every row's five fields, in order. */
  lemma SummaryCsvReadsBack(rows: seq<SummaryRow>, show: real -> string)
    ensures var parsed := ParseRows(SummaryCsv(rows, show));
      parsed.Some? && |parsed.value| == |rows| + 1 && parsed.value[0] == Headers
      && forall i :: 0 <= i < |rows| ==> parsed.value[i + 1] == CsvFields(rows[i], show)
  {
    SummaryCsvParses(rows, show);
    var body := CsvBody(rows, show);
    assert ([Headers] + body)[0] == Headers;
    forall i | 0 <= i < |rows| ensures ([Headers] + body)[i + 1] == CsvFields(rows[i], show) {
      assert ([Headers] + body)[i + 1] == body[i];
    }
  }

  lemma SummaryCsvParses(rows: seq<SummaryRow>, show: real -> string)
    ensures ParseRows(SummaryCsv(rows, show)) == Some([Headers] + CsvBody(rows, show))
  {
    var body := CsvBody(rows, show);
    assert RowsHaveFields(body);
    HeaderAndRows(Headers, body);
  }

  // ----- Grouping by date

  /** A card: the day name and the rows of one date. */
  datatype DayGroup = DayGroup(day: string, items: seq<SummaryRow>)

  /** The card of date `k`: its rows in input order, named by the first one's day. */
  function GroupOf(rows: seq<SummaryRow>, k: string): DayGroup {
    var m := Members(rows, RowDate, k);
    if m == [] then DayGroup("", []) else DayGroup(m[0].dayName, m)
  }

  /** One more row changes only the card of its date: it opens it, or joins it at the end. */
  lemma GroupOfStep(rows: seq<SummaryRow>, i: int, k: string)
    requires 0 <= i < |rows|
    ensures var x := rows[i];
      && (x.orderDate != k ==> GroupOf(rows[..i + 1], k) == GroupOf(rows[..i], k))
      && (x.orderDate == k && Members(rows[..i], RowDate, k) == [] ==>
        GroupOf(rows[..i + 1], k) == DayGroup(x.dayName, [x]))
      && (x.orderDate == k && Members(rows[..i], RowDate, k) != [] ==>
        GroupOf(rows[..i + 1], k) == GroupOf(rows[..i], k).(items := Members(rows[..i], RowDate, k) + [x]))
  {
    assert rows[..i + 1][..i] == rows[..i];
  }

  /** groupedByDate: the `acc` loop, with `dates` the insertion order of its keys. */
  method GroupedByDate(summary: seq<SummaryRow>) returns (dates: seq<string>, acc: map<string, DayGroup>)
    ensures dates == KeysInOrder(summary, RowDate)
    ensures forall k :: k in acc <==> k in dates
    ensures forall k :: k in acc ==> acc[k] == GroupOf(summary, k)
  {
    dates, acc := [], map[];
    for i := 0 to |summary|
      invariant dates == KeysInOrder(summary[..i], RowDate)
      invariant forall k :: k in acc <==> k in dates
      invariant forall k :: k in acc ==> acc[k] == GroupOf(summary[..i], k)
    {
      var row := summary[i];
      assert summary[..i + 1][..i] == summary[..i];
      assert summary[..i + 1][i] == row;
      MembersOfListed(summary[..i], RowDate, row.orderDate);
      if row.orderDate !in acc {
        acc := acc[row.orderDate := DayGroup(row.dayName, [])];
        dates := dates + [row.orderDate];
      }
      acc := acc[row.orderDate := acc[row.orderDate].(items := acc[row.orderDate].items + [row])];
      forall k | k in acc ensures acc[k] == GroupOf(summary[..i + 1], k) {
        GroupOfStep(summary, i, k);
      }
    }
    assert summary[..|summary|] == summary;
  }

  /** A card's day is the day name of the first row of its date, and its rows all have that date. */
  lemma GroupDayFromFirstRow(rows: seq<SummaryRow>, j: int)
    requires 0 <= j < |rows|
    requires forall i :: 0 <= i < j ==> rows[i].orderDate != rows[j].orderDate
    ensures GroupOf(rows, rows[j].orderDate).day == rows[j].dayName
    ensures forall x :: x in GroupOf(rows, rows[j].orderDate).items ==> x.orderDate == rows[j].orderDate
  {
    FirstMember(rows, RowDate, j);
    MembersHaveKey(rows, RowDate, rows[j].orderDate);
  }

  /** Each row is on the card of its date and on no other; the cards hold every row once. */
  lemma RowInOneGroup(rows: seq<SummaryRow>, j: int, k: string)
    requires 0 <= j < |rows|
    ensures rows[j] in GroupOf(rows, k).items <==> k == rows[j].orderDate
    ensures GroupSizes(KeysInOrder(rows, RowDate), rows, RowDate) == |rows|
  {
    ItemInGroup(rows, RowDate, j);
    MembersHaveKey(rows, RowDate, k);
    GroupsPartition(rows, RowDate);
  }

  /** Each card is headed by its date's heading, which starts with the capitalised weekday of the Orders page. */
  lemma CardHeading(date: string)
    ensures HeadingForDate(date).Text? ==>
      WeekdayFromDateString(date).Text? && Cap(WeekdayFromDateString(date).text) + ", " <= HeadingForDate(date).text
  {
    HeadingAgreesWithWeekday(date);
  }
}
