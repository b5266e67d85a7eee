/**
 * The Orders page. An order schedules a recipe for a preparation date; the
 * page groups orders by that date (falling back to the order date), lists
 * the dates newest first, validates and submits the order form, and
 * exports the listed orders as CSV. The store is a parameter `accept`
 * that answers whether an operation succeeded.
 */
module Orders {
  import opened Wrappers
  import opened JsText
  import opened JsNumber
  import opened Calendar
  import opened ZonedDate
  import opened Csv
  import opened Sorting
  import opened Grouping
  import opened Lists

  datatype OrderItem = OrderItem(
    id: int,
    dayName: string,
    orderDate: string,
    prepDate: Option<string>,
    recipeName: string,
    quantity: real)

  /** `o.prep_date || o.order_date`: a missing or empty preparation date falls back to the order date. */
  function KeyDate(o: OrderItem): string {
    if o.prepDate.Some? && o.prepDate.value != [] then o.prepDate.value else o.orderDate
  }

  // ----- The order form

  /** The form's fields, as the inputs hold them (all text). */
  datatype FormData = FormData(dayName: string, orderDate: string, prepDate: string, recipeName: string, quantity: string)

  /** The row sent to the store. */
  datatype OrderPayload = OrderPayload(dayName: string, orderDate: string, prepDate: string, recipeName: string, quantity: Number)

  datatype OrderOp = UpdateOrder(id: int, payload: OrderPayload) | InsertOrders(rows: seq<OrderPayload>)

  datatype SubmitOutcome = ValidationError | SubmitFailed | Submitted

  datatype SubmitRun = SubmitRun(ops: seq<OrderOp>, outcome: SubmitOutcome)

  /**
   * handleSubmit. `editing` is the order being edited, if any. An order date
   * after the preparation date (as strings) is refused before any store
   * call; a preparation date the weekday formatter rejects throws inside the
   * `try` and ends as an error, also before any store call.
   */
  function Submit(form: FormData, editing: Option<OrderItem>, accept: OrderOp -> bool): (r: SubmitRun)
    ensures r.outcome == ValidationError <==> LexLess(form.prepDate, form.orderDate)
    ensures r.ops == [] <==> r.outcome == ValidationError || WeekdayFromDateString(form.prepDate).RangeError?
    ensures |r.ops| <= 1
    ensures r.ops != [] ==> r.outcome == (if accept(r.ops[0]) then Submitted else SubmitFailed)
    ensures r.ops != [] ==> r.ops[0] == (var p := OrderPayload(WeekdayFromDateString(form.prepDate).text,
      form.orderDate, form.prepDate, form.recipeName, StringToNumber(form.quantity));
      if editing.Some? then UpdateOrder(editing.value.id, p) else InsertOrders([p]))
  {
    if LexLess(form.prepDate, form.orderDate) then SubmitRun([], ValidationError)
    else
      var day := WeekdayFromDateString(form.prepDate);
      if !day.Text? then SubmitRun([], SubmitFailed)
      else
        var payload := OrderPayload(day.text, form.orderDate, form.prepDate, form.recipeName, StringToNumber(form.quantity));
        var op := if editing.Some? then UpdateOrder(editing.value.id, payload) else InsertOrders([payload]);
        SubmitRun([op], if accept(op) then Submitted else SubmitFailed)
  }

  /** The day the payload carries. */
  function PayloadDay(op: OrderOp): string {
    match op
    case UpdateOrder(_, p) => p.dayName
    case InsertOrders(rows) => if rows == [] then [] else rows[0].dayName
  }

  /**
   * Whatever the form's day field says, the submitted day is the lower-case
   * English weekday of the preparation date.
   */
  lemma SubmittedDay(form: FormData, editing: Option<OrderItem>, accept: OrderOp -> bool, k: int)
    requires ValidDateString(form.prepDate) && k == DayNumber(YmdOf(form.prepDate))
    requires !LexLess(form.prepDate, form.orderDate)
    ensures var r := Submit(form, editing, accept);
      |r.ops| == 1 && PayloadDay(r.ops[0]) == ToLower(WeekdayName(WeekDay(k)))
  {
    WeekdayOfValid(form.prepDate);
  }

  /** A valid form is never refused: an order date on or before the preparation date passes. */
  lemma ValidFormPasses(form: FormData, editing: Option<OrderItem>, accept: OrderOp -> bool)
    requires ValidDateString(form.orderDate) && ValidDateString(form.prepDate)
    requires DayNumber(YmdOf(form.orderDate)) <= DayNumber(YmdOf(form.prepDate))
    ensures Submit(form, editing, accept).outcome != ValidationError
  {
    DateStringOrder(form.prepDate, form.orderDate);
  }

  /** The dialog's state: the order being edited, if any, and the form. */
  datatype DialogState = DialogState(editing: Option<OrderItem>, form: FormData)

  /** resetForm: today's date in both date fields and its weekday (the weekday formatter may throw). */
  function ResetForm(today: string): (r: Option<FormData>)
    ensures r.Some? <==> WeekdayFromDateString(today).Text?
    ensures r.Some? ==> r.value == FormData(WeekdayFromDateString(today).text, today, today, "", "1")
  {
    var day := WeekdayFromDateString(today);
    if day.Text? then Some(FormData(day.text, today, today, "", "1")) else None
  }

  /**
   * Submitting the reset form unchanged, whatever today is, passes the date
   * check and inserts one new order for today and one portion.
   */
  lemma ResetFormPasses(today: string, accept: OrderOp -> bool)
    requires ResetForm(today).Some?
    ensures var r := Submit(ResetForm(today).value, None, accept);
      && r.outcome != ValidationError
      && r.ops == [InsertOrders([OrderPayload(ResetForm(today).value.dayName, today, today, "", Finite(1.0))])]
  {
    LexLessIrreflexive(today);
    assert StringToNumber("1") == Finite(1.0) by {
      assert AllDigits("1", 10) by { assert IsDigit("1"[0], 10); }
      assert DigitsValue("1", 10) == 1 by { assert "1"[..0] == []; }
      DigitsToNumber("1");
    }
  }

  /** For a valid date `today`, day `k`, the form opens, showing that day's lower-case weekday. */
  lemma ResetFormOfValid(today: string, k: int)
    requires ValidDateString(today) && k == DayNumber(YmdOf(today))
    ensures ResetForm(today).Some?
    ensures ResetForm(today).value.dayName == ToLower(WeekdayName(WeekDay(k)))
  {
    WeekdayOfValid(today);
  }

  /**
   * openDialog: for an order, its dates with the preparation date falling
   * back to the order date, and the weekday of that key date; without one,
   * the reset form. `show` is `Number.prototype.toString`. `None` when the
   * weekday formatter throws and the dialog does not open.
   */
  function OpenDialog(order: Option<OrderItem>, today: string, show: real -> string): (r: Option<DialogState>)
    ensures order.None? ==> r == (var f := ResetForm(today); if f.Some? then Some(DialogState(None, f.value)) else None)
    ensures order.Some? ==> (r.Some? <==> WeekdayFromDateString(KeyDate(order.value)).Text?)
    ensures order.Some? && r.Some? ==>
      && r.value.editing == order
      && r.value.form.prepDate == KeyDate(order.value)
      && r.value.form.orderDate == order.value.orderDate
      && r.value.form.dayName == WeekdayFromDateString(r.value.form.prepDate).text
      && r.value.form.recipeName == order.value.recipeName
      && r.value.form.quantity == show(order.value.quantity)
  {
    if order.None? then
      var f := ResetForm(today);
      if f.Some? then Some(DialogState(None, f.value)) else None
    else
      var o := order.value;
      var keyDate := KeyDate(o);
      var day := WeekdayFromDateString(keyDate);
      if day.Text? then Some(DialogState(order, FormData(day.text, o.orderDate, keyDate, o.recipeName, show(o.quantity))))
      else None
  }

  /** The preparation date shown when editing is the stored one, or the order date when that is missing or empty. */
  lemma EditedPrepDate(o: OrderItem, today: string, show: real -> string)
    requires OpenDialog(Some(o), today, show).Some?
    ensures var f := OpenDialog(Some(o), today, show).value.form;
      (o.prepDate.Some? && o.prepDate.value != [] ==> f.prepDate == o.prepDate.value)
      && (o.prepDate.None? || o.prepDate.value == [] ==> f.prepDate == o.orderDate)
  {
  }

  /** Re-submitting an order opened for editing updates that order, with the prep date it was shown. */
  lemma ResubmitUpdates(o: OrderItem, today: string, show: real -> string, accept: OrderOp -> bool)
    requires OpenDialog(Some(o), today, show).Some?
    requires !LexLess(KeyDate(o), o.orderDate)
    ensures var d := OpenDialog(Some(o), today, show).value;
      var r := Submit(d.form, d.editing, accept);
      |r.ops| == 1 && r.ops[0].UpdateOrder? && r.ops[0].id == o.id && r.ops[0].payload.prepDate == KeyDate(o)
  {
  }

  // ----- Grouping by date

  /** groupedByDate: the orders of each key date, in list order, with the dates in first-seen order. */
  method GroupedByDate(orders: seq<OrderItem>) returns (dates: seq<string>, groups: map<string, seq<OrderItem>>)
    ensures dates == KeysInOrder(orders, KeyDate)
    ensures forall k :: k in groups <==> k in dates
    ensures forall k :: k in groups ==> groups[k] == Members(orders, KeyDate, k)
  {
    dates, groups := GroupBy(orders, KeyDate);
  }

  /** Each order is in the group of its key date, and in no other. */
  lemma OrderInOneGroup(orders: seq<OrderItem>, j: int, k: string)
    requires 0 <= j < |orders|
    ensures orders[j] in Members(orders, KeyDate, k) <==> k == KeyDate(orders[j])
  {
    ItemInGroup(orders, KeyDate, j);
    MembersHaveKey(orders, KeyDate, k);
  }

  /** The groups' sizes add up to the number of orders. */
  lemma GroupsCoverOrders(orders: seq<OrderItem>)
    ensures GroupSizes(KeysInOrder(orders, KeyDate), orders, KeyDate) == |orders|
  {
    GroupsPartition(orders, KeyDate);
  }

  function DateKey(s: string): string { s }

  /** sortedDates: the group dates, newest first, with the comparator `a < b ? 1 : a > b ? -1 : 0`. */
  function SortedDates(dates: seq<string>): seq<string> {
    SortBy(dates, DateKey, true)
  }

  /** The sorted dates are exactly the group dates, each once, in strictly descending order. */
  lemma SortedDatesDescending(orders: seq<OrderItem>)
    ensures var s := SortedDates(KeysInOrder(orders, KeyDate));
      (forall i, j :: 0 <= i < j < |s| ==> LexLess(s[j], s[i]))
      && multiset(s) == multiset(KeysInOrder(orders, KeyDate))
  {
    var ks := KeysInOrder(orders, KeyDate);
    KeysDistinct(orders, KeyDate);
    SortStrict(ks, DateKey, true);
    SortPermutes(ks, DateKey, true);
  }

  // ----- CSV export

  const Header: seq<string> := ["Preparation Date", "Day", "Recipe", "Quantity", "Order Date"]

  /** One exported row, or `None` when the weekday formatter throws. `show` is `String(quantity)`. */
  function CsvRow(o: OrderItem, show: real -> string): Option<seq<string>> {
    var keyDate := KeyDate(o);
    var day := WeekdayFromDateString(keyDate);
    if day.Text? then Some([keyDate, day.text, o.recipeName, show(o.quantity), o.orderDate]) else None
  }

  /** The rows for all orders, or `None` when any of them throws. */
  function CsvRows(orders: seq<OrderItem>, show: real -> string): (r: Option<seq<seq<string>>>)
    ensures r.Some? <==> forall i :: 0 <= i < |orders| ==> CsvRow(orders[i], show).Some?
    ensures r.Some? ==> |r.value| == |orders| && forall i :: 0 <= i < |orders| ==> r.value[i] == CsvRow(orders[i], show).value
  {
    AllSome(orders, o => CsvRow(o, show))
  }

  /** exportCsv: the header and one row per order, every field quoted. */
  function OrdersCsv(orders: seq<OrderItem>, show: real -> string): Option<string> {
    var rows := CsvRows(orders, show);
    if rows.Some? then Some(Document([Header] + rows.value)) else None
  }

  /** Every order's row has fields, as the reader needs. */
  lemma CsvRowsHaveFields(orders: seq<OrderItem>, show: real -> string)
    requires CsvRows(orders, show).Some?
    ensures RowsHaveFields(CsvRows(orders, show).value)
  {
  }

  /**
   * Reading the exported text back gives the header, then one row per
   * order: key date, weekday, recipe, quantity and order date.
   */
  lemma OrdersCsvReadsBack(orders: seq<OrderItem>, show: real -> string)
    requires OrdersCsv(orders, show).Some?
    ensures var rows := ParseRows(OrdersCsv(orders, show).value);
      rows.Some? && |rows.value| == |orders| + 1 && rows.value[0] == Header
      && forall i :: 0 <= i < |orders| ==> rows.value[i + 1] == CsvRow(orders[i], show).value
  {
    OrdersCsvParses(orders, show);
    var body := CsvRows(orders, show).value;
    assert ([Header] + body)[0] == Header;
    forall i | 0 <= i < |orders| ensures ([Header] + body)[i + 1] == CsvRow(orders[i], show).value {
      assert ([Header] + body)[i + 1] == body[i];
    }
  }

  lemma OrdersCsvParses(orders: seq<OrderItem>, show: real -> string)
    requires OrdersCsv(orders, show).Some?
    ensures ParseRows(OrdersCsv(orders, show).value) == Some([Header] + CsvRows(orders, show).value)
  {
    CsvRowsHaveFields(orders, show);
    HeaderAndRows(Header, CsvRows(orders, show).value);
  }

  /** An export where every key date is a valid date string never throws. */
  lemma ValidDatesExport(orders: seq<OrderItem>, show: real -> string)
    requires forall i :: 0 <= i < |orders| ==> ValidDateString(KeyDate(orders[i]))
    ensures OrdersCsv(orders, show).Some?
  {
    forall i | 0 <= i < |orders| ensures CsvRow(orders[i], show).Some? {
      WeekdayOfValid(KeyDate(orders[i]));
    }
  }
}
