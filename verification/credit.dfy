/** The card-statement side of the ledger update (`collect_values` of the
    four-column sheet): each bill dated today becomes the row
    [description, formatted amount, title, date]. */
module Credit {
  import opened Outcomes
  import opened Text
  import opened Numerals
  import opened Amounts
  import opened Dates
  import opened Scan

  /** A card-statement entry, reduced to the fields the code reads; the
      amount is in cents. */
  datatype Bill = Bill(time: string, description: string, amount: int, title: string)

  /** The scan's date test: `split_date` of the bill's timestamp, read as
      (year, month, day). */
  function BilledOn(w: Window): Bill -> Result<bool> {
    (b: Bill) => OnDay(SplitDate(b.time), w)
  }

  /** `Decimal(parse_value(amount))`: InvalidOperation when the text is no
      numeral. */
  function AmountOf(b: Bill): Result<Decimal> {
    match DecimalText(ParseValue(b.amount))
    case None => Err(InvalidOperation)
    case Some(d) => Ok(d)
  }

  /** The amount parses exactly when it is not a negative single digit,
      for which `parse_value` writes ".-d". */
  lemma AmountOfParses(b: Bill)
    ensures AmountOf(b).Err? <==> -9 <= b.amount <= -1
    ensures AmountOf(b).Err? ==> AmountOf(b).error == InvalidOperation
    ensures (b.amount >= 10 || b.amount <= -10) ==> AmountOf(b) == Ok(Decimal(b.amount, 2))
    ensures 0 <= b.amount <= 9 ==> AmountOf(b) == Ok(Decimal(b.amount, 1))
  {
    if b.amount >= 10 || b.amount <= -10 {
      ParseValueDenotesCents(b.amount);
    } else if b.amount >= 0 {
      ParseValueSingleDigitTenfold(b.amount);
    } else {
      ParseValueNegativeDigitRejected(b.amount);
    }
  }

  /** The loop body as written: the amount cell, then `"-".join` over the
      ints `split_date` yields, which raises TypeError. `fmt` stands for the
      currency formatter. */
  function BillRow(fmt: real -> string, b: Bill): Classified<seq<string>> {
    match AmountOf(b)
    case Err(x) => Failure(x)
    case Ok(d) =>
      var cell := fmt(d.Value());
      match SplitDate(b.time)
      case Err(x) => Failure(x)
      case Ok(fields) =>
        match PyJoin("-", seq(|fields|, i requires 0 <= i < |fields| => PyInt(fields[i])))
        case Err(x) => Failure(x)
        case Ok(date) => Row([b.description, cell, b.title, date])
  }

  function BillRows(fmt: real -> string): Bill -> Classified<seq<string>> {
    (b: Bill) => BillRow(fmt, b)
  }

  /** `collect_values` as written: today's date from the clock, then the
      scan. */
  function CollectValues(feed: seq<Bill>, clock: DateTime, fmt: real -> string): (r: Result<seq<seq<string>>>)
    requires ValidDateTime(clock)
    ensures r.Ok? ==> |r.value| <= |feed|
  {
    match CurrentDateBr(clock)
    case Err(x) => Err(x)
    case Ok(w) => Collect(feed, BilledOn(w), BillRows(fmt))
  }

  /** As written, no bill yields a row: a bill whose date splits into fields
      raises TypeError at the join, or InvalidOperation first when its
      amount is a negative single digit. */
  lemma BillRowFails(fmt: real -> string, b: Bill)
    requires SplitDate(b.time).Ok? && |SplitDate(b.time).value| == 3
    ensures BillRow(fmt, b) == Failure(if -9 <= b.amount <= -1 then InvalidOperation else TypeError)
  {
    AmountOfParses(b);
    var fields := SplitDate(b.time).value;
    var items := seq(|fields|, i requires 0 <= i < |fields| => PyInt(fields[i]));
    assert items[0].PyInt?;
  }

  /** Hence `collect_values` as written never returns a row: it returns
      the empty list or raises. */
  lemma CollectValuesNoRows(feed: seq<Bill>, clock: DateTime, fmt: real -> string)
    requires ValidDateTime(clock) && CollectValues(feed, clock, fmt).Ok?
    ensures CollectValues(feed, clock, fmt).value == []
  {
    var rows := CollectValues(feed, clock, fmt).value;
    if |rows| > 0 {
      var i := CollectRowSource(feed, BilledOn(Today(clock)), BillRows(fmt), 0);
      BillRowFails(fmt, feed[i]);
    }
  }

  /** An empty feed, or one whose first bill is dated another day, yields
      no rows; a first bill dated today makes the call raise. */
  lemma CollectValuesFirstBill(feed: seq<Bill>, clock: DateTime, fmt: real -> string)
    requires ValidDateTime(clock)
    ensures (|feed| == 0 || BilledOn(Today(clock))(feed[0]) == Ok(false)) ==> CollectValues(feed, clock, fmt) == Ok([])
    ensures |feed| > 0 && BilledOn(Today(clock))(feed[0]) == Ok(true) ==>
      CollectValues(feed, clock, fmt) == Err(if -9 <= feed[0].amount <= -1 then InvalidOperation else TypeError)
  {
    if |feed| > 0 && BilledOn(Today(clock))(feed[0]) == Ok(true) {
      BillRowFails(fmt, feed[0]);
    }
  }

  /** The loop body corrected: the amount read in cents, and the date cell
      made of the date text itself (the `-`-separated fields joined as
      strings). */
  function BillRowFixed(fmt: real -> string, b: Bill): Classified<seq<string>> {
    match DecimalText(ParseValueCents(b.amount))
    case None => Failure(InvalidOperation)
    case Some(d) => Row([b.description, fmt(d.Value()), b.title, Join("-", Split(DatePart(b.time), "-"))])
  }

  function BillRowsFixed(fmt: real -> string): Bill -> Classified<seq<string>> {
    (b: Bill) => BillRowFixed(fmt, b)
  }

  /** `collect_values` with the corrected loop body and the clock read once. */
  function CollectValuesFixed(feed: seq<Bill>, clock: DateTime, fmt: real -> string): (r: Result<seq<seq<string>>>)
    requires ValidDateTime(clock)
    ensures r.Ok? ==> |r.value| <= |feed|
  {
    Collect(feed, BilledOn(Today(clock)), BillRowsFixed(fmt))
  }

  /** Every bill yields its row: the amount as hundredths and the date part
      of the timestamp, which `split_date` reads as the bill's own date. */
  lemma BillRowFixedCells(fmt: real -> string, b: Bill)
    ensures BillRowFixed(fmt, b) == Row([b.description, fmt(b.amount as real / 100.0), b.title, DatePart(b.time)])
    ensures SplitDate(DatePart(b.time)) == SplitDate(b.time)
  {
    assert Join("-", Split(DatePart(b.time), "-")) == DatePart(b.time) by {
      SplitJoin(DatePart(b.time), "-");
    }
    assert fmt(DecimalText(ParseValueCents(b.amount)).value.Value()) == fmt(b.amount as real / 100.0) by {
      ParseValueCentsDenotesCents(b.amount);
    }
    DatePartIdempotent(b.time);
  }

  /** With the corrections, the rows are the bills of the longest prefix
      dated today, one row per bill, in feed order. */
  lemma CollectValuesFixedRows(feed: seq<Bill>, clock: DateTime, fmt: real -> string, k: nat)
    requires ValidDateTime(clock) && StopsAt(feed, BilledOn(Today(clock)), BillRowsFixed(fmt), k)
    ensures CollectValuesFixed(feed, clock, fmt).Ok?
    ensures |CollectValuesFixed(feed, clock, fmt).value| == k
    ensures forall i :: 0 <= i < k ==>
      CollectValuesFixed(feed, clock, fmt).value[i]
        == [feed[i].description, fmt(feed[i].amount as real / 100.0), feed[i].title, DatePart(feed[i].time)]
  {
    var resolve := BillRowsFixed(fmt);
    forall i | 0 <= i < k
      ensures resolve(feed[..k][i]) == Row([feed[i].description, fmt(feed[i].amount as real / 100.0), feed[i].title, DatePart(feed[i].time)])
    {
      BillRowFixedCells(fmt, feed[i]);
    }
    KeptAllRows(feed[..k], resolve);
    CollectStops(feed, BilledOn(Today(clock)), resolve, k);
  }

  /** With the corrections, every row has four cells and its date cell
      reads as today. */
  lemma CollectValuesFixedDates(feed: seq<Bill>, clock: DateTime, fmt: real -> string, j: nat)
    requires ValidDateTime(clock) && CollectValuesFixed(feed, clock, fmt).Ok?
    requires j < |CollectValuesFixed(feed, clock, fmt).value|
    ensures |CollectValuesFixed(feed, clock, fmt).value[j]| == 4
    ensures SplitDate(CollectValuesFixed(feed, clock, fmt).value[j][3]) == Ok([clock.year, clock.month, clock.day])
  {
    var i := CollectRowSource(feed, BilledOn(Today(clock)), BillRowsFixed(fmt), j);
    BillRowFixedCells(fmt, feed[i]);
  }

  /** With the corrections, a feed whose every timestamp splits into three
      ints never raises: the amount cell and the date cell cannot fail. */
  lemma CollectValuesFixedNeverFails(feed: seq<Bill>, clock: DateTime, fmt: real -> string)
    requires ValidDateTime(clock)
    requires forall i :: 0 <= i < |feed| ==> Unpack3(SplitDate(feed[i].time)).Ok?
    ensures CollectValuesFixed(feed, clock, fmt).Ok?
  {
    var dated, resolve := BilledOn(Today(clock)), BillRowsFixed(fmt);
    CollectOutcome(feed, dated, resolve);
    if Collect(feed, dated, resolve).Err? {
      var k: nat :| FailsAt(feed, dated, resolve, k, Collect(feed, dated, resolve).error);
      BillRowFixedCells(fmt, feed[k]);
      assert false;
    }
  }
}
