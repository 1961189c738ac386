/** The older three-column variant (app/main.py): `collect_values` writes
    [description, formatted amount, title] for each bill dated today, and
    `get_bill_info` appends them to the month's `I6:K` block. */
module Legacy {
  import opened Outcomes
  import opened Numerals
  import opened Dates
  import opened Scan
  import opened Credit
  import opened Sheets

  /** The loop body: the amount through `parse_value` and `Decimal`, then
      the formatter (`locale.currency` here, `fmt` in the model). */
  function LegacyRow(fmt: real -> string, b: Bill): Classified<seq<string>> {
    match AmountOf(b)
    case Err(x) => Failure(x)
    case Ok(d) => Row([b.description, fmt(d.Value()), b.title])
  }

  function LegacyRows(fmt: real -> string): Bill -> Classified<seq<string>> {
    (b: Bill) => LegacyRow(fmt, b)
  }

  /** `collect_values`: today's date from the clock, then the scan. */
  function CollectValuesLegacy(feed: seq<Bill>, clock: DateTime, fmt: real -> string): (r: Result<seq<seq<string>>>)
    requires ValidDateTime(clock)
    ensures r.Ok? ==> |r.value| <= |feed|
  {
    match CurrentDateBr(clock)
    case Err(x) => Err(x)
    case Ok(w) => Collect(feed, BilledOn(w), LegacyRows(fmt))
  }

  /** A bill's row: the amount in hundredths from two digits up, in tenths
      for a single digit, and InvalidOperation for a negative single digit. */
  lemma LegacyRowCells(fmt: real -> string, b: Bill)
    ensures LegacyRow(fmt, b).Failure? <==> -9 <= b.amount <= -1
    ensures LegacyRow(fmt, b).Failure? ==> LegacyRow(fmt, b).error == InvalidOperation
    ensures (b.amount >= 10 || b.amount <= -10) ==>
      LegacyRow(fmt, b) == Row([b.description, fmt(b.amount as real / 100.0), b.title])
    ensures 0 <= b.amount <= 9 ==>
      LegacyRow(fmt, b) == Row([b.description, fmt(b.amount as real / 10.0), b.title])
  {
    var n := b.amount;
    if n >= 10 || n <= -10 {
      LegacyRowPlaces(fmt, b, 2);
      assert Decimal(n, 2).Value() == n as real / 100.0 by { DecimalPlacesValue(n); }
    } else if n >= 0 {
      LegacyRowPlaces(fmt, b, 1);
      assert Decimal(n, 1).Value() == n as real / 10.0 by { DecimalPlacesValue(n); }
    } else {
      assert AmountOf(b) == Err(InvalidOperation) by { AmountOfParses(b); }
    }
  }

  /** A bill whose amount reads with `places` places yields the formatted
      value of that decimal. */
  lemma LegacyRowPlaces(fmt: real -> string, b: Bill, places: nat)
    requires (places == 2 && (b.amount >= 10 || b.amount <= -10)) || (places == 1 && 0 <= b.amount <= 9)
    ensures LegacyRow(fmt, b) == Row([b.description, fmt(Decimal(b.amount, places).Value()), b.title])
  {
    assert AmountOf(b) == Ok(Decimal(b.amount, places)) by { AmountOfParses(b); }
  }

  /** The rows are one per bill of the longest prefix dated today, in feed
      order, each of exactly three cells. */
  lemma CollectValuesLegacyRows(feed: seq<Bill>, clock: DateTime, fmt: real -> string, k: nat)
    requires ValidDateTime(clock) && StopsAt(feed, BilledOn(Today(clock)), LegacyRows(fmt), k)
    ensures CollectValuesLegacy(feed, clock, fmt).Ok?
    ensures |CollectValuesLegacy(feed, clock, fmt).value| == k
    ensures forall i :: 0 <= i < k ==>
      CollectValuesLegacy(feed, clock, fmt).value[i]
        == [feed[i].description, fmt(AmountOf(feed[i]).value.Value()), feed[i].title]
  {
    var resolve := LegacyRows(fmt);
    forall i | 0 <= i < k
      ensures resolve(feed[..k][i]).Row?
    {
      assert feed[..k][i] == feed[i];
    }
    KeptAllRows(feed[..k], resolve);
    CollectStops(feed, BilledOn(Today(clock)), resolve, k);
  }

  /** An empty feed, or one whose first bill is dated another day, yields
      no rows. */
  lemma CollectValuesLegacyEmpty(feed: seq<Bill>, clock: DateTime, fmt: real -> string)
    requires ValidDateTime(clock)
    requires |feed| == 0 || BilledOn(Today(clock))(feed[0]) == Ok(false)
    ensures CollectValuesLegacy(feed, clock, fmt) == Ok([])
  {
    CollectStops(feed, BilledOn(Today(clock)), LegacyRows(fmt), 0);
  }

  /** Bills after the first one dated another day are never read, even if
      they are dated today. */
  lemma CollectValuesLegacyIgnoresTail(feed: seq<Bill>, clock: DateTime, fmt: real -> string, k: nat, tail: seq<Bill>)
    requires ValidDateTime(clock) && StopsAt(feed, BilledOn(Today(clock)), LegacyRows(fmt), k) && k < |feed|
    ensures CollectValuesLegacy(feed[..k + 1] + tail, clock, fmt) == CollectValuesLegacy(feed, clock, fmt)
  {
    CollectIgnoresTail(feed, BilledOn(Today(clock)), LegacyRows(fmt), k, tail);
  }

  /** `get_bill_info`: the rows, then the month from a second clock reading,
      then the append request. */
  function GetBillInfo(feed: seq<Bill>, rowsClock: DateTime, monthClock: DateTime, names: seq<string>, fmt: real -> string): Result<AppendRequest>
    requires ValidDateTime(rowsClock) && ValidDateTime(monthClock) && |names| == 12
  {
    match CollectValuesLegacy(feed, rowsClock, fmt)
    case Err(x) => Err(x)
    case Ok(rows) =>
      match CurrentDateBr(monthClock)
      case Err(x) => Err(x)
      case Ok(w) => Ok(Append(LegacyCreditRange(names, w.month), rows))
  }

  /** The request targets the I6:K block of the month of the second clock
      reading, and every row fills those three columns. */
  lemma GetBillInfoFits(feed: seq<Bill>, rowsClock: DateTime, monthClock: DateTime, names: seq<string>, fmt: real -> string)
    requires ValidDateTime(rowsClock) && ValidDateTime(monthClock) && MonthTable(names)
    requires GetBillInfo(feed, rowsClock, monthClock, names, fmt).Ok?
    ensures ParseRange(GetBillInfo(feed, rowsClock, monthClock, names, fmt).value.range)
         == Some((names[monthClock.month - 1], Block(9, 6, 11)))
    ensures RowsFit(GetBillInfo(feed, rowsClock, monthClock, names, fmt).value.values, Block(9, 6, 11))
  {
    LegacyRange(names, monthClock.month);
    var rows := CollectValuesLegacy(feed, rowsClock, fmt).value;
    forall j | 0 <= j < |rows|
      ensures |rows[j]| == 3
    {
      var i := CollectRowSource(feed, BilledOn(Today(rowsClock)), LegacyRows(fmt), j);
    }
  }
}
