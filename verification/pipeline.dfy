/** `cardbill`: collect the card rows, then the transfer rows, then read the
    month, and build the two append requests. Each of the three steps reads
    the clock on its own. */
module Pipeline {
  import opened Outcomes
  import opened Dates
  import opened Scan
  import opened Transfers
  import opened Credit
  import opened Sheets

  /** The two requests the endpoint sends, credit first. */
  datatype Requests = Requests(credit: AppendRequest, transfer: AppendRequest)

  /** `cardbill` as written: an exception in either collection ends the
      request before anything is appended. */
  function CardBill(bills: seq<Bill>, events: seq<TransferEvent>,
                    creditClock: DateTime, transferClock: DateTime, monthClock: DateTime,
                    names: seq<string>, fmt: real -> string): Result<Requests>
    requires ValidDateTime(creditClock) && ValidDateTime(transferClock) && ValidDateTime(monthClock)
    requires |names| == 12
  {
    match CollectValues(bills, creditClock, fmt)
    case Err(x) => Err(x)
    case Ok(credit) =>
      match CollectTransfer(events, transferClock)
      case Err(x) => Err(x)
      case Ok(transfer) =>
        match CurrentDateBr(monthClock)
        case Err(x) => Err(x)
        case Ok(w) =>
          Ok(Requests(Append(CreditRange(names, w.month), credit), Append(TransferRange(names, w.month), transfer)))
  }

  /** The credit collection runs first, so its exception wins whatever the
      account feed holds; the transfer rows are then never collected. */
  lemma CardBillCreditFirst(bills: seq<Bill>, events: seq<TransferEvent>,
                            creditClock: DateTime, transferClock: DateTime, monthClock: DateTime,
                            names: seq<string>, fmt: real -> string)
    requires ValidDateTime(creditClock) && ValidDateTime(transferClock) && ValidDateTime(monthClock)
    requires |names| == 12
    ensures CollectValues(bills, creditClock, fmt).Err? ==>
      CardBill(bills, events, creditClock, transferClock, monthClock, names, fmt) == Err(CollectValues(bills, creditClock, fmt).error)
    ensures CollectValues(bills, creditClock, fmt).Ok? && CollectTransfer(events, transferClock).Err? ==>
      CardBill(bills, events, creditClock, transferClock, monthClock, names, fmt) == Err(CollectTransfer(events, transferClock).error)
  {
  }

  /** As written, a request that goes out appends no credit rows; the
      transfer rows go to the N6:Q block of the month's sheet, each filling
      its four columns. */
  lemma CardBillAsWritten(bills: seq<Bill>, events: seq<TransferEvent>,
                          creditClock: DateTime, transferClock: DateTime, monthClock: DateTime,
                          names: seq<string>, fmt: real -> string)
    requires ValidDateTime(creditClock) && ValidDateTime(transferClock) && ValidDateTime(monthClock)
    requires MonthTable(names)
    requires CardBill(bills, events, creditClock, transferClock, monthClock, names, fmt).Ok?
    ensures CardBill(bills, events, creditClock, transferClock, monthClock, names, fmt).value.credit.values == []
    ensures ParseRange(CardBill(bills, events, creditClock, transferClock, monthClock, names, fmt).value.transfer.range)
         == Some((names[monthClock.month - 1], Block(14, 6, 17)))
    ensures RowsFit(CardBill(bills, events, creditClock, transferClock, monthClock, names, fmt).value.transfer.values, Block(14, 6, 17))
  {
    CollectValuesNoRows(bills, creditClock, fmt);
    CurrentRanges(names, monthClock.month);
    var rows := CollectTransfer(events, transferClock).value;
    forall j | 0 <= j < |rows|
      ensures |rows[j]| == 4
    {
      CollectTransferRowShape(events, transferClock, j);
    }
  }

  /** `cardbill` corrected: one clock reading for all three steps, and the
      corrected row builders. */
  function CardBillFixed(bills: seq<Bill>, events: seq<TransferEvent>, clock: DateTime,
                         names: seq<string>, fmt: real -> string): Result<Requests>
    requires ValidDateTime(clock) && |names| == 12
  {
    match CollectValuesFixed(bills, clock, fmt)
    case Err(x) => Err(x)
    case Ok(credit) =>
      match CollectTransferFixed(events, clock)
      case Err(x) => Err(x)
      case Ok(transfer) =>
        Ok(Requests(Append(CreditRange(names, clock.month), credit), Append(TransferRange(names, clock.month), transfer)))
  }

  /** With one clock reading, both requests go to the sheet of the month of
      the day the rows were filtered by, in side-by-side blocks that every
      row fills exactly, and every row's date cell reads as that day. */
  lemma CardBillFixedRequests(bills: seq<Bill>, events: seq<TransferEvent>, clock: DateTime,
                              names: seq<string>, fmt: real -> string)
    requires ValidDateTime(clock) && MonthTable(names)
    requires CardBillFixed(bills, events, clock, names, fmt).Ok?
    ensures ParseRange(CardBillFixed(bills, events, clock, names, fmt).value.credit.range)
         == Some((names[clock.month - 1], Block(9, 6, 12)))
    ensures ParseRange(CardBillFixed(bills, events, clock, names, fmt).value.transfer.range)
         == Some((names[clock.month - 1], Block(14, 6, 17)))
    ensures RowsFit(CardBillFixed(bills, events, clock, names, fmt).value.credit.values, Block(9, 6, 12))
    ensures RowsFit(CardBillFixed(bills, events, clock, names, fmt).value.transfer.values, Block(14, 6, 17))
    ensures forall j :: 0 <= j < |CardBillFixed(bills, events, clock, names, fmt).value.credit.values| ==>
      SplitDate(CardBillFixed(bills, events, clock, names, fmt).value.credit.values[j][3]) == Ok([clock.year, clock.month, clock.day])
  {
    CurrentRanges(names, clock.month);
    var credit := CollectValuesFixed(bills, clock, fmt).value;
    var transfer := CollectTransferFixed(events, clock).value;
    forall j | 0 <= j < |credit|
      ensures |credit[j]| == 4 && SplitDate(credit[j][3]) == Ok([clock.year, clock.month, clock.day])
    {
      CollectValuesFixedDates(bills, clock, fmt, j);
    }
    forall j | 0 <= j < |transfer|
      ensures |transfer[j]| == 4
    {
      CollectTransferFixedRowShape(events, clock, j);
    }
  }
}
