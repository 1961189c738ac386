/** Dates as the reconciliation code reads them: `split_date` on feed
    timestamps, the `-`-separated post dates of the account feed, and
    `get_current_date_br`, which formats the wall clock as `%d-%m-%Y` and
    splits it again. */
module Dates {
  import opened Outcomes
  import opened Text
  import opened Numerals

  /** A wall-clock reading in the America/Sao_Paulo time zone, as
      `datetime.now(tz=ZoneInfo("America/Sao_Paulo"))` returns it. */
  datatype DateTime = DateTime(year: int, month: int, day: int)

  /** The ranges a Python `datetime` guarantees for its fields. */
  predicate ValidDateTime(c: DateTime) {
    1 <= c.year <= 9999 && 1 <= c.month <= 12 && 1 <= c.day <= 31
  }

  /** The (day, month, year) triple a run filters by. */
  datatype Window = Window(day: int, month: int, year: int)

  /** The calendar day of a clock reading. */
  function Today(c: DateTime): Window {
    Window(c.day, c.month, c.year)
  }

  /** `map(int, texts)` consumed in full: the ints in order, or the
      ValueError of the first field `int` rejects. */
  function ParseFields(texts: seq<string>): (r: Result<seq<int>>)
    ensures r.Ok? ==> |r.value| == |texts|
    ensures r.Ok? ==> forall i :: 0 <= i < |texts| ==> ParseInt(texts[i]) == Ok(r.value[i])
    ensures r.Err? <==> exists i :: 0 <= i < |texts| && ParseInt(texts[i]).Err?
    ensures r.Err? ==> r.error == ValueError
  {
    if |texts| == 0 then Ok([])
    else match ParseInt(texts[0])
      case Err(e) => Err(e)
      case Ok(first) =>
        match ParseFields(texts[1..])
        case Err(e) => Err(e)
        case Ok(rest) => Ok([first] + rest)
  }

  /** The text before the first `T`: the date part of a timestamp. */
  function DatePart(date: string): string {
    Split(date, "T")[0]
  }

  /** `split_date`: drop everything from the first `T`, split on `-` and
      convert every field with `int`. */
  function SplitDate(date: string): Result<seq<int>> {
    ParseFields(Split(DatePart(date), "-"))
  }

  /** Unpacking into three names: a ValueError unless there are exactly
      three values. */
  function Unpack3(r: Result<seq<int>>): (u: Result<(int, int, int)>)
    ensures u.Ok? <==> r.Ok? && |r.value| == 3
    ensures u.Ok? ==> u.value == (r.value[0], r.value[1], r.value[2])
    ensures r.Ok? && |r.value| != 3 ==> u == Err(ValueError)
    ensures r.Err? ==> u == Err(r.error)
  {
    match r
    case Err(e) => Err(e)
    case Ok(xs) => if |xs| == 3 then Ok((xs[0], xs[1], xs[2])) else Err(ValueError)
  }

  /** The scan's test for one entry: its fields unpacked as
      (year, month, day) and compared with the window. */
  function OnDay(fields: Result<seq<int>>, w: Window): (r: Result<bool>)
    ensures r == Ok(true) <==> fields == Ok([w.year, w.month, w.day])
    ensures r.Err? <==> fields.Err? || |fields.value| != 3
  {
    match Unpack3(fields)
    case Err(e) => Err(e)
    case Ok((year, month, day)) =>
      assert fields.value == [year, month, day];
      Ok(year == w.year && month == w.month && day == w.day)
  }

  /** `strftime` of a numeral padded to `width` digits. */
  function Padded(n: nat, width: nat): string {
    ZeroPad(NatStr(n), width)
  }

  /** `dt.strftime("%d-%m-%Y")`. */
  function StrftimeDmy(c: DateTime): string
    requires ValidDateTime(c)
  {
    Padded(c.day, 2) + "-" + Padded(c.month, 2) + "-" + Padded(c.year, 4)
  }

  /** `get_current_date_br`: the clock formatted as `%d-%m-%Y`, split again,
      and unpacked by its callers as (day, month, year). */
  function CurrentDateBr(c: DateTime): (r: Result<Window>)
    requires ValidDateTime(c)
    ensures r == Ok(Today(c))
  {
    CurrentDateBrRoundTrip(c);
    match Unpack3(SplitDate(StrftimeDmy(c)))
    case Err(e) => Err(e)
    case Ok((day, month, year)) => Ok(Window(day, month, year))
  }

  /** Three padded numerals joined by `-` split back into the numbers. */
  lemma SplitThreeFields(x: nat, wx: nat, y: nat, wy: nat, z: nat, wz: nat)
    ensures SplitDate(Padded(x, wx) + "-" + Padded(y, wy) + "-" + Padded(z, wz)) == Ok([x, y, z])
  {
    var a, b, d := Padded(x, wx), Padded(y, wy), Padded(z, wz);
    DigitsValueZeroPad(NatStr(x), wx);
    DigitsValueZeroPad(NatStr(y), wy);
    DigitsValueZeroPad(NatStr(z), wz);
    var s := a + "-" + b + "-" + d;
    assert DatePart(s) == s by {
      NumeralsHaveNoTime(a, b, d);
    }
    assert Split(s, "-") == [a, b, d] by {
      SplitThreeNumerals(a, b, d);
    }
    ParseIntZeroPad(x, wx);
    ParseIntZeroPad(y, wy);
    ParseIntZeroPad(z, wz);
    ParseThree(a, b, d, x, y, z);
  }

  lemma NumeralsHaveNoTime(a: string, b: string, d: string)
    requires AllDigits(a) && AllDigits(b) && AllDigits(d)
    ensures DatePart(a + "-" + b + "-" + d) == a + "-" + b + "-" + d
  {
    var s := a + "-" + b + "-" + d;
    assert 'T' !in s by {
      assert forall i :: 0 <= i < |s| ==> IsDigit(s[i]) || s[i] == '-';
    }
    ContainsChar(s, 'T');
    SplitSingleIff(s, "T");
  }

  lemma SplitThreeNumerals(a: string, b: string, d: string)
    requires AllDigits(a) && AllDigits(b) && AllDigits(d)
    ensures Split(a + "-" + b + "-" + d, "-") == [a, b, d]
  {
    assert Split(d, "-") == [d] by {
      DigitsAvoid(d, '-');
      SplitSingleIff(d, "-");
    }
    assert Split(b + "-" + d, "-") == [b, d] by {
      SplitDigitsHead(b, d);
    }
    assert a + "-" + b + "-" + d == a + "-" + (b + "-" + d);
    SplitDigitsHead(a, b + "-" + d);
  }

  /** A numeral followed by `-` is the first piece of the split. */
  lemma SplitDigitsHead(a: string, rest: string)
    requires AllDigits(a)
    ensures Split(a + "-" + rest, "-") == [a] + Split(rest, "-")
  {
    DigitsAvoid(a, '-');
    assert a + "-"[..0] == a;
    SplitAtFirst(a, "-", rest);
  }

  lemma ParseThree(a: string, b: string, d: string, x: int, y: int, z: int)
    requires ParseInt(a) == Ok(x) && ParseInt(b) == Ok(y) && ParseInt(d) == Ok(z)
    ensures ParseFields([a, b, d]) == Ok([x, y, z])
  {
    ParseOneMore(d, [], z, []);
    assert [d] + [] == [d] && [z] + [] == [z];
    ParseOneMore(b, [d], y, [z]);
    assert [b] + [d] == [b, d] && [y] + [z] == [y, z];
    ParseOneMore(a, [b, d], x, [y, z]);
    assert [a] + [b, d] == [a, b, d] && [x] + [y, z] == [x, y, z];
  }

  lemma ParseOneMore(t: string, rest: seq<string>, v: int, vs: seq<int>)
    requires ParseInt(t) == Ok(v) && ParseFields(rest) == Ok(vs)
    ensures ParseFields([t] + rest) == Ok([v] + vs)
  {
    var all := [t] + rest;
    assert all[0] == t && all[1..] == rest;
  }

  /** Formatting the clock as `%d-%m-%Y` and splitting it yields
      (day, month, year), in that order. */
  lemma CurrentDateBrRoundTrip(c: DateTime)
    requires ValidDateTime(c)
    ensures SplitDate(StrftimeDmy(c)) == Ok([c.day, c.month, c.year])
  {
    SplitThreeFields(c.day, 2, c.month, 2, c.year, 4);
  }

  /** An ISO timestamp `YYYY-MM-DDT...` splits into (year, month, day),
      whatever follows the `T`. */
  lemma SplitDateIso(year: nat, month: nat, day: nat, time: string)
    ensures SplitDate(Padded(year, 4) + "-" + Padded(month, 2) + "-" + Padded(day, 2) + "T" + time)
         == Ok([year, month, day])
  {
    var date := Padded(year, 4) + "-" + Padded(month, 2) + "-" + Padded(day, 2);
    SplitThreeFields(year, 4, month, 2, day, 2);
    assert 'T' !in date by {
      DigitsValueZeroPad(NatStr(year), 4);
      DigitsValueZeroPad(NatStr(month), 2);
      DigitsValueZeroPad(NatStr(day), 2);
      assert forall i :: 0 <= i < |date| ==> IsDigit(date[i]) || date[i] == '-';
    }
    SplitDateIgnoresTime(date, time);
  }

  /** The date part holds no `T`, so taking it twice changes nothing. */
  lemma DatePartIdempotent(date: string)
    ensures 'T' !in DatePart(date)
    ensures DatePart(DatePart(date)) == DatePart(date)
  {
    SplitPiecesAvoidSep(date, "T");
    ContainsChar(DatePart(date), 'T');
    SplitSingleIff(DatePart(date), "T");
  }

  /** `split_date` ignores everything from the first `T` on. */
  lemma SplitDateIgnoresTime(date: string, time: string)
    requires 'T' !in date
    ensures DatePart(date + "T" + time) == date
    ensures SplitDate(date + "T" + time) == SplitDate(date)
  {
    ContainsChar(date, 'T');
    assert "T"[..0] == "" && date + "" == date;
    SplitAtFirst(date, "T", time);
    SplitSingleIff(date, "T");
  }
}
