/** The account-feed side of the ledger update: `resolve_values` turns one
    transfer event into the row [title, destination, value, post date], and
    `collect_transfer` gathers the rows of the events posted today. */
module Transfers {
  import opened Outcomes
  import opened Text
  import opened Dates
  import opened Scan

  /** An account-feed event, reduced to the fields the code reads. */
  datatype TransferEvent = TransferEvent(title: string, detail: string, postDate: string)

  /** The lines of an event's detail text; line 0 names the counterpart and
      line 1 holds the amount. */
  function Lines(e: TransferEvent): seq<string> {
    Split(e.detail, "\n")
  }

  /** `resolve_values` as written: the NuPay branch first renames the title
      to "NuPay" and then looks for the destination in that new title. */
  function Resolve(e: TransferEvent): (c: Classified<seq<string>>)
    ensures c.Excluded? <==> Contains(Lower(e.title), "recebida")
  {
    var title := Lower(e.title);
    if Contains(title, "recebida") then Excluded
    else if Contains(title, "nupay") then NuPayRow(DestinationAsWritten("NuPay"), e)
    else GenericRow(title, e)
  }

  /** `resolve_values` corrected: the NuPay branch reads the destination
      from the original `feed_event["title"]`, cut once at its first "em ". */
  function ResolveFixed(e: TransferEvent): (c: Classified<seq<string>>)
    ensures c.Excluded? <==> Contains(Lower(e.title), "recebida")
  {
    var title := Lower(e.title);
    if Contains(title, "recebida") then Excluded
    else if Contains(title, "nupay") then NuPayRow(Destination(e.title), e)
    else GenericRow(title, e)
  }

  /** The destination expression `title.split("em ")[1].split(" via")[0]`:
      the second piece of the split on "em ", cut at its first " via". */
  function DestinationAsWritten(title: string): Result<string> {
    match Index(Split(title, "em "), 1)
    case Err(x) => Err(x)
    case Ok(tail) => Index(Split(tail, " via"), 0)
  }

  /** The corrected destination `title.split("em ", 1)[1].split(" via")[0]`:
      everything after the first "em ", cut at its first " via". */
  function Destination(title: string): Result<string> {
    match Index(SplitOnce(title, "em "), 1)
    case Err(x) => Err(x)
    case Ok(tail) => Index(Split(tail, " via"), 0)
  }

  /** The NuPay row: the destination, then line 1 of the detail as value. */
  function NuPayRow(destination: Result<string>, e: TransferEvent): (c: Classified<seq<string>>)
    ensures !c.Excluded?
    ensures destination.Err? ==> c == Failure(destination.error)
  {
    match destination
    case Err(x) => Failure(x)
    case Ok(destiny) =>
      match Index(Lines(e), 1)
      case Err(x) => Failure(x)
      case Ok(value) => Row(["NuPay", destiny, value, e.postDate])
  }

  /** Any other transfer: the lower-cased title, then lines 0 and 1 of the
      detail. */
  function GenericRow(title: string, e: TransferEvent): (c: Classified<seq<string>>)
    ensures !c.Excluded?
  {
    match Index(Lines(e), 1)
    case Err(x) => Failure(x)
    case Ok(value) => Row([title, Lines(e)[0], value, e.postDate])
  }

  /** The scan's date test: the post date split on `-` and read as
      (year, month, day). No time part is cut off here. */
  function PostedOn(w: Window): TransferEvent -> Result<bool> {
    (e: TransferEvent) => OnDay(ParseFields(Split(e.postDate, "-")), w)
  }

  /** `collect_transfer`: today's date from the clock, then the scan. */
  function CollectTransfer(feed: seq<TransferEvent>, clock: DateTime): (r: Result<seq<seq<string>>>)
    requires ValidDateTime(clock)
    ensures r.Ok? ==> |r.value| <= |feed|
  {
    match CurrentDateBr(clock)
    case Err(x) => Err(x)
    case Ok(w) => Collect(feed, PostedOn(w), Resolve)
  }

  /** `collect_transfer` over the corrected `resolve_values`. */
  function CollectTransferFixed(feed: seq<TransferEvent>, clock: DateTime): (r: Result<seq<seq<string>>>)
    requires ValidDateTime(clock)
    ensures r.Ok? ==> |r.value| <= |feed|
  {
    Collect(feed, PostedOn(Today(clock)), ResolveFixed)
  }

  /** A title that holds "recebida" in any mix of cases is excluded, even
      when it also mentions NuPay: the test on "recebida" comes first. */
  lemma ReceivedAnyCase(e: TransferEvent, i: nat, j: nat)
    requires i <= j <= |e.title| && Lower(e.title[i..j]) == "recebida"
    ensures Resolve(e) == Excluded && ResolveFixed(e) == Excluded
  {
    LowerFindsAnyCase(e.title, i, j, "recebida");
  }

  /** As written, every NuPay event raises IndexError: "NuPay" has no
      "em " in it, so splitting it yields a single piece and `[1]` fails. */
  lemma NuPayAlwaysFails(e: TransferEvent)
    requires !Contains(Lower(e.title), "recebida") && Contains(Lower(e.title), "nupay")
    ensures Resolve(e) == Failure(IndexError)
  {
    MissingCharAbsent("NuPay", "em ", 2);
    DestinationWithoutEm("NuPay");
  }

  /** With the corrections, a title of the form `p` "em " `d` " via" `q`,
      where `p` "em " is the first "em " and `d` " via" the first " via"
      after it, yields destination `d`; `d` may itself contain "em ". */
  lemma NuPayFixedRow(e: TransferEvent, p: string, d: string, q: string)
    requires e.title == p + "em " + d + " via" + q
    requires !Contains(Lower(e.title), "recebida") && Contains(Lower(e.title), "nupay")
    requires !Contains(p + "em", "em ") && !Contains(d + " vi", " via")
    ensures |Lines(e)| >= 2 ==> ResolveFixed(e) == Row(["NuPay", d, Lines(e)[1], e.postDate])
    ensures |Lines(e)| < 2 ==> ResolveFixed(e) == Failure(IndexError)
  {
    DestinationBetween(p, d, q);
  }

  /** A title without "em " has no destination, as written or corrected. */
  lemma DestinationWithoutEm(title: string)
    requires !Contains(title, "em ")
    ensures DestinationAsWritten(title) == Err(IndexError)
    ensures Destination(title) == Err(IndexError)
  {
    SplitSingleIff(title, "em ");
  }

  /** As written, the destination is the text after the first "em " up to
      the next "em ", cut at its first " via". */
  lemma DestinationAsWrittenCuts(p: string, rest: string)
    requires !Contains(p + "em", "em ")
    ensures DestinationAsWritten(p + "em " + rest) == Ok(Split(Split(rest, "em ")[0], " via")[0])
  {
    assert "em "[..2] == "em";
    SplitAtFirst(p, "em ", rest);
  }

  /** The corrected destination is the text between the first "em " and
      the first " via" after it. */
  lemma DestinationBetween(p: string, d: string, q: string)
    requires !Contains(p + "em", "em ") && !Contains(d + " vi", " via")
    ensures Destination(p + "em " + d + " via" + q) == Ok(d)
  {
    var rest := d + " via" + q;
    assert p + "em " + d + " via" + q == p + "em " + rest;
    assert SplitOnce(p + "em " + rest, "em ")[1] == rest by {
      DestinationAfterFirst(p, rest);
    }
    assert " via"[..3] == " vi";
    SplitAtFirst(d, " via", q);
  }

  /** Without " via" after the first "em ", the corrected destination is
      all of the rest of the title. */
  lemma DestinationWithoutVia(p: string, rest: string)
    requires !Contains(p + "em", "em ") && !Contains(rest, " via")
    ensures Destination(p + "em " + rest) == Ok(rest)
  {
    DestinationAfterFirst(p, rest);
    SplitSingleIff(rest, " via");
  }

  /** The one-cut split on "em " yields the text after its first occurrence. */
  lemma DestinationAfterFirst(p: string, rest: string)
    requires !Contains(p + "em", "em ")
    ensures |SplitOnce(p + "em " + rest, "em ")| == 2
    ensures SplitOnce(p + "em " + rest, "em ")[1] == rest
  {
    var s := p + "em " + rest;
    assert "em "[..2] == "em";
    SplitAtFirst(p, "em ", rest);
    SplitOnceSplit(s, "em ");
    assert Split(s, "em ")[1..] == Split(rest, "em ");
    SplitJoin(rest, "em ");
  }

  /** When no "em " follows the first, the correction gives the same
      destination as the code. */
  lemma DestinationAgrees(p: string, rest: string)
    requires !Contains(p + "em", "em ") && !Contains(rest, "em ")
    ensures Destination(p + "em " + rest) == DestinationAsWritten(p + "em " + rest)
  {
    DestinationAfterFirst(p, rest);
    DestinationAsWrittenCuts(p, rest);
    SplitSingleIff(rest, "em ");
  }

  /** A detail of two lines splits into exactly those lines. */
  lemma TwoLines(a: string, b: string)
    requires '\n' !in a && '\n' !in b
    ensures Split(a + "\n" + b, "\n") == [a, b]
  {
    ContainsChar(a, '\n');
    ContainsChar(b, '\n');
    assert "\n"[..0] == "" && a + "" == a;
    SplitAtFirst(a, "\n", b);
    SplitSingleIff(b, "\n");
  }

  /** The purchase "Compra em Loja via NuPay" with detail "x" newline
      "42.00": as written it raises IndexError; corrected it yields the row
      ["NuPay", "Loja", "42.00", post date]. */
  lemma NuPayExample(postDate: string)
    ensures Resolve(TransferEvent("Compra em Loja via NuPay", "x\n42.00", postDate)) == Failure(IndexError)
    ensures ResolveFixed(TransferEvent("Compra em Loja via NuPay", "x\n42.00", postDate)) == Row(["NuPay", "Loja", "42.00", postDate])
  {
    ExampleAsWritten(postDate);
    ExampleFixed(postDate);
  }

  lemma ExampleAsWritten(postDate: string)
    ensures Resolve(TransferEvent("Compra em Loja via NuPay", "x\n42.00", postDate)) == Failure(IndexError)
  {
    var e := TransferEvent("Compra em Loja via NuPay", "x\n42.00", postDate);
    ExampleTitleIsNuPay();
    NuPayAlwaysFails(e);
  }

  lemma ExampleFixed(postDate: string)
    ensures ResolveFixed(TransferEvent("Compra em Loja via NuPay", "x\n42.00", postDate)) == Row(["NuPay", "Loja", "42.00", postDate])
  {
    var e := TransferEvent("Compra em Loja via NuPay", "x\n42.00", postDate);
    assert Lines(e) == ["x", "42.00"] by {
      TwoLines("x", "42.00");
      assert e.detail == "x" + "\n" + "42.00";
    }
    ExampleTitleIsNuPay();
    ExampleTitleParts();
    ExampleTitleConcat();
    NuPayFixedRow(e, "Compra ", "Loja", " NuPay");
  }

  lemma ExampleTitleConcat()
    ensures "Compra em Loja via NuPay" == "Compra " + "em " + "Loja" + " via" + " NuPay"
  {
    assert "Compra " + "em " == "Compra em ";
    assert "Compra em " + "Loja" == "Compra em Loja";
    assert "Compra em Loja" + " via" == "Compra em Loja via";
    assert "Compra em Loja via" + " NuPay" == "Compra em Loja via NuPay";
  }

  lemma ExampleTitleLower()
    ensures Lower("Compra em Loja via NuPay") == "compra em loja via nupay"
  {
    var t := "Compra em Loja via NuPay";
    assert Lower(t) == "compra em loja via nupay";
  }

  lemma ExampleTitleIsNuPay()
    ensures !Contains(Lower("Compra em Loja via NuPay"), "recebida")
    ensures Contains(Lower("Compra em Loja via NuPay"), "nupay")
  {
    var lowered := "compra em loja via nupay";
    ExampleTitleLower();
    assert OccursAt(lowered, "nupay", 19) by {
      assert lowered[19..24] == "nupay";
    }
    assert 'b' !in lowered;
    MissingCharAbsent(lowered, "recebida", 4);
  }

  lemma ExampleTitleParts()
    ensures !Contains("Compra " + "em", "em ")
    ensures !Contains("Loja" + " vi", " via")
  {
    ExampleBeforeEm();
    ExampleBeforeVia();
  }

  lemma ExampleBeforeEm()
    ensures !Contains("Compra " + "em", "em ")
  {
    var s := "Compra " + "em";
    assert s[..7] == "Compra ";
    assert 'e' !in "Compra ";
    LeadAbsent(s, "em ");
  }

  lemma ExampleBeforeVia()
    ensures !Contains("Loja" + " vi", " via")
  {
    var s := "Loja" + " vi";
    assert s[..4] == "Loja";
    assert ' ' !in "Loja";
    LeadAbsent(s, " via");
  }

  /** The purchase "Compra em Bem Estar via NuPay": the destination
      expression as written stops at the "em " inside "Bem" and yields "B". */
  lemma BemEstarAsWritten()
    ensures DestinationAsWritten("Compra em Bem Estar via NuPay") == Ok("B")
  {
    BemEstarCut();
    BemEstarFirstPiece();
  }

  lemma BemEstarCut()
    ensures DestinationAsWritten("Compra em Bem Estar via NuPay")
         == Ok(Split(Split("Bem Estar via NuPay", "em ")[0], " via")[0])
  {
    var rest := "Bem Estar via NuPay";
    assert "Compra em Bem Estar via NuPay" == "Compra " + "em " + rest by {
      assert "Compra " + "em " == "Compra em ";
    }
    ExampleBeforeEm();
    DestinationAsWrittenCuts("Compra ", rest);
  }

  lemma BemEstarFirstPiece()
    ensures Split(Split("Bem Estar via NuPay", "em ")[0], " via")[0] == "B"
  {
    assert Split("Bem Estar via NuPay", "em ")[0] == "B" by {
      assert "Bem Estar via NuPay" == "B" + "em " + "Estar via NuPay" by {
        assert "B" + "em " == "Bem ";
      }
      assert !Contains("B" + "em "[..2], "em ") by {
        assert "em "[..2] == "em" && "B" + "em" == "Bem";
        MissingCharAbsent("Bem", "em ", 2);
      }
      SplitAtFirst("B", "em ", "Estar via NuPay");
    }
    MissingCharAbsent("B", " via", 0);
    SplitSingleIff("B", " via");
  }

  /** The corrected destination of the same purchase is "Bem Estar". */
  lemma BemEstarFixed()
    ensures Destination("Compra em Bem Estar via NuPay") == Ok("Bem Estar")
  {
    assert "Compra em Bem Estar via NuPay" == "Compra " + "em " + "Bem Estar" + " via" + " NuPay" by {
      assert "Compra " + "em " == "Compra em ";
      assert "Compra em " + "Bem Estar" == "Compra em Bem Estar";
      assert "Compra em Bem Estar" + " via" == "Compra em Bem Estar via";
    }
    ExampleBeforeEm();
    BemEstarNoVia();
    DestinationBetween("Compra ", "Bem Estar", " NuPay");
  }

  lemma BemEstarNoVia()
    ensures !Contains("Bem Estar" + " vi", " via")
  {
    var s := "Bem Estar" + " vi";
    assert s == "Bem Estar vi";
    var middle := s[1..10];
    assert middle == "em Estar " && 'v' !in middle;
    forall k: nat
      ensures !OccursAt(s, " via", k)
    {
      if k + 4 <= |s| {
        assert s[k..k + 4][1] == middle[k];
      }
    }
    ContainsIff(s, " via");
  }

  /** The generic branch keeps the lower-cased title and the first two lines
      of the detail; a detail without a line break raises IndexError. */
  lemma GenericBranch(e: TransferEvent)
    requires !Contains(Lower(e.title), "recebida") && !Contains(Lower(e.title), "nupay")
    ensures |Lines(e)| >= 2 <==> '\n' in e.detail
    ensures |Lines(e)| >= 2 ==> Resolve(e) == Row([Lower(e.title), Lines(e)[0], Lines(e)[1], e.postDate])
    ensures |Lines(e)| < 2 ==> Resolve(e) == Failure(IndexError)
    ensures ResolveFixed(e) == Resolve(e)
  {
    ContainsChar(e.detail, '\n');
    SplitSingleIff(e.detail, "\n");
  }

  /** A two-line detail `a` newline `b` gives destination `a` and value `b`. */
  lemma GenericTwoLines(e: TransferEvent, a: string, b: string)
    requires !Contains(Lower(e.title), "recebida") && !Contains(Lower(e.title), "nupay")
    requires e.detail == a + "\n" + b && '\n' !in a && '\n' !in b
    ensures Resolve(e) == Row([Lower(e.title), a, b, e.postDate])
  {
    TwoLines(a, b);
  }

  /** The rows are exactly those of the non-excluded events of the longest
      prefix posted today, in feed order, and no more than that prefix. */
  lemma CollectTransferStops(feed: seq<TransferEvent>, clock: DateTime, k: nat)
    requires ValidDateTime(clock) && StopsAt(feed, PostedOn(Today(clock)), Resolve, k)
    ensures CollectTransfer(feed, clock) == Ok(Kept(feed[..k], Resolve))
    ensures |CollectTransfer(feed, clock).value| <= k
  {
    CollectStops(feed, PostedOn(Today(clock)), Resolve, k);
  }

  /** Only the exclusion is caught: an event posted today whose resolution
      raises aborts the whole collection with that exception, and a NuPay
      event does so as written. */
  lemma CollectTransferAborts(feed: seq<TransferEvent>, clock: DateTime, k: nat)
    requires ValidDateTime(clock) && CleanUpTo(feed, PostedOn(Today(clock)), Resolve, k)
    requires k < |feed| && PostedOn(Today(clock))(feed[k]) == Ok(true)
    requires !Contains(Lower(feed[k].title), "recebida") && Contains(Lower(feed[k].title), "nupay")
    ensures CollectTransfer(feed, clock) == Err(IndexError)
  {
    NuPayAlwaysFails(feed[k]);
    CollectFails(feed, PostedOn(Today(clock)), Resolve, k, IndexError);
  }

  /** A "recebida" event posted today is skipped without ending the scan:
      the result is the same as if it were not in the feed. */
  lemma CollectTransferSkipsReceived(before: seq<TransferEvent>, e: TransferEvent, after: seq<TransferEvent>, clock: DateTime)
    requires ValidDateTime(clock) && PostedOn(Today(clock))(e) == Ok(true)
    requires Contains(Lower(e.title), "recebida")
    ensures CollectTransfer(before + [e] + after, clock) == CollectTransfer(before + after, clock)
    ensures CollectTransferFixed(before + [e] + after, clock) == CollectTransferFixed(before + after, clock)
  {
    CollectSkipsExcluded(before, e, after, PostedOn(Today(clock)), Resolve);
    CollectSkipsExcluded(before, e, after, PostedOn(Today(clock)), ResolveFixed);
  }

  /** Events after the first one posted on another day are never read. */
  lemma CollectTransferIgnoresTail(feed: seq<TransferEvent>, clock: DateTime, k: nat, tail: seq<TransferEvent>)
    requires ValidDateTime(clock) && StopsAt(feed, PostedOn(Today(clock)), Resolve, k) && k < |feed|
    ensures CollectTransfer(feed[..k + 1] + tail, clock) == CollectTransfer(feed, clock)
  {
    CollectIgnoresTail(feed, PostedOn(Today(clock)), Resolve, k, tail);
  }

  /** Every row has four cells, and its last cell is a post date that reads
      as today's (year, month, day). */
  lemma CollectTransferRowShape(feed: seq<TransferEvent>, clock: DateTime, j: nat)
    requires ValidDateTime(clock) && CollectTransfer(feed, clock).Ok? && j < |CollectTransfer(feed, clock).value|
    ensures |CollectTransfer(feed, clock).value[j]| == 4
    ensures ParseFields(Split(CollectTransfer(feed, clock).value[j][3], "-")) == Ok([clock.year, clock.month, clock.day])
  {
    var i := CollectRowSource(feed, PostedOn(Today(clock)), Resolve, j);
    RowShape(feed[i]);
  }

  /** The same holds with the corrected row builder. */
  lemma CollectTransferFixedRowShape(feed: seq<TransferEvent>, clock: DateTime, j: nat)
    requires ValidDateTime(clock) && CollectTransferFixed(feed, clock).Ok? && j < |CollectTransferFixed(feed, clock).value|
    ensures |CollectTransferFixed(feed, clock).value[j]| == 4
    ensures ParseFields(Split(CollectTransferFixed(feed, clock).value[j][3], "-")) == Ok([clock.year, clock.month, clock.day])
  {
    var i := CollectRowSource(feed, PostedOn(Today(clock)), ResolveFixed, j);
    RowShape(feed[i]);
  }

  /** A row built from an event has four cells and ends with the event's
      post date, under either row builder. */
  lemma RowShape(e: TransferEvent)
    ensures Resolve(e).Row? ==> |Resolve(e).row| == 4 && Resolve(e).row[3] == e.postDate
    ensures ResolveFixed(e).Row? ==> |ResolveFixed(e).row| == 4 && ResolveFixed(e).row[3] == e.postDate
  {
  }

  /** The correction changes nothing for a feed without NuPay events. */
  lemma CollectTransferFixedAgrees(feed: seq<TransferEvent>, clock: DateTime)
    requires ValidDateTime(clock)
    requires forall i :: 0 <= i < |feed| ==> !Contains(Lower(feed[i].title), "nupay")
    ensures CollectTransferFixed(feed, clock) == CollectTransfer(feed, clock)
  {
    CollectAgrees(feed, PostedOn(Today(clock)), ResolveFixed, Resolve);
  }
}
