/** Where the rows go: an append request to the range `<month>!<block>` of
    the spreadsheet, where the month name comes from a twelve-entry table
    and the block is a fixed column span open downwards from row 6. */
module Sheets {
  import opened Outcomes
  import opened Text
  import opened Numerals

  /** The column block of a range written `<letter><row>:<letter>`: columns
      `firstColumn` to `lastColumn` (A = 1), from row `firstRow` down. */
  datatype Block = Block(firstColumn: nat, firstRow: nat, lastColumn: nat) {
    function Width(): int {
      lastColumn - firstColumn + 1
    }
  }

  /** The request `values().append(range=..., body={"values": rows},
      valueInputOption="USER_ENTERED")` describes. */
  datatype AppendRequest = AppendRequest(range: string, values: seq<seq<string>>, valueInputOption: string)

  /** A table of the twelve month names, January first. */
  predicate MonthTable(names: seq<string>) {
    |names| == 12 && forall m :: 0 <= m < 12 ==> '!' !in names[m]
  }

  function MonthName(names: seq<string>, month: int): string
    requires |names| == 12 && 1 <= month <= 12
  {
    names[month - 1]
  }

  /** The four-column credit block of the current sheet. */
  function CreditRange(names: seq<string>, month: int): string
    requires |names| == 12 && 1 <= month <= 12
  {
    MonthName(names, month) + "!I6:L"
  }

  /** The four-column transfer block. */
  function TransferRange(names: seq<string>, month: int): string
    requires |names| == 12 && 1 <= month <= 12
  {
    MonthName(names, month) + "!N6:Q"
  }

  /** The three-column credit block of the older sheet layout. */
  function LegacyCreditRange(names: seq<string>, month: int): string
    requires |names| == 12 && 1 <= month <= 12
  {
    MonthName(names, month) + "!I6:K"
  }

  function Append(range: string, rows: seq<seq<string>>): AppendRequest {
    AppendRequest(range, rows, "USER_ENTERED")
  }

  predicate IsColumnLetter(c: char) {
    'A' <= c <= 'Z'
  }

  function ColumnNumber(c: char): (n: nat)
    requires IsColumnLetter(c)
    ensures 1 <= n <= 26
  {
    c as int - 'A' as int + 1
  }

  /** Reads a block written with one-letter columns. */
  function ParseBlock(s: string): Option<Block> {
    if |s| >= 4 && IsColumnLetter(s[0]) && s[|s| - 2] == ':' && IsColumnLetter(s[|s| - 1])
       && AllDigits(s[1..|s| - 2])
    then Some(Block(ColumnNumber(s[0]), DigitsValue(s[1..|s| - 2]), ColumnNumber(s[|s| - 1])))
    else None
  }

  /** Reads `<sheet>!<block>` back into the sheet name and the block. */
  function ParseRange(range: string): Option<(string, Block)> {
    var parts := Split(range, "!");
    if |parts| != 2 then None
    else match ParseBlock(parts[1])
      case None => None
      case Some(b) => Some((parts[0], b))
  }

  /** A sheet name without `!` followed by `!` and a block splits back into
      the two. */
  lemma ParseRangeOf(sheet: string, block: string)
    requires '!' !in sheet && '!' !in block
    ensures ParseRange(sheet + "!" + block) == match ParseBlock(block) case None => None case Some(b) => Some((sheet, b))
  {
    ContainsChar(sheet, '!');
    ContainsChar(block, '!');
    assert "!"[..0] == "" && sheet + "" == sheet;
    SplitAtFirst(sheet, "!", block);
    SplitSingleIff(block, "!");
  }

  /** The credit rows go to columns I to L and the transfer rows to
      columns N to Q of the same month's sheet, from row 6: four columns
      each, with M left between them. */
  lemma CurrentRanges(names: seq<string>, month: int)
    requires MonthTable(names) && 1 <= month <= 12
    ensures ParseRange(CreditRange(names, month)) == Some((names[month - 1], Block(9, 6, 12)))
    ensures ParseRange(TransferRange(names, month)) == Some((names[month - 1], Block(14, 6, 17)))
    ensures Block(9, 6, 12).Width() == 4 && Block(14, 6, 17).Width() == 4
    ensures Block(9, 6, 12).lastColumn < Block(14, 6, 17).firstColumn
  {
    CreditBlock(names, month);
    TransferBlock(names, month);
  }

  lemma CreditBlock(names: seq<string>, month: int)
    requires MonthTable(names) && 1 <= month <= 12
    ensures ParseRange(CreditRange(names, month)) == Some((names[month - 1], Block(9, 6, 12)))
  {
    BlockRange(names, month, 'I', 'L');
    assert "!I6:L" == "!" + (['I'] + "6:" + ['L']);
    assert CreditRange(names, month) == MonthName(names, month) + "!" + (['I'] + "6:" + ['L']);
  }

  lemma TransferBlock(names: seq<string>, month: int)
    requires MonthTable(names) && 1 <= month <= 12
    ensures ParseRange(TransferRange(names, month)) == Some((names[month - 1], Block(14, 6, 17)))
  {
    BlockRange(names, month, 'N', 'Q');
    assert "!N6:Q" == "!" + (['N'] + "6:" + ['Q']);
    assert TransferRange(names, month) == MonthName(names, month) + "!" + (['N'] + "6:" + ['Q']);
  }

  /** The month's name, `!`, and the block `<c>6:<d>`. */
  lemma BlockRange(names: seq<string>, month: int, c: char, d: char)
    requires MonthTable(names) && 1 <= month <= 12
    requires IsColumnLetter(c) && IsColumnLetter(d)
    ensures ParseRange(MonthName(names, month) + "!" + ([c] + "6:" + [d]))
         == Some((names[month - 1], Block(ColumnNumber(c), 6, ColumnNumber(d))))
  {
    var name := names[month - 1];
    assert '!' !in name;
    assert '!' !in [c] + "6:" + [d];
    ParseRangeOf(name, [c] + "6:" + [d]);
    BlockSix(c, d);
  }

  /** A block `<c>6:<d>` starts at row 6. */
  lemma BlockSix(c: char, d: char)
    requires IsColumnLetter(c) && IsColumnLetter(d)
    ensures ParseBlock([c] + "6:" + [d]) == Some(Block(ColumnNumber(c), 6, ColumnNumber(d)))
  {
    var s := [c] + "6:" + [d];
    assert s[1..|s| - 2] == "6";
    assert DigitsValue("6") == 10 * DigitsValue("") + DigitValue('6');
  }

  /** The older layout writes three columns, I to K, from row 6. */
  lemma LegacyRange(names: seq<string>, month: int)
    requires MonthTable(names) && 1 <= month <= 12
    ensures ParseRange(LegacyCreditRange(names, month)) == Some((names[month - 1], Block(9, 6, 11)))
    ensures Block(9, 6, 11).Width() == 3
  {
    BlockRange(names, month, 'I', 'K');
    assert "!I6:K" == "!" + (['I'] + "6:" + ['K']);
    assert LegacyCreditRange(names, month) == MonthName(names, month) + "!" + (['I'] + "6:" + ['K']);
  }

  /** Every row of the request fills exactly the block's columns. */
  predicate RowsFit(rows: seq<seq<string>>, b: Block) {
    forall i :: 0 <= i < |rows| ==> |rows[i]| == b.Width()
  }
}
