/** The favourites CSV export with every cell quoted as section 2 of
    RFC 4180 describes (the cell wrapped in double quotes, each double quote
    inside it doubled), and a reader for that format. With quoting, reading
    the text back recovers every record cell for cell, whatever the cells
    contain. */
module Csv {
  import opened Wrappers
  import opened Menu
  import Text
  import Favorites

  const Quote: char := '"'

  /** The cell's characters with every double quote doubled. */
  function Escape(cell: string): (r: string)
    ensures |r| >= |cell|
  {
    if |cell| == 0 then ""
    else if cell[0] == Quote then [Quote, Quote] + Escape(cell[1..])
    else [cell[0]] + Escape(cell[1..])
  }

  /** One cell as the export writes it: quoted and escaped. */
  function QuoteCell(cell: string): (r: string)
    ensures |r| >= 2 && r[0] == Quote && r[|r| - 1] == Quote
  {
    [Quote] + Escape(cell) + [Quote]
  }

  function QuoteCells(cells: seq<string>): (r: seq<string>)
    ensures |r| == |cells|
    ensures forall k :: 0 <= k < |r| ==> r[k] == QuoteCell(cells[k])
  {
    seq(|cells|, k requires 0 <= k < |cells| => QuoteCell(cells[k]))
  }

  /** The records written out: each record's quoted cells joined with `,`,
      the lines joined with `\n`. */
  function Write(records: seq<seq<string>>): string {
    Text.Join(seq(|records|, i requires 0 <= i < |records| => Text.Join(QuoteCells(records[i]), ',')), '\n')
  }

  /** The export of the favourites list with quoted cells. */
  function ExportQuoted(host: Host, favorites: seq<Favorite>): string {
    Write(Favorites.CsvRecords(host, favorites))
  }

  // ---------------------------------------------------------------------
  // Reading

  /** Reads the inside of a quoted cell, `s` starting just after its opening
      quote: a doubled quote stands for one quote, a single quote closes the
      cell. Returns the cell and what follows the closing quote. */
  function ReadQuoted(s: string): (r: Option<(string, string)>)
    ensures r.Some? ==> |r.value.1| < |s|
    decreases |s|
  {
    if |s| == 0 then None
    else if s[0] == Quote then
      if |s| >= 2 && s[1] == Quote then
        match ReadQuoted(s[2..])
        case None => None
        case Some((cell, rest)) => Some(([Quote] + cell, rest))
      else Some(("", s[1..]))
    else
      match ReadQuoted(s[1..])
      case None => None
      case Some((cell, rest)) => Some(([s[0]] + cell, rest))
  }

  /** Reads one record: quoted cells separated by `,`. Returns the cells and
      what follows the last one. */
  function ReadRecord(s: string): (r: Option<(seq<string>, string)>)
    ensures r.Some? ==> |r.value.1| < |s| && |r.value.0| > 0
    decreases |s|
  {
    if |s| == 0 || s[0] != Quote then None
    else
      match ReadQuoted(s[1..])
      case None => None
      case Some((cell, rest)) =>
        if |rest| > 0 && rest[0] == ',' then
          match ReadRecord(rest[1..])
          case None => None
          case Some((cells, after)) => Some(([cell] + cells, after))
        else Some(([cell], rest))
  }

  /** Reads the whole text: records separated by `\n`. */
  function Read(s: string): (r: Option<seq<seq<string>>>)
    ensures r.Some? ==> |r.value| > 0
    decreases |s|
  {
    match ReadRecord(s)
    case None => None
    case Some((cells, rest)) =>
      if |rest| == 0 then Some([cells])
      else if rest[0] == '\n' then
        match Read(rest[1..])
        case None => None
        case Some(more) => Some([cells] + more)
      else None
  }

  // ---------------------------------------------------------------------
  // Round trip

  /** The reader undoes the escaping and stops at the closing quote. */
  lemma {:induction false} ReadEscaped(cell: string, t: string)
    requires |t| == 0 || t[0] != Quote
    ensures ReadQuoted(Escape(cell) + [Quote] + t) == Some((cell, t))
  {
    var s := Escape(cell) + [Quote] + t;
    if |cell| == 0 {
      assert s == [Quote] + t;
      assert s[1..] == t;
    } else if cell[0] == Quote {
      ReadEscaped(cell[1..], t);
      assert s == [Quote, Quote] + (Escape(cell[1..]) + [Quote] + t);
      assert s[2..] == Escape(cell[1..]) + [Quote] + t;
      assert [Quote] + cell[1..] == cell;
    } else {
      ReadEscaped(cell[1..], t);
      assert s == [cell[0]] + (Escape(cell[1..]) + [Quote] + t);
      assert s[1..] == Escape(cell[1..]) + [Quote] + t;
      assert [cell[0]] + cell[1..] == cell;
    }
  }

  /** A quoted cell followed by anything not starting with a quote: the
      reader takes the cell back and stops right after it. */
  lemma ReadCell(cell: string, rest: string)
    requires |rest| == 0 || rest[0] != Quote
    ensures var s := QuoteCell(cell) + rest;
      |s| > 0 && s[0] == Quote && ReadQuoted(s[1..]) == Some((cell, rest))
  {
    var s := QuoteCell(cell) + rest;
    assert s[1..] == Escape(cell) + [Quote] + rest;
    ReadEscaped(cell, rest);
  }

  /** Reading a written record gives back its cells. */
  lemma {:induction false} ReadWrittenRecord(cells: seq<string>, t: string)
    requires |cells| > 0
    requires |t| == 0 || t[0] == '\n'
    ensures ReadRecord(Text.Join(QuoteCells(cells), ',') + t) == Some((cells, t))
  {
    var quoted := QuoteCells(cells);
    if |cells| == 1 {
      assert Text.Join(quoted, ',') == QuoteCell(cells[0]);
      ReadCell(cells[0], t);
      assert [cells[0]] == cells;
    } else {
      var tail := Text.Join(QuoteCells(cells[1..]), ',') + t;
      assert QuoteCells(cells[1..]) == quoted[1..];
      assert Text.Join(quoted, ',') + t == QuoteCell(cells[0]) + ([','] + tail);
      ReadCell(cells[0], [','] + tail);
      assert ([','] + tail)[1..] == tail;
      ReadWrittenRecord(cells[1..], t);
      assert [cells[0]] + cells[1..] == cells;
    }
  }

  /** Every record has at least one cell. */
  ghost predicate NonEmptyRecords(records: seq<seq<string>>) {
    forall i :: 0 <= i < |records| ==> |records[i]| > 0
  }

  /** Reading what was written gives back the records, cell for cell, for
      any cell contents: commas, quotes and line breaks included. */
  lemma {:induction false} ReadWrite(records: seq<seq<string>>)
    requires |records| > 0 && NonEmptyRecords(records)
    ensures Read(Write(records)) == Some(records)
  {
    var lines := seq(|records|, i requires 0 <= i < |records| => Text.Join(QuoteCells(records[i]), ','));
    if |records| == 1 {
      assert Write(records) == lines[0];
      assert lines[0] + "" == lines[0];
      ReadWrittenRecord(records[0], "");
      assert [records[0]] == records;
    } else {
      var rest := records[1..];
      var restLines := seq(|rest|, i requires 0 <= i < |rest| => Text.Join(QuoteCells(rest[i]), ','));
      assert restLines == lines[1..];
      assert Write(records) == lines[0] + (['\n'] + Write(rest));
      ReadWrittenRecord(records[0], ['\n'] + Write(rest));
      assert (['\n'] + Write(rest))[1..] == Write(rest);
      ReadWrite(rest);
      assert [records[0]] + rest == records;
    }
  }

  /** The quoted export reads back as the header followed by one row per
      favourite, each exactly as the page builds it. */
  lemma QuotedReadBack(host: Host, favorites: seq<Favorite>)
    ensures Read(ExportQuoted(host, favorites)) == Some(Favorites.CsvRecords(host, favorites))
  {
    var records := Favorites.CsvRecords(host, favorites);
    assert NonEmptyRecords(records) by {
      forall i | 0 <= i < |records|
        ensures |records[i]| > 0
      {
        if i > 0 {
          assert records[i] == Favorites.CsvRow(host, favorites[i - 1]);
        }
      }
    }
    ReadWrite(records);
  }
}
