/** The two text builders of lib/utils.ts: the body of the CSV file that is offered
    for download (cells joined by commas, rows by line breaks, no quoting) and the
    roster message for WhatsApp before it is URI-encoded. */
module Text {
  import opened Seqs
  import opened Types

  /** Array.prototype.join: the parts with `sep` between neighbours, "" for none.
      SplitJoin and JoinAvoids below say what it produces. */
  function Join(parts: seq<string>, sep: string): string
  {
    if |parts| == 0 then ""
    else if |parts| == 1 then parts[0]
    else parts[0] + sep + Join(parts[1..], sep)
  }

  /** String.prototype.split with a one-character separator: the maximal pieces
      between separators, at least one (possibly empty) piece. */
  function Split(s: string, sep: char): (r: seq<string>)
    ensures |r| >= 1
  {
    if s == [] then [""]
    else
      var rest := Split(s[1..], sep);
      if s[0] == sep then [""] + rest
      else [[s[0]] + rest[0]] + rest[1..]
  }

  /** A text without the separator is one piece. */
  lemma {:induction false} SplitWithoutSep(a: string, sep: char)
    requires sep !in a
    ensures Split(a, sep) == [a]
  {
    if a != [] {
      SplitWithoutSep(a[1..], sep);
      assert a == [a[0]] + a[1..];
    }
  }

  /** The first separator ends the first piece. */
  lemma {:induction false} SplitAtFirstSep(a: string, b: string, sep: char)
    requires sep !in a
    ensures Split(a + [sep] + b, sep) == [a] + Split(b, sep)
  {
    if a == [] {
      assert a + [sep] + b == [sep] + b;
      assert ([sep] + b)[1..] == b;
    } else {
      SplitAtFirstSep(a[1..], b, sep);
      assert (a + [sep] + b)[1..] == a[1..] + [sep] + b;
      assert a == [a[0]] + a[1..];
    }
  }

  /** Splitting undoes joining, when there is at least one part and no part holds
      the separator. */
  lemma {:induction false} SplitJoin(parts: seq<string>, sep: char)
    requires |parts| >= 1
    requires forall p :: p in parts ==> sep !in p
    ensures Split(Join(parts, [sep]), sep) == parts
  {
    if |parts| == 1 {
      SplitWithoutSep(parts[0], sep);
    } else {
      assert forall p :: p in parts[1..] ==> p in parts;
      SplitJoin(parts[1..], sep);
      SplitAtFirstSep(parts[0], Join(parts[1..], [sep]), sep);
      assert parts == [parts[0]] + parts[1..];
    }
  }

  /** A joined text holds a character only if a part or the separator does. */
  lemma {:induction false} JoinAvoids(parts: seq<string>, sep: string, c: char)
    requires c !in sep
    requires forall p :: p in parts ==> c !in p
    ensures c !in Join(parts, sep)
  {
    if |parts| > 1 {
      assert forall p :: p in parts[1..] ==> p in parts;
      JoinAvoids(parts[1..], sep, c);
    }
  }

  /** One CSV line: the row's cells joined by commas. It holds a line break only if
      a cell does, and splitting it at the commas gives the cells back when no cell
      holds a comma. */
  function CsvLine(row: seq<string>): (line: string)
    ensures (forall c :: c in row ==> '\n' !in c) ==> '\n' !in line
    ensures |row| >= 1 && (forall c :: c in row ==> ',' !in c) ==> Split(line, ',') == row
  {
    assert (forall c :: c in row ==> '\n' !in c) ==> '\n' !in Join(row, ",") by {
      if forall c :: c in row ==> '\n' !in c {
        JoinAvoids(row, ",", '\n');
      }
    }
    assert |row| >= 1 && (forall c :: c in row ==> ',' !in c) ==> Split(Join(row, ","), ',') == row by {
      if |row| >= 1 && forall c :: c in row ==> ',' !in c {
        SplitJoin(row, ',');
      }
    }
    Join(row, ",")
  }

  /** A four-cell row is one line with three commas. */
  lemma CsvLineOfFour(row: seq<string>)
    requires |row| == 4
    ensures CsvLine(row) == row[0] + "," + row[1] + "," + row[2] + "," + row[3]
  {
    var tail2 := row[2..];
    assert tail2 == [row[2], row[3]] && tail2[1..] == [row[3]];
    assert Join(tail2, ",") == row[2] + "," + row[3];
    assert row[1..][1..] == tail2;
    assert Join(row[1..], ",") == row[1] + "," + (row[2] + "," + row[3]);
  }

  /** The content `downloadCSV` writes: every row as a line, lines joined by "\n". */
  function CsvContent(rows: seq<seq<string>>): (content: string)
    ensures rows == [] ==> content == ""
  {
    Join(Map(rows, CsvLine), "\n")
  }

  /** A cell that neither splits a line nor a row. */
  predicate PlainCell(cell: string)
  {
    ',' !in cell && '\n' !in cell
  }

  /** With no line break inside a cell, the content has one line per row, and line
      `i` is row `i` with its cells joined by commas. */
  lemma CsvContentLines(rows: seq<seq<string>>)
    requires |rows| >= 1
    requires forall r, c :: r in rows && c in r ==> '\n' !in c
    ensures Split(CsvContent(rows), '\n') == Map(rows, CsvLine)
    ensures |Split(CsvContent(rows), '\n')| == |rows|
  {
    var lines := Map(rows, CsvLine);
    forall l | l in lines
      ensures '\n' !in l
    {
      var i :| 0 <= i < |lines| && lines[i] == l;
      assert rows[i] in rows;
      JoinAvoids(rows[i], ",", '\n');
    }
    SplitJoin(lines, '\n');
  }

  /** Round trip: when every row has a cell and no cell holds a comma or a line
      break, splitting the content into lines and the lines into cells gives back
      the rows. */
  lemma CsvRoundTrip(rows: seq<seq<string>>)
    requires |rows| >= 1
    requires forall r :: r in rows ==> |r| >= 1
    requires forall r, c :: r in rows && c in r ==> PlainCell(c)
    ensures Map(Split(CsvContent(rows), '\n'), l => Split(l, ',')) == rows
  {
    CsvContentLines(rows);
    var lines := Split(CsvContent(rows), '\n');
    forall i | 0 <= i < |rows|
      ensures Split(lines[i], ',') == rows[i]
    {
      assert rows[i] in rows;
      SplitJoin(rows[i], ',');
    }
  }

  const RosterTitle: string := "*ESCALA DE SERVIÇO - "

  const RosterFooter: string := "\n\n_Que tudo seja feito para a glória de Deus!_"

  /** The title line with the service's label, then an empty line. */
  function RosterHeader(serviceLabel: string): (h: string)
    ensures |h| == |RosterTitle| + |serviceLabel| + 3
    ensures h[..|RosterTitle|] == RosterTitle
    ensures h[|RosterTitle|..|RosterTitle| + |serviceLabel|] == serviceLabel
    ensures h[|h| - 3..] == "*\n\n"
  {
    RosterTitle + serviceLabel + "*\n\n"
  }

  /** One roster line: a pin, the area in bold, then the volunteer's name. It ends
      with the name and is a single line when the name is. */
  function RosterLine(a: Assignment): (line: string)
    ensures |a.userName| <= |line| && line[|line| - |a.userName|..] == a.userName
    ensures '\n' !in a.userName ==> '\n' !in line
  {
    "\U{1F4CD} *" + AreaName(a.area) + "*: " + a.userName
  }

  /** The roster message before URI encoding: header, one line per assignment in
      the given order, footer. */
  function RosterText(serviceLabel: string, entries: seq<Assignment>): (text: string)
    ensures |text| >= |RosterHeader(serviceLabel)| + |RosterFooter|
    ensures text[..|RosterHeader(serviceLabel)|] == RosterHeader(serviceLabel)
    ensures text[|text| - |RosterFooter|..] == RosterFooter
    ensures entries == [] ==> text == RosterHeader(serviceLabel) + RosterFooter
  {
    RosterHeader(serviceLabel) + Join(Map(entries, RosterLine), "\n") + RosterFooter
  }

  /** The part between header and footer. */
  function RosterBody(serviceLabel: string, entries: seq<Assignment>): string
  {
    var text := RosterText(serviceLabel, entries);
    text[|RosterHeader(serviceLabel)|..|text| - |RosterFooter|]
  }

  /** With no line break in a volunteer's name, the body has exactly one line per
      assignment, in input order, each the assignment's roster line, with no
      separator after the last. */
  lemma RosterBodyLines(serviceLabel: string, entries: seq<Assignment>)
    requires |entries| >= 1
    requires forall a :: a in entries ==> '\n' !in a.userName
    ensures |Split(RosterBody(serviceLabel, entries), '\n')| == |entries|
    ensures forall i :: 0 <= i < |entries| ==>
      Split(RosterBody(serviceLabel, entries), '\n')[i]
        == "\U{1F4CD} *" + AreaName(entries[i].area) + "*: " + entries[i].userName
  {
    var lines := Map(entries, RosterLine);
    var header := RosterHeader(serviceLabel);
    var body := Join(lines, "\n");
    assert RosterText(serviceLabel, entries) == header + body + RosterFooter;
    assert RosterBody(serviceLabel, entries) == body;
    forall l | l in lines
      ensures '\n' !in l
    {
      var i :| 0 <= i < |lines| && lines[i] == l;
      assert entries[i] in entries;
    }
    SplitJoin(lines, '\n');
  }
}
