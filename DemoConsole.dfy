/** The phone-table loader: a CSV text, given as its lines, becomes a list of
    Cell records. The first line is a header; every later line is cut at each
    comma (no quoting), and a line that yields at least eleven pieces gives one
    Cell whose fields are its first eleven pieces, trimmed, in column order. */
module DemoConsole {
  import opened Strings

  datatype Option<T> = None | Some(value: T)

  /** Columns a line must have to become a Cell; later columns are dropped. */
  const FieldCount: nat := 11

  /** One phone. The eleven properties are set once, when the Cell is made,
      and never written again, so they are modelled as constants. */
  class Cell {
    const Brand: string
    const Model: string
    const LaunchInfo: string
    const Status: string
    const Dimensions: string
    const Weight: string
    const SIM: string
    const DisplayType: string
    const DisplaySize: string
    const Resolution: string
    const OS: string

    /** Each argument is stored unchanged in the property of the same name. */
    constructor (brand: string, model: string, launchInfo: string, status: string,
                 dimensions: string, weight: string, sim: string, displayType: string,
                 displaySize: string, resolution: string, os: string)
      ensures Brand == brand && Model == model && LaunchInfo == launchInfo
      ensures Status == status && Dimensions == dimensions && Weight == weight
      ensures SIM == sim && DisplayType == displayType && DisplaySize == displaySize
      ensures Resolution == resolution && OS == os
    {
      Brand := brand;
      Model := model;
      LaunchInfo := launchInfo;
      Status := status;
      Dimensions := dimensions;
      Weight := weight;
      SIM := sim;
      DisplayType := displayType;
      DisplaySize := displaySize;
      Resolution := resolution;
      OS := os;
    }

    /** The eleven properties in column order. */
    function Fields(): seq<string>
    {
      [Brand, Model, LaunchInfo, Status, Dimensions, Weight, SIM,
       DisplayType, DisplaySize, Resolution, OS]
    }
  }

  /** What one data line contributes: the trimmed first eleven comma-separated
      pieces, or None when the line has fewer than eleven. */
  function ParseLine(line: string): (r: Option<seq<string>>)
    ensures r.Some? <==> |Split(line, ',')| >= FieldCount
    ensures r.Some? ==> |r.value| == FieldCount
    ensures r.Some? ==> forall k :: 0 <= k < FieldCount ==> IsTrimmed(r.value[k])
  {
    var values := Split(line, ',');
    if |values| >= FieldCount then
      Some(seq(FieldCount, k requires 0 <= k < FieldCount => Trim(values[k])))
    else
      None
  }

  /** The rows one data line contributes: none or one. */
  function RowsOf(line: string): seq<seq<string>> {
    match ParseLine(line)
    case Some(f) => [f]
    case None => []
  }

  /** The rows produced by a sequence of data lines (no header among them). */
  function DataRows(ls: seq<string>): (rows: seq<seq<string>>)
    ensures |rows| <= |ls|
    ensures forall j :: 0 <= j < |rows| ==> |rows[j]| == FieldCount
    ensures forall j, k :: 0 <= j < |rows| && 0 <= k < FieldCount ==> IsTrimmed(rows[j][k])
  {
    if ls == [] then []
    else
      DataRows(ls[..|ls| - 1]) + RowsOf(ls[|ls| - 1])
  }

  /** The rows a whole file produces: its first line is the header. */
  function Load(lines: seq<string>): (rows: seq<seq<string>>)
    ensures |lines| <= 1 ==> rows == []
    ensures lines != [] ==> |rows| <= |lines| - 1
    ensures forall j :: 0 <= j < |rows| ==> |rows[j]| == FieldCount
    ensures forall j, k :: 0 <= j < |rows| && 0 <= k < FieldCount ==> IsTrimmed(rows[j][k])
  {
    if lines == [] then [] else DataRows(lines[1..])
  }

  /** The read loop: skip the header, split each later line on ',', keep
      the lines with at least eleven pieces, and add a fresh Cell of their
      trimmed pieces to the end of the list. */
  method LoadCells(lines: seq<string>) returns (cells: seq<Cell>)
    ensures FieldsOf(cells) == Load(lines)
    ensures forall c :: c in cells ==> fresh(c)
    ensures Distinct(cells)
  {
    cells := [];
    var isFirstLine := true;
    var i := 0;
    while i < |lines|
      invariant 0 <= i <= |lines|
      invariant isFirstLine <==> i == 0
      invariant i == 0 ==> cells == []
      invariant i > 0 ==> FieldsOf(cells) == DataRows(lines[1..i])
      invariant forall c :: c in cells ==> fresh(c)
      invariant Distinct(cells)
    {
      var line := lines[i];
      if isFirstLine {
        isFirstLine := false;
        i := i + 1;
        continue;
      }
      LoadStep(lines, i);
      var parsed := ParseLine(line);
      if parsed.Some? {
        var cell := MakeCell(parsed.value);
        CellAppended(cells, cell);
        assert cell !in cells;
        DistinctAppended(cells, cell);
        cells := cells + [cell];
        assert FieldsOf(cells) == DataRows(lines[1..i + 1]);
      } else {
        assert RowsOf(line) == [];
      }
      i := i + 1;
    }
    assert i == 0 || lines[1..i] == lines[1..];
  }

  /** The eleven properties of each cell, in list order. */
  function FieldsOf(cs: seq<Cell>): (rows: seq<seq<string>>)
    ensures |rows| == |cs|
  {
    if cs == [] then [] else FieldsOf(cs[..|cs| - 1]) + [cs[|cs| - 1].Fields()]
  }

  /** Row j of FieldsOf is the properties of cell j. */
  lemma {:induction false} FieldsOfAt(cs: seq<Cell>, j: nat)
    requires j < |cs|
    ensures FieldsOf(cs)[j] == cs[j].Fields()
    decreases |cs|
  {
    if j < |cs| - 1 {
      FieldsOfAt(cs[..|cs| - 1], j);
    }
  }

  /** Adding a cell at the end adds its properties as the last row. */
  lemma CellAppended(cs: seq<Cell>, c: Cell)
    ensures FieldsOf(cs + [c]) == FieldsOf(cs) + [c.Fields()]
  {
    assert (cs + [c])[..|cs|] == cs;
  }

  /** No object occurs twice in the list. */
  predicate Distinct(cs: seq<Cell>) {
    forall j, m :: 0 <= j < m < |cs| ==> cs[j] != cs[m]
  }

  /** Adding an object not yet in a list without repeats keeps it without repeats. */
  lemma DistinctAppended(cs: seq<Cell>, c: Cell)
    requires Distinct(cs) && c !in cs
    ensures Distinct(cs + [c])
  {
  }

  /** The constructor call of the read loop: a fresh Cell whose eleven
      properties are the row's fields in column order. */
  method MakeCell(f: seq<string>) returns (c: Cell)
    requires |f| == FieldCount
    ensures fresh(c) && c.Fields() == f
  {
    c := new Cell(f[0], f[1], f[2], f[3], f[4], f[5], f[6], f[7], f[8], f[9], f[10]);
    ElevenFields(f);
  }

  /** A sequence of eleven fields is the display of its elements. */
  lemma ElevenFields(f: seq<string>)
    requires |f| == FieldCount
    ensures f == [f[0], f[1], f[2], f[3], f[4], f[5], f[6], f[7], f[8], f[9], f[10]]
  {
  }

  /** Reading one more data line appends what that line contributes. */
  lemma LoadStep(lines: seq<string>, i: nat)
    requires 1 <= i < |lines|
    ensures DataRows(lines[1..i + 1]) == DataRows(lines[1..i]) + RowsOf(lines[i])
  {
    assert lines[1..i + 1][..i - 1] == lines[1..i];
  }

  /** The header's content never matters: only the lines after it are read. */
  lemma HeaderIgnored(h1: string, h2: string, rest: seq<string>)
    ensures Load([h1] + rest) == Load([h2] + rest) == DataRows(rest)
  {
    assert ([h1] + rest)[1..] == rest;
    assert ([h2] + rest)[1..] == rest;
  }

  /** Data lines are processed independently and in order: the rows of two
      consecutive blocks of lines are the rows of the first, then of the second. */
  lemma {:induction false} DataRowsAppend(a: seq<string>, b: seq<string>)
    ensures DataRows(a + b) == DataRows(a) + DataRows(b)
    decreases |b|
  {
    if b == [] {
      assert a + b == a;
    } else {
      var b' := b[..|b| - 1];
      assert (a + b)[..|a + b| - 1] == a + b';
      assert (a + b)[|a + b| - 1] == b[|b| - 1];
      DataRowsAppend(a, b');
    }
  }

  /** The positions of the data lines that produce a row. */
  function KeptLines(ls: seq<string>): seq<nat> {
    if ls == [] then []
    else KeptLines(ls[..|ls| - 1]) + (if ParseLine(ls[|ls| - 1]).Some? then [|ls| - 1] else [])
  }

  /** A data line gives a row exactly when it holds at least ten commas. */
  lemma LineKept(line: string)
    ensures ParseLine(line).Some? <==> Count(line, ',') >= FieldCount - 1
  {
    SplitCount(line, ',');
  }

  /** Row j comes from line KeptLines(ls)[j]: there is one kept position per
      row, and the line at that position parses to exactly that row. */
  lemma {:induction false} RowsFromKeptLines(ls: seq<string>)
    ensures |KeptLines(ls)| == |DataRows(ls)|
    ensures forall j :: 0 <= j < |KeptLines(ls)| ==>
      KeptLines(ls)[j] < |ls| && ParseLine(ls[KeptLines(ls)[j]]) == Some(DataRows(ls)[j])
  {
    if ls != [] {
      var init := ls[..|ls| - 1];
      var last := ls[|ls| - 1];
      RowsFromKeptLines(init);
      var prev := KeptLines(init);
      var idx := KeptLines(ls);
      var rows := DataRows(ls);
      assert rows == DataRows(init) + RowsOf(last);
      assert idx == prev + (if ParseLine(last).Some? then [|ls| - 1] else []);
      forall j | 0 <= j < |prev|
        ensures idx[j] == prev[j] && ls[prev[j]] == init[prev[j]] && rows[j] == DataRows(init)[j]
      {
      }
    }
  }

  /** The kept positions strictly increase: rows keep the order of their
      lines and no line gives two rows. */
  lemma {:induction false} KeptLinesIncrease(ls: seq<string>)
    ensures forall j, m :: 0 <= j < m < |KeptLines(ls)| ==> KeptLines(ls)[j] < KeptLines(ls)[m]
    ensures forall j :: 0 <= j < |KeptLines(ls)| ==> KeptLines(ls)[j] < |ls|
  {
    if ls != [] {
      var init := ls[..|ls| - 1];
      KeptLinesIncrease(init);
      var prev := KeptLines(init);
      assert KeptLines(ls) == prev + (if ParseLine(ls[|ls| - 1]).Some? then [|ls| - 1] else []);
    }
  }

  /** Every data line that parses is among the kept positions: no row is lost. */
  lemma {:induction false} ParsedLinesKept(ls: seq<string>)
    ensures forall n :: 0 <= n < |ls| && ParseLine(ls[n]).Some? ==> n in KeptLines(ls)
  {
    if ls != [] {
      var init := ls[..|ls| - 1];
      ParsedLinesKept(init);
      var prev := KeptLines(init);
      var idx := KeptLines(ls);
      assert idx == prev + (if ParseLine(ls[|ls| - 1]).Some? then [|ls| - 1] else []);
      forall n | 0 <= n < |ls| - 1 && ParseLine(ls[n]).Some?
        ensures n in idx
      {
        assert ls[n] == init[n];
        assert n in prev;
      }
    }
  }

  /** Every stored field is already trimmed: trimming it again changes nothing. */
  lemma LoadedFieldsStable(lines: seq<string>, j: nat, k: nat)
    requires j < |Load(lines)| && k < FieldCount
    ensures Trim(Load(lines)[j][k]) == Load(lines)[j][k]
  {
    TrimOfTrimmed(Load(lines)[j][k]);
  }

  /** Columns after the eleventh are dropped: appending more columns to a
      line that already has eleven does not change its row. */
  lemma ExtraColumnsIgnored(line: string, extra: string)
    requires Count(line, ',') >= FieldCount - 1
    ensures ParseLine(line + [','] + extra) == ParseLine(line)
  {
    SplitAtSeparator(line, extra, ',');
    SplitCount(line, ',');
    var v := Split(line, ',');
    var w := Split(line + [','] + extra, ',');
    assert forall k :: 0 <= k < FieldCount ==> w[k] == v[k];
    assert ParseLine(line + [','] + extra).value == ParseLine(line).value;
  }

  /** Positional mapping: the k-th of the comma-joined pieces, trimmed, is
      the k-th field (Brand, Model, LaunchInfo, Status, Dimensions, Weight,
      SIM, DisplayType, DisplaySize, Resolution, OS). */
  lemma ParseJoined(pieces: seq<string>)
    requires |pieces| >= FieldCount
    requires forall k :: 0 <= k < |pieces| ==> ',' !in pieces[k]
    ensures ParseLine(Join(pieces, ',')).Some?
    ensures forall k :: 0 <= k < FieldCount ==> ParseLine(Join(pieces, ',')).value[k] == Trim(pieces[k])
  {
    SplitJoin(pieces, ',');
  }

  /** Round trip: eleven trimmed, comma-free fields joined with commas load
      back as exactly those fields. */
  lemma ParseJoinedFields(fields: seq<string>)
    requires |fields| == FieldCount
    requires forall k :: 0 <= k < FieldCount ==> ',' !in fields[k] && IsTrimmed(fields[k])
    ensures ParseLine(Join(fields, ',')) == Some(fields)
  {
    ParseJoined(fields);
    forall k | 0 <= k < FieldCount
      ensures ParseLine(Join(fields, ',')).value[k] == fields[k]
    {
      TrimOfTrimmed(fields[k]);
    }
    assert ParseLine(Join(fields, ',')).value == fields;
  }

  /** A line of ten commas and nothing else still has eleven (empty) pieces
      and so becomes a row of eleven empty fields. */
  lemma TenCommas()
    ensures ParseLine(",,,,,,,,,,") == Some(seq(FieldCount, _ => ""))
  {
    var empties: seq<string> := seq(FieldCount, _ => "");
    JoinEmpties(FieldCount - 1, ',');
    assert seq(FieldCount - 1, _ => ',') == ",,,,,,,,,,";
    ParseJoinedFields(empties);
  }

  /** n + 1 empty pieces joined give n separators. */
  lemma {:induction false} JoinEmpties(n: nat, sep: char)
    ensures Join(seq(n + 1, _ => ""), sep) == seq(n, _ => sep)
  {
    if n > 0 {
      JoinEmpties(n - 1, sep);
      assert seq(n + 1, _ => "")[1..] == seq(n, _ => "");
      assert seq(n, _ => sep) == "" + [sep] + seq(n - 1, _ => sep);
    }
  }
}
