/** What the reader makes of any text, not only of what the writer produces: fields plain or
    quoted, with bytes after a closing quote, lines ended by LF, CR or CR LF, and blank lines. */
module CsvSpelling {
  import opened Wrappers
  import opened Utf8
  import opened Seqs
  import opened Csv
  import opened CsvTransfer

  // ---- Spelled text ----

  /** A byte inside quotes, written as it is or guarded: by a quote before a quote in the first
      dialect, by a backslash before anything in the second. */
  datatype Unit = Bare(b: byte) | Guarded(b: byte)

  predicate UnitFits(d: Dialect, u: Unit) {
    match u
    case Bare(b) => b != QUOTE && !(d == Escaped && b == BACKSLASH)
    case Guarded(b) => d == Escaped || b == QUOTE
  }

  function UnitText(d: Dialect, u: Unit): seq<byte> {
    match u
    case Bare(b) => [b]
    case Guarded(b) => [if d == Doubled then QUOTE else BACKSLASH, b]
  }

  function UnitsText(d: Dialect, units: seq<Unit>): seq<byte> {
    if units == [] then [] else UnitText(d, units[0]) + UnitsText(d, units[1..])
  }

  function UnitBytes(units: seq<Unit>): (r: seq<byte>)
    ensures |r| == |units| && forall i :: 0 <= i < |units| ==> r[i] == units[i].b
  {
    seq(|units|, i requires 0 <= i < |units| => units[i].b)
  }

  /** A field: plain, or quoted with whatever follows its closing quote. */
  datatype Spelling = Plain(bytes: seq<byte>) | Quoted(units: seq<Unit>, tail: seq<byte>)

  /** No comma and no line end. */
  predicate IsInner(bytes: seq<byte>) {
    forall i :: 0 <= i < |bytes| ==> bytes[i] != COMMA && bytes[i] != LF && bytes[i] != CR
  }

  predicate Fits(d: Dialect, f: Spelling) {
    match f
    case Plain(bytes) => IsInner(bytes) && (bytes != [] ==> bytes[0] != QUOTE)
    case Quoted(units, tail) =>
      && (forall i :: 0 <= i < |units| ==> UnitFits(d, units[i]))
      && IsInner(tail) && (d == Doubled && tail != [] ==> tail[0] != QUOTE)
  }

  function FieldText(d: Dialect, f: Spelling): seq<byte> {
    match f
    case Plain(bytes) => bytes
    case Quoted(units, tail) => [QUOTE] + UnitsText(d, units) + [QUOTE] + tail
  }

  function FieldValue(f: Spelling): Field {
    match f
    case Plain(bytes) => bytes
    case Quoted(units, tail) => UnitBytes(units) + tail
  }

  function FieldsText(d: Dialect, fields: seq<Spelling>): seq<byte>
    requires fields != []
  {
    if |fields| == 1 then FieldText(d, fields[0])
    else FieldText(d, fields[0]) + [COMMA] + FieldsText(d, fields[1..])
  }

  function FieldValues(fields: seq<Spelling>): (r: Record)
    ensures |r| == |fields| && forall i :: 0 <= i < |fields| ==> r[i] == FieldValue(fields[i])
  {
    seq(|fields|, i requires 0 <= i < |fields| => FieldValue(fields[i]))
  }

  /** A row has a field, and is not the empty text of a blank line. */
  predicate RowFits(d: Dialect, fields: seq<Spelling>) {
    fields != [] && fields != [Plain([])] && forall i :: 0 <= i < |fields| ==> Fits(d, fields[i])
  }

  datatype LineEnd = Lf | Cr | CrLf

  function EndText(e: LineEnd): seq<byte> {
    match e
    case Lf => [10]
    case Cr => [13]
    case CrLf => [13, 10]
  }

  datatype Line = Row(fields: seq<Spelling>, end: LineEnd) | Blank(end: LineEnd)

  predicate LineFits(d: Dialect, line: Line) {
    line.Row? ==> RowFits(d, line.fields)
  }

  function LineText(d: Dialect, line: Line): seq<byte>
    requires LineFits(d, line)
  {
    (if line.Row? then FieldsText(d, line.fields) else []) + EndText(line.end)
  }

  predicate LinesFit(d: Dialect, lines: seq<Line>) {
    forall i :: 0 <= i < |lines| ==> LineFits(d, lines[i])
  }

  function LinesText(d: Dialect, lines: seq<Line>): seq<byte>
    requires LinesFit(d, lines)
  {
    if lines == [] then [] else LineText(d, lines[0]) + LinesText(d, lines[1..])
  }

  /** The rows, without the blank lines. */
  function Rows(lines: seq<Line>): seq<seq<Spelling>> {
    if lines == [] then []
    else (if lines[0].Row? then [lines[0].fields] else []) + Rows(lines[1..])
  }

  function Records(rows: seq<seq<Spelling>>): (r: seq<Record>)
    ensures |r| == |rows| && forall i :: 0 <= i < |rows| ==> r[i] == FieldValues(rows[i])
  {
    seq(|rows|, i requires 0 <= i < |rows| => FieldValues(rows[i]))
  }

  // ---- Reading a field ----

  lemma {:induction false} ReadUnit(d: Dialect, r: Reader, u: Unit)
    requires r.state == InQuoted && UnitFits(d, u)
    ensures Run(d, r, UnitText(d, u)) == Keep(r, InQuoted, u.b)
  {
    if u.Bare? {
      RunOne(d, r, u.b);
    } else {
      RunTwo(d, r, if d == Doubled then QUOTE else BACKSLASH, u.b);
    }
  }

  lemma {:induction false} ReadUnits(d: Dialect, r: Reader, units: seq<Unit>)
    requires r.state == InQuoted && forall i :: 0 <= i < |units| ==> UnitFits(d, units[i])
    ensures Run(d, r, UnitsText(d, units)) == r.(field := r.field + UnitBytes(units))
    decreases |units|
  {
    if units == [] {
      assert r.field + UnitBytes(units) == r.field;
    } else {
      hide Run, Step;
      var head, tail := UnitText(d, units[0]), UnitsText(d, units[1..]);
      var next := Keep(r, InQuoted, units[0].b);
      ReadUnit(d, r, units[0]);
      RunConcat(d, r, head, tail);
      ReadUnits(d, next, units[1..]);
      assert next.field + UnitBytes(units[1..]) == r.field + UnitBytes(units);
    }
  }

  lemma {:induction false} ReadInner(d: Dialect, r: Reader, bytes: seq<byte>)
    requires r.state == InField && IsInner(bytes)
    ensures Run(d, r, bytes) == r.(field := r.field + bytes)
    decreases |bytes|
  {
    if bytes == [] {
      assert r.field + bytes == r.field;
    } else {
      ReadInner(d, Keep(r, InField, bytes[0]), bytes[1..]);
      assert r.field + [bytes[0]] + bytes[1..] == r.field + bytes;
    }
  }

  lemma {:induction false} ReadTail(d: Dialect, r: Reader, tail: seq<byte>)
    requires r.state == AfterQuote && IsInner(tail) && (d == Doubled && tail != [] ==> tail[0] != QUOTE)
    ensures var s := Run(d, r, tail);
            s == r.(field := r.field + tail, state := s.state) && s.state in {InField, AfterQuote}
  {
    if tail == [] {
      assert r.field + tail == r.field;
    } else {
      ReadInner(d, Keep(r, InField, tail[0]), tail[1..]);
      assert r.field + [tail[0]] + tail[1..] == r.field + tail;
    }
  }

  predicate AtStart(r: Reader) {
    r.state in {StartRecord, AfterCr, StartField} && r.field == []
  }

  /** A spelled field is read as its value. Only the empty plain field leaves the reader where it was. */
  lemma {:induction false} ReadSpelledField(d: Dialect, r: Reader, f: Spelling)
    requires AtStart(r) && Fits(d, f)
    ensures var s := Run(d, r, FieldText(d, f));
            && s == r.(field := FieldValue(f), state := s.state)
            && (if f == Plain([]) then s == r else s.state in {InField, AfterQuote})
  {
    match f
    case Plain(bytes) =>
      if bytes != [] {
        ReadInner(d, Keep(r, InField, bytes[0]), bytes[1..]);
        assert [] + [bytes[0]] + bytes[1..] == bytes;
      }
    case Quoted(units, tail) =>
      hide Run;
      var inside := r.(state := InQuoted);
      var closed := r.(state := AfterQuote, field := UnitBytes(units));
      RunOne(d, r, QUOTE);
      ReadUnits(d, inside, units);
      assert [] + UnitBytes(units) == UnitBytes(units);
      RunOne(d, inside.(field := UnitBytes(units)), QUOTE);
      RunConcat(d, r, [QUOTE], UnitsText(d, units));
      RunConcat(d, r, [QUOTE] + UnitsText(d, units), [QUOTE]);
      RunConcat(d, r, [QUOTE] + UnitsText(d, units) + [QUOTE], tail);
      ReadTail(d, closed, tail);
  }

  /** What the fields of a row leave, before its line end. */
  predicate HasFields(s: Reader, before: Reader, values: Record) {
    && s.record + [s.field] == before.record + values && s.records == before.records
    && s.state in {StartField, InField, AfterQuote}
  }

  lemma {:induction false} ReadSpelledFields(d: Dialect, r: Reader, fields: seq<Spelling>)
    requires AtStart(r) && fields != [] && forall i :: 0 <= i < |fields| ==> Fits(d, fields[i])
    requires fields == [Plain([])] ==> r.state == StartField
    ensures HasFields(Run(d, r, FieldsText(d, fields)), r, FieldValues(fields))
    decreases |fields|
  {
    hide Run, Fits, FieldText;
    var s := Run(d, r, FieldText(d, fields[0]));
    ReadSpelledField(d, r, fields[0]);
    if |fields| == 1 {
      assert fields == [fields[0]] && FieldValues(fields) == [FieldValue(fields[0])];
    } else {
      var next := Reader(StartField, [], r.record + [FieldValue(fields[0])], r.records);
      var first, rest := FieldText(d, fields[0]), FieldsText(d, fields[1..]);
      RunOne(d, s, COMMA);
      assert Step(d, s, COMMA) == next;
      RunConcat(d, r, first, [COMMA]);
      RunConcat(d, r, first + [COMMA], rest);
      ReadSpelledFields(d, next, fields[1..]);
      assert FieldValues(fields) == [FieldValue(fields[0])] + FieldValues(fields[1..]);
      ConcatAssociative(r.record, [FieldValue(fields[0])], FieldValues(fields[1..]));
    }
  }

  // ---- Reading lines ----

  predicate BetweenRecords(r: Reader) {
    r.state in {StartRecord, AfterCr} && r.field == [] && r.record == []
  }

  lemma {:induction false} ReadEnd(d: Dialect, s: Reader, e: LineEnd)
    requires s.state in {StartField, InField, AfterQuote}
    ensures var t := Run(d, s, EndText(e)); BetweenRecords(t) && t.records == s.records + [s.record + [s.field]]
  {
    if e == CrLf { RunTwo(d, s, CR, LF); } else { RunOne(d, s, EndText(e)[0]); }
  }

  lemma {:induction false} SkipEnd(d: Dialect, s: Reader, e: LineEnd)
    requires BetweenRecords(s)
    ensures var t := Run(d, s, EndText(e)); BetweenRecords(t) && t.records == s.records
  {
    if e == CrLf { RunTwo(d, s, CR, LF); } else { RunOne(d, s, EndText(e)[0]); }
  }

  lemma {:induction false} ReadLine(d: Dialect, r: Reader, line: Line)
    requires BetweenRecords(r) && LineFits(d, line)
    ensures var t := Run(d, r, LineText(d, line));
            BetweenRecords(t) && t.records == r.records + Records(Rows([line]))
  {
    hide Run, FieldsText;
    assert [line][1..] == [];
    if line.Row? {
      var s := Run(d, r, FieldsText(d, line.fields));
      ReadSpelledFields(d, r, line.fields);
      assert [] + FieldValues(line.fields) == FieldValues(line.fields);
      RunConcat(d, r, FieldsText(d, line.fields), EndText(line.end));
      ReadEnd(d, s, line.end);
      assert Rows([line]) == [line.fields];
      assert Records([line.fields]) == [FieldValues(line.fields)];
    } else {
      assert [] + EndText(line.end) == EndText(line.end);
      SkipEnd(d, r, line.end);
      assert Rows([line]) == [];
      assert r.records + Records([]) == r.records;
    }
  }

  lemma {:induction false} RowsOfFirst(lines: seq<Line>)
    requires lines != []
    ensures Records(Rows(lines)) == Records(Rows([lines[0]])) + Records(Rows(lines[1..]))
  {
    hide FieldValues;
    assert [lines[0]][1..] == [];
    assert Rows([lines[0]]) == if lines[0].Row? then [lines[0].fields] else [];
  }

  lemma {:induction false} ReadLines(d: Dialect, r: Reader, lines: seq<Line>)
    requires BetweenRecords(r) && LinesFit(d, lines)
    ensures var t := Run(d, r, LinesText(d, lines));
            BetweenRecords(t) && t.records == r.records + Records(Rows(lines))
    decreases |lines|
  {
    if lines == [] {
      assert r.records + Records([]) == r.records;
      RunNone(d, r);
    } else {
      hide Run, LineText, Rows, Records, LineFits;
      var t := Run(d, r, LineText(d, lines[0]));
      ReadLine(d, r, lines[0]);
      RunConcat(d, r, LineText(d, lines[0]), LinesText(d, lines[1..]));
      ReadLines(d, t, lines[1..]);
      RowsOfFirst(lines);
      ConcatAssociative(r.records, Records(Rows([lines[0]])), Records(Rows(lines[1..])));
    }
  }

  /** A last row that no line end follows. */
  function LastText(d: Dialect, last: Option<seq<Spelling>>): seq<byte>
    requires last.Some? ==> RowFits(d, last.value)
  {
    if last.Some? then FieldsText(d, last.value) else []
  }

  function AllRows(lines: seq<Line>, last: Option<seq<Spelling>>): seq<seq<Spelling>> {
    Rows(lines) + if last.Some? then [last.value] else []
  }

  /** Any text of rows and blank lines, with or without a line end at its end, is read as the
      values of its rows. */
  lemma {:induction false} ReadSpelled(d: Dialect, lines: seq<Line>, last: Option<seq<Spelling>>)
    requires LinesFit(d, lines) && (last.Some? ==> RowFits(d, last.value))
    ensures Finish(Run(d, Fresh, LinesText(d, lines) + LastText(d, last))) == Records(AllRows(lines, last))
  {
    hide Run, FieldsText, LinesText;
    var t := Run(d, Fresh, LinesText(d, lines));
    ReadLines(d, Fresh, lines);
    RunConcat(d, Fresh, LinesText(d, lines), LastText(d, last));
    assert [] + Records(Rows(lines)) == Records(Rows(lines));
    if last.Some? {
      ReadSpelledFields(d, t, last.value);
      assert [] + FieldValues(last.value) == FieldValues(last.value);
      assert Records(AllRows(lines, last)) == Records(Rows(lines)) + [FieldValues(last.value)];
    } else {
      assert Run(d, t, []) == t by { RunNone(d, t); }
      assert Rows(lines) + [] == Rows(lines);
    }
  }

  lemma {:induction false} RunNone(d: Dialect, r: Reader)
    ensures Run(d, r, []) == r
  {
  }

  /** The same of a file, with or without a byte order mark. */
  lemma {:induction false} ReadFile(d: Dialect, lines: seq<Line>, last: Option<seq<Spelling>>)
    requires LinesFit(d, lines) && (last.Some? ==> RowFits(d, last.value))
    ensures var text := LinesText(d, lines) + LastText(d, last);
            && Read(d, BOM + text) == Records(AllRows(lines, last))
            && (!(BOM <= text) ==> Read(d, text) == Records(AllRows(lines, last)))
  {
    hide Run, FieldsText, LinesText;
    ReadSpelled(d, lines, last);
    var text := LinesText(d, lines) + LastText(d, last);
    assert (BOM + text)[3..] == text;
  }

  // ---- A quote that is never closed ----

  /** At the end of the text an open quote is closed: what was read of the field is kept. */
  lemma {:induction false} ReadUnclosed(d: Dialect, lines: seq<Line>, before: seq<Spelling>, units: seq<Unit>)
    requires LinesFit(d, lines) && forall i :: 0 <= i < |before| ==> Fits(d, before[i])
    requires forall i :: 0 <= i < |units| ==> UnitFits(d, units[i])
    ensures var start := if before == [] then [] else FieldsText(d, before) + [COMMA];
            Finish(Run(d, Fresh, LinesText(d, lines) + (start + ([QUOTE] + UnitsText(d, units)))))
            == Records(Rows(lines)) + [FieldValues(before) + [UnitBytes(units)]]
  {
    hide Run, LinesText, FieldsText, UnitsText, Fits;
    var start := if before == [] then [] else FieldsText(d, before) + [COMMA];
    var open := [QUOTE] + UnitsText(d, units);
    var t := Run(d, Fresh, LinesText(d, lines));
    ReadLines(d, Fresh, lines);
    RunConcat(d, Fresh, LinesText(d, lines), start + open);
    RunConcat(d, t, start, open);
    var u := Run(d, t, start);
    ReadStart(d, t, before);
    ReadOpen(d, u, units);
    assert [] + Records(Rows(lines)) == Records(Rows(lines)) && [] + UnitBytes(units) == UnitBytes(units);
  }

  lemma {:induction false} ReadStart(d: Dialect, t: Reader, before: seq<Spelling>)
    requires BetweenRecords(t) && forall i :: 0 <= i < |before| ==> Fits(d, before[i])
    ensures var u := Run(d, t, if before == [] then [] else FieldsText(d, before) + [COMMA]);
            AtStart(u) && u.record == FieldValues(before) && u.records == t.records
  {
    hide Run, FieldsText, Fits;
    if before == [] {
      RunNone(d, t);
    } else {
      var s := Run(d, t, FieldsText(d, before));
      RunConcat(d, t, FieldsText(d, before), [COMMA]);
      if before == [Plain([])] {
        PlainNothing(d, t);
      } else {
        ReadSpelledFields(d, t, before);
        assert [] + FieldValues(before) == FieldValues(before);
        RunOne(d, s, COMMA);
      }
    }
  }

  lemma {:induction false} PlainNothing(d: Dialect, t: Reader)
    requires BetweenRecords(t)
    ensures FieldsText(d, [Plain([])]) == [] && FieldValues([Plain([])]) == [[]]
    ensures Run(d, Run(d, t, FieldsText(d, [Plain([])])), [COMMA]) == Reader(StartField, [], [[]], t.records)
  {
    RunNone(d, t);
    RunOne(d, t, COMMA);
  }

  lemma {:induction false} ReadOpen(d: Dialect, u: Reader, units: seq<Unit>)
    requires AtStart(u) && forall i :: 0 <= i < |units| ==> UnitFits(d, units[i])
    ensures var s := Run(d, u, [QUOTE] + UnitsText(d, units));
            s == u.(state := InQuoted, field := UnitBytes(units))
  {
    hide Run, UnitsText;
    RunOne(d, u, QUOTE);
    RunConcat(d, u, [QUOTE], UnitsText(d, units));
    ReadUnits(d, u.(state := InQuoted), units);
    assert [] + UnitBytes(units) == UnitBytes(units);
  }

  // ---- Files that differ in their line ends ----

  datatype File = File(hasBom: bool, lines: seq<Line>, last: Option<seq<Spelling>>)

  predicate FileFits(d: Dialect, f: File) {
    && LinesFit(d, f.lines) && (f.last.Some? ==> RowFits(d, f.last.value))
    && (f.hasBom || !(BOM <= LinesText(d, f.lines) + LastText(d, f.last)))
  }

  function FileText(d: Dialect, f: File): seq<byte>
    requires FileFits(d, f)
  {
    (if f.hasBom then BOM else []) + (LinesText(d, f.lines) + LastText(d, f.last))
  }

  /** No blank line before the header. */
  predicate StartsAtOnce(f: File) {
    f.lines != [] ==> f.lines[0].Row?
  }

  predicate OnlyEnds(rest: seq<byte>) {
    rest != [] ==> rest[0] in {LF, CR}
  }

  lemma {:induction false} FirstRow(d: Dialect, f: File) returns (rest: seq<byte>)
    requires FileFits(d, f) && StartsAtOnce(f) && AllRows(f.lines, f.last) != []
    ensures RowFits(d, AllRows(f.lines, f.last)[0])
    ensures LinesText(d, f.lines) + LastText(d, f.last) == FieldsText(d, AllRows(f.lines, f.last)[0]) + rest
    ensures OnlyEnds(rest)
  {
    hide FieldsText, RowFits;
    if f.lines == [] {
      rest := [];
      assert AllRows(f.lines, f.last)[0] == f.last.value;
    } else {
      rest := FirstLine(d, f.lines, LastText(d, f.last));
    }
  }

  lemma {:induction false} FirstLine(d: Dialect, lines: seq<Line>, tail: seq<byte>) returns (rest: seq<byte>)
    requires LinesFit(d, lines) && lines != [] && lines[0].Row?
    ensures Rows(lines) != [] && Rows(lines)[0] == lines[0].fields
    ensures LinesText(d, lines) + tail == FieldsText(d, lines[0].fields) + rest
    ensures OnlyEnds(rest)
  {
    hide FieldsText;
    var row, end, more := FieldsText(d, lines[0].fields), EndText(lines[0].end), LinesText(d, lines[1..]);
    rest := end + more + tail;
    assert row + end + more + tail == row + rest;
  }

  /** A text without line ends starts both files or neither. */
  lemma {:induction false} SameStart(start: seq<byte>, row: seq<byte>, x: seq<byte>, y: seq<byte>)
    requires LF !in start && CR !in start && OnlyEnds(x) && OnlyEnds(y) && start <= row + x
    ensures start <= row + y
  {
    if start != [] {
      var k := if |row| < |start| then |row| else 0;
      assert start[k] == (row + x)[k] && start[k] in start;
      assert forall i :: 0 <= i < |start| ==> start[i] == (row + x)[i];
    }
  }

  lemma {:induction false} StartHasNoEnds()
    ensures LF !in ESCAPED_START && CR !in ESCAPED_START
  {
  }

  lemma {:induction false} StripsBom(d: Dialect, f: File)
    requires FileFits(d, f)
    ensures WithoutBom(FileText(d, f)) == LinesText(d, f.lines) + LastText(d, f.last)
  {
    hide LinesText, LastText, LinesFit, RowFits;
    var text := LinesText(d, f.lines) + LastText(d, f.last);
    assert (BOM + text)[3..] == text;
    assert [] + text == text;
  }

  lemma {:induction false} SameDialect(flavor: Flavor, d: Dialect, f: File, g: File)
    requires FileFits(d, f) && FileFits(d, g) && StartsAtOnce(f) && StartsAtOnce(g)
    requires AllRows(f.lines, f.last) == AllRows(g.lines, g.last)
    requires ImportDialect(flavor, FileText(d, f)) == Escaped
    ensures ImportDialect(flavor, FileText(d, g)) == Escaped
  {
    hide FieldsText, LinesText, LastText, LinesFit, RowFits;
    StripsBom(d, f);
    StripsBom(d, g);
    if AllRows(f.lines, f.last) == [] {
      NoRows(d, f);
    } else {
      var x := FirstRow(d, f);
      var y := FirstRow(d, g);
      var row := AllRows(f.lines, f.last)[0];
      assert row != [] by { NotEmpty(d, row); }
      StartHasNoEnds();
      SameStart(ESCAPED_START, FieldsText(d, row), x, y);
    }
  }

  lemma {:induction false} NotEmpty(d: Dialect, row: seq<Spelling>)
    requires RowFits(d, row)
    ensures row != []
  {
  }

  lemma {:induction false} NoRows(d: Dialect, f: File)
    requires FileFits(d, f) && StartsAtOnce(f) && AllRows(f.lines, f.last) == []
    ensures LinesText(d, f.lines) + LastText(d, f.last) == []
  {
    assert f.lines == [];
  }

  lemma {:induction false} ReadsRows(d: Dialect, f: File)
    requires FileFits(d, f)
    ensures Read(d, FileText(d, f)) == Records(AllRows(f.lines, f.last))
  {
    hide LinesText, LastText, LinesFit, RowFits, Run, Finish;
    ReadFile(d, f.lines, f.last);
    var text := LinesText(d, f.lines) + LastText(d, f.last);
    assert [] + text == text;
  }

  lemma {:induction false} SameDialects(flavor: Flavor, d: Dialect, f: File, g: File)
    requires FileFits(d, f) && FileFits(d, g) && StartsAtOnce(f) && StartsAtOnce(g)
    requires AllRows(f.lines, f.last) == AllRows(g.lines, g.last)
    ensures ImportDialect(flavor, FileText(d, f)) == ImportDialect(flavor, FileText(d, g))
  {
    hide FileText, FileFits, ImportDialect, AllRows;
    if ImportDialect(flavor, FileText(d, f)) == Escaped {
      SameDialect(flavor, d, f, g);
    } else if ImportDialect(flavor, FileText(d, g)) == Escaped {
      SameDialect(flavor, d, g, f);
    }
  }

  /** What is imported depends on the rows alone: not on how lines end, on blank lines after the
      header, on a missing last line end or on a byte order mark. */
  lemma {:induction false} LineEndsDoNotMatter(flavor: Flavor, d: Dialect, f: File, g: File)
    requires FileFits(d, f) && FileFits(d, g) && d == ImportDialect(flavor, FileText(d, f))
    requires AllRows(f.lines, f.last) == AllRows(g.lines, g.last) && StartsAtOnce(f) && StartsAtOnce(g)
    requires |FileText(d, f)| <= MAX_FILE_BYTES && |FileText(d, g)| <= MAX_FILE_BYTES
    ensures Imported(flavor, FileText(d, g)) == Imported(flavor, FileText(d, f))
  {
    hide FileText, FileFits, ImportDialect, ImportedRecords, Read, AllRows;
    ReadsRows(d, f);
    ReadsRows(d, g);
    SameDialects(flavor, d, f, g);
  }
}
