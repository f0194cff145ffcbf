/** How an exported file is spelled: each field in the simplest way its dialect has. */
module CsvWriting {
  import opened Utf8
  import opened Items
  import opened Csv
  import opened CsvTransfer
  import opened CsvSpelling
  import CsvRoundTrip

  /** Quotes are guarded, and in the second dialect backslashes too. */
  function UnitOf(d: Dialect, b: byte): Unit {
    if b == 34 || (d == Escaped && b == 92) then Guarded(b) else Bare(b)
  }

  function UnitsOf(d: Dialect, f: Csv.Field): (r: seq<Unit>)
    ensures |r| == |f| && forall i :: 0 <= i < |f| ==> r[i] == UnitOf(d, f[i])
  {
    seq(|f|, i requires 0 <= i < |f| => UnitOf(d, f[i]))
  }

  /** Without a comma, a quote or a line end in it. */
  predicate IsBare(f: Csv.Field) {
    forall b :: b in f ==> b != 44 && b != 34 && b != 10 && b != 13
  }

  /** The first dialect quotes where it must, the second always. */
  function Simplest(d: Dialect, f: Csv.Field): Spelling {
    if d == Doubled && IsBare(f) then Plain(f) else Quoted(UnitsOf(d, f), [])
  }

  function AllSimplest(d: Dialect, r: Record): (s: seq<Spelling>)
    ensures |s| == |r| && forall i :: 0 <= i < |r| ==> s[i] == Simplest(d, r[i])
  {
    seq(|r|, i requires 0 <= i < |r| => Simplest(d, r[i]))
  }

  /** A row that would be a blank line is an empty quoted field. */
  function RowOf(d: Dialect, r: Record): seq<Spelling> {
    if AllSimplest(d, r) == [Plain([])] then [Quoted([], [])] else AllSimplest(d, r)
  }

  function LinesOf(d: Dialect, rs: seq<Record>): (lines: seq<Line>)
    ensures |lines| == |rs| && forall i :: 0 <= i < |rs| ==> lines[i] == Row(RowOf(d, rs[i]), Lf)
  {
    seq(|rs|, i requires 0 <= i < |rs| => Row(RowOf(d, rs[i]), Lf))
  }

  lemma {:induction false} ProtectedSpelled(d: Dialect, f: Csv.Field)
    ensures Protect(d, Prepare(d, f)) == UnitsText(d, UnitsOf(d, f))
  {
    if f == [] {
      assert UnitsOf(d, f) == [];
    } else {
      hide Protect, Prepare;
      ProtectFirst(d, f);
      ProtectedSpelled(d, f[1..]);
      assert UnitsOf(d, f)[1..] == UnitsOf(d, f[1..]);
    }
  }

  lemma {:induction false} BareExactly(f: Csv.Field)
    ensures IsBare(f) <==> !NeedsQuotes(Doubled, f)
  {
    assert forall i :: 0 <= i < |f| ==> f[i] in f;
  }

  lemma {:induction false} SimplestFits(d: Dialect, f: Csv.Field)
    ensures Fits(d, Simplest(d, f)) && FieldValue(Simplest(d, f)) == f
  {
    assert forall i :: 0 <= i < |f| ==> f[i] in f;
    if !(d == Doubled && IsBare(f)) {
      assert UnitBytes(UnitsOf(d, f)) + [] == f;
    }
  }

  lemma {:induction false} FieldWritten(d: Dialect, f: Csv.Field)
    ensures WriteField(d, Prepare(d, f)) == FieldText(d, Simplest(d, f))
  {
    hide Protect, UnitsText, IsBare;
    BareExactly(f);
    ProtectedSpelled(d, f);
    assert [QUOTE] + UnitsText(d, UnitsOf(d, f)) + [QUOTE] + [] == [QUOTE] + UnitsText(d, UnitsOf(d, f)) + [QUOTE];
  }

  lemma {:induction false} FieldsWritten(d: Dialect, r: Record)
    requires r != []
    ensures WriteFields(d, PrepareRecord(d, r)) == FieldsText(d, AllSimplest(d, r))
    decreases |r|
  {
    hide WriteField, FieldText, Simplest, Prepare;
    FieldWritten(d, r[0]);
    if |r| > 1 {
      assert PrepareRecord(d, r)[1..] == PrepareRecord(d, r[1..]);
      assert AllSimplest(d, r)[1..] == AllSimplest(d, r[1..]);
      FieldsWritten(d, r[1..]);
    }
  }

  lemma {:induction false} NothingWritten(d: Dialect, r: Record)
    requires r != []
    ensures FieldsText(d, AllSimplest(d, r)) == [] <==> AllSimplest(d, r) == [Plain([])]
  {
    var s := AllSimplest(d, r);
    if |r| == 1 {
      assert s == [s[0]];
    }
  }

  lemma {:induction false} RowFitsAll(d: Dialect, r: Record)
    requires r != []
    ensures RowFits(d, RowOf(d, r)) && FieldValues(RowOf(d, r)) == r
  {
    hide Fits, Simplest;
    forall i | 0 <= i < |r| ensures Fits(d, Simplest(d, r[i])) && FieldValue(Simplest(d, r[i])) == r[i] {
      SimplestFits(d, r[i]);
    }
    EmptyQuotes(d);
    if AllSimplest(d, r) == [Plain([])] {
      assert r == [r[0]] && AllSimplest(d, r)[0] == Plain([]);
    }
  }

  lemma {:induction false} EmptyQuotes(d: Dialect)
    ensures Fits(d, Quoted([], [])) && FieldValue(Quoted([], [])) == []
    ensures FieldText(d, Quoted([], [])) == [QUOTE, QUOTE]
  {
    assert UnitBytes([]) == [];
  }

  lemma {:induction false} RowWritten(d: Dialect, r: Record)
    requires r != []
    ensures LineFits(d, Row(RowOf(d, r), Lf))
    ensures WriteRecord(d, PrepareRecord(d, r)) == LineText(d, Row(RowOf(d, r), Lf))
  {
    RowFitsAll(d, r);
    hide WriteFields, AllSimplest, RowFits, FieldText;
    FieldsWritten(d, r);
    NothingWritten(d, r);
    EmptyQuotes(d);
  }

  lemma {:induction false} LinesWritten(d: Dialect, rs: seq<Record>)
    requires forall i :: 0 <= i < |rs| ==> rs[i] != []
    ensures LinesFit(d, LinesOf(d, rs))
    ensures Write(d, PrepareAll(d, rs)) == LinesText(d, LinesOf(d, rs))
    decreases |rs|
  {
    hide WriteRecord, LineText, LineFits, RowOf;
    if rs != [] {
      RowWritten(d, rs[0]);
      LinesWritten(d, rs[1..]);
      assert PrepareAll(d, rs)[1..] == PrepareAll(d, rs[1..]);
      var lines := LinesOf(d, rs);
      assert lines[1..] == LinesOf(d, rs[1..]);
      forall i | 0 <= i < |lines| ensures LineFits(d, lines[i]) {
        if i > 0 { assert lines[i] == lines[1..][i - 1]; }
      }
    }
  }

  /** An exported file is the header and one row per record, each ended by LF, with every field spelled in
      the simplest way: for 1Password as it is unless it has a comma, a quote or a line end, for KeePass in
      quotes with quotes and backslashes guarded. */
  lemma {:induction false} FileSpelled(flavor: Flavor, secrets: seq<LegacySecret>)
    ensures var d := if flavor == KeePass then Escaped else Doubled;
            var lines := LinesOf(d, CsvRoundTrip.Records(flavor, secrets));
            LinesFit(d, lines) && ExportedCsv(flavor, secrets) == LinesText(d, lines)
  {
    hide LinesOf, LinesFit, LinesText, Write, ExportedCsv;
    CsvRoundTrip.ExportIsCsv(flavor, secrets);
    LinesWritten(ExportDialect(flavor), CsvRoundTrip.Records(flavor, secrets));
  }
}
