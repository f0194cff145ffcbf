/** The two CSV dialects the transfer code selects with builder flags: section 2
    of RFC 4180 (a quote inside a quoted field is doubled) and the KeePass 1.x
    dialect (every field is quoted and a backslash protects a quote). Writer and
    reader work on bytes; the reader is the csv crate's state machine. */
module Csv {
  import opened Utf8
  import opened Seqs

  type Field = seq<byte>
  type Record = seq<Field>

  const QUOTE: byte := 34
  const COMMA: byte := 44
  const BACKSLASH: byte := 92
  const LF: byte := 10
  const CR: byte := 13

  datatype Dialect = Doubled | Escaped

  // ---- Writer ----

  predicate IsSpecial(b: byte) {
    b == QUOTE || b == COMMA || b == LF || b == CR
  }

  /** Quote style "necessary" for the first dialect, "always" for the second. */
  predicate NeedsQuotes(d: Dialect, f: Field) {
    d == Escaped || exists i :: 0 <= i < |f| && IsSpecial(f[i])
  }

  /** Only quotes are protected: the writer leaves backslashes alone. */
  function Protect(d: Dialect, f: Field): (r: seq<byte>) {
    if f == [] then []
    else if f[0] == QUOTE then
      [if d == Doubled then QUOTE else BACKSLASH, QUOTE] + Protect(d, f[1..])
    else
      [f[0]] + Protect(d, f[1..])
  }

  function WriteField(d: Dialect, f: Field): (r: seq<byte>) {
    if NeedsQuotes(d, f) then [QUOTE] + Protect(d, f) + [QUOTE] else f
  }

  function WriteFields(d: Dialect, r: Record): (out: seq<byte>)
    requires r != []
  {
    if |r| == 1 then WriteField(d, r[0])
    else WriteField(d, r[0]) + [COMMA] + WriteFields(d, r[1..])
  }

  /** A record that would print as nothing is printed as an empty quoted field,
      so that no record becomes a blank line. */
  function WriteRecord(d: Dialect, r: Record): (out: seq<byte>)
    requires r != []
  {
    var fields := WriteFields(d, r);
    (if fields == [] then [QUOTE, QUOTE] else fields) + [LF]
  }

  function Write(d: Dialect, rs: seq<Record>): (out: seq<byte>)
    requires forall i :: 0 <= i < |rs| ==> rs[i] != []
  {
    if rs == [] then [] else WriteRecord(d, rs[0]) + Write(d, rs[1..])
  }

  // ---- Reader ----

  datatype State =
    | StartRecord
    | StartField
    | InField
    | InQuoted
    | AfterEscape
    | AfterQuote
    | AfterCr

  datatype Reader = Reader(state: State, field: Field, record: Record, records: seq<Record>)

  const Fresh: Reader := Reader(StartRecord, [], [], [])

  predicate IsTerminator(b: byte) {
    b == LF || b == CR
  }

  function EndField(r: Reader): Reader {
    Reader(StartField, [], r.record + [r.field], r.records)
  }

  function EndRecord(r: Reader, terminator: byte): Reader {
    Reader(if terminator == CR then AfterCr else StartRecord, [], [],
           r.records + [r.record + [r.field]])
  }

  function Keep(r: Reader, state: State, b: byte): Reader {
    r.(state := state, field := r.field + [b])
  }

  function Step(d: Dialect, r: Reader, b: byte): Reader {
    match r.state
    case StartRecord =>
      if IsTerminator(b) then r else StepField(r, b, true)
    case AfterCr =>
      if IsTerminator(b) then r.(state := StartRecord) else StepField(r, b, true)
    case StartField =>
      StepField(r, b, true)
    case InField =>
      StepField(r, b, false)
    case InQuoted =>
      if b == QUOTE then r.(state := AfterQuote)
      else if d == Escaped && b == BACKSLASH then r.(state := AfterEscape)
      else Keep(r, InQuoted, b)
    case AfterEscape =>
      Keep(r, InQuoted, b)
    case AfterQuote =>
      if d == Doubled && b == QUOTE then Keep(r, InQuoted, b) else StepField(r, b, false)
  }

  function StepField(r: Reader, b: byte, start: bool): Reader {
    if start && b == QUOTE then r.(state := InQuoted)
    else if b == COMMA then EndField(r)
    else if IsTerminator(b) then EndRecord(r, b)
    else Keep(r, InField, b)
  }

  function Run(d: Dialect, r: Reader, bytes: seq<byte>): Reader
    decreases |bytes|
  {
    if bytes == [] then r else Run(d, Step(d, r, bytes[0]), bytes[1..])
  }

  /** Input may end anywhere; a started record is still delivered. */
  function Finish(r: Reader): seq<Record> {
    if r.state in {StartRecord, AfterCr} then r.records
    else r.records + [r.record + [r.field]]
  }

  const BOM: seq<byte> := [0xEF, 0xBB, 0xBF]

  function WithoutBom(bytes: seq<byte>): seq<byte> {
    if BOM <= bytes then bytes[3..] else bytes
  }

  function Read(d: Dialect, bytes: seq<byte>): seq<Record> {
    Finish(Run(d, Fresh, WithoutBom(bytes)))
  }

  // ---- What a caller must hand the writer so that fields survive ----

  function DoubleBackslashes(f: Field): Field {
    if f == [] then []
    else if f[0] == BACKSLASH then [BACKSLASH, BACKSLASH] + DoubleBackslashes(f[1..])
    else [f[0]] + DoubleBackslashes(f[1..])
  }

  function Prepare(d: Dialect, f: Field): Field {
    if d == Escaped then DoubleBackslashes(f) else f
  }

  function PrepareRecord(d: Dialect, r: Record): (p: Record)
    ensures |p| == |r|
    ensures forall i :: 0 <= i < |r| ==> p[i] == Prepare(d, r[i])
  {
    seq(|r|, i requires 0 <= i < |r| => Prepare(d, r[i]))
  }

  function PrepareAll(d: Dialect, rs: seq<Record>): (ps: seq<Record>)
    ensures |ps| == |rs|
    ensures forall i :: 0 <= i < |rs| ==> ps[i] == PrepareRecord(d, rs[i])
  {
    seq(|rs|, i requires 0 <= i < |rs| => PrepareRecord(d, rs[i]))
  }

  // ---- Reading what was written ----

  lemma {:induction false} RunConcat(d: Dialect, r: Reader, a: seq<byte>, b: seq<byte>)
    ensures Run(d, r, a + b) == Run(d, Run(d, r, a), b)
    decreases |a|
  {
    if a == [] {
      assert a + b == b;
    } else {
      RunConcat(d, Step(d, r, a[0]), a[1..], b);
      assert (a + b)[1..] == a[1..] + b;
    }
  }

  lemma {:induction false} RunOne(d: Dialect, r: Reader, b: byte)
    ensures Run(d, r, [b]) == Step(d, r, b)
  {
    assert Run(d, Step(d, r, b), []) == Step(d, r, b);
    assert [b][1..] == [];
  }

  lemma {:induction false} RunTwo(d: Dialect, r: Reader, a: byte, b: byte)
    ensures Run(d, r, [a, b]) == Step(d, Step(d, r, a), b)
  {
    assert [a, b][1..] == [b];
    RunOne(d, Step(d, r, a), b);
  }

  /** How one byte of a prepared field is printed inside quotes. */
  function PrintByte(d: Dialect, b: byte): (r: seq<byte>) {
    if d == Escaped && b == BACKSLASH then [BACKSLASH, BACKSLASH]
    else if b == QUOTE then [if d == Doubled then QUOTE else BACKSLASH, QUOTE]
    else [b]
  }

  lemma {:induction false} ProtectFirst(d: Dialect, f: Field)
    requires f != []
    ensures Protect(d, Prepare(d, f)) == PrintByte(d, f[0]) + Protect(d, Prepare(d, f[1..]))
  {
    var p, tail := Prepare(d, f), Prepare(d, f[1..]);
    if d == Escaped && f[0] == BACKSLASH {
      assert p[1..] == [BACKSLASH] + tail;
      assert p[1..][1..] == tail;
    } else if d == Escaped {
      assert p[1..] == tail;
    }
  }

  lemma {:induction false} ReadPrinted(d: Dialect, r: Reader, b: byte)
    requires r.state == InQuoted
    ensures Run(d, r, PrintByte(d, b)) == Keep(r, InQuoted, b)
  {
    var printed := PrintByte(d, b);
    if |printed| == 2 {
      RunTwo(d, r, printed[0], printed[1]);
    } else {
      RunOne(d, r, b);
    }
  }

  /** The protected form of a prepared field, read inside quotes, adds exactly the field. */
  lemma {:induction false} ReadProtected(d: Dialect, r: Reader, f: Field)
    requires r.state == InQuoted
    ensures Run(d, r, Protect(d, Prepare(d, f))) == r.(field := r.field + f)
    decreases |f|
  {
    if f == [] {
      assert r.field + f == r.field;
    } else {
      hide Run, Protect, Prepare, PrintByte;
      var head, tail := PrintByte(d, f[0]), Protect(d, Prepare(d, f[1..]));
      var next := Keep(r, InQuoted, f[0]);
      assert Protect(d, Prepare(d, f)) == head + tail by { ProtectFirst(d, f); }
      assert Run(d, r, head) == next by { ReadPrinted(d, r, f[0]); }
      assert Run(d, r, head + tail) == Run(d, next, tail) by { RunConcat(d, r, head, tail); }
      ReadProtected(d, next, f[1..]);
      assert next.field + f[1..] == r.field + f;
    }
  }

  /** The reader has just taken in the whole of field `f`. */
  ghost predicate HasRead(r: Reader, f: Field, before: Reader) {
    && r.field == f
    && r.record == before.record
    && r.records == before.records
    && (r.state in {InField, AfterQuote} || (f == [] && r == before))
  }

  lemma {:induction false} ReadPlain(d: Dialect, r: Reader, f: Field)
    requires r.state == InField
    requires forall i :: 0 <= i < |f| ==> !IsSpecial(f[i])
    ensures Run(d, r, f) == r.(field := r.field + f)
    decreases |f|
  {
    if f == [] {
      assert r.field + f == r.field;
    } else {
      ReadPlain(d, Keep(r, InField, f[0]), f[1..]);
      assert r.field + [f[0]] + f[1..] == r.field + f;
    }
  }

  lemma {:induction false} ReadField(d: Dialect, before: Reader, f: Field)
    requires before.state in {StartRecord, StartField} && before.field == []
    ensures HasRead(Run(d, before, WriteField(d, Prepare(d, f))), f, before)
    ensures WriteField(d, Prepare(d, f)) != [] ==>
              Run(d, before, WriteField(d, Prepare(d, f))).state in {InField, AfterQuote}
  {
    var p := Prepare(d, f);
    if NeedsQuotes(d, p) {
      hide Run, Protect;
      var inside := before.(state := InQuoted);
      RunOne(d, before, QUOTE);
      ReadProtected(d, inside, f);
      RunConcat(d, before, [QUOTE], Protect(d, p));
      RunConcat(d, before, [QUOTE] + Protect(d, p), [QUOTE]);
      RunOne(d, inside.(field := [] + f), QUOTE);
      assert [] + f == f;
    } else if f != [] {
      ReadPlain(d, Keep(before, InField, f[0]), f[1..]);
      assert [] + [f[0]] + f[1..] == f;
    }
  }

  /** A field that was read is completed by the comma or newline after it. */
  lemma {:induction false} EndAfterField(d: Dialect, r: Reader, f: Field, before: Reader)
    requires HasRead(r, f, before)
    requires before.state in {StartRecord, StartField}
    ensures Step(d, r, COMMA) == Reader(StartField, [], before.record + [f], before.records)
    ensures r.state != StartRecord ==>
              Step(d, r, LF) == Reader(StartRecord, [], [], before.records + [before.record + [f]])
  {
  }

  lemma {:induction false} PrepareRecordTail(d: Dialect, r: Record)
    requires r != []
    ensures PrepareRecord(d, r)[1..] == PrepareRecord(d, r[1..])
  {
  }

  lemma {:induction false} ReadFields(d: Dialect, before: Reader, r: Record)
    requires r != []
    requires before.state in {StartRecord, StartField} && before.field == []
    requires before.state == StartRecord ==> WriteFields(d, PrepareRecord(d, r)) != []
    ensures Run(d, before, WriteFields(d, PrepareRecord(d, r)) + [LF])
            == Reader(StartRecord, [], [], before.records + [before.record + r])
    decreases |r|
  {
    hide Run, Step, Prepare;
    var p := PrepareRecord(d, r);
    var first := WriteField(d, p[0]);
    var mid := Run(d, before, first);
    ReadField(d, before, r[0]);
    if |r| == 1 {
      RunConcat(d, before, first, [LF]);
      RunOne(d, mid, LF);
      EndAfterField(d, mid, r[0], before);
      assert r == [r[0]];
    } else {
      hide HasRead, WriteField;
      var next := Reader(StartField, [], before.record + [r[0]], before.records);
      var rest := WriteFields(d, p[1..]) + [LF];
      assert WriteFields(d, p) + [LF] == first + ([COMMA] + rest);
      RunConcat(d, before, first, [COMMA] + rest);
      RunConcat(d, mid, [COMMA], rest);
      RunOne(d, mid, COMMA);
      EndAfterField(d, mid, r[0], before);
      PrepareRecordTail(d, r);
      ReadFields(d, next, r[1..]);
      AppendFirst(before.record, r);
    }
  }

  lemma {:induction false} ReadEmptyRecord(d: Dialect, done: seq<Record>)
    ensures Run(d, Reader(StartRecord, [], [], done), [QUOTE, QUOTE] + [LF])
            == Reader(StartRecord, [], [], done + [[[]]])
  {
    var before := Reader(StartRecord, [], [], done);
    var closed := before.(state := AfterQuote);
    RunTwo(d, before, QUOTE, QUOTE);
    RunConcat(d, before, [QUOTE, QUOTE], [LF]);
    RunOne(d, closed, LF);
    var empty: Record := [[]];
    assert [] + empty == empty;
  }

  lemma {:induction false} ReadRecord(d: Dialect, done: seq<Record>, r: Record)
    requires r != []
    ensures Run(d, Reader(StartRecord, [], [], done), WriteRecord(d, PrepareRecord(d, r)))
            == Reader(StartRecord, [], [], done + [r])
  {
    hide Run;
    var p := PrepareRecord(d, r);
    if WriteFields(d, p) == [] {
      assert |r| == 1 && r[0] == [] by { assert p[0] == Prepare(d, r[0]); }
      assert r == [[]];
      ReadEmptyRecord(d, done);
    } else {
      ReadFields(d, Reader(StartRecord, [], [], done), r);
      assert [] + r == r;
    }
  }

  lemma {:induction false} PrepareAllTail(d: Dialect, rs: seq<Record>)
    requires rs != []
    ensures PrepareAll(d, rs)[1..] == PrepareAll(d, rs[1..])
  {
  }

  lemma {:induction false} ReadAll(d: Dialect, done: seq<Record>, rs: seq<Record>)
    requires forall i :: 0 <= i < |rs| ==> rs[i] != []
    ensures Run(d, Reader(StartRecord, [], [], done), Write(d, PrepareAll(d, rs)))
            == Reader(StartRecord, [], [], done + rs)
    decreases |rs|
  {
    if rs == [] {
      assert done + rs == done;
    } else {
      hide Run, WriteRecord, Prepare;
      var before, mid := Reader(StartRecord, [], [], done), Reader(StartRecord, [], [], done + [rs[0]]);
      var first, rest := WriteRecord(d, PrepareRecord(d, rs[0])), Write(d, PrepareAll(d, rs[1..]));
      assert Write(d, PrepareAll(d, rs)) == first + rest by { PrepareAllTail(d, rs); }
      assert Run(d, before, first) == mid by { ReadRecord(d, done, rs[0]); }
      assert Run(d, before, first + rest) == Run(d, mid, rest) by { RunConcat(d, before, first, rest); }
      ReadAll(d, done + [rs[0]], rs[1..]);
      AppendFirst(done, rs);
    }
  }

  /** Reading undoes writing, in both dialects, for every list of non-empty records
      of arbitrary bytes (quotes, backslashes, commas, line ends), as long as the
      text does not begin with a byte order mark. */
  lemma {:induction false} ReadWrite(d: Dialect, rs: seq<Record>)
    requires forall i :: 0 <= i < |rs| ==> rs[i] != []
    requires !(BOM <= Write(d, PrepareAll(d, rs)))
    ensures Read(d, Write(d, PrepareAll(d, rs))) == rs
  {
    ReadAll(d, [], rs);
    assert [] + rs == rs;
  }

  /** Doubling the backslashes first is needed: the writer of the escaped dialect
      by itself turns the one-backslash field into an unterminated one. */
  lemma {:induction false} BackslashesMustBeDoubled()
    ensures Read(Escaped, Write(Escaped, [[[BACKSLASH]]])) != [[[BACKSLASH]]]
  {
    var f: Field := [BACKSLASH];
    var bytes := [QUOTE, BACKSLASH, QUOTE, LF];
    assert Write(Escaped, [[f]]) == bytes by {
      assert f[1..] == [];
      assert Protect(Escaped, f) == [BACKSLASH] + Protect(Escaped, []);
      assert WriteFields(Escaped, [f]) == [QUOTE] + [BACKSLASH] + [QUOTE];
      assert [[f]][1..] == [];
      assert Write(Escaped, [[f]]) == WriteRecord(Escaped, [f]) + Write(Escaped, []);
    }
    RunTwo(Escaped, Fresh, QUOTE, BACKSLASH);
    RunTwo(Escaped, Fresh.(state := AfterEscape), QUOTE, LF);
    RunConcat(Escaped, Fresh, [QUOTE, BACKSLASH], [QUOTE, LF]);
    assert [QUOTE, BACKSLASH] + [QUOTE, LF] == bytes;
    assert Finish(Run(Escaped, Fresh, bytes))[0][0] == [QUOTE, LF];
  }
}
