/** Which records are exported and which files are imported, and what a file that goes out and
    comes back may change. */
module CsvAcceptance {
  import opened Wrappers
  import opened Utf8
  import opened Text
  import opened Items
  import opened CsvTransfer
  import opened CsvRoundTrip
  import opened CsvColumns
  import Csv

  // ---- Export ----

  predicate IsPlainTag(tag: string) {
    && tag != "" && (forall i :: 0 <= i < |tag| ==> tag[i] != ',')
    && !IsWhitespace(tag[0]) && !IsWhitespace(tag[|tag| - 1])
  }

  /** The records a file has columns for. */
  predicate HasColumns(flavor: Flavor, s: LegacySecret) {
    && (s.kind == Login || s.kind == Generic)
    && s.customFields == [] && s.folder == None && |s.urls| <= 1
    && match flavor
       case OnePassword => forall i :: 0 <= i < |s.tags| ==> IsPlainTag(s.tags[i])
       case KeePass => s.totp == None && !s.favorite && !s.archived && s.tags == []
  }

  lemma {:induction false} TagFitsExactly(tag: string)
    ensures TagFits(tag) <==> IsPlainTag(tag)
  {
    hide Trim, IsWhitespace;
    TrimmedExactly(tag);
  }

  /** An export succeeds exactly when there are columns for everything in every record. */
  lemma {:induction false} ExportsExactly(flavor: Flavor, secrets: seq<LegacySecret>)
    ensures Exported(flavor, secrets).Success? <==> forall i :: 0 <= i < |secrets| ==> HasColumns(flavor, secrets[i])
  {
    hide ExportedCsv, IsLossy, HasColumns;
    forall i | 0 <= i < |secrets| ensures IsLossy(flavor, secrets[i]) <==> !HasColumns(flavor, secrets[i]) {
      LossyExactly(flavor, secrets[i]);
    }
  }

  lemma {:induction false} LossyExactly(flavor: Flavor, s: LegacySecret)
    ensures IsLossy(flavor, s) <==> !HasColumns(flavor, s)
  {
    hide TagFits, IsPlainTag;
    forall i | 0 <= i < |s.tags| ensures TagFits(s.tags[i]) <==> IsPlainTag(s.tags[i]) {
      TagFitsExactly(s.tags[i]);
    }
  }

  predicate SameText(a: Option<string>, b: Option<string>) {
    b == a || (a == Some("") && b == None)
  }

  /** The same record, but for its kind and empty texts. */
  predicate SameRecord(s: LegacySecret, r: LegacySecret) {
    && r.kind == Login && r.title == s.title
    && SameText(s.username, r.username) && SameText(s.password, r.password)
    && SameText(s.totp, r.totp) && SameText(s.notes, r.notes)
    && (r.urls == s.urls || (s.urls == [""] && r.urls == []))
    && r.tags == s.tags && r.favorite == s.favorite && r.archived == s.archived
    && r.customFields == s.customFields && r.folder == s.folder
  }

  lemma {:induction false} KeptIsSame(flavor: Flavor, s: LegacySecret)
    requires HasColumns(flavor, s)
    ensures SameRecord(s, Kept(s))
  {
    if |s.urls| == 1 { assert s.urls == [s.urls[0]]; }
  }

  /** A file that is exported and imported changes nothing but the kind of a generic item, which is then a
      login, and empty texts, which are then missing. */
  lemma {:induction false} OnlyKindAndEmptyTexts(flavor: Flavor, secrets: seq<LegacySecret>)
    requires ThereAndBack(flavor, secrets).Success?
    ensures var back := ThereAndBack(flavor, secrets).value;
            |back| == |secrets| && forall i :: 0 <= i < |secrets| ==> SameRecord(secrets[i], back[i])
  {
    hide IsLossy, Imported, ExportedCsv, Titled, Kept, HasColumns, SameRecord;
    ImportAfterExport(flavor, secrets);
    forall i | 0 <= i < |secrets| ensures SameRecord(secrets[i], Kept(secrets[i])) {
      LossyExactly(flavor, secrets[i]);
      KeptIsSame(flavor, secrets[i]);
    }
  }

  // ---- Import ----

  /** The part of a record that a column name stands for, where a file may use one of several names. */
  function PartNamed(flavor: Flavor, name: string): nat {
    match flavor
    case OnePassword =>
      if name == "website" || name == "url" then 1
      else if name == "onetimepassword" || name == "otpauth" then 2
      else if name == "favoritestatus" || name == "favorite" then 3
      else if name == "archivedstatus" || name == "archived" then 4
      else 0
    case KeePass =>
      if name == "website" || name == "url" then 1
      else if name == "account" || name == "title" then 2
      else if name == "loginname" || name == "username" then 3
      else if name == "comments" || name == "notes" then 4
      else 0
  }

  /** Two columns for the same part. */
  predicate Compete(flavor: Flavor, a: string, b: string) {
    PartNamed(flavor, a) != 0 && PartNamed(flavor, a) == PartNamed(flavor, b)
  }

  predicate HeaderIsClear(flavor: Flavor, headers: seq<string>) {
    forall i, j :: 0 <= i < j < |headers| ==>
      NormalizedHeader(headers[i]) != NormalizedHeader(headers[j])
      && !Compete(flavor, NormalizedHeader(headers[i]), NormalizedHeader(headers[j]))
  }

  function AliasGroup(flavor: Flavor, part: nat): nat {
    match flavor
    case OnePassword => if part == 1 then 1 else if part == 2 then 3 else if part == 3 then 4 else 5
    case KeePass => if part == 1 then 1 else if part == 2 then 0 else if part == 3 then 2 else 6
  }

  lemma {:induction false} NamesOfPart(flavor: Flavor, name: string)
    requires PartNamed(flavor, name) != 0
    ensures var g := AliasGroup(flavor, PartNamed(flavor, name));
            g < |ALIASES| && name in ALIASES[g] && name in Known(flavor)
  {
  }

  lemma {:induction false} OnePasswordCompete(g: nat, a: string, b: string)
    requires g < |ALIASES| && a in ALIASES[g] && b in ALIASES[g] && a != b
    requires a in Known(OnePassword) && b in Known(OnePassword) && a != "one-timepassword" && b != "one-timepassword"
    ensures Compete(OnePassword, a, b)
  {
    NotKnownOnePassword();
    hide Known;
  }

  lemma {:induction false} NotKnownOnePassword()
    ensures "account" !in Known(OnePassword) && "loginname" !in Known(OnePassword) && "comments" !in Known(OnePassword)
  {
  }

  lemma {:induction false} KeePassCompete(g: nat, a: string, b: string)
    requires g < |ALIASES| && a in ALIASES[g] && b in ALIASES[g] && a != b
    requires a in Known(KeePass) && b in Known(KeePass) && a != "one-timepassword" && b != "one-timepassword"
    ensures Compete(KeePass, a, b)
  {
    NotKnownKeePass();
    hide Known;
  }

  lemma {:induction false} NotKnownKeePass()
    ensures "onetimepassword" !in Known(KeePass) && "otpauth" !in Known(KeePass)
    ensures "favoritestatus" !in Known(KeePass) && "favorite" !in Known(KeePass)
    ensures "archivedstatus" !in Known(KeePass) && "archived" !in Known(KeePass)
  {
  }

  /** Of these names no two stand in the header as known columns. */
  ghost predicate OneStands(flavor: Flavor, index: map<string, nat>, names: seq<string>) {
    forall p, q :: 0 <= p < q < |names| ==>
      !(names[p] in Known(flavor) && names[p] in index && names[q] in Known(flavor) && names[q] in index)
  }

  lemma {:induction false} PresentAtMostOnce(flavor: Flavor, index: map<string, nat>, names: seq<string>)
    requires OneStands(flavor, index, names)
    ensures Present(flavor, index, names) <= 1
    ensures (forall q :: 0 <= q < |names| ==> !(names[q] in Known(flavor) && names[q] in index)) ==>
              Present(flavor, index, names) == 0
  {
    hide Known;
    if names != [] {
      var rest := names[1..];
      assert forall q :: 0 <= q < |rest| ==> rest[q] == names[q + 1];
      PresentAtMostOnce(flavor, index, rest);
    }
  }

  lemma {:induction false} ClearStands(flavor: Flavor, headers: seq<string>, g: nat)
    requires HeaderIsClear(flavor, headers) && g < |ALIASES|
    ensures OneStands(flavor, Index(headers), ALIASES[g])
  {
    hide Known, Index, NormalizedHeader, ALIASES, HeaderIsClear, Compete;
    var index, names := Index(headers), ALIASES[g];
    forall p, q | 0 <= p < q < |names|
      ensures !(names[p] in Known(flavor) && names[p] in index && names[q] in Known(flavor) && names[q] in index)
    {
      if names[p] in Known(flavor) && names[p] in index && names[q] in Known(flavor) && names[q] in index {
        NamesDiffer(g, p, q);
        IndexSound(headers, names[p]);
        IndexSound(headers, names[q]);
        NoDash(headers[index[names[p]]]);
        NoDash(headers[index[names[q]]]);
        if flavor == OnePassword {
          OnePasswordCompete(g, names[p], names[q]);
        } else {
          KeePassCompete(g, names[p], names[q]);
        }
        NotClear(flavor, headers, index[names[p]], index[names[q]]);
      }
    }
  }

  lemma {:induction false} NamesDiffer(g: nat, p: nat, q: nat)
    requires g < |ALIASES| && p < q < |ALIASES[g]|
    ensures ALIASES[g][p] != ALIASES[g][q]
  {
  }

  lemma {:induction false} NotClear(flavor: Flavor, headers: seq<string>, i: nat, j: nat)
    requires i < |headers| && j < |headers| && i != j
    requires Compete(flavor, NormalizedHeader(headers[i]), NormalizedHeader(headers[j]))
    ensures !HeaderIsClear(flavor, headers)
  {
    hide NormalizedHeader, PartNamed;
    var a, b := if i < j then i else j, if i < j then j else i;
    assert Compete(flavor, NormalizedHeader(headers[a]), NormalizedHeader(headers[b]));
  }

  lemma {:induction false} FitsIsClear(flavor: Flavor, headers: seq<string>, i: nat, j: nat)
    requires HeaderFits(flavor, headers) && i < j < |headers|
    ensures !Compete(flavor, NormalizedHeader(headers[i]), NormalizedHeader(headers[j]))
  {
    hide Known, Index, NormalizedHeader, ALIASES, IsAmbiguous, PartNamed;
    var a, b := NormalizedHeader(headers[i]), NormalizedHeader(headers[j]);
    assert a != b;
    if Compete(flavor, a, b) {
      IndexHit(headers, i);
      IndexHit(headers, j);
      NamesOfPart(flavor, a);
      NamesOfPart(flavor, b);
      OneName(flavor, Index(headers), AliasGroup(flavor, PartNamed(flavor, a)), a, b);
    }
  }

  /** A header is accepted exactly when no two columns have the same name or stand for the same part. */
  lemma {:induction false} HeaderExactly(flavor: Flavor, headers: seq<string>)
    ensures HeaderFits(flavor, headers) <==> HeaderIsClear(flavor, headers)
  {
    hide NormalizedHeader, Index, Compete, Present, OneStands;
    if HeaderFits(flavor, headers) {
      forall i, j | 0 <= i < j < |headers|
        ensures NormalizedHeader(headers[i]) != NormalizedHeader(headers[j])
                && !Compete(flavor, NormalizedHeader(headers[i]), NormalizedHeader(headers[j]))
      {
        FitsIsClear(flavor, headers, i, j);
      }
    } else if HeaderIsClear(flavor, headers) {
      forall g: nat | g < |ALIASES| ensures Present(flavor, Index(headers), ALIASES[g]) <= 1 {
        ClearStands(flavor, headers, g);
        PresentAtMostOnce(flavor, Index(headers), ALIASES[g]);
      }
      assert false;
    }
  }

  /** A row is text, has no more cells than there are columns, and has a title. */
  predicate RowFits(flavor: Flavor, headers: seq<string>, record: Csv.Record) {
    && DecodeRecord(record).Some? && |record| <= |headers|
    && Filled(headers, DecodeRecord(record).value, if flavor == OnePassword then ["title"] else ["account", "title"])
  }

  lemma {:induction false} FilledFound(flavor: Flavor, headers: seq<string>, row: seq<string>)
    requires HeaderFits(flavor, headers) && |row| <= |headers|
    ensures Value(row, Index(headers), TitleNames(flavor)).Some? <==> Filled(headers, row, TitleNames(flavor))
  {
    hide NormalizedHeader, Index, Value, HeaderFits;
    ValueFrom(headers, row, TitleNames(flavor));
    if Filled(headers, row, TitleNames(flavor)) {
      var i :| 0 <= i < |row| && i < |headers| && NormalizedHeader(headers[i]) in TitleNames(flavor) && row[i] != "";
      if flavor == OnePassword {
        OnePasswordCells(headers, row, i, NormalizedHeader(headers[i]));
      } else {
        KeePassCells(headers, row, i, NormalizedHeader(headers[i]));
      }
    }
  }

  /** Which rows are refused, and how. */
  lemma {:induction false} RowExactly(flavor: Flavor, headers: seq<string>, record: Csv.Record)
    requires HeaderFits(flavor, headers)
    ensures ImportRow(flavor, headers, record).Success? <==> RowFits(flavor, headers, record)
    ensures DecodeRecord(record).None? ==> ImportRow(flavor, headers, record) == Failure(InvalidRow)
    ensures DecodeRecord(record).Some? && |record| > |headers| ==>
              ImportRow(flavor, headers, record) == Failure(UnnamedValues)
    ensures DecodeRecord(record).Some? && |record| <= |headers| && !RowFits(flavor, headers, record) ==>
              ImportRow(flavor, headers, record) == Failure(MissingTitle)
  {
    hide DecodeRecord, Value, Index, Account, ExtraFields, Filled, HeaderFits;
    var row := DecodeRecord(record);
    if row.Some? {
      assert |row.value| == |record|;
      if |record| <= |headers| {
        FilledFound(flavor, headers, row.value);
      }
    }
  }

  lemma {:induction false} RowsExactly(flavor: Flavor, headers: seq<string>, rows: seq<Csv.Record>)
    requires HeaderFits(flavor, headers)
    ensures ImportRows(flavor, headers, rows).Success?
            <==> |rows| <= 100_000 && forall k :: 0 <= k < |rows| ==> RowFits(flavor, headers, rows[k])
    decreases |rows|
  {
    hide ImportRow, RowFits, HeaderFits;
    if rows != [] {
      var last := |rows| - 1;
      RowsExactly(flavor, headers, rows[..last]);
      RowExactly(flavor, headers, rows[last]);
      RowsSnoc(flavor, headers, rows);
      assert forall k :: 0 <= k < last ==> rows[..last][k] == rows[k];
    }
  }

  /** A file is imported exactly when it is at most 128 MiB, its header is text and clear, and its rows, at
      most 100,000, are text, have no more cells than columns, and have titles. */
  lemma {:induction false} ImportsExactly(flavor: Flavor, bytes: seq<byte>)
    ensures var records := Csv.Read(ImportDialect(flavor, bytes), bytes);
            var header := DecodeRecord(if records == [] then [] else records[0]);
            Imported(flavor, bytes).Success?
            <==> && |bytes| <= 134_217_728 && header.Some? && HeaderIsClear(flavor, header.value)
                 && |records| <= 100_001 && forall k :: 1 <= k < |records| ==> RowFits(flavor, header.value, records[k])
  {
    hide Csv.Read, ImportDialect, DecodeRecord, HasDuplicates, IsAmbiguous, Index, HeaderIsClear, RowFits, ImportRows;
    var records := Csv.Read(ImportDialect(flavor, bytes), bytes);
    var header := DecodeRecord(if records == [] then [] else records[0]);
    if header.Some? {
      HeaderExactly(flavor, header.value);
      if HeaderFits(flavor, header.value) {
        var rows := if records == [] then [] else records[1..];
        RowsExactly(flavor, header.value, rows);
        assert forall k :: 1 <= k < |records| ==> records[k] == rows[k - 1];
        assert forall k :: 0 <= k < |rows| ==> rows[k] == records[k + 1];
      }
    }
  }
}
