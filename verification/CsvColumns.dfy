/** What the importer makes of a row under any header: every filled cell is carried into the
    record, and nothing in the record comes from anywhere else. */
module CsvColumns {
  import opened Wrappers
  import opened Utf8
  import opened Text
  import opened Items
  import opened CsvTransfer
  import opened CsvRoundTrip
  import Csv

  /** Where a record holds the cell of a column. A column of another name is a concealed custom field. */
  predicate Carried(flavor: Flavor, s: LegacySecret, header: string, value: string) {
    var name := NormalizedHeader(header);
    match flavor
    case OnePassword =>
      if name == "title" then s.title == value
      else if name == "website" || name == "url" then s.urls == [value]
      else if name == "username" then s.username == Some(value)
      else if name == "password" then s.password == Some(value)
      else if name == "onetimepassword" || name == "otpauth" then s.totp == Some(value)
      else if name == "favoritestatus" || name == "favorite" then s.favorite == ParseBool(value)
      else if name == "archivedstatus" || name == "archived" then s.archived == ParseBool(value)
      else if name == "tags" then s.tags == ParseTags(Some(value))
      else if name == "notes" then s.notes == Some(value)
      else LegacyField(header, value, CustomFields, 1, None) in s.customFields
    case KeePass =>
      if name == "account" || name == "title" then s.title == value
      else if name == "loginname" || name == "username" then s.username == Some(value)
      else if name == "password" then s.password == Some(value)
      else if name == "website" || name == "url" then s.urls == [value]
      else if name == "comments" || name == "notes" then s.notes == Some(value)
      else LegacyField(header, value, CustomFields, 1, None) in s.customFields
  }

  // ---- Finding a column ----

  lemma {:induction false} IndexHit(headers: seq<string>, i: nat)
    requires i < |headers| && !HasDuplicates(headers)
    ensures NormalizedHeader(headers[i]) in Index(headers) && Index(headers)[NormalizedHeader(headers[i])] == i
  {
    hide NormalizedHeader, Index;
    var names := seq(|headers|, k requires 0 <= k < |headers| => NormalizedHeader(headers[k]));
    IndexNames(headers, names);
    assert names[i] == NormalizedHeader(headers[i]);
  }

  lemma {:induction false} IndexSound(headers: seq<string>, name: string)
    requires name in Index(headers)
    ensures Index(headers)[name] < |headers| && NormalizedHeader(headers[Index(headers)[name]]) == name
  {
    hide NormalizedHeader;
    var last := |headers| - 1;
    if NormalizedHeader(headers[last]) != name {
      IndexSound(headers[..last], name);
    }
  }

  lemma {:induction false} PresentTwice(flavor: Flavor, index: map<string, nat>, aliases: seq<string>, p: nat, q: nat)
    requires p < q < |aliases| && aliases[p] in Known(flavor) && aliases[q] in Known(flavor)
    requires aliases[p] in index && aliases[q] in index
    ensures Present(flavor, index, aliases) >= 2
  {
    hide Known;
    if p == 0 {
      PresentSome(flavor, index, aliases[1..], q - 1);
    } else {
      PresentTwice(flavor, index, aliases[1..], p - 1, q - 1);
    }
  }

  lemma {:induction false} PresentSome(flavor: Flavor, index: map<string, nat>, aliases: seq<string>, q: nat)
    requires q < |aliases| && aliases[q] in Known(flavor) && aliases[q] in index
    ensures Present(flavor, index, aliases) >= 1
  {
    hide Known;
    if q != 0 {
      PresentSome(flavor, index, aliases[1..], q - 1);
    }
  }

  /** Of two names for one thing, an accepted header has at most one. */
  lemma {:induction false} OneName(flavor: Flavor, index: map<string, nat>, g: nat, a: string, b: string)
    requires !IsAmbiguous(flavor, index) && g < |ALIASES| && a in ALIASES[g] && b in ALIASES[g] && a != b
    requires a in Known(flavor) && b in Known(flavor) && a in index
    ensures b !in index
  {
    hide Known, Present;
    var p :| 0 <= p < |ALIASES[g]| && ALIASES[g][p] == a;
    var q :| 0 <= q < |ALIASES[g]| && ALIASES[g][q] == b;
    if b in index {
      PresentTwice(flavor, index, ALIASES[g], if p < q then p else q, if p < q then q else p);
    }
  }

  ghost predicate NamesOfOne(flavor: Flavor, names: seq<string>, g: nat) {
    && g < |ALIASES| && Distinct(names)
    && forall i :: 0 <= i < |names| ==> names[i] in ALIASES[g] && names[i] in Known(flavor)
  }

  lemma {:induction false} Found(flavor: Flavor, headers: seq<string>, row: seq<string>, names: seq<string>,
                                 g: nat, k: nat, i: nat)
    requires !HasDuplicates(headers) && !IsAmbiguous(flavor, Index(headers))
    requires NamesOfOne(flavor, names, g) && k < |names|
    requires i < |row| <= |headers| && NormalizedHeader(headers[i]) == names[k] && row[i] != ""
    ensures Value(row, Index(headers), names) == Some(row[i])
  {
    hide NormalizedHeader, Known, Index, IsAmbiguous, ALIASES, Value, HasDuplicates;
    IndexHit(headers, i);
    forall j | 0 <= j < |names| && j != k ensures names[j] !in Index(headers) {
      OneName(flavor, Index(headers), g, names[k], names[j]);
    }
    ValueAt(row, Index(headers), names, k);
  }

  lemma {:induction false} FoundSingle(headers: seq<string>, row: seq<string>, name: string, i: nat)
    requires !HasDuplicates(headers)
    requires i < |row| <= |headers| && NormalizedHeader(headers[i]) == name && row[i] != ""
    ensures Value(row, Index(headers), [name]) == Some(row[i])
  {
    hide NormalizedHeader, Index, Value, HasDuplicates;
    IndexHit(headers, i);
    ValueAt(row, Index(headers), [name], 0);
  }

  lemma {:induction false} OnePasswordGroups()
    ensures NamesOfOne(OnePassword, ["website", "url"], 1)
    ensures NamesOfOne(OnePassword, ["one-timepassword", "onetimepassword", "otpauth"], 3)
    ensures NamesOfOne(OnePassword, ["favoritestatus", "favorite"], 4)
    ensures NamesOfOne(OnePassword, ["archivedstatus", "archived"], 5)
  {
  }

  lemma {:induction false} KeePassGroups()
    ensures NamesOfOne(KeePass, ["account", "title"], 0)
    ensures NamesOfOne(KeePass, ["website", "url"], 1)
    ensures NamesOfOne(KeePass, ["loginname", "username"], 2)
    ensures NamesOfOne(KeePass, ["comments", "notes"], 6)
  {
  }

  // ---- Other columns ----

  lemma {:induction false} FoldedPlain(s: string)
    ensures '-' !in Folded(s)
  {
    if s != [] {
      FoldedPlain(s[1..]);
    }
  }

  /** The column name the format writes with a dash is only ever met without it. */
  lemma {:induction false} NoDash(header: string)
    ensures NormalizedHeader(header) != "one-timepassword"
  {
    hide Trim, Folded;
    FoldedPlain(Trim(header));
    assert "one-timepassword"[3] == '-';
  }

  predicate IsFieldName(flavor: Flavor, name: string) {
    match flavor
    case OnePassword =>
      || name == "title" || name == "website" || name == "url" || name == "username" || name == "password"
      || name == "onetimepassword" || name == "otpauth" || name == "favoritestatus" || name == "favorite"
      || name == "archivedstatus" || name == "archived" || name == "tags" || name == "notes"
    case KeePass =>
      || name == "account" || name == "title" || name == "loginname" || name == "username" || name == "password"
      || name == "website" || name == "url" || name == "comments" || name == "notes"
  }

  lemma {:induction false} KnownExactly(flavor: Flavor, name: string)
    requires name != "one-timepassword"
    ensures name in Known(flavor) <==> IsFieldName(flavor, name)
  {
  }

  function Cell(row: seq<string>, i: nat): string {
    if i < |row| then row[i] else ""
  }

  predicate IsExtra(flavor: Flavor, header: string, cell: string, f: LegacyField) {
    !IsFieldName(flavor, NormalizedHeader(header)) && f == LegacyField(header, cell, CustomFields, 1, None)
  }

  lemma {:induction false} ExtraStep(flavor: Flavor, headers: seq<string>, row: seq<string>, f: LegacyField)
    requires headers != []
    ensures var last := |headers| - 1;
            f in ExtraFields(flavor, headers, row) <==>
            f in ExtraFields(flavor, headers[..last], row) || IsExtra(flavor, headers[last], Cell(row, last), f)
  {
    hide NormalizedHeader, IsFieldName, Known;
    var name := NormalizedHeader(headers[|headers| - 1]);
    NoDash(headers[|headers| - 1]);
    KnownExactly(flavor, name);
  }

  lemma {:induction false} ExtraNone(flavor: Flavor, row: seq<string>)
    ensures ExtraFields(flavor, [], row) == []
  {
  }

  /** The custom fields are the columns of other names, */
  lemma {:induction false} ExtraExactly(flavor: Flavor, headers: seq<string>, row: seq<string>, f: LegacyField)
    ensures f in ExtraFields(flavor, headers, row) <==>
            exists i :: 0 <= i < |headers| && IsExtra(flavor, headers[i], Cell(row, i), f)
    decreases |headers|
  {
    hide ExtraFields, IsExtra, Cell;
    if headers == [] {
      assert ExtraFields(flavor, [], row) == [] by { ExtraNone(flavor, row); }
    } else {
      var last := |headers| - 1;
      ExtraStep(flavor, headers, row, f);
      ExtraExactly(flavor, headers[..last], row, f);
      assert forall i :: 0 <= i < last ==> headers[..last][i] == headers[i];
    }
  }

  /** in the order of the columns. */
  lemma {:induction false} ExtraInOrder(flavor: Flavor, headers: seq<string>, row: seq<string>, k: nat)
    requires k <= |headers|
    ensures ExtraFields(flavor, headers[..k], row) <= ExtraFields(flavor, headers, row)
    decreases |headers|
  {
    hide NormalizedHeader, Known;
    if k == |headers| {
      assert headers[..k] == headers;
    } else {
      var before := headers[..|headers| - 1];
      ExtraInOrder(flavor, before, row, k);
      assert before[..k] == headers[..k];
    }
  }

  // ---- Carrying a row ----

  predicate HeaderFits(flavor: Flavor, headers: seq<string>) {
    !HasDuplicates(headers) && !IsAmbiguous(flavor, Index(headers))
  }

  predicate ColumnIs(headers: seq<string>, row: seq<string>, i: nat, name: string) {
    i < |row| <= |headers| && NormalizedHeader(headers[i]) == name && row[i] != ""
  }

  lemma {:induction false} OnePasswordCells(headers: seq<string>, row: seq<string>, i: nat, name: string)
    requires HeaderFits(OnePassword, headers) && ColumnIs(headers, row, i, name)
    ensures var index := Index(headers);
            && (name == "title" ==> Value(row, index, ["title"]) == Some(row[i]))
            && (name == "website" || name == "url" ==> Value(row, index, ["website", "url"]) == Some(row[i]))
            && (name == "username" ==> Value(row, index, ["username"]) == Some(row[i]))
            && (name == "password" ==> Value(row, index, ["password"]) == Some(row[i]))
            && (name == "tags" ==> Value(row, index, ["tags"]) == Some(row[i]))
            && (name == "notes" ==> Value(row, index, ["notes"]) == Some(row[i]))
  {
    hide NormalizedHeader, Index, Value, HasDuplicates, IsAmbiguous, NamesOfOne;
    OnePasswordGroups();
    if name == "website" || name == "url" {
      Found(OnePassword, headers, row, ["website", "url"], 1, if name == "website" then 0 else 1, i);
    } else {
      FoundSingle(headers, row, name, i);
    }
  }

  lemma {:induction false} OnePasswordFlagCells(headers: seq<string>, row: seq<string>, i: nat, name: string)
    requires HeaderFits(OnePassword, headers) && ColumnIs(headers, row, i, name)
    ensures var index := Index(headers);
            && (name == "onetimepassword" || name == "otpauth" ==>
                Value(row, index, ["one-timepassword", "onetimepassword", "otpauth"]) == Some(row[i]))
            && (name == "favoritestatus" || name == "favorite" ==>
                Value(row, index, ["favoritestatus", "favorite"]) == Some(row[i]))
            && (name == "archivedstatus" || name == "archived" ==>
                Value(row, index, ["archivedstatus", "archived"]) == Some(row[i]))
  {
    hide NormalizedHeader, Index, Value, HasDuplicates, IsAmbiguous, NamesOfOne;
    OnePasswordGroups();
    if name == "onetimepassword" || name == "otpauth" {
      Found(OnePassword, headers, row, ["one-timepassword", "onetimepassword", "otpauth"], 3,
            if name == "onetimepassword" then 1 else 2, i);
    } else if name == "favoritestatus" || name == "favorite" {
      Found(OnePassword, headers, row, ["favoritestatus", "favorite"], 4, if name == "favorite" then 1 else 0, i);
    } else if name == "archivedstatus" || name == "archived" {
      Found(OnePassword, headers, row, ["archivedstatus", "archived"], 5, if name == "archived" then 1 else 0, i);
    }
  }

  lemma {:induction false} KeePassCells(headers: seq<string>, row: seq<string>, i: nat, name: string)
    requires HeaderFits(KeePass, headers) && ColumnIs(headers, row, i, name)
    ensures var index := Index(headers);
            && (name == "account" || name == "title" ==> Value(row, index, ["account", "title"]) == Some(row[i]))
            && (name == "loginname" || name == "username" ==>
                Value(row, index, ["loginname", "username"]) == Some(row[i]))
            && (name == "password" ==> Value(row, index, ["password"]) == Some(row[i]))
            && (name == "website" || name == "url" ==> Value(row, index, ["website", "url"]) == Some(row[i]))
            && (name == "comments" || name == "notes" ==> Value(row, index, ["comments", "notes"]) == Some(row[i]))
  {
    hide NormalizedHeader, Index, Value, HasDuplicates, IsAmbiguous, NamesOfOne;
    KeePassGroups();
    if name == "account" || name == "title" {
      Found(KeePass, headers, row, ["account", "title"], 0, if name == "title" then 1 else 0, i);
    } else if name == "loginname" || name == "username" {
      Found(KeePass, headers, row, ["loginname", "username"], 2, if name == "username" then 1 else 0, i);
    } else if name == "website" || name == "url" {
      Found(KeePass, headers, row, ["website", "url"], 1, if name == "url" then 1 else 0, i);
    } else if name == "comments" || name == "notes" {
      Found(KeePass, headers, row, ["comments", "notes"], 6, if name == "notes" then 1 else 0, i);
    } else {
      FoundSingle(headers, row, name, i);
    }
  }

  lemma {:induction false} NamesOrField(flavor: Flavor, s: LegacySecret, header: string, value: string)
    requires LegacyField(header, value, CustomFields, 1, None) in s.customFields
    ensures !IsFieldName(flavor, NormalizedHeader(header)) ==> Carried(flavor, s, header, value)
  {
    hide NormalizedHeader, ParseBool, ParseTags;
  }

  lemma {:induction false} OnePasswordCarried(headers: seq<string>, row: seq<string>, i: nat, s: LegacySecret)
    requires HeaderFits(OnePassword, headers) && i < |row| <= |headers| && row[i] != ""
    requires IsFieldName(OnePassword, NormalizedHeader(headers[i]))
    requires Value(row, Index(headers), ["title"]) == Some(s.title)
    requires s == Account(OnePassword, Index(headers), s.title, row).(customFields := s.customFields)
    ensures Carried(OnePassword, s, headers[i], row[i])
  {
    hide NormalizedHeader, Index, Value, HeaderFits, ParseBool, ParseTags;
    OnePasswordCells(headers, row, i, NormalizedHeader(headers[i]));
    OnePasswordFlagCells(headers, row, i, NormalizedHeader(headers[i]));
  }

  lemma {:induction false} KeePassCarried(headers: seq<string>, row: seq<string>, i: nat, s: LegacySecret)
    requires HeaderFits(KeePass, headers) && i < |row| <= |headers| && row[i] != ""
    requires IsFieldName(KeePass, NormalizedHeader(headers[i]))
    requires Value(row, Index(headers), ["account", "title"]) == Some(s.title)
    requires s == Account(KeePass, Index(headers), s.title, row).(customFields := s.customFields)
    ensures Carried(KeePass, s, headers[i], row[i])
  {
    hide NormalizedHeader, Index, Value, HeaderFits, ParseBool, ParseTags;
    KeePassCells(headers, row, i, NormalizedHeader(headers[i]));
  }

  /** Every filled cell of an accepted row is carried into its record. */
  lemma {:induction false} CellCarried(flavor: Flavor, headers: seq<string>, record: Csv.Record, i: nat)
    requires HeaderFits(flavor, headers) && ImportRow(flavor, headers, record).Success? && i < |record|
    ensures var value := DecodeRecord(record).value[i];
            value != "" ==> Carried(flavor, ImportRow(flavor, headers, record).value, headers[i], value)
  {
    hide NormalizedHeader, Index, Value, HeaderFits, DecodeRecord, ExtraFields, Carried, IsFieldName;
    var row := DecodeRecord(record).value;
    var s := ImportRow(flavor, headers, record).value;
    if row[i] != "" {
      if !IsFieldName(flavor, NormalizedHeader(headers[i])) {
        var f := LegacyField(headers[i], row[i], CustomFields, 1, None);
        ExtraExactly(flavor, headers, row, f);
        assert IsExtra(flavor, headers[i], Cell(row, i), f);
        NamesOrField(flavor, s, headers[i], row[i]);
      } else if flavor == OnePassword {
        OnePasswordCarried(headers, row, i, s);
      } else {
        KeePassCarried(headers, row, i, s);
      }
    }
  }

  // ---- Nothing else ----

  predicate Filled(headers: seq<string>, row: seq<string>, names: seq<string>) {
    exists i :: 0 <= i < |row| && i < |headers| && NormalizedHeader(headers[i]) in names && row[i] != ""
  }

  lemma {:induction false} ValueFrom(headers: seq<string>, row: seq<string>, names: seq<string>)
    ensures Value(row, Index(headers), names).Some? ==> Filled(headers, row, names)
  {
    hide NormalizedHeader, Index;
    if names != [] && Value(row, Index(headers), names).Some? {
      if names[0] in Index(headers) {
        IndexSound(headers, names[0]);
      }
      ValueFrom(headers, row, names[1..]);
      assert Filled(headers, row, names[1..]) ==> Filled(headers, row, names);
    }
  }

  /** What a row leaves out stays empty: each part of its record has a filled cell behind it. */
  predicate OnlyFromCells(flavor: Flavor, s: LegacySecret, headers: seq<string>, row: seq<string>) {
    && s.kind == Login && s.folder == None && |s.urls| <= 1
    && (s.password.Some? ==> Filled(headers, row, ["password"]))
    && (s.urls != [] ==> Filled(headers, row, ["website", "url"]))
    && match flavor
       case OnePassword =>
         && Filled(headers, row, ["title"])
         && (s.username.Some? ==> Filled(headers, row, ["username"]))
         && (s.totp.Some? ==> Filled(headers, row, ["one-timepassword", "onetimepassword", "otpauth"]))
         && (s.favorite ==> Filled(headers, row, ["favoritestatus", "favorite"]))
         && (s.archived ==> Filled(headers, row, ["archivedstatus", "archived"]))
         && (s.tags != [] ==> Filled(headers, row, ["tags"]))
         && (s.notes.Some? ==> Filled(headers, row, ["notes"]))
       case KeePass =>
         && Filled(headers, row, ["account", "title"])
         && (s.username.Some? ==> Filled(headers, row, ["loginname", "username"]))
         && (s.notes.Some? ==> Filled(headers, row, ["comments", "notes"]))
         && s.totp == None && !s.favorite && !s.archived && s.tags == []
  }

  lemma {:induction false} NothingInvented(flavor: Flavor, headers: seq<string>, record: Csv.Record)
    requires ImportRow(flavor, headers, record).Success?
    ensures OnlyFromCells(flavor, ImportRow(flavor, headers, record).value, headers, DecodeRecord(record).value)
  {
    hide NormalizedHeader, Index, Value, DecodeRecord, ExtraFields, Filled, ParseBool, KeepTags, Split;
    var row := DecodeRecord(record).value;
    ValueFrom(headers, row, ["password"]);
    ValueFrom(headers, row, ["website", "url"]);
    if flavor == OnePassword {
      ValueFrom(headers, row, ["title"]);
      ValueFrom(headers, row, ["username"]);
      ValueFrom(headers, row, ["one-timepassword", "onetimepassword", "otpauth"]);
      ValueFrom(headers, row, ["favoritestatus", "favorite"]);
      ValueFrom(headers, row, ["archivedstatus", "archived"]);
      ValueFrom(headers, row, ["tags"]);
      ValueFrom(headers, row, ["notes"]);
    } else {
      ValueFrom(headers, row, ["account", "title"]);
      ValueFrom(headers, row, ["loginname", "username"]);
      ValueFrom(headers, row, ["comments", "notes"]);
    }
  }

  // ---- Files ----

  lemma {:induction false} RowAt(flavor: Flavor, headers: seq<string>, rows: seq<Csv.Record>, k: nat)
    requires ImportRows(flavor, headers, rows).Success? && k < |rows|
    ensures |ImportRows(flavor, headers, rows).value| == |rows|
    ensures ImportRow(flavor, headers, rows[k]) == Success(ImportRows(flavor, headers, rows).value[k])
    decreases |rows|
  {
    hide ImportRow;
    ImportRowsLength(flavor, headers, rows);
    var last := |rows| - 1;
    ImportRowsLength(flavor, headers, rows[..last]);
    if k < last {
      RowAt(flavor, headers, rows[..last], k);
    }
  }

  /** In an accepted file every filled cell under the header is carried into the record of its row,
      and the record holds nothing else. */
  lemma {:induction false} ImportCarries(flavor: Flavor, bytes: seq<byte>, k: nat, i: nat)
    requires Imported(flavor, bytes).Success? && k < |Imported(flavor, bytes).value|
    ensures var records := Csv.Read(ImportDialect(flavor, bytes), bytes);
            var s := Imported(flavor, bytes).value[k];
            && |records| == |Imported(flavor, bytes).value| + 1
            && DecodeRecord(records[0]).Some? && DecodeRecord(records[k + 1]).Some?
            && var headers, row := DecodeRecord(records[0]).value, DecodeRecord(records[k + 1]).value;
            && |row| <= |headers|
            && (i < |row| && row[i] != "" ==> Carried(flavor, s, headers[i], row[i]))
            && OnlyFromCells(flavor, s, headers, row)
  {
    hide ImportRow, ImportDialect, Csv.Read, HasDuplicates, IsAmbiguous, Index, Carried, OnlyFromCells;
    var records := Csv.Read(ImportDialect(flavor, bytes), bytes);
    var headers := DecodeRecord(if records == [] then [] else records[0]).value;
    ImportRowsLength(flavor, headers, if records == [] then [] else records[1..]);
    RowAt(flavor, headers, records[1..], k);
    RowShape(flavor, headers, records[k + 1]);
    NothingInvented(flavor, headers, records[k + 1]);
    if i < |records[k + 1]| {
      CellCarried(flavor, headers, records[k + 1], i);
    }
  }

  lemma {:induction false} RowShape(flavor: Flavor, headers: seq<string>, record: Csv.Record)
    requires ImportRow(flavor, headers, record).Success?
    ensures DecodeRecord(record).Some? && |DecodeRecord(record).value| == |record| <= |headers|
  {
    hide DecodeRecord, Value, Index, Account, ExtraFields;
  }

  // ---- Flags ----

  /** A lower-case word in any case. */
  predicate InAnyCase(text: string, word: string) {
    && |text| == |word|
    && forall i :: 0 <= i < |text| ==>
         text[i] == word[i] || ('A' <= text[i] <= 'Z' && text[i] as int + 32 == word[i] as int)
  }

  lemma {:induction false} LowerExactly(text: string, word: string)
    requires forall i :: 0 <= i < |word| ==> !('A' <= word[i] <= 'Z')
    ensures AsciiLower(text) == word <==> InAnyCase(text, word)
  {
    if AsciiLower(text) == word {
      assert forall i :: 0 <= i < |text| ==> AsciiLower(text)[i] == word[i];
    }
  }

  predicate SaysTrue(s: string) {
    InAnyCase(s, "1") || InAnyCase(s, "true") || InAnyCase(s, "yes")
  }

  /** A flag is set by 1, true or yes in any case, with any white space around it, and by nothing else. */
  lemma {:induction false} FlagExactly(value: string)
    ensures ParseBool(value) <==>
            exists a, b :: 0 <= a <= b <= |value| && SaysTrue(value[a..b])
                           && AllWhitespace(value[..a]) && AllWhitespace(value[b..])
  {
    hide Trim, AsciiLower, InAnyCase;
    LowerExactly(Trim(value), "1");
    LowerExactly(Trim(value), "true");
    LowerExactly(Trim(value), "yes");
    var from, to := TrimmedAt(value);
    assert ParseBool(value) <==> SaysTrue(Trim(value));
    forall a, b | 0 <= a <= b <= |value| && SaysTrue(value[a..b])
                  && AllWhitespace(value[..a]) && AllWhitespace(value[b..])
      ensures Trim(value) == value[a..b]
    {
      TrueIsPlain(value[a..b]);
      TrimOf(value, a, b);
    }
  }

  lemma {:induction false} TrueIsPlain(s: string)
    requires SaysTrue(s)
    ensures s != "" && !IsWhitespace(s[0]) && !IsWhitespace(s[|s| - 1])
  {
  }

  // ---- Tags ----

  predicate IsPiece(parts: seq<string>, tag: string) {
    exists i :: 0 <= i < |parts| && Trim(parts[i]) == tag
  }

  lemma {:induction false} KeptTags(parts: seq<string>, tag: string)
    ensures tag in KeepTags(parts) <==> tag != "" && IsPiece(parts, tag)
  {
    hide Trim;
    if parts != [] {
      KeptTags(parts[1..], tag);
      assert forall i :: 1 <= i < |parts| ==> parts[1..][i - 1] == parts[i];
      assert IsPiece(parts, tag) <==> Trim(parts[0]) == tag || IsPiece(parts[1..], tag);
    }
  }

  /** The tags of a cell are its pieces between commas, trimmed, without the empty ones, */
  lemma {:induction false} TagsExactly(value: string, tag: string)
    ensures var parts := Split(value, ',');
            && Join(parts, ",") == value && (forall i :: 0 <= i < |parts| ==> ',' !in parts[i])
            && (tag in ParseTags(Some(value)) <==> tag != "" && IsPiece(parts, tag))
  {
    hide Trim, Split, KeepTags, IsPiece, Join;
    SplitExactly(value, ',');
    KeptTags(Split(value, ','), tag);
  }

  /** in the order of the pieces. */
  lemma {:induction false} TagsInOrder(a: seq<string>, b: seq<string>)
    ensures KeepTags(a + b) == KeepTags(a) + KeepTags(b)
  {
    hide Trim;
    if a == [] {
      assert a + b == b;
    } else {
      assert (a + b)[1..] == a[1..] + b;
      TagsInOrder(a[1..], b);
    }
  }

  // ---- Column names ----

  /** A letter or digit of ASCII is kept, in lower case; everything else is dropped. */
  function KeptOf(c: char): string {
    var n := c as int;
    if 48 <= n <= 57 || 97 <= n <= 122 then [c] else if 65 <= n <= 90 then [(n + 32) as char] else []
  }

  function AllKeptOf(s: string): string {
    if s == [] then [] else KeptOf(s[0]) + AllKeptOf(s[1..])
  }

  lemma {:induction false} FoldedIs(s: string)
    ensures Folded(s) == AllKeptOf(s)
  {
    if s != [] {
      FoldedIs(s[1..]);
    }
  }

  lemma {:induction false} BlankFolds(s: string)
    requires AllWhitespace(s)
    ensures Folded(s) == ""
  {
    if s != [] {
      assert forall i :: 0 <= i < |s| - 1 ==> s[1..][i] == s[i + 1];
      BlankFolds(s[1..]);
    }
  }

  /** Two headers name the same column exactly when they have the same ASCII letters and digits, in any case
      and whatever else stands between and around them. */
  lemma {:induction false} NormalizedExactly(name: string)
    ensures NormalizedHeader(name) == AllKeptOf(name)
  {
    hide Trim, Folded, AllWhitespace;
    var a, b := TrimmedAt(name);
    BlankFolds(name[..a]);
    BlankFolds(name[b..]);
    FoldedConcat(name[..a], name[a..b]);
    FoldedConcat(name[..a] + name[a..b], name[b..]);
    assert name == name[..a] + name[a..b] + name[b..];
    FoldedIs(name);
  }
}
