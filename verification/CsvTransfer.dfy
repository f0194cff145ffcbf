/** Export to and import from the CSV files of 1Password and KeePass 1.x. */
module CsvTransfer {
  import opened Wrappers
  import opened Utf8
  import opened Text
  import opened Items
  import Csv

  const MAX_FILE_BYTES: nat := 128 * 1024 * 1024
  const MAX_ITEMS: nat := 100_000

  datatype Flavor = OnePassword | KeePass

  datatype TransferError =
    | Lossy
    | FileTooLarge
    | InvalidHeader
    | DuplicateColumns
    | AmbiguousColumns
    | InvalidRow
    | UnnamedValues
    | MissingTitle
    | TooManyItems

  // ---- Export ----

  /** Records a CSV file cannot hold without loss. */
  predicate IsLossy(flavor: Flavor, s: LegacySecret) {
    || s.kind !in {Login, Generic}
    || s.customFields != []
    || |s.urls| > 1
    || s.folder.Some?
    || (flavor == KeePass && (s.totp.Some? || s.favorite || s.archived || s.tags != []))
    || exists i :: 0 <= i < |s.tags| && !TagFits(s.tags[i])
  }

  predicate TagFits(tag: string) {
    ',' !in tag && Trim(tag) == tag && tag != ""
  }

  predicate Exportable(flavor: Flavor, secrets: seq<LegacySecret>) {
    forall i :: 0 <= i < |secrets| ==> !IsLossy(flavor, secrets[i])
  }

  function Columns(flavor: Flavor): (r: seq<string>)
    ensures |r| == if flavor == OnePassword then 9 else 5
  {
    match flavor
    case OnePassword =>
      ["Title", "Website", "Username", "Password", "One-time password",
       "Favorite status", "Archived status", "Tags", "Notes"]
    case KeePass =>
      ["Account", "Login Name", "Password", "Web Site", "Comments"]
  }

  function OrEmpty(value: Option<string>): string {
    if value.Some? then value.value else ""
  }

  function FirstOrEmpty(values: seq<string>): string {
    if values == [] then "" else values[0]
  }

  function Flag(b: bool): string {
    if b then "true" else "false"
  }

  function Values(flavor: Flavor, s: LegacySecret): (r: seq<string>)
    ensures |r| == |Columns(flavor)|
  {
    match flavor
    case OnePassword =>
      [s.title, FirstOrEmpty(s.urls), OrEmpty(s.username), OrEmpty(s.password), OrEmpty(s.totp),
       Flag(s.favorite), Flag(s.archived), Join(s.tags, ", "), OrEmpty(s.notes)]
    case KeePass =>
      [s.title, OrEmpty(s.username), OrEmpty(s.password), FirstOrEmpty(s.urls), OrEmpty(s.notes)]
  }

  /** `str::replace` of each backslash by two. */
  function DoubledBackslashes(s: string): string {
    if s == [] then []
    else (if s[0] == '\\' then "\\\\" else [s[0]]) + DoubledBackslashes(s[1..])
  }

  function ExportDialect(flavor: Flavor): Csv.Dialect {
    if flavor == KeePass then Csv.Escaped else Csv.Doubled
  }

  function EncodeRecord(values: seq<string>): (r: Csv.Record)
    ensures |r| == |values|
    ensures forall i :: 0 <= i < |r| ==> r[i] == Encode(values[i])
  {
    seq(|values|, i requires 0 <= i < |values| => Encode(values[i]))
  }

  function PreparedValues(flavor: Flavor, values: seq<string>): (r: seq<string>)
    ensures |r| == |values|
  {
    if flavor == KeePass then
      seq(|values|, i requires 0 <= i < |values| => DoubledBackslashes(values[i]))
    else
      values
  }

  function WriteRow(flavor: Flavor, values: seq<string>): seq<byte>
    requires values != []
  {
    Csv.WriteRecord(ExportDialect(flavor), EncodeRecord(values))
  }

  function ExportedRows(flavor: Flavor, secrets: seq<LegacySecret>): seq<byte> {
    if secrets == [] then []
    else ExportedRows(flavor, secrets[..|secrets| - 1])
         + WriteRow(flavor, PreparedValues(flavor, Values(flavor, secrets[|secrets| - 1])))
  }

  function ExportedCsv(flavor: Flavor, secrets: seq<LegacySecret>): seq<byte> {
    WriteRow(flavor, Columns(flavor)) + ExportedRows(flavor, secrets)
  }

  function Exported(flavor: Flavor, secrets: seq<LegacySecret>): Result<seq<byte>, TransferError> {
    if Exportable(flavor, secrets) then Success(ExportedCsv(flavor, secrets)) else Failure(Lossy)
  }

  /** The export: check every record first, then write a header and one row each. */
  method Export(flavor: Flavor, secrets: seq<LegacySecret>) returns (r: Result<seq<byte>, TransferError>)
    ensures r == Exported(flavor, secrets)
  {
    hide IsLossy, ExportedCsv;
    for i := 0 to |secrets|
      invariant forall k :: 0 <= k < i ==> !IsLossy(flavor, secrets[k])
    {
      if IsLossy(flavor, secrets[i]) {
        return Failure(Lossy);
      }
    }
    var out := WriteCsv(flavor, secrets);
    return Success(out);
  }

  method WriteCsv(flavor: Flavor, secrets: seq<LegacySecret>) returns (out: seq<byte>)
    ensures out == ExportedCsv(flavor, secrets)
  {
    hide WriteRow, PreparedValues, Values, Columns;
    out := WriteRow(flavor, Columns(flavor));
    for i := 0 to |secrets|
      invariant out == WriteRow(flavor, Columns(flavor)) + ExportedRows(flavor, secrets[..i])
    {
      assert secrets[..i + 1][..i] == secrets[..i];
      out := out + WriteRow(flavor, PreparedValues(flavor, Values(flavor, secrets[i])));
    }
    assert secrets[..|secrets|] == secrets;
  }

  // ---- Import ----

  predicate IsAsciiAlphanumeric(c: char) {
    '0' <= c <= '9' || 'a' <= c <= 'z' || 'A' <= c <= 'Z'
  }

  function ToLower(c: char): char {
    if 'A' <= c <= 'Z' then (c as int + 32) as char else c
  }

  function Folded(s: string): string {
    if s == [] then []
    else (if IsAsciiAlphanumeric(s[0]) then [ToLower(s[0])] else []) + Folded(s[1..])
  }

  function NormalizedHeader(name: string): string {
    Folded(Trim(name))
  }

  function TitleNames(flavor: Flavor): seq<string> {
    if flavor == OnePassword then ["title"] else ["account", "title"]
  }

  function Known(flavor: Flavor): seq<string> {
    match flavor
    case OnePassword =>
      ["title", "website", "url", "username", "password", "one-timepassword", "onetimepassword",
       "otpauth", "favoritestatus", "favorite", "archivedstatus", "archived", "tags", "notes"]
    case KeePass =>
      ["account", "title", "loginname", "username", "password", "website", "url", "comments", "notes"]
  }

  const ALIASES: seq<seq<string>> := [
    ["title", "account"],
    ["website", "url"],
    ["username", "loginname"],
    ["one-timepassword", "onetimepassword", "otpauth"],
    ["favoritestatus", "favorite"],
    ["archivedstatus", "archived"],
    ["comments", "notes"]
  ]

  function Index(headers: seq<string>): (m: map<string, nat>) {
    if headers == [] then map[]
    else
      var last := |headers| - 1;
      Index(headers[..last])[NormalizedHeader(headers[last]) := last]
  }

  predicate HasDuplicates(headers: seq<string>) {
    exists i, j :: 0 <= i < j < |headers| && NormalizedHeader(headers[i]) == NormalizedHeader(headers[j])
  }

  function Present(flavor: Flavor, index: map<string, nat>, aliases: seq<string>): nat {
    if aliases == [] then 0
    else (if aliases[0] in Known(flavor) && aliases[0] in index then 1 else 0)
         + Present(flavor, index, aliases[1..])
  }

  predicate IsAmbiguous(flavor: Flavor, index: map<string, nat>) {
    exists i :: 0 <= i < |ALIASES| && Present(flavor, index, ALIASES[i]) > 1
  }

  /** The first of the named columns with a non-empty value in this row. */
  function Value(row: seq<string>, index: map<string, nat>, names: seq<string>): Option<string> {
    if names == [] then None
    else if names[0] in index && index[names[0]] < |row| && row[index[names[0]]] != "" then
      Some(row[index[names[0]]])
    else Value(row, index, names[1..])
  }

  function Optional(value: Option<string>): seq<string> {
    if value.Some? then [value.value] else []
  }

  function AsciiLower(s: string): (r: string)
    ensures |r| == |s|
  {
    seq(|s|, i requires 0 <= i < |s| => ToLower(s[i]))
  }

  predicate ParseBool(value: string) {
    AsciiLower(Trim(value)) in {"1", "true", "yes"}
  }

  function KeepTags(parts: seq<string>): seq<string> {
    if parts == [] then []
    else (if Trim(parts[0]) == "" then [] else [Trim(parts[0])]) + KeepTags(parts[1..])
  }

  function ParseTags(value: Option<string>): seq<string> {
    if value.None? then [] else KeepTags(Split(value.value, ','))
  }

  function ParseFlag(value: Option<string>): bool {
    value.Some? && ParseBool(value.value)
  }

  /** Columns the format does not name become custom fields. */
  function ExtraFields(flavor: Flavor, headers: seq<string>, row: seq<string>): seq<LegacyField> {
    if headers == [] then []
    else
      var last := |headers| - 1;
      ExtraFields(flavor, headers[..last], row)
      + if NormalizedHeader(headers[last]) in Known(flavor) then []
        else [LegacyField(headers[last], if last < |row| then row[last] else "", CustomFields, 1, None)]
  }

  function Account(flavor: Flavor, index: map<string, nat>, title: string, row: seq<string>): LegacySecret {
    var s := NewLegacy(Login, title);
    match flavor
    case OnePassword =>
      s.(urls := Optional(Value(row, index, ["website", "url"])),
         username := Value(row, index, ["username"]),
         password := Value(row, index, ["password"]),
         totp := Value(row, index, ["one-timepassword", "onetimepassword", "otpauth"]),
         favorite := ParseFlag(Value(row, index, ["favoritestatus", "favorite"])),
         archived := ParseFlag(Value(row, index, ["archivedstatus", "archived"])),
         tags := ParseTags(Value(row, index, ["tags"])),
         notes := Value(row, index, ["notes"]))
    case KeePass =>
      s.(username := Value(row, index, ["loginname", "username"]),
         password := Value(row, index, ["password"]),
         urls := Optional(Value(row, index, ["website", "url"])),
         notes := Value(row, index, ["comments", "notes"]))
  }

  function DecodeRecord(record: Csv.Record): (r: Option<seq<string>>)
    ensures r.Some? ==> EncodeRecord(r.value) == record
  {
    if record == [] then Some([])
    else
      var first, rest := Decode(record[0]), DecodeRecord(record[1..]);
      if first.Some? && rest.Some? then Some([first.value] + rest.value) else None
  }

  function ImportRow(flavor: Flavor, headers: seq<string>, record: Csv.Record)
    : Result<LegacySecret, TransferError>
  {
    var row := DecodeRecord(record);
    if row.None? then Failure(InvalidRow)
    else if |row.value| > |headers| then Failure(UnnamedValues)
    else
      var index := Index(headers);
      var title := Value(row.value, index, TitleNames(flavor));
      if title.None? then Failure(MissingTitle)
      else Success(Account(flavor, index, title.value, row.value)
                   .(customFields := ExtraFields(flavor, headers, row.value)))
  }

  /** Rows are taken in order; the first bad row decides the error. */
  function ImportRows(flavor: Flavor, headers: seq<string>, rows: seq<Csv.Record>)
    : Result<seq<LegacySecret>, TransferError>
  {
    if rows == [] then Success([])
    else
      var before :- ImportRows(flavor, headers, rows[..|rows| - 1]);
      var s :- ImportRow(flavor, headers, rows[|rows| - 1]);
      if |rows| > MAX_ITEMS then Failure(TooManyItems) else Success(before + [s])
  }

  const ESCAPED_START: seq<byte> :=
    [34, 65, 99, 99, 111, 117, 110, 116, 34, 44, 34, 76, 111, 103, 105, 110, 32, 78, 97, 109, 101, 34, 44]

  /** Only a KeePass file whose quoted header starts like KeePass 1.x's is read
      in the escaped dialect. */
  function ImportDialect(flavor: Flavor, bytes: seq<byte>): Csv.Dialect {
    if flavor == KeePass && ESCAPED_START <= Csv.WithoutBom(bytes) then Csv.Escaped else Csv.Doubled
  }

  function ImportedRecords(flavor: Flavor, records: seq<Csv.Record>): Result<seq<LegacySecret>, TransferError> {
    var headers := DecodeRecord(if records == [] then [] else records[0]);
    if headers.None? then Failure(InvalidHeader)
    else if HasDuplicates(headers.value) then Failure(DuplicateColumns)
    else if IsAmbiguous(flavor, Index(headers.value)) then Failure(AmbiguousColumns)
    else ImportRows(flavor, headers.value, if records == [] then [] else records[1..])
  }

  function Imported(flavor: Flavor, bytes: seq<byte>): Result<seq<LegacySecret>, TransferError> {
    if |bytes| > MAX_FILE_BYTES then Failure(FileTooLarge)
    else ImportedRecords(flavor, Csv.Read(ImportDialect(flavor, bytes), bytes))
  }

  lemma {:induction false} ImportRowsLength(flavor: Flavor, headers: seq<string>, rows: seq<Csv.Record>)
    requires ImportRows(flavor, headers, rows).Success?
    ensures |ImportRows(flavor, headers, rows).value| == |rows| <= MAX_ITEMS
  {
    hide ImportRow;
    if rows != [] {
      ImportRowsLength(flavor, headers, rows[..|rows| - 1]);
    }
  }

  /** No more records than the limit are ever imported. */
  lemma {:induction false} ImportedAtMost(flavor: Flavor, bytes: seq<byte>)
    ensures Imported(flavor, bytes).Success? ==> |Imported(flavor, bytes).value| <= MAX_ITEMS
  {
    hide ImportRows, DecodeRecord, HasDuplicates, IsAmbiguous, Index, Csv.Read, ImportDialect;
    if Imported(flavor, bytes).Success? {
      var records := Csv.Read(ImportDialect(flavor, bytes), bytes);
      var headers := DecodeRecord(if records == [] then [] else records[0]);
      ImportRowsLength(flavor, headers.value, if records == [] then [] else records[1..]);
    }
  }

  // ---- The import as it runs ----

  method HasRepeats(headers: seq<string>) returns (r: bool)
    ensures r == HasDuplicates(headers)
  {
    var unique := {};
    for i := 0 to |headers|
      invariant unique == set k | 0 <= k < i :: NormalizedHeader(headers[k])
      invariant !HasDuplicates(headers[..i])
    {
      var name := NormalizedHeader(headers[i]);
      if name in unique {
        ghost var k :| 0 <= k < i && NormalizedHeader(headers[k]) == name;
        return true;
      }
      unique := unique + {name};
    }
    assert headers[..|headers|] == headers;
    return false;
  }

  method ImportBody(flavor: Flavor, headers: seq<string>, rows: seq<Csv.Record>)
    returns (r: Result<seq<LegacySecret>, TransferError>)
    ensures r == ImportRows(flavor, headers, rows)
  {
    hide ImportRow;
    var output := [];
    for i := 0 to |rows|
      invariant ImportRows(flavor, headers, rows[..i]) == Success(output)
      invariant |output| == i
    {
      var s := ImportRow(flavor, headers, rows[i]);
      assert rows[..i + 1][..i] == rows[..i];
      if s.Failure? {
        RowErrorDecides(flavor, headers, rows, i + 1);
        return Failure(s.error);
      }
      output := output + [s.value];
      if |output| > MAX_ITEMS {
        RowErrorDecides(flavor, headers, rows, i + 1);
        return Failure(TooManyItems);
      }
    }
    assert rows[..|rows|] == rows;
    return Success(output);
  }

  /** Once a prefix of the rows is refused, later rows cannot change the error. */
  lemma {:induction false} RowErrorDecides(flavor: Flavor, headers: seq<string>, rows: seq<Csv.Record>, i: nat)
    requires i <= |rows|
    requires ImportRows(flavor, headers, rows[..i]).Failure?
    ensures ImportRows(flavor, headers, rows) == ImportRows(flavor, headers, rows[..i])
    decreases |rows|
  {
    hide ImportRow;
    if i == |rows| {
      assert rows[..i] == rows;
    } else {
      var before := rows[..|rows| - 1];
      assert before[..i] == rows[..i];
      RowErrorDecides(flavor, headers, before, i);
    }
  }

  method Import(flavor: Flavor, bytes: seq<byte>) returns (r: Result<seq<LegacySecret>, TransferError>)
    ensures r == Imported(flavor, bytes)
  {
    hide HasDuplicates, ImportRows, DecodeRecord, Csv.Read, Index, Present;
    if |bytes| > MAX_FILE_BYTES {
      return Failure(FileTooLarge);
    }
    var records := Csv.Read(ImportDialect(flavor, bytes), bytes);
    var headers := DecodeRecord(if records == [] then [] else records[0]);
    if headers.None? {
      return Failure(InvalidHeader);
    }
    var repeats := HasRepeats(headers.value);
    if repeats {
      return Failure(DuplicateColumns);
    }
    var index := Index(headers.value);
    for i := 0 to |ALIASES|
      invariant forall k :: 0 <= k < i ==> Present(flavor, index, ALIASES[k]) <= 1
    {
      if Present(flavor, index, ALIASES[i]) > 1 {
        return Failure(AmbiguousColumns);
      }
    }
    r := ImportBody(flavor, headers.value, if records == [] then [] else records[1..]);
  }
}
