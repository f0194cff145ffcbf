/** A whole vault through a CSV file and back: items become legacy records, records become
    rows, and an import goes the other way and repairs the ids. */
module VaultTransfer {
  import opened Wrappers
  import opened Utf8
  import opened Items
  import opened Legacy
  import opened LegacyRoundTrip
  import opened CsvTransfer
  import opened CsvRoundTrip
  import opened ImportIds

  datatype Failure = NotConverted(reason: ConversionError) | NotTransferred(problem: TransferError)

  /** The digest a converted record takes its id from. */
  type Naming = LegacySecret -> string

  // ---- The two directions ----

  function Records(items: seq<PersonalSecret>): Result<seq<LegacySecret>, ConversionError> {
    if items == [] then Success([])
    else
      var rest :- Records(items[..|items| - 1]);
      var last :- ToLegacy(items[|items| - 1]);
      Success(rest + [last])
  }

  function ExportManager(flavor: Flavor, items: seq<PersonalSecret>): Result<seq<byte>, Failure> {
    match Records(items)
    case Failure(reason) => Failure(NotConverted(reason))
    case Success(records) =>
      match Exported(flavor, records)
      case Failure(problem) => Failure(NotTransferred(problem))
      case Success(bytes) => Success(bytes)
  }

  function ItemsFrom(naming: Naming, records: seq<LegacySecret>): Result<seq<PersonalSecret>, ConversionError> {
    if records == [] then Success([])
    else
      var rest :- ItemsFrom(naming, records[..|records| - 1]);
      var last :- FromLegacy(records[|records| - 1], naming(records[|records| - 1]));
      Success(rest + [last])
  }

  lemma {:induction false} ItemsLength(naming: Naming, records: seq<LegacySecret>)
    requires ItemsFrom(naming, records).Success?
    ensures |ItemsFrom(naming, records).value| == |records|
  {
    if records != [] {
      ItemsLength(naming, records[..|records| - 1]);
    }
  }

  function ImportManager(flavor: Flavor, bytes: seq<byte>, naming: Naming, digest: Digest)
    : Result<seq<PersonalSecret>, Failure>
    requires Usable(digest)
  {
    match Imported(flavor, bytes)
    case Failure(problem) => Failure(NotTransferred(problem))
    case Success(records) =>
      match ItemsFrom(naming, records)
      case Failure(reason) => Failure(NotConverted(reason))
      case Success(items) =>
        ImportedAtMost(flavor, bytes);
        ItemsLength(naming, records);
        Success(Repaired(digest, items))
  }

  // ---- Records that come from a row ----

  /** What every imported row is: a plain login without empty texts or custom fields. */
  predicate IsPlain(r: LegacySecret) {
    && r.kind == Login && r.customFields == []
    && r.username != Some("") && r.password != Some("") && r.totp != Some("") && "" !in r.urls
  }

  lemma {:induction false} KeptIsPlain(flavor: Flavor, s: LegacySecret)
    requires !IsLossy(flavor, s)
    ensures IsPlain(Kept(s)) && !IsLossy(flavor, Kept(s)) && Values(flavor, Kept(s)) == Values(flavor, s)
  {
  }

  /** A plain record is converted to an item and back to itself, whatever id the item gets. */
  lemma {:induction false} PlainReturns(r: LegacySecret, digest: string, id: string)
    requires IsPlain(r) && id != ""
    ensures FromLegacy(r, digest).Success?
    ensures ToLegacy(FromLegacy(r, digest).value.(id := id)) == Success(r)
  {
    hide IsPlain, FromLegacy, ToLegacy, Grouped, Accepted, Returns, HasNoEmptyText, CardFieldsUntyped;
    PlainFits(r);
    AcceptedExactly(r, digest);
    RoundTripExactly(r, digest);
    IdDoesNotMatter(FromLegacy(r, digest).value, id);
  }

  lemma {:induction false} PlainFits(r: LegacySecret)
    requires IsPlain(r)
    ensures Accepted(r) && Returns(r) && HasNoEmptyText(r) && CardFieldsUntyped(r) && Grouped(r) == r
  {
  }

  lemma {:induction false} IdDoesNotMatter(item: PersonalSecret, id: string)
    requires id != "" && ToLegacy(item).Success?
    ensures ToLegacy(item.(id := id)) == ToLegacy(item)
  {
    hide AddSections;
  }

  lemma {:induction false} PlainItems(naming: Naming, records: seq<LegacySecret>)
    requires forall i :: 0 <= i < |records| ==> IsPlain(records[i])
    ensures var r := ItemsFrom(naming, records);
            && r.Success? && |r.value| == |records|
            && forall i :: 0 <= i < |records| ==>
                 FromLegacy(records[i], naming(records[i])) == Success(r.value[i])
  {
    hide FromLegacy, IsPlain;
    if records != [] {
      var last := records[|records| - 1];
      PlainItems(naming, records[..|records| - 1]);
      PlainReturns(last, naming(last), "any");
    }
  }

  lemma {:induction false} RecordsOf(items: seq<PersonalSecret>, records: seq<LegacySecret>)
    requires |items| == |records| && forall i :: 0 <= i < |items| ==> ToLegacy(items[i]) == Success(records[i])
    ensures Records(items) == Success(records)
  {
    hide ToLegacy;
    if items != [] {
      RecordsOf(items[..|items| - 1], records[..|records| - 1]);
      assert records == records[..|records| - 1] + [records[|records| - 1]];
    }
  }

  lemma {:induction false} RecordsLength(items: seq<PersonalSecret>)
    requires Records(items).Success?
    ensures |Records(items).value| == |items|
    ensures forall i :: 0 <= i < |items| ==> ToLegacy(items[i]) == Success(Records(items).value[i])
  {
    hide ToLegacy;
    if items != [] {
      RecordsLength(items[..|items| - 1]);
    }
  }

  // ---- Exporting again ----

  lemma {:induction false} RowsAgain(flavor: Flavor, records: seq<LegacySecret>)
    requires Exportable(flavor, records)
    ensures ExportedRows(flavor, AllKept(records)) == ExportedRows(flavor, records)
  {
    hide Values, Kept, IsLossy, WriteRow, PreparedValues;
    if records != [] {
      var front := records[..|records| - 1];
      assert AllKept(records)[..|records| - 1] == AllKept(front);
      RowsAgain(flavor, front);
      KeptIsPlain(flavor, records[|records| - 1]);
    }
  }

  /** The records that come back are exported to the same bytes. */
  lemma {:induction false} ExportedAgain(flavor: Flavor, records: seq<LegacySecret>)
    requires Exportable(flavor, records)
    ensures Exported(flavor, AllKept(records)) == Exported(flavor, records)
  {
    hide IsLossy, ExportedRows, Kept;
    RowsAgain(flavor, records);
    forall i | 0 <= i < |records| ensures !IsLossy(flavor, AllKept(records)[i]) {
      KeptIsPlain(flavor, records[i]);
    }
  }

  // ---- Main result ----

  /** The imported items have distinct ids, stand for the same records up to kind and empty
      texts, and export to the very same bytes. */
  predicate Returned(flavor: Flavor, bytes: seq<byte>, records: seq<LegacySecret>, again: seq<PersonalSecret>) {
    && |again| == |records| && DistinctIds(again)
    && Records(again) == Success(AllKept(records))
    && ExportManager(flavor, again) == Success(bytes)
  }

  /** A vault that was exported imports again exactly when the file is within the limits and
      every item has a title; then it has returned. */
  lemma {:induction false} VaultReturns(
      flavor: Flavor, items: seq<PersonalSecret>, naming: Naming, digest: Digest)
    requires Usable(digest)
    ensures ExportManager(flavor, items).Success? ==>
              var bytes := ExportManager(flavor, items).value;
              var again := ImportManager(flavor, bytes, naming, digest);
              && Records(items).Success? && |Records(items).value| == |items|
              && (again.Success? <==>
                    |bytes| <= MAX_FILE_BYTES && |items| <= MAX_ITEMS && Titled(Records(items).value))
              && (again.Success? ==> Returned(flavor, bytes, Records(items).value, again.value))
  {
    hide Records, Exported, ImportManager, Usable, Titled, Returned;
    if ExportManager(flavor, items).Success? {
      RecordsLength(items);
      FileReturns(flavor, Records(items).value, naming, digest);
    }
  }

  /** The same of the records. */
  lemma {:induction false} FileReturns(
      flavor: Flavor, records: seq<LegacySecret>, naming: Naming, digest: Digest)
    requires Usable(digest) && Exported(flavor, records).Success?
    ensures var bytes := Exported(flavor, records).value;
            var again := ImportManager(flavor, bytes, naming, digest);
            && (again.Success? <==> |bytes| <= MAX_FILE_BYTES && |records| <= MAX_ITEMS && Titled(records))
            && (again.Success? ==> Returned(flavor, bytes, records, again.value))
  {
    hide Records, ItemsFrom, Exported, ExportedCsv, Exportable, Imported, Repaired, AllKept, Usable, Titled,
         DistinctIds;
    ExportedIsCsv(flavor, records);
    ImportAfterExport(flavor, records);
    if |ExportedCsv(flavor, records)| <= MAX_FILE_BYTES && |records| <= MAX_ITEMS && Titled(records) {
      var again := ImportedItems(flavor, records, naming, digest);
      ExportedAgain(flavor, records);
    }
  }

  lemma {:induction false} ExportedIsCsv(flavor: Flavor, records: seq<LegacySecret>)
    requires Exported(flavor, records).Success?
    ensures Exportable(flavor, records) && Exported(flavor, records) == Success(ExportedCsv(flavor, records))
  {
  }

  lemma {:induction false} ImportedItems(flavor: Flavor, records: seq<LegacySecret>, naming: Naming, digest: Digest)
    returns (again: seq<PersonalSecret>)
    requires Usable(digest) && Exportable(flavor, records) && |records| <= MAX_ITEMS
    ensures var made := ItemsFrom(naming, AllKept(records));
            && made.Success? && |made.value| <= MAX_ITEMS && again == Repaired(digest, made.value)
            && |again| == |records| && DistinctIds(again)
            && Records(again) == Success(AllKept(records))
  {
    hide IsLossy, Kept, Usable, Repaired, FromLegacy, ToLegacy, IsFirst;
    var kept := AllKept(records);
    forall i | 0 <= i < |records| ensures IsPlain(kept[i]) {
      KeptIsPlain(flavor, records[i]);
    }
    PlainItems(naming, kept);
    var made := ItemsFrom(naming, kept).value;
    again := Repaired(digest, made);
    RepairGuarantees(digest, made);
    forall i | 0 <= i < |again| ensures ToLegacy(again[i]) == Success(kept[i]) {
      assert RepairedItem(made, again, Ids(made), {}, i);
      PlainReturns(kept[i], naming(kept[i]), again[i].id);
    }
    RecordsOf(again, kept);
  }
}
