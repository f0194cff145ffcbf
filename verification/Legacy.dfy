/** Conversion between the flat legacy record and the sectioned item. */
module Legacy {
  import opened Wrappers
  import opened JsonValues
  import opened Text
  import opened Items

  datatype ConversionError = InvalidItem | Loss | BadNumber

  // ---- From a legacy record ----

  function OptionalField(id: string, caption: string, fieldType: FieldType, value: Option<string>): seq<Field> {
    if value.Some? then [NewField(id, caption, fieldType, String(value.value))] else []
  }

  function UrlField(index: nat, url: string): Field {
    NewField("url-" + Decimal(index), "Website", Url, String(url))
  }

  function UrlFields(urls: seq<string>): (r: seq<Field>) {
    if urls == [] then []
    else UrlFields(urls[..|urls| - 1]) + [UrlField(|urls| - 1, urls[|urls| - 1])]
  }

  function AccountFields(record: LegacySecret): seq<Field> {
    OptionalField("username", "Username", PlainText, record.username)
    + OptionalField("password", "Password", Concealed, record.password)
    + OptionalField("totp", "One-time password", Totp, record.totp)
    + UrlFields(record.urls)
  }

  function CustomType(fieldType: u64): FieldType {
    if fieldType == 0 then PlainText
    else if fieldType == 1 then Concealed
    else if fieldType == 2 then Boolean
    else if fieldType == 3 then Reference
    else Unknown("bitwarden-" + Decimal(fieldType))
  }

  function ConvertedType(f: LegacyField): FieldType {
    if f.section == CustomFields then CustomType(f.fieldType)
    else if f.name == "number" && f.section == CardFields then CardNumber
    else if f.name in {"code", "ssn", "passportNumber", "licenseNumber"} then Concealed
    else PlainText
  }

  function ConvertedValue(f: LegacyField): Json {
    if f.linkedId.Some? then
      Object([Member("linkedId", Number(Unsigned(f.linkedId.value))), Member("value", String(f.value))])
    else
      String(f.value)
  }

  function ConvertedField(index: nat, f: LegacyField): Field {
    NewField(if f.section == CustomFields then "custom-" + Decimal(index) else f.name,
             f.name, ConvertedType(f), ConvertedValue(f))
  }

  /** The fields of one group in their order, each with its position in the whole list. */
  function GroupFields(group: LegacySection, fields: seq<LegacyField>): seq<Field> {
    if fields == [] then []
    else
      var last := |fields| - 1;
      GroupFields(group, fields[..last])
      + if fields[last].section == group then [ConvertedField(last, fields[last])] else []
  }

  function GroupId(group: LegacySection): string {
    match group
    case CardFields => "card"
    case IdentityFields => "identity"
    case CustomFields => "custom"
  }

  function OptionalSection(id: string, caption: string, fields: seq<Field>): seq<Section> {
    if fields == [] then [] else [Section(id, caption, fields)]
  }

  function GroupSection(group: LegacySection, fields: seq<LegacyField>): seq<Section> {
    OptionalSection(GroupId(group), GroupId(group), GroupFields(group, fields))
  }

  /** The item before it is validated. `digest` stands for the hexadecimal hash of
      the stored record. */
  function Converted(record: LegacySecret, digest: string): PersonalSecret {
    PersonalSecret(
      "legacy-" + digest, record.kind, record.title,
      OptionalSection("account", "Account", AccountFields(record))
      + GroupSection(CardFields, record.customFields)
      + GroupSection(IdentityFields, record.customFields)
      + GroupSection(CustomFields, record.customFields),
      record.notes, record.folder, record.tags, record.favorite, record.archived, None)
  }

  function FromLegacy(record: LegacySecret, digest: string): Result<PersonalSecret, ConversionError> {
    if Valid(Converted(record, digest)) then Success(Converted(record, digest)) else Failure(InvalidItem)
  }

  method ConvertFromLegacy(record: LegacySecret, digest: string) returns (r: Result<PersonalSecret, ConversionError>)
    ensures r == FromLegacy(record, digest)
  {
    var account := OptionalField("username", "Username", PlainText, record.username)
      + OptionalField("password", "Password", Concealed, record.password)
      + OptionalField("totp", "One-time password", Totp, record.totp);
    var urls := [];
    for i := 0 to |record.urls|
      invariant urls == UrlFields(record.urls[..i])
    {
      assert record.urls[..i + 1][..i] == record.urls[..i];
      urls := urls + [UrlField(i, record.urls[i])];
    }
    assert record.urls[..|record.urls|] == record.urls;
    var sections := OptionalSection("account", "Account", account + urls);
    var card := ConvertGroup(CardFields, record.customFields);
    var identity := ConvertGroup(IdentityFields, record.customFields);
    var custom := ConvertGroup(CustomFields, record.customFields);
    var item := PersonalSecret("legacy-" + digest, record.kind, record.title, sections + card + identity + custom,
                               record.notes, record.folder, record.tags, record.favorite, record.archived, None);
    var ok := Validate(item);
    r := if ok then Success(item) else Failure(InvalidItem);
  }

  method ConvertGroup(group: LegacySection, fields: seq<LegacyField>) returns (r: seq<Section>)
    ensures r == GroupSection(group, fields)
  {
    var out := [];
    for i := 0 to |fields|
      invariant out == GroupFields(group, fields[..i])
    {
      assert fields[..i + 1][..i] == fields[..i];
      if fields[i].section == group {
        out := out + [ConvertedField(i, fields[i])];
      }
    }
    assert fields[..|fields|] == fields;
    r := OptionalSection(GroupId(group), GroupId(group), out);
  }

  // ---- To a legacy record ----

  predicate IsTransferable(kind: Kind) {
    kind in {Login, Generic, SecureNote, Card, Identity}
  }

  /** Field ids and captions of the card and identity templates. */
  function Standard(kind: Kind): seq<(string, string)> {
    match kind
    case Card =>
      [("cardholderName", "Cardholder"), ("number", "Card number"), ("expMonth", "Expiry month"),
       ("expYear", "Expiry year"), ("code", "Security code")]
    case Identity =>
      [("firstName", "First name"), ("lastName", "Last name"), ("email", "Email"), ("phone", "Phone")]
    case _ => []
  }

  function ExpectedCaption(kind: Kind, id: string): string {
    if id == "username" then "Username"
    else if id == "password" then (if kind == Generic then "Secret value" else "Password")
    else if id == "totp" then "One-time password"
    else "Website"
  }

  function AddAccountField(kind: Kind, record: LegacySecret, f: Field): Result<LegacySecret, ConversionError> {
    if !f.value.String? then Failure(Loss)
    else
      var text := f.value.text;
      if f.caption != ExpectedCaption(kind, f.id) && !(f.id == "password" && f.caption == "Password") then
        Failure(Loss)
      else if f.id == "username" && f.fieldType.PlainText? && !f.concealed then
        Success(record.(username := NonEmpty(text)))
      else if f.id == "password" && f.fieldType.Concealed? then
        Success(record.(password := NonEmpty(text)))
      else if f.id == "totp" && f.fieldType.Totp? then
        Success(record.(totp := NonEmpty(text)))
      else if "url-" <= f.id && f.fieldType.Url? && !f.concealed then
        Success(if text == "" then record else record.(urls := record.urls + [text]))
      else
        Failure(Loss)
  }

  function LegacyGroup(kind: Kind, sectionId: string): Option<LegacySection> {
    if sectionId == "card" && kind == Card then Some(CardFields)
    else if sectionId == "identity" && kind == Identity then Some(IdentityFields)
    else if sectionId == "custom" then Some(CustomFields)
    else None
  }

  predicate HasOnlyLinkKeys(value: Json) {
    value.Object? ==>
      forall i :: 0 <= i < |value.members| ==> value.members[i].key in {"linkedId", "value"}
  }

  datatype Restored = Restored(fieldType: u64, linkedId: Option<u64>, value: string)

  function RestoredText(fieldType: u64, f: Field): Result<Restored, ConversionError> {
    if f.value.String? then Success(Restored(fieldType, None, f.value.text)) else Failure(Loss)
  }

  function LinkTarget(value: Json): Option<u64> {
    match Get(value, "linkedId")
    case None => None
    case Some(id) => AsU64(id)
  }

  function LinkValue(value: Json): string {
    match Get(value, "value")
    case Some(String(text)) => text
    case _ => if value.String? then value.text else ""
  }

  const UNKNOWN_PREFIX: string := "bitwarden-"

  function RestoreField(group: LegacySection, f: Field): Result<Restored, ConversionError> {
    match f.fieldType
    case PlainText => if f.concealed then Failure(Loss) else RestoredText(0, f)
    case Concealed => RestoredText(1, f)
    case CardNumber => if group == CardFields then RestoredText(0, f) else Failure(Loss)
    case Boolean => // a validated item holds a text or a boolean here
      Success(Restored(2, None, if f.value.String? then f.value.text
                                else if f.value == Bool(true) then "true" else "false"))
    case Reference => Success(Restored(3, LinkTarget(f.value), LinkValue(f.value)))
    case Unknown(source) =>
      if !(UNKNOWN_PREFIX <= source) then Failure(Loss)
      else
        var number := ParseU64(source[|UNKNOWN_PREFIX|..]);
        if number.None? then Failure(BadNumber) else RestoredText(number.value, f)
    case _ => Failure(Loss)
  }

  function AddGroupField(kind: Kind, sectionId: string, record: LegacySecret, f: Field)
    : Result<LegacySecret, ConversionError>
  {
    var group := LegacyGroup(kind, sectionId);
    if group.None? then Failure(Loss)
    else if group.value != CustomFields && f.caption != f.id && (f.id, f.caption) !in Standard(kind) then
      Failure(Loss)
    else if f.fieldType.Reference? && !HasOnlyLinkKeys(f.value) then
      Failure(Loss)
    else
      var r :- RestoreField(group.value, f);
      var custom := group.value == CustomFields;
      Success(record.(customFields := record.customFields + [
        LegacyField(if custom then f.caption else f.id, r.value, group.value,
                    if custom then r.fieldType else 0, r.linkedId)]))
  }

  function AddField(kind: Kind, sectionId: string, record: LegacySecret, f: Field)
    : Result<LegacySecret, ConversionError>
  {
    if sectionId == "account" then AddAccountField(kind, record, f) else AddGroupField(kind, sectionId, record, f)
  }

  function AddFields(kind: Kind, sectionId: string, record: LegacySecret, fields: seq<Field>)
    : Result<LegacySecret, ConversionError>
  {
    if fields == [] then Success(record)
    else
      var before :- AddFields(kind, sectionId, record, fields[..|fields| - 1]);
      AddField(kind, sectionId, before, fields[|fields| - 1])
  }

  function AddSection(kind: Kind, record: LegacySecret, s: Section): Result<LegacySecret, ConversionError> {
    if s.caption !in {s.id, "Account", KindLabel(kind)} then Failure(Loss)
    else AddFields(kind, s.id, record, s.fields)
  }

  function AddSections(kind: Kind, record: LegacySecret, sections: seq<Section>)
    : Result<LegacySecret, ConversionError>
  {
    if sections == [] then Success(record)
    else
      var before :- AddSections(kind, record, sections[..|sections| - 1]);
      AddSection(kind, before, sections[|sections| - 1])
  }

  function Outline(item: PersonalSecret): LegacySecret {
    NewLegacy(item.kind, item.title).(notes := item.notes, folder := item.folder, tags := item.tags,
                                      favorite := item.favorite, archived := item.archived)
  }

  function ToLegacy(item: PersonalSecret): Result<LegacySecret, ConversionError> {
    if !Valid(item) then Failure(InvalidItem)
    else if item.source.Some? || !IsTransferable(item.kind) then Failure(Loss)
    else AddSections(item.kind, Outline(item), item.sections)
  }

  method ConvertToLegacy(item: PersonalSecret) returns (r: Result<LegacySecret, ConversionError>)
    ensures r == ToLegacy(item)
  {
    hide AddField, Valid;
    var ok := Validate(item);
    if !ok {
      return Failure(InvalidItem);
    }
    if item.source.Some? || !IsTransferable(item.kind) {
      return Failure(Loss);
    }
    var record := Outline(item);
    for i := 0 to |item.sections|
      invariant AddSections(item.kind, Outline(item), item.sections[..i]) == Success(record)
    {
      var section := item.sections[i];
      assert item.sections[..i + 1][..i] == item.sections[..i];
      if section.caption !in {section.id, "Account", KindLabel(item.kind)} {
        SectionErrorDecides(item.kind, Outline(item), item.sections, i + 1);
        return Failure(Loss);
      }
      var next := RestoreFields(item.kind, section.id, record, section.fields);
      if next.Failure? {
        SectionErrorDecides(item.kind, Outline(item), item.sections, i + 1);
        return Failure(next.error);
      }
      record := next.value;
    }
    assert item.sections[..|item.sections|] == item.sections;
    return Success(record);
  }

  method RestoreFields(kind: Kind, sectionId: string, start: LegacySecret, all: seq<Field>)
    returns (r: Result<LegacySecret, ConversionError>)
    ensures r == AddFields(kind, sectionId, start, all)
  {
    hide AddField;
    var record := start;
    for i := 0 to |all|
      invariant AddFields(kind, sectionId, start, all[..i]) == Success(record)
    {
      assert all[..i + 1][..i] == all[..i];
      var next := AddField(kind, sectionId, record, all[i]);
      if next.Failure? {
        FieldErrorDecides(kind, sectionId, start, all, i + 1);
        return next;
      }
      record := next.value;
    }
    assert all[..|all|] == all;
    return Success(record);
  }

  lemma {:induction false} FieldErrorDecides(kind: Kind, sectionId: string, record: LegacySecret, all: seq<Field>,
      i: nat)
    requires i <= |all| && AddFields(kind, sectionId, record, all[..i]).Failure?
    ensures AddFields(kind, sectionId, record, all) == AddFields(kind, sectionId, record, all[..i])
    decreases |all|
  {
    hide AddField;
    if i == |all| {
      assert all[..i] == all;
    } else {
      var before := all[..|all| - 1];
      assert before[..i] == all[..i];
      FieldErrorDecides(kind, sectionId, record, before, i);
    }
  }

  lemma {:induction false} SectionErrorDecides(kind: Kind, record: LegacySecret, all: seq<Section>, i: nat)
    requires i <= |all| && AddSections(kind, record, all[..i]).Failure?
    ensures AddSections(kind, record, all) == AddSections(kind, record, all[..i])
    decreases |all|
  {
    hide AddSection;
    if i == |all| {
      assert all[..i] == all;
    } else {
      var before := all[..|all| - 1];
      assert before[..i] == all[..i];
      SectionErrorDecides(kind, record, before, i);
    }
  }
}
