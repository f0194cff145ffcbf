/** Personal items: the flat record of earlier versions and the sectioned item. */
module Items {
  import opened Wrappers
  import opened JsonValues
  import opened Text

  datatype Kind =
    | Login | SecureNote | Card | Identity | SshKey
    | ApiCredential | Passport | BankAccount | Document | Generic

  // ---- Legacy records ----

  datatype LegacySection = CustomFields | CardFields | IdentityFields

  datatype LegacyField = LegacyField(
    name: string,
    value: string,
    section: LegacySection,
    fieldType: u64,
    linkedId: Option<u64>)

  datatype LegacySecret = LegacySecret(
    kind: Kind,
    title: string,
    username: Option<string>,
    password: Option<string>,
    urls: seq<string>,
    totp: Option<string>,
    notes: Option<string>,
    customFields: seq<LegacyField>,
    folder: Option<string>,
    tags: seq<string>,
    favorite: bool,
    archived: bool)

  function NewLegacy(kind: Kind, title: string): LegacySecret {
    LegacySecret(kind, title, None, None, [], None, None, [], None, [], false, false)
  }

  function NonEmpty(value: string): Option<string> {
    if value == "" then None else Some(value)
  }

  // ---- Sectioned items ----

  datatype FieldType =
    | PlainText | Concealed | Url | Email | Phone | Date | MonthYear | Totp | Multiline
    | Boolean | CardNumber | SshKeyText | Address | Reference
    | Unknown(source: string)

  /** Types whose fields are always hidden. */
  predicate TypeConceals(t: FieldType) {
    t.Concealed? || t.Totp? || t.CardNumber? || t.SshKeyText? || t.Unknown?
  }

  datatype Field = Field(id: string, caption: string, fieldType: FieldType, concealed: bool, value: Json)

  function NewField(id: string, caption: string, fieldType: FieldType, value: Json): Field {
    Field(id, caption, fieldType, TypeConceals(fieldType), value)
  }

  datatype Section = Section(id: string, caption: string, fields: seq<Field>)

  datatype PersonalSecret = PersonalSecret(
    id: string,
    kind: Kind,
    title: string,
    sections: seq<Section>,
    notes: Option<string>,
    folder: Option<string>,
    tags: seq<string>,
    favorite: bool,
    archived: bool,
    source: Option<Json>)

  function KindLabel(kind: Kind): string {
    match kind
    case Login => "Login"
    case SecureNote => "Secure note"
    case Card => "Card"
    case Identity => "Identity"
    case SshKey => "SSH key"
    case ApiCredential => "API credential"
    case Passport => "Passport"
    case BankAccount => "Bank account"
    case Document => "Document"
    case Generic => "Other"
  }

  // ---- Validity ----

  predicate ValueFits(f: Field) {
    match f.fieldType
    case Unknown(_) => true
    case SshKeyText => true
    case Email => true
    case Address => true
    case Reference => true
    case Boolean => f.value.Bool? || (f.value.String? && f.value.text in {"true", "false", ""})
    case Date => f.value.String? || f.value.Number?
    case MonthYear => f.value.String? || f.value.Number?
    case _ => f.value.String?
  }

  /** Types that hold any value. */
  predicate IsFree(t: FieldType) {
    t.Unknown? || t.SshKeyText? || t.Email? || t.Address? || t.Reference?
  }

  /** Which types a value fits, by its shape: a text fits every type but a boolean, which spells out its
      truth value or is empty; a truth value and a number fit their own types and the free ones; anything
      else only the free ones. */
  lemma {:induction false} FitsByShape(f: Field)
    ensures f.value.String? ==>
              (ValueFits(f) <==> f.fieldType.Boolean? ==> f.value.text in {"true", "false", ""})
    ensures f.value.Bool? ==> (ValueFits(f) <==> f.fieldType.Boolean? || IsFree(f.fieldType))
    ensures f.value.Number? ==>
              (ValueFits(f) <==> f.fieldType.Date? || f.fieldType.MonthYear? || IsFree(f.fieldType))
    ensures f.value.Null? || f.value.Array? || f.value.Object? ==> (ValueFits(f) <==> IsFree(f.fieldType))
  {
  }

  predicate FieldValid(f: Field) {
    && f.id != ""
    && ValueFits(f)
    && (TypeConceals(f.fieldType) ==> f.concealed)
  }

  predicate DistinctFieldIds(fields: seq<Field>) {
    forall i, j :: 0 <= i < j < |fields| ==> fields[i].id != fields[j].id
  }

  predicate SectionValid(s: Section) {
    && s.id != ""
    && DistinctFieldIds(s.fields)
    && forall i :: 0 <= i < |s.fields| ==> FieldValid(s.fields[i])
  }

  predicate DistinctSectionIds(sections: seq<Section>) {
    forall i, j :: 0 <= i < j < |sections| ==> sections[i].id != sections[j].id
  }

  /** What storing and reading an item demand of it. */
  predicate Valid(item: PersonalSecret) {
    && item.id != ""
    && DistinctSectionIds(item.sections)
    && forall i :: 0 <= i < |item.sections| ==> SectionValid(item.sections[i])
  }

  /** The check itself: one pass that collects section ids and, per section, field ids. */
  method Validate(item: PersonalSecret) returns (ok: bool)
    ensures ok <==> Valid(item)
  {
    if item.id == "" {
      return false;
    }
    var sections := {};
    for i := 0 to |item.sections|
      invariant sections == set k | 0 <= k < i :: item.sections[k].id
      invariant forall k :: 0 <= k < i ==> SectionValid(item.sections[k])
      invariant DistinctSectionIds(item.sections[..i])
    {
      var section := item.sections[i];
      if section.id == "" {
        return false;
      }
      if section.id in sections {
        ghost var k :| 0 <= k < i && item.sections[k].id == section.id;
        return false;
      }
      sections := sections + {section.id};
      var ok := ValidateFields(section.fields);
      if !ok {
        return false;
      }
    }
    assert item.sections[..|item.sections|] == item.sections;
    return true;
  }

  method ValidateFields(all: seq<Field>) returns (ok: bool)
    ensures ok <==> DistinctFieldIds(all) && forall i :: 0 <= i < |all| ==> FieldValid(all[i])
  {
    var ids := {};
    for i := 0 to |all|
      invariant ids == set k | 0 <= k < i :: all[k].id
      invariant forall k :: 0 <= k < i ==> FieldValid(all[k])
      invariant DistinctFieldIds(all[..i])
    {
      var field := all[i];
      if field.id in ids {
        ghost var k :| 0 <= k < i && all[k].id == field.id;
        return false;
      }
      ids := ids + {field.id};
      if !FieldValid(field) {
        return false;
      }
    }
    assert all[..|all|] == all;
    return true;
  }

  // ---- Validity by counting ----

  function FieldIdSet(fields: seq<Field>): set<string> {
    set i | 0 <= i < |fields| :: fields[i].id
  }

  function SectionIdSet(sections: seq<Section>): set<string> {
    set i | 0 <= i < |sections| :: sections[i].id
  }

  lemma {:induction false} FieldIdsCount(fields: seq<Field>)
    ensures |FieldIdSet(fields)| <= |fields|
    ensures DistinctFieldIds(fields) <==> |FieldIdSet(fields)| == |fields|
  {
    if fields != [] {
      var n := |fields| - 1;
      var front, last := fields[..n], fields[n];
      FieldIdsCount(front);
      assert forall i :: 0 <= i < n ==> front[i] == fields[i];
      assert FieldIdSet(fields) == FieldIdSet(front) + {last.id};
      if last.id in FieldIdSet(front) {
        var k :| 0 <= k < n && front[k].id == last.id;
        assert !DistinctFieldIds(fields);
      }
    }
  }

  lemma {:induction false} SectionIdsCount(sections: seq<Section>)
    ensures |SectionIdSet(sections)| <= |sections|
    ensures DistinctSectionIds(sections) <==> |SectionIdSet(sections)| == |sections|
  {
    if sections != [] {
      var n := |sections| - 1;
      var front, last := sections[..n], sections[n];
      SectionIdsCount(front);
      assert forall i :: 0 <= i < n ==> front[i] == sections[i];
      assert SectionIdSet(sections) == SectionIdSet(front) + {last.id};
      if last.id in SectionIdSet(front) {
        var k :| 0 <= k < n && front[k].id == last.id;
        assert !DistinctSectionIds(sections);
      }
    }
  }

  /** As many non-empty ids as fields, fitting values, and no sensitive field in plain sight. */
  predicate SectionCounts(s: Section) {
    && "" !in FieldIdSet(s.fields) && |FieldIdSet(s.fields)| == |s.fields|
    && forall i :: 0 <= i < |s.fields| ==>
         ValueFits(s.fields[i]) && (!s.fields[i].concealed ==> !TypeConceals(s.fields[i].fieldType))
  }

  /** An item is valid exactly when it has an id, as many non-empty section ids as sections, and in every
      section as many non-empty field ids as fields, all fitting and concealed where they must be. */
  lemma {:induction false} ValidByCounting(item: PersonalSecret)
    ensures Valid(item) <==>
            && item.id != "" && "" !in SectionIdSet(item.sections)
            && |SectionIdSet(item.sections)| == |item.sections|
            && forall i :: 0 <= i < |item.sections| ==> SectionCounts(item.sections[i])
  {
    hide ValueFits, TypeConceals;
    SectionIdsCount(item.sections);
    assert forall i :: 0 <= i < |item.sections| ==> item.sections[i].id in SectionIdSet(item.sections);
    forall i | 0 <= i < |item.sections|
      ensures SectionValid(item.sections[i]) <==> item.sections[i].id != "" && SectionCounts(item.sections[i])
    {
      SectionByCounting(item.sections[i]);
    }
  }

  lemma {:induction false} SectionByCounting(s: Section)
    ensures SectionValid(s) <==> s.id != "" && SectionCounts(s)
  {
    hide ValueFits, TypeConceals;
    FieldIdsCount(s.fields);
    assert forall i :: 0 <= i < |s.fields| ==> s.fields[i].id in FieldIdSet(s.fields);
  }
}
