/** The fields of a converted record one by one: which there are, what each holds and which
    are concealed; and what the conversion back makes of any field. */
module LegacyFields {
  import opened Wrappers
  import opened JsonValues
  import opened Text
  import opened Items
  import opened Legacy
  import opened LegacyRoundTrip

  // ---- What a converted record shows ----

  predicate HasField(sections: seq<Section>, sectionId: string, f: Field) {
    exists i :: 0 <= i < |sections| && sections[i].id == sectionId && f in sections[i].fields
  }

  predicate Shows(item: PersonalSecret, sectionId: string, f: Field) {
    HasField(item.sections, sectionId, f)
  }

  /** The account: the user name and the addresses in plain sight, the password and the
      one-time password concealed. */
  predicate IsAccountField(record: LegacySecret, f: Field) {
    || (record.username.Some? && f == Field("username", "Username", PlainText, false, String(record.username.value)))
    || (record.password.Some? && f == Field("password", "Password", Concealed, true, String(record.password.value)))
    || (record.totp.Some? && f == Field("totp", "One-time password", Totp, true, String(record.totp.value)))
    || exists i :: 0 <= i < |record.urls| && IsUrlField(i, record.urls[i], f)
  }

  predicate IsUrlField(i: nat, url: string, f: Field) {
    f == Field("url-" + Decimal(i), "Website", Url, false, String(url))
  }

  predicate HoldsValue(f: Field, legacy: LegacyField) {
    match legacy.linkedId
    case None => f.value == String(legacy.value)
    case Some(id) =>
      f.value == Object([Member("linkedId", Number(Unsigned(id))), Member("value", String(legacy.value))])
  }

  /** A card or identity field keeps its name. The card number and four kinds of number are
      concealed, the others are plain text. */
  predicate IsNamedField(card: bool, legacy: LegacyField, f: Field) {
    && f.id == f.caption == legacy.name && HoldsValue(f, legacy)
    && f.concealed == (
         || (card && legacy.name == "number")
         || legacy.name in {"code", "ssn", "passportNumber", "licenseNumber"})
    && (f.fieldType.CardNumber? <==> card && legacy.name == "number")
    && (!f.concealed ==> f.fieldType.PlainText?)
    && (f.concealed ==> f.fieldType.CardNumber? || f.fieldType.Concealed?)
  }

  /** A custom field is numbered by its place among all fields. Hidden fields and those of an
      unknown type are concealed. */
  predicate IsCustomField(i: nat, legacy: LegacyField, f: Field) {
    && f.id == "custom-" + Decimal(i) && f.caption == legacy.name && HoldsValue(f, legacy)
    && f.concealed == (legacy.fieldType == 1 || legacy.fieldType > 3)
    && (f.fieldType.PlainText? <==> legacy.fieldType == 0)
    && (f.fieldType.Concealed? <==> legacy.fieldType == 1)
    && (f.fieldType.Boolean? <==> legacy.fieldType == 2)
    && (f.fieldType.Reference? <==> legacy.fieldType == 3)
    && (legacy.fieldType > 3 ==> f.fieldType == Unknown("bitwarden-" + Decimal(legacy.fieldType)))
  }

  predicate IsGroupField(sectionId: string, i: nat, legacy: LegacyField, f: Field) {
    || (sectionId == "card" && legacy.section == CardFields && IsNamedField(true, legacy, f))
    || (sectionId == "identity" && legacy.section == IdentityFields && IsNamedField(false, legacy, f))
    || (sectionId == "custom" && legacy.section == CustomFields && IsCustomField(i, legacy, f))
  }

  lemma {:induction false} AccountHas(record: LegacySecret, f: Field)
    ensures f in AccountFields(record) <==> IsAccountField(record, f)
  {
    hide UrlFields, IsUrlField;
    UrlsHave(record.urls, f);
  }

  lemma {:induction false} UrlsHave(urls: seq<string>, f: Field)
    ensures f in UrlFields(urls) <==> exists i :: 0 <= i < |urls| && IsUrlField(i, urls[i], f)
    decreases |urls|
  {
    hide IsUrlField;
    if urls != [] {
      var last := |urls| - 1;
      UrlsHave(urls[..last], f);
      assert forall i :: 0 <= i < last ==> urls[..last][i] == urls[i];
      LastUrl(last, urls[last], f);
    }
  }

  lemma {:induction false} LastUrl(i: nat, url: string, f: Field)
    ensures f == UrlField(i, url) <==> IsUrlField(i, url, f)
  {
  }

  lemma {:induction false} ConvertedIs(sectionId: string, group: LegacySection, i: nat, legacy: LegacyField, f: Field)
    requires legacy.section == group && GroupId(group) == sectionId
    ensures f == ConvertedField(i, legacy) <==> IsGroupField(sectionId, i, legacy, f)
  {
    hide Decimal;
    if IsGroupField(sectionId, i, legacy, f) {
      assert f.fieldType == ConvertedType(legacy) by { TypeIs(sectionId, i, legacy, f); }
    }
  }

  lemma {:induction false} TypeIs(sectionId: string, i: nat, legacy: LegacyField, f: Field)
    requires IsGroupField(sectionId, i, legacy, f)
    ensures f.fieldType == ConvertedType(legacy)
  {
    hide Decimal;
  }

  lemma {:induction false} GroupHas(group: LegacySection, fields: seq<LegacyField>, f: Field)
    ensures f in GroupFields(group, fields) <==>
            exists i :: 0 <= i < |fields| && fields[i].section == group && IsGroupField(GroupId(group), i, fields[i], f)
    decreases |fields|
  {
    hide IsGroupField, ConvertedField;
    if fields != [] {
      var last := |fields| - 1;
      GroupHas(group, fields[..last], f);
      assert forall i :: 0 <= i < last ==> fields[..last][i] == fields[i];
      if fields[last].section == group {
        ConvertedIs(GroupId(group), group, last, fields[last], f);
      }
    }
  }

  lemma {:induction false} OtherGroup(sectionId: string, group: LegacySection, i: nat, legacy: LegacyField, f: Field)
    requires IsGroupField(sectionId, i, legacy, f)
    ensures GroupId(group) == sectionId <==> legacy.section == group
  {
    hide IsNamedField, IsCustomField;
  }

  lemma {:induction false} HasFieldIn(a: seq<Section>, b: seq<Section>, sectionId: string, f: Field)
    ensures HasField(a + b, sectionId, f) <==> HasField(a, sectionId, f) || HasField(b, sectionId, f)
  {
    assert forall i :: 0 <= i < |a| ==> (a + b)[i] == a[i];
    assert forall i :: 0 <= i < |b| ==> (a + b)[|a| + i] == b[i];
    if HasField(a + b, sectionId, f) {
      var i :| 0 <= i < |a + b| && (a + b)[i].id == sectionId && f in (a + b)[i].fields;
      assert i >= |a| ==> b[i - |a|] == (a + b)[i];
    }
  }

  lemma {:induction false} OptionalHas(id: string, caption: string, fields: seq<Field>, sectionId: string, f: Field)
    ensures HasField(OptionalSection(id, caption, fields), sectionId, f) <==> id == sectionId && f in fields
  {
    var sections := OptionalSection(id, caption, fields);
    if fields != [] {
      assert sections[0] == Section(id, caption, fields);
    }
  }

  predicate IsShown(record: LegacySecret, sectionId: string, f: Field) {
    || (sectionId == "account" && IsAccountField(record, f))
    || exists i :: 0 <= i < |record.customFields| && IsGroupField(sectionId, i, record.customFields[i], f)
  }

  lemma {:induction false} GroupShown(record: LegacySecret, group: LegacySection, sectionId: string, f: Field)
    ensures HasField(GroupSection(group, record.customFields), sectionId, f) <==>
            GroupId(group) == sectionId
            && exists i :: 0 <= i < |record.customFields| && IsGroupField(sectionId, i, record.customFields[i], f)
  {
    hide GroupId, GroupFields, OptionalSection, HasField, IsGroupField;
    var fields := record.customFields;
    OptionalHas(GroupId(group), GroupId(group), GroupFields(group, fields), sectionId, f);
    GroupHas(group, fields, f);
    if GroupId(group) == sectionId {
      forall i | 0 <= i < |fields| && IsGroupField(sectionId, i, fields[i], f) ensures fields[i].section == group {
        OtherGroup(sectionId, group, i, fields[i], f);
      }
    }
  }

  /** Everything outside the sections is taken over as it is. */
  predicate KeepsRest(record: LegacySecret, digest: string, item: PersonalSecret) {
    && item.id == "legacy-" + digest && item.kind == record.kind && item.title == record.title
    && item.notes == record.notes && item.folder == record.folder && item.tags == record.tags
    && item.favorite == record.favorite && item.archived == record.archived && item.source == None
  }

  /** The item shows exactly the fields of the record, each in its section, with its value, and
      concealed exactly where it is secret, and keeps the rest. */
  lemma {:induction false} ShownExactly(record: LegacySecret, digest: string, sectionId: string, f: Field)
    requires FromLegacy(record, digest).Success?
    ensures KeepsRest(record, digest, FromLegacy(record, digest).value)
    ensures Shows(FromLegacy(record, digest).value, sectionId, f) <==> IsShown(record, sectionId, f)
  {
    hide GroupSection, OptionalSection, AccountFields, HasField, IsGroupField, IsAccountField, Valid;
    var fields := record.customFields;
    var account := OptionalSection("account", "Account", AccountFields(record));
    var card, identity := GroupSection(CardFields, fields), GroupSection(IdentityFields, fields);
    var custom := GroupSection(CustomFields, fields);
    var item := FromLegacy(record, digest).value;
    assert item.sections == account + card + identity + custom;
    HasFieldIn(account + card + identity, custom, sectionId, f);
    HasFieldIn(account + card, identity, sectionId, f);
    HasFieldIn(account, card, sectionId, f);
    OptionalHas("account", "Account", AccountFields(record), sectionId, f);
    AccountHas(record, f);
    GroupShown(record, CardFields, sectionId, f);
    GroupShown(record, IdentityFields, sectionId, f);
    GroupShown(record, CustomFields, sectionId, f);
    forall i | 0 <= i < |fields| && IsGroupField(sectionId, i, fields[i], f)
      ensures sectionId == "card" || sectionId == "identity" || sectionId == "custom"
    {
      OtherGroup(sectionId, fields[i].section, i, fields[i], f);
    }
  }

  function Place(sectionId: string): nat {
    if sectionId == "account" then 0 else if sectionId == "card" then 1 else if sectionId == "identity" then 2 else 3
  }

  function SectionCaption(sectionId: string): string {
    if sectionId == "account" then "Account" else sectionId
  }

  predicate InOrder(sections: seq<Section>) {
    && (forall i, j :: 0 <= i < j < |sections| ==> Place(sections[i].id) < Place(sections[j].id))
    && (forall i :: 0 <= i < |sections| ==>
          sections[i].fields != [] && sections[i].caption == SectionCaption(sections[i].id))
  }

  lemma {:induction false} OneMore(sections: seq<Section>, id: string, fields: seq<Field>)
    requires InOrder(sections) && forall i :: 0 <= i < |sections| ==> Place(sections[i].id) < Place(id)
    ensures InOrder(sections + OptionalSection(id, SectionCaption(id), fields))
    ensures forall s :: s in sections + OptionalSection(id, SectionCaption(id), fields) ==> Place(s.id) <= Place(id)
  {
    hide Place, SectionCaption;
    if fields == [] {
      assert sections + [] == sections;
    }
  }

  /** No section is empty, and they come in the order account, card, identity, custom. */
  lemma {:induction false} SectionsInOrder(record: LegacySecret, digest: string)
    requires FromLegacy(record, digest).Success?
    ensures InOrder(FromLegacy(record, digest).value.sections)
  {
    hide AccountFields, GroupFields, Valid, InOrder, OptionalSection;
    var fields := record.customFields;
    var account := OptionalSection("account", "Account", AccountFields(record));
    var card := GroupSection(CardFields, fields);
    var identity := GroupSection(IdentityFields, fields);
    assert InOrder([]) by { NoneInOrder(); }
    OneMore([], "account", AccountFields(record));
    assert [] + account == account;
    OneMore(account, "card", GroupFields(CardFields, fields));
    OneMore(account + card, "identity", GroupFields(IdentityFields, fields));
    OneMore(account + card + identity, "custom", GroupFields(CustomFields, fields));
  }

  lemma {:induction false} NoneInOrder()
    ensures InOrder([])
  {
  }

  // ---- What the conversion back accepts ----

  /** The captions of the card and identity templates. */
  predicate IsStandard(kind: Kind, id: string, caption: string) {
    match kind
    case Card =>
      || (id == "cardholderName" && caption == "Cardholder") || (id == "number" && caption == "Card number")
      || (id == "expMonth" && caption == "Expiry month") || (id == "expYear" && caption == "Expiry year")
      || (id == "code" && caption == "Security code")
    case Identity =>
      || (id == "firstName" && caption == "First name") || (id == "lastName" && caption == "Last name")
      || (id == "email" && caption == "Email") || (id == "phone" && caption == "Phone")
    case _ => false
  }

  lemma {:induction false} StandardExactly(kind: Kind, id: string, caption: string)
    ensures (id, caption) in Standard(kind) <==> IsStandard(kind, id, caption)
  {
  }

  predicate IsNamed(kind: Kind, f: Field) {
    f.caption == f.id || IsStandard(kind, f.id, f.caption)
  }

  predicate SectionTakes(kind: Kind, sectionId: string, f: Field) {
    || sectionId == "custom"
    || (sectionId == "card" && kind == Card && IsNamed(kind, f))
    || (sectionId == "identity" && kind == Identity && IsNamed(kind, f))
  }

  predicate OnlyLinks(value: Json) {
    value.Object? ==> forall m :: m in value.members ==> m.key == "linkedId" || m.key == "value"
  }

  predicate TypeTransfers(sectionId: string, f: Field) {
    match f.fieldType
    case PlainText => f.value.String? && !f.concealed
    case Concealed => f.value.String?
    case CardNumber => f.value.String? && sectionId == "card"
    case Boolean => true
    case Reference => OnlyLinks(f.value)
    case Unknown(source) =>
      f.value.String? && "bitwarden-" <= source && ParseU64(source[10..]).Some?
    case _ => false
  }

  predicate AccountTransfers(kind: Kind, f: Field) {
    && f.value.String?
    && if f.id == "username" then f.caption == "Username" && f.fieldType.PlainText? && !f.concealed
       else if f.id == "password" then
         f.fieldType.Concealed? && (f.caption == "Password" || (kind == Generic && f.caption == "Secret value"))
       else if f.id == "totp" then f.caption == "One-time password" && f.fieldType.Totp?
       else "url-" <= f.id && f.caption == "Website" && f.fieldType.Url? && !f.concealed
  }

  predicate FieldTransfers(kind: Kind, sectionId: string, f: Field) {
    if sectionId == "account" then AccountTransfers(kind, f)
    else SectionTakes(kind, sectionId, f) && TypeTransfers(sectionId, f)
  }

  predicate IsNameOf(kind: Kind, caption: string) {
    || (kind == Login && caption == "Login") || (kind == SecureNote && caption == "Secure note")
    || (kind == Card && caption == "Card") || (kind == Identity && caption == "Identity")
    || (kind == Generic && caption == "Other")
  }

  predicate SectionTransfers(kind: Kind, s: Section) {
    && (s.caption == s.id || s.caption == "Account" || IsNameOf(kind, s.caption))
    && forall i :: 0 <= i < |s.fields| ==> FieldTransfers(kind, s.id, s.fields[i])
  }

  lemma {:induction false} NotUrls()
    ensures !("url-" <= "username") && !("url-" <= "password") && !("url-" <= "totp")
  {
    assert "url-"[1] == 'r' && "username"[1] == 's' && "url-"[0] == 'u' && "password"[0] == 'p' && "totp"[0] == 't';
  }

  lemma {:induction false} AccountTransfersExactly(kind: Kind, record: LegacySecret, f: Field)
    ensures AddAccountField(kind, record, f).Success? <==> AccountTransfers(kind, f)
  {
    NotUrls();
  }

  lemma {:induction false} LinkKeys(value: Json)
    ensures HasOnlyLinkKeys(value) <==> OnlyLinks(value)
  {
  }

  lemma {:induction false} RestoresExactly(group: LegacySection, f: Field)
    requires f.fieldType.Reference? ==> HasOnlyLinkKeys(f.value)
    ensures RestoreField(group, f).Success? <==> TypeTransfers(GroupId(group), f)
  {
    hide ParseU64, HasOnlyLinkKeys, OnlyLinks, LinkTarget, LinkValue;
    LinkKeys(f.value);
  }

  lemma {:induction false} GroupTransfersExactly(kind: Kind, sectionId: string, record: LegacySecret, f: Field)
    requires sectionId != "account"
    ensures AddGroupField(kind, sectionId, record, f).Success? <==> FieldTransfers(kind, sectionId, f)
  {
    hide RestoreField, HasOnlyLinkKeys, OnlyLinks, Standard, IsStandard;
    var group := LegacyGroup(kind, sectionId);
    LinkKeys(f.value);
    StandardExactly(kind, f.id, f.caption);
    if group.Some? {
      assert GroupId(group.value) == sectionId;
      if f.fieldType.Reference? ==> HasOnlyLinkKeys(f.value) {
        RestoresExactly(group.value, f);
      }
    }
  }

  lemma {:induction false} FieldsTransfer(kind: Kind, sectionId: string, record: LegacySecret, fields: seq<Field>)
    ensures AddFields(kind, sectionId, record, fields).Success?
            <==> forall i :: 0 <= i < |fields| ==> FieldTransfers(kind, sectionId, fields[i])
    decreases |fields|
  {
    hide AddAccountField, AddGroupField, FieldTransfers;
    if fields != [] {
      var last := |fields| - 1;
      var before := AddFields(kind, sectionId, record, fields[..last]);
      FieldsTransfer(kind, sectionId, record, fields[..last]);
      assert forall i :: 0 <= i < last ==> fields[..last][i] == fields[i];
      if before.Success? {
        FieldTransfersExactly(kind, sectionId, before.value, fields[last]);
      }
    }
  }

  lemma {:induction false} FieldTransfersExactly(kind: Kind, sectionId: string, record: LegacySecret, f: Field)
    ensures AddField(kind, sectionId, record, f).Success? <==> FieldTransfers(kind, sectionId, f)
  {
    hide AddAccountField, AddGroupField, SectionTakes, TypeTransfers, AccountTransfers;
    if sectionId == "account" {
      AccountTransfersExactly(kind, record, f);
    } else {
      GroupTransfersExactly(kind, sectionId, record, f);
    }
  }

  lemma {:induction false} SectionTransfersExactly(kind: Kind, record: LegacySecret, s: Section)
    requires IsTransferable(kind)
    ensures AddSection(kind, record, s).Success? <==> SectionTransfers(kind, s)
  {
    hide AddFields, FieldTransfers;
    FieldsTransfer(kind, s.id, record, s.fields);
  }

  lemma {:induction false} SectionsTransfer(kind: Kind, record: LegacySecret, sections: seq<Section>)
    requires IsTransferable(kind)
    ensures AddSections(kind, record, sections).Success?
            <==> forall i :: 0 <= i < |sections| ==> SectionTransfers(kind, sections[i])
    decreases |sections|
  {
    hide AddSection, SectionTransfers;
    if sections != [] {
      var last := |sections| - 1;
      var before := AddSections(kind, record, sections[..last]);
      SectionsTransfer(kind, record, sections[..last]);
      assert forall i :: 0 <= i < last ==> sections[..last][i] == sections[i];
      if before.Success? {
        SectionTransfersExactly(kind, before.value, sections[last]);
      }
    }
  }

  /** Which items the conversion back accepts, in terms of the item alone. */
  lemma {:induction false} TransfersExactly(item: PersonalSecret)
    ensures ToLegacy(item).Success? <==>
            && Valid(item) && item.source.None? && item.kind in {Login, Generic, SecureNote, Card, Identity}
            && forall i :: 0 <= i < |item.sections| ==> SectionTransfers(item.kind, item.sections[i])
  {
    hide AddSections, SectionTransfers, Valid;
    if IsTransferable(item.kind) {
      SectionsTransfer(item.kind, Outline(item), item.sections);
    }
  }

  // ---- What the conversion back keeps ----

  function LinkId(members: seq<Member>): Option<u64> {
    match Find(members, "linkedId")
    case Some(Number(Unsigned(id))) => Some(id)
    case _ => None
  }

  function LinkText(members: seq<Member>): string {
    match Find(members, "value")
    case Some(String(text)) => text
    case _ => ""
  }

  /** A text is kept, a truth value is spelled out, and of an object its two members are kept.
      Any other value is dropped. */
  predicate HasText(f: Field, c: LegacyField) {
    match f.value
    case String(text) => c.value == text && c.linkedId == None
    case Bool(b) =>
      c.linkedId == None && c.value == if !f.fieldType.Boolean? then "" else if b then "true" else "false"
    case Object(members) => c.linkedId == LinkId(members) && c.value == LinkText(members)
    case _ => c.value == "" && c.linkedId == None
  }

  predicate HasType(f: Field, c: LegacyField) {
    match f.fieldType
    case PlainText => c.fieldType == 0
    case Concealed => c.fieldType == 1
    case Boolean => c.fieldType == 2
    case Reference => c.fieldType == 3
    case Unknown(source) => "bitwarden-" <= source && ParseU64(source[10..]) == Some(c.fieldType)
    case _ => true
  }

  /** The legacy field that stands for a field outside the account. */
  predicate StandsFor(sectionId: string, f: Field, c: LegacyField) {
    && HasText(f, c)
    && if sectionId == "custom" then c.section == CustomFields && c.name == f.caption && HasType(f, c)
       else
         && c.section == (if sectionId == "card" then CardFields else IdentityFields)
         && c.name == f.id && c.fieldType == 0
  }

  /** The three single fields of the account. */
  predicate IsHeld(r: LegacySecret, f: Field) {
    f.value.String? ==>
      && (f.id == "username" ==> r.username == NonEmpty(f.value.text))
      && (f.id == "password" ==> r.password == NonEmpty(f.value.text))
      && (f.id == "totp" ==> r.totp == NonEmpty(f.value.text))
  }

  predicate HasId(fields: seq<Field>, id: string) {
    exists i :: 0 <= i < |fields| && fields[i].id == id
  }

  predicate InAccount(sections: seq<Section>, id: string) {
    exists i :: 0 <= i < |sections| && sections[i].id == "account" && HasId(sections[i].fields, id)
  }

  predicate IsUrl(f: Field) {
    f.value.String? && f.value.text != "" && f.id !in {"username", "password", "totp"}
  }

  /** The non-empty addresses among fields, in order. */
  function UrlTexts(fields: seq<Field>): seq<string> {
    if fields == [] then []
    else
      var f := fields[|fields| - 1];
      UrlTexts(fields[..|fields| - 1]) + if IsUrl(f) then [f.value.text] else []
  }

  function AllUrls(sections: seq<Section>): seq<string> {
    if sections == [] then []
    else
      var s := sections[|sections| - 1];
      AllUrls(sections[..|sections| - 1]) + if s.id == "account" then UrlTexts(s.fields) else []
  }

  /** How many fields are outside the account. */
  function Others(sections: seq<Section>): nat {
    if sections == [] then 0
    else
      var s := sections[|sections| - 1];
      Others(sections[..|sections| - 1]) + if s.id == "account" then 0 else |s.fields|
  }

  lemma {:induction false} OthersMonotone(sections: seq<Section>, i: nat)
    requires i < |sections| && sections[i].id != "account"
    ensures Others(sections[..i]) + |sections[i].fields| <= Others(sections)
    decreases |sections|
  {
    var last := |sections| - 1;
    if i < last {
      assert sections[..last][..i] == sections[..i];
      OthersMonotone(sections[..last], i);
    }
  }

  lemma {:induction false} RestoredStands(group: LegacySection, f: Field, name: string)
    requires RestoreField(group, f).Success? && ValueFits(f)
    requires name == if group == CustomFields then f.caption else f.id
    ensures var r := RestoreField(group, f).value;
            StandsFor(GroupId(group), f,
                      LegacyField(name, r.value, group, if group == CustomFields then r.fieldType else 0, r.linkedId))
  {
    hide ParseU64;
  }

  lemma {:induction false} OneUrl(f: Field)
    ensures UrlTexts([f]) == if IsUrl(f) then [f.value.text] else []
  {
    assert [f][..0] == [];
    assert UrlTexts([f]) == UrlTexts([]) + if IsUrl(f) then [f.value.text] else [];
  }

  // ---- One field ----

  /** What an account field changes: its own text, or the list of addresses. */
  predicate AccountStep(before: LegacySecret, after: LegacySecret, f: Field) {
    && after == before.(username := after.username, password := after.password, totp := after.totp,
                        urls := after.urls)
    && after.urls == before.urls + UrlTexts([f]) && IsHeld(after, f)
    && (f.id != "username" ==> after.username == before.username)
    && (f.id != "password" ==> after.password == before.password)
    && (f.id != "totp" ==> after.totp == before.totp)
  }

  lemma {:induction false} AccountAdds(kind: Kind, record: LegacySecret, f: Field)
    requires AddAccountField(kind, record, f).Success?
    ensures f.value.String? && AccountStep(record, AddAccountField(kind, record, f).value, f)
  {
    hide ExpectedCaption;
    hide UrlTexts;
    NotUrls();
    OneUrl(f);
    assert record.urls + [] == record.urls;
  }

  /** What any other field changes: one legacy field more. */
  predicate GroupStep(before: LegacySecret, after: LegacySecret, sectionId: string, f: Field) {
    && |after.customFields| == |before.customFields| + 1
    && after == before.(customFields := after.customFields)
    && before.customFields <= after.customFields
    && StandsFor(sectionId, f, after.customFields[|before.customFields|])
  }

  lemma {:induction false} GroupAdds(kind: Kind, sectionId: string, record: LegacySecret, f: Field)
    requires AddGroupField(kind, sectionId, record, f).Success? && ValueFits(f)
    ensures GroupStep(record, AddGroupField(kind, sectionId, record, f).value, sectionId, f)
  {
    hide RestoreField, StandsFor, HasOnlyLinkKeys, Standard;
    var group := LegacyGroup(kind, sectionId).value;
    assert GroupId(group) == sectionId;
    RestoredStands(group, f, if group == CustomFields then f.caption else f.id);
  }

  // ---- One section ----

  predicate AccountSteps(before: LegacySecret, after: LegacySecret, fields: seq<Field>) {
    && after == before.(username := after.username, password := after.password, totp := after.totp,
                        urls := before.urls + UrlTexts(fields))
    && (!HasId(fields, "username") ==> after.username == before.username)
    && (!HasId(fields, "password") ==> after.password == before.password)
    && (!HasId(fields, "totp") ==> after.totp == before.totp)
    && (forall i :: 0 <= i < |fields| ==> IsHeld(after, fields[i]))
  }

  lemma {:induction false} StepKeepsHeld(before: LegacySecret, after: LegacySecret, f: Field, g: Field)
    requires AccountStep(before, after, f) && IsHeld(before, g) && f.id != g.id
    ensures IsHeld(after, g)
  {
    hide UrlTexts;
  }

  lemma {:induction false} HasIdInit(fields: seq<Field>, id: string)
    requires fields != []
    ensures HasId(fields, id) <==> HasId(fields[..|fields| - 1], id) || fields[|fields| - 1].id == id
  {
    assert forall i :: 0 <= i < |fields| - 1 ==> fields[..|fields| - 1][i] == fields[i];
  }

  lemma {:induction false} AccountStepsSnoc(start: LegacySecret, before: LegacySecret, after: LegacySecret,
                                            fields: seq<Field>)
    requires fields != [] && DistinctFieldIds(fields)
    requires AccountSteps(start, before, fields[..|fields| - 1])
    requires AccountStep(before, after, fields[|fields| - 1])
    ensures AccountSteps(start, after, fields)
  {
    hide IsHeld;
    var last := |fields| - 1;
    HasIdInit(fields, "username");
    HasIdInit(fields, "password");
    HasIdInit(fields, "totp");
    assert UrlTexts(fields) == UrlTexts(fields[..last]) + UrlTexts([fields[last]]) by { OneUrl(fields[last]); }
    forall i | 0 <= i < |fields| ensures IsHeld(after, fields[i]) {
      if i < last {
        assert fields[..last][i] == fields[i];
        StepKeepsHeld(before, after, fields[last], fields[i]);
      }
    }
  }

  lemma {:induction false} NoAccountSteps(record: LegacySecret)
    ensures AccountSteps(record, record, [])
  {
    assert record.urls + [] == record.urls;
  }

  lemma {:induction false} AccountFieldsAdd(kind: Kind, record: LegacySecret, fields: seq<Field>)
    requires AddFields(kind, "account", record, fields).Success? && DistinctFieldIds(fields)
    ensures AccountSteps(record, AddFields(kind, "account", record, fields).value, fields)
    decreases |fields|
  {
    hide AddAccountField, AccountSteps, AccountStep;
    if fields == [] {
      NoAccountSteps(record);
    } else {
      var last := |fields| - 1;
      var before := AddFields(kind, "account", record, fields[..last]).value;
      AccountFieldsAdd(kind, record, fields[..last]);
      AccountAdds(kind, before, fields[last]);
      AccountStepsSnoc(record, before, AddAccountField(kind, before, fields[last]).value, fields);
    }
  }

  predicate GroupSteps(before: LegacySecret, after: LegacySecret, sectionId: string, fields: seq<Field>) {
    && |after.customFields| == |before.customFields| + |fields|
    && after == before.(customFields := after.customFields)
    && before.customFields <= after.customFields
    && forall k :: 0 <= k < |fields| ==> StandsFor(sectionId, fields[k], after.customFields[|before.customFields| + k])
  }

  lemma {:induction false} GroupStepsSnoc(start: LegacySecret, before: LegacySecret, after: LegacySecret,
                                          sectionId: string, fields: seq<Field>)
    requires fields != [] && GroupSteps(start, before, sectionId, fields[..|fields| - 1])
    requires GroupStep(before, after, sectionId, fields[|fields| - 1])
    ensures GroupSteps(start, after, sectionId, fields)
  {
    hide StandsFor;
    var last, n := |fields| - 1, |start.customFields|;
    assert forall k :: 0 <= k < last ==> fields[..last][k] == fields[k];
    assert forall j :: 0 <= j < |before.customFields| ==> after.customFields[j] == before.customFields[j];
  }

  lemma {:induction false} GroupFieldsAdd(kind: Kind, sectionId: string, record: LegacySecret, fields: seq<Field>)
    requires sectionId != "account" && AddFields(kind, sectionId, record, fields).Success?
    requires forall i :: 0 <= i < |fields| ==> ValueFits(fields[i])
    ensures GroupSteps(record, AddFields(kind, sectionId, record, fields).value, sectionId, fields)
    decreases |fields|
  {
    hide AddGroupField, GroupStep, StandsFor, ValueFits;
    if fields != [] {
      hide GroupSteps;
      var last := |fields| - 1;
      var before := AddFields(kind, sectionId, record, fields[..last]).value;
      GroupFieldsAdd(kind, sectionId, record, fields[..last]);
      GroupAdds(kind, sectionId, before, fields[last]);
      GroupStepsSnoc(record, before, AddGroupField(kind, sectionId, before, fields[last]).value, sectionId, fields);
    }
  }

  // ---- The whole item ----

  /** The record holds the account's texts and addresses, and one legacy field for each other
      field, in order and nothing else. */
  predicate Holds(r: LegacySecret, start: LegacySecret, sections: seq<Section>) {
    && r == start.(username := r.username, password := r.password, totp := r.totp,
                   urls := AllUrls(sections), customFields := r.customFields)
    && |r.customFields| == Others(sections)
    && (!InAccount(sections, "username") ==> r.username == None)
    && (!InAccount(sections, "password") ==> r.password == None)
    && (!InAccount(sections, "totp") ==> r.totp == None)
    && (forall i :: 0 <= i < |sections| ==> SectionHeld(r, sections, i))
  }

  predicate SectionHeld(r: LegacySecret, sections: seq<Section>, i: nat)
    requires i < |sections|
  {
    if sections[i].id == "account" then
      forall k :: 0 <= k < |sections[i].fields| ==> IsHeld(r, sections[i].fields[k])
    else
      var n := Others(sections[..i]);
      && n + |sections[i].fields| <= |r.customFields|
      && forall k :: 0 <= k < |sections[i].fields| ==>
           StandsFor(sections[i].id, sections[i].fields[k], r.customFields[n + k])
  }

  lemma {:induction false} InAccountInit(sections: seq<Section>, id: string)
    requires sections != []
    ensures var s := sections[|sections| - 1];
            InAccount(sections, id) <==>
            InAccount(sections[..|sections| - 1], id) || (s.id == "account" && HasId(s.fields, id))
  {
    hide HasId;
    assert forall i :: 0 <= i < |sections| - 1 ==> sections[..|sections| - 1][i] == sections[i];
  }

  /** A later section of the same kind of step leaves an earlier section held. */
  lemma {:induction false} StillHeld(before: LegacySecret, after: LegacySecret, sections: seq<Section>, i: nat)
    requires i < |sections| - 1 && SectionHeld(before, sections[..|sections| - 1], i)
    requires before.customFields <= after.customFields
    requires sections[i].id == "account" ==>
               after.username == before.username && after.password == before.password && after.totp == before.totp
    ensures SectionHeld(after, sections, i)
  {
    hide StandsFor, Others;
    assert sections[..|sections| - 1][i] == sections[i];
    assert sections[..|sections| - 1][..i] == sections[..i];
    assert forall j :: 0 <= j < |before.customFields| ==> after.customFields[j] == before.customFields[j];
  }

  lemma {:induction false} AccountSectionAdds(start: LegacySecret, before: LegacySecret, after: LegacySecret,
                                              sections: seq<Section>)
    requires sections != [] && sections[|sections| - 1].id == "account" && DistinctSectionIds(sections)
    requires Holds(before, start, sections[..|sections| - 1])
    requires AccountSteps(before, after, sections[|sections| - 1].fields)
    ensures Holds(after, start, sections)
  {
    hide IsHeld, HasId, InAccount, SectionHeld, UrlTexts;
    var last := |sections| - 1;
    InAccountInit(sections, "username");
    InAccountInit(sections, "password");
    InAccountInit(sections, "totp");
    forall i | 0 <= i < |sections| ensures SectionHeld(after, sections, i) {
      if i < last {
        StillHeld(before, after, sections, i);
      } else {
        LastAccountHeld(before, after, sections);
      }
    }
  }

  lemma {:induction false} LastAccountHeld(before: LegacySecret, after: LegacySecret, sections: seq<Section>)
    requires sections != [] && sections[|sections| - 1].id == "account"
    requires AccountSteps(before, after, sections[|sections| - 1].fields)
    ensures SectionHeld(after, sections, |sections| - 1)
  {
    hide IsHeld, HasId, UrlTexts;
  }

  lemma {:induction false} GroupSectionAdds(start: LegacySecret, before: LegacySecret, after: LegacySecret,
                                            sections: seq<Section>)
    requires sections != [] && sections[|sections| - 1].id != "account"
    requires Holds(before, start, sections[..|sections| - 1])
    requires GroupSteps(before, after, sections[|sections| - 1].id, sections[|sections| - 1].fields)
    ensures Holds(after, start, sections)
  {
    hide IsHeld, HasId, InAccount, SectionHeld, UrlTexts, StandsFor;
    var last := |sections| - 1;
    InAccountInit(sections, "username");
    InAccountInit(sections, "password");
    InAccountInit(sections, "totp");
    assert AllUrls(sections[..last]) + [] == AllUrls(sections[..last]);
    forall i | 0 <= i < |sections| ensures SectionHeld(after, sections, i) {
      if i < last {
        StillHeld(before, after, sections, i);
      } else {
        LastGroupHeld(before, after, sections);
      }
    }
  }

  lemma {:induction false} LastGroupHeld(before: LegacySecret, after: LegacySecret, sections: seq<Section>)
    requires sections != [] && sections[|sections| - 1].id != "account"
    requires |before.customFields| == Others(sections[..|sections| - 1])
    requires GroupSteps(before, after, sections[|sections| - 1].id, sections[|sections| - 1].fields)
    ensures SectionHeld(after, sections, |sections| - 1)
  {
    hide StandsFor, Others;
  }

  lemma {:induction false} HoldsNothing(start: LegacySecret)
    requires start.username == None && start.password == None && start.totp == None
    requires start.urls == [] && start.customFields == []
    ensures Holds(start, start, [])
  {
  }

  lemma {:induction false} SectionsAdd(kind: Kind, start: LegacySecret, sections: seq<Section>)
    requires start.username == None && start.password == None && start.totp == None
    requires start.urls == [] && start.customFields == []
    requires AddSections(kind, start, sections).Success? && DistinctSectionIds(sections)
    requires forall i :: 0 <= i < |sections| ==> SectionValid(sections[i])
    ensures Holds(AddSections(kind, start, sections).value, start, sections)
    decreases |sections|
  {
    hide AddFields, Holds, AccountSteps, GroupSteps, KindLabel;
    if sections == [] {
      HoldsNothing(start);
    } else {
      var last := |sections| - 1;
      var s, before := sections[last], AddSections(kind, start, sections[..last]).value;
      SectionsAdd(kind, start, sections[..last]);
      if s.id == "account" {
        AccountFieldsAdd(kind, before, s.fields);
        AccountSectionAdds(start, before, AddFields(kind, s.id, before, s.fields).value, sections);
      } else {
        GroupFieldsAdd(kind, s.id, before, s.fields);
        GroupSectionAdds(start, before, AddFields(kind, s.id, before, s.fields).value, sections);
      }
    }
  }

  /** What an accepted item becomes: nothing of it is left out and nothing is added. */
  lemma {:induction false} RecordHolds(item: PersonalSecret)
    requires ToLegacy(item).Success?
    ensures var r := ToLegacy(item).value;
            && r.kind == item.kind && r.title == item.title && r.notes == item.notes && r.folder == item.folder
            && r.tags == item.tags && r.favorite == item.favorite && r.archived == item.archived
            && Holds(r, r, item.sections)
  {
    hide AddSections, AllUrls, Others, InAccount, SectionHeld, SectionValid;
    SectionsAdd(item.kind, Outline(item), item.sections);
  }

  // ---- There and back from an item ----

  predicate IsSecretName(name: string) {
    name == "code" || name == "ssn" || name == "passportNumber" || name == "licenseNumber"
  }

  /** A link as the conversion writes it. */
  predicate IsPlainLink(value: Json) {
    && value.Object? && |value.members| == 2
    && value.members[0].key == "linkedId" && value.members[1].key == "value"
    && value.members[0].value.Number? && value.members[0].value.number.Unsigned? && value.members[1].value.String?
  }

  /** The accepted fields whose type, concealment and value come back from the legacy record. A card or
      identity field comes back by its name alone. */
  predicate Survives(sectionId: string, f: Field) {
    match f.fieldType
    case PlainText => sectionId == "custom" || !(IsSecretName(f.id) || (sectionId == "card" && f.id == "number"))
    case Concealed => sectionId == "custom" || IsSecretName(f.id)
    case CardNumber => f.id == "number"
    case Boolean => sectionId == "custom" && !f.concealed && f.value.String?
    case Reference => sectionId == "custom" && !f.concealed && (f.value.String? || IsPlainLink(f.value))
    case Unknown(source) => sectionId == "custom" && IsPlainNumber(source)
    case _ => false
  }

  /** The name of an unknown type as the conversion writes it. */
  predicate IsPlainNumber(source: string) {
    && "bitwarden-" <= source && ParseU64(source[10..]).Some?
    && ParseU64(source[10..]).value > 3 && source[10..] == Decimal(ParseU64(source[10..]).value)
  }

  predicate SameContent(f: Field, g: Field) {
    f.fieldType == g.fieldType && f.concealed == g.concealed && f.value == g.value
  }

  lemma {:induction false} PrefixSplit(source: string, digits: string)
    requires "bitwarden-" <= source
    ensures source == "bitwarden-" + digits <==> source[10..] == digits
  {
    assert source == source[..10] + source[10..];
    assert ("bitwarden-" + digits)[10..] == digits;
  }

  lemma {:induction false} NamedSurvives(kind: Kind, card: bool, f: Field, c: LegacyField, g: Field)
    requires FieldValid(f) && FieldTransfers(kind, if card then "card" else "identity", f)
    requires StandsFor(if card then "card" else "identity", f, c) && IsNamedField(card, c, g)
    ensures SameContent(f, g) <==> Survives(if card then "card" else "identity", f)
  {
    hide ParseU64, Decimal, IsStandard, OnlyLinks, IsPlainNumber;
  }

  lemma {:induction false} LinkSurvives(f: Field, c: LegacyField, g: Field)
    requires f.fieldType.Reference? && HasText(f, c) && HoldsValue(g, c)
    ensures f.value == g.value <==> f.value.String? || IsPlainLink(f.value)
  {
    if f.value.Object? {
      var members := f.value.members;
      if IsPlainLink(f.value) {
        assert members == [members[0], members[1]];
        assert members[1..] == [members[1]];
        assert Find(members, "value") == Find(members[1..], "value");
      }
    }
  }

  lemma {:induction false} CustomSurvives(kind: Kind, i: nat, f: Field, c: LegacyField, g: Field)
    requires FieldValid(f) && FieldTransfers(kind, "custom", f)
    requires StandsFor("custom", f, c) && IsCustomField(i, c, g)
    ensures SameContent(f, g) <==> Survives("custom", f)
  {
    hide ParseU64, Decimal, OnlyLinks, IsPlainLink;
    if f.fieldType.Reference? {
      hide HasText, HoldsValue;
      LinkSurvives(f, c, g);
    } else if f.fieldType.Unknown? {
      PrefixSplit(f.fieldType.source, Decimal(c.fieldType));
    }
  }

  /** An accepted field comes back with its type, concealment and value exactly when it survives. */
  lemma {:induction false} SurvivesExactly(kind: Kind, sectionId: string, i: nat, f: Field, c: LegacyField, g: Field)
    requires FieldValid(f) && sectionId != "account" && FieldTransfers(kind, sectionId, f)
    requires StandsFor(sectionId, f, c) && IsGroupField(sectionId, i, c, g)
    ensures SameContent(f, g) <==> Survives(sectionId, f)
  {
    hide StandsFor, FieldTransfers, FieldValid, IsNamedField, IsCustomField, Survives;
    if sectionId == "custom" {
      CustomSurvives(kind, i, f, c, g);
    } else {
      NamedSurvives(kind, sectionId == "card", f, c, g);
    }
  }

  /** A card with one concealed field of a name of its own. */
  function CardWithPin(text: string): PersonalSecret {
    PersonalSecret("card-1", Card, "Card", [Section("card", "card", [NewField("pin", "pin", Concealed, String(text))])],
                   None, None, [], false, false, None)
  }

  lemma {:induction false} PinAccepted(text: string)
    ensures ToLegacy(CardWithPin(text)).Success?
    ensures ToLegacy(CardWithPin(text)).value.customFields == [LegacyField("pin", text, CardFields, 0, None)]
  {
    hide AddSections, AddFields;
    var item := CardWithPin(text);
    TransfersExactly(item);
    RecordHolds(item);
    var r := ToLegacy(item).value;
    assert SectionHeld(r, item.sections, 0);
    assert item.sections[..0] == [];
    var f := item.sections[0].fields[0];
    assert f in item.sections[0].fields && StandsFor("card", f, r.customFields[0]);
  }

  /** Such a card is accepted, and its field comes back in plain sight. */
  lemma {:induction false} ConcealmentLost(text: string, digest: string)
    ensures ToLegacy(CardWithPin(text)).Success?
    ensures var back := FromLegacy(ToLegacy(CardWithPin(text)).value, digest);
            back.Success? && Shows(back.value, "card", Field("pin", "pin", PlainText, false, String(text)))
  {
    hide ToLegacy, FromLegacy, Shows;
    PinAccepted(text);
    var r := ToLegacy(CardWithPin(text)).value;
    var f := Field("pin", "pin", PlainText, false, String(text));
    AcceptedExactly(r, digest);
    ShownExactly(r, digest, "card", f);
    assert IsGroupField("card", 0, r.customFields[0], f);
  }
}
