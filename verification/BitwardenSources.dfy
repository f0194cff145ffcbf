/** What stands behind the record of a Bitwarden item: no part of it is invented. */
module BitwardenSources {
  import opened Wrappers
  import opened Text
  import opened JsonValues
  import opened Items
  import opened SourceRetention
  import opened BitwardenItem

  /** A value is the text at a key, or nothing. */
  predicate IsTextAt(v: Json, key: string, value: Option<string>) {
    value.Some? ==> value.value != "" && ValueAt(v, key) == String(value.value)
  }

  /** A custom field is what its entry says; an entry without a number is plain text, one without a
      link number has no link. */
  predicate IsEntry(entry: Json, f: LegacyField) {
    && f.section == CustomFields
    && (f.name != "" ==> ValueAt(entry, "name") == String(f.name))
    && (f.value != "" ==> ValueAt(entry, "value") == String(f.value))
    && (f.fieldType != 0 ==> ValueAt(entry, "type") == Number(Unsigned(f.fieldType)))
    && (f.linkedId.Some? ==> ValueAt(entry, "linkedId") == Number(Unsigned(f.linkedId.value)))
  }

  /** A card or identity field is a text of the object of that name. */
  predicate IsObjectField(v: Json, f: LegacyField) {
    var x := ValueAt(v, if f.section == CardFields then "card" else "identity");
    && f.section != CustomFields && x.Object? && Member(f.name, String(f.value)) in x.members
    && f.value != "" && f.fieldType == 0 && f.linkedId.None?
  }

  predicate IsAddress(items: seq<Json>, u: string) {
    exists i :: 0 <= i < |items| && ValueAt(items[i], "uri") == String(u)
  }

  /** An item without a number is a login, and one of an unknown number a generic item. */
  predicate IsKind(number: Option<u64>, kind: Kind) {
    match number
    case None => kind == Login
    case Some(n) => if 1 <= n <= 4 then IsTypeOf(n, kind) else kind == Generic
  }

  predicate IsRead(v: Json, folders: map<string, string>, s: LegacySecret) {
    var login, fields := ValueAt(v, "login"), ItemsAt(v, "fields");
    && ValueAt(v, "name") == String(s.title)
    && IsKind(AsU64(ValueAt(v, "type")), s.kind)
    && IsTextAt(v, "notes", s.notes) && s.favorite == (ValueAt(v, "favorite") == Bool(true))
    && (s.folder.Some? ==> ValueAt(v, "folderId").String? && ValueAt(v, "folderId").text in folders
                           && folders[ValueAt(v, "folderId").text] == s.folder.value)
    && IsTextAt(login, "username", s.username) && IsTextAt(login, "password", s.password)
    && IsTextAt(login, "totp", s.totp)
    && (forall u :: u in s.urls ==> u != "" && IsAddress(ItemsAt(login, "uris"), u))
    && |fields| <= |s.customFields|
    && (forall i :: 0 <= i < |fields| ==> IsEntry(fields[i], s.customFields[i]))
    && (forall i :: |fields| <= i < |s.customFields| ==> IsObjectField(v, s.customFields[i]))
    && s.tags == [] && !s.archived
  }

  lemma {:induction false} AddressesRead(items: seq<Json>, u: string)
    requires u in Addresses(items)
    ensures u != "" && IsAddress(items, u)
    decreases |items|
  {
    hide ValueAt;
    var last := |items| - 1;
    if u in Addresses(items[..last]) {
      AddressesRead(items[..last], u);
      var i :| 0 <= i < last && ValueAt(items[..last][i], "uri") == String(u);
      assert items[i] == items[..last][i];
    }
  }

  lemma {:induction false} EntryRead(entry: Json)
    ensures IsEntry(entry, CustomField(entry))
  {
    hide ValueAt;
  }

  lemma {:induction false} ObjectFieldsRead(group: LegacySection, members: seq<Member>, i: nat)
    requires i < |ObjectFields(group, members)|
    ensures var f := ObjectFields(group, members)[i];
            && f.section == group && Member(f.name, String(f.value)) in members
            && f.value != "" && f.fieldType == 0 && f.linkedId.None?
    decreases |members|
  {
    var last := |members| - 1;
    if i < |ObjectFields(group, members[..last])| {
      ObjectFieldsRead(group, members[..last], i);
    }
  }

  lemma {:induction false} GroupFieldsRead(v: Json, kind: Kind, i: nat)
    requires i < |GroupOf(v, kind)|
    ensures IsObjectField(v, GroupOf(v, kind)[i])
  {
    hide ValueAt, ObjectFields;
    if kind == Card {
      ObjectFieldsRead(CardFields, ValueAt(v, "card").members, i);
    } else {
      ObjectFieldsRead(IdentityFields, ValueAt(v, "identity").members, i);
    }
  }

  /** Every part of the record is the text or the number the original has in its place. */
  lemma {:induction false} NothingInvented(v: Json, folders: map<string, string>)
    requires ReadItem(v, folders).Success?
    ensures IsRead(v, folders, ReadItem(v, folders).value)
  {
    hide ValueAt, Trim, Addresses, CustomFieldsOf, GroupOf, IsEntry, IsObjectField;
    var s, fields := ReadItem(v, folders).value, ItemsAt(v, "fields");
    var login := ValueAt(v, "login");
    forall u | u in s.urls ensures u != "" && IsAddress(ItemsAt(login, "uris"), u) {
      AddressesRead(ItemsAt(login, "uris"), u);
    }
    FieldsRead(v);
  }

  lemma {:induction false} FieldsRead(v: Json)
    ensures var all, fields := FieldsOf(v), ItemsAt(v, "fields");
            && |fields| <= |all|
            && (forall i :: 0 <= i < |fields| ==> IsEntry(fields[i], all[i]))
            && (forall i :: |fields| <= i < |all| ==> IsObjectField(v, all[i]))
  {
    hide ValueAt, GroupOf, IsEntry, IsObjectField, CustomField;
    var all, fields, group := FieldsOf(v), ItemsAt(v, "fields"), GroupOf(v, KindOf(KindNumber(v)));
    forall i | 0 <= i < |fields| ensures IsEntry(fields[i], all[i]) {
      EntryRead(fields[i]);
    }
    forall i | |fields| <= i < |all| ensures IsObjectField(v, all[i]) {
      GroupFieldsRead(v, KindOf(KindNumber(v)), i - |fields|);
      assert all[i] == group[i - |fields|];
    }
  }

  /** An item is read exactly when it has a name that is not all white space. */
  lemma {:induction false} NamedExactly(v: Json, folders: map<string, string>)
    ensures ReadItem(v, folders).Success?
            <==> ValueAt(v, "name").String? && !AllWhitespace(ValueAt(v, "name").text)
  {
    hide ValueAt, Trim, AllWhitespace, FieldsOf;
    if ValueAt(v, "name").String? {
      BlankExactly(ValueAt(v, "name").text);
    }
  }
}
