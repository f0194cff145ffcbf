/** Which legacy records become items, and what comes back from those items. */
module LegacyRoundTrip {
  import opened Wrappers
  import opened JsonValues
  import opened Text
  import opened Items
  import opened Legacy

  // ---- Folds over concatenated lists ----

  lemma {:induction false} AddFieldsConcat(kind: Kind, id: string, record: LegacySecret, a: seq<Field>, b: seq<Field>)
    ensures AddFields(kind, id, record, a + b)
            == var r := AddFields(kind, id, record, a);
               if r.Failure? then r else AddFields(kind, id, r.value, b)
    decreases |b|
  {
    hide AddField;
    if b == [] {
      assert a + b == a;
    } else {
      var init := b[..|b| - 1];
      assert (a + b)[..|a + b| - 1] == a + init;
      AddFieldsConcat(kind, id, record, a, init);
    }
  }

  lemma {:induction false} AddSectionsConcat(kind: Kind, record: LegacySecret, a: seq<Section>, b: seq<Section>)
    ensures AddSections(kind, record, a + b)
            == var r := AddSections(kind, record, a);
               if r.Failure? then r else AddSections(kind, r.value, b)
    decreases |b|
  {
    hide AddSection;
    if b == [] {
      assert a + b == a;
    } else {
      var init := b[..|b| - 1];
      assert (a + b)[..|a + b| - 1] == a + init;
      AddSectionsConcat(kind, record, a, init);
    }
  }

  lemma {:induction false} AddOneField(kind: Kind, id: string, record: LegacySecret, f: Field)
    ensures AddFields(kind, id, record, [f]) == AddField(kind, id, record, f)
  {
    hide AddField;
    assert [f][..0] == [];
  }

  lemma {:induction false} AddOptionalSection(kind: Kind, record: LegacySecret, id: string, caption: string,
      fields: seq<Field>)
    requires caption in {id, "Account"}
    ensures AddSections(kind, record, OptionalSection(id, caption, fields)) == AddFields(kind, id, record, fields)
  {
    hide AddFields;
    var sections := OptionalSection(id, caption, fields);
    if fields == [] {
      assert AddFields(kind, id, record, []) == Success(record) by { AddNoFields(kind, id, record); }
    } else {
      assert sections[..0] == [];
      assert AddSections(kind, record, []) == Success(record);
    }
  }

  lemma {:induction false} AddNoFields(kind: Kind, id: string, record: LegacySecret)
    ensures AddFields(kind, id, record, []) == Success(record)
  {
  }

  // ---- The account section ----

  function NonEmptyTexts(texts: seq<string>): seq<string> {
    if texts == [] then []
    else
      var last := texts[|texts| - 1];
      NonEmptyTexts(texts[..|texts| - 1]) + if last == "" then [] else [last]
  }

  function DropEmpty(value: Option<string>): Option<string> {
    if value == Some("") then None else value
  }

  lemma {:induction false} AddUrl(kind: Kind, record: LegacySecret, index: nat, url: string)
    ensures AddField(kind, "account", record, UrlField(index, url))
            == Success(record.(urls := record.urls + if url == "" then [] else [url]))
  {
    var f := UrlField(index, url);
    assert f.id[0] == 'u' && f.id[1] == 'r';
    assert f.id != "username" && f.id != "password" && f.id != "totp";
    if url == "" {
      assert record.urls + [] == record.urls;
    }
  }

  lemma {:induction false} AddUrls(kind: Kind, record: LegacySecret, urls: seq<string>)
    ensures AddFields(kind, "account", record, UrlFields(urls))
            == Success(record.(urls := record.urls + NonEmptyTexts(urls)))
    decreases |urls|
  {
    hide AddField, UrlField;
    if urls == [] {
      assert record.urls + [] == record.urls;
    } else {
      var init, last := urls[..|urls| - 1], urls[|urls| - 1];
      AddUrls(kind, record, init);
      AddUrl(kind, record.(urls := record.urls + NonEmptyTexts(init)), |urls| - 1, last);
      assert UrlFields(urls)[..|UrlFields(urls)| - 1] == UrlFields(init);
      assert record.urls + NonEmptyTexts(init) + (if last == "" then [] else [last])
          == record.urls + NonEmptyTexts(urls);
    }
  }

  lemma {:induction false} AddOptionalFields(kind: Kind, record: LegacySecret, value: Option<string>)
    requires record.username.None? && record.password.None? && record.totp.None?
    ensures AddFields(kind, "account", record, OptionalField("username", "Username", PlainText, value))
            == Success(record.(username := DropEmpty(value)))
  {
    if value.Some? {
      AddOneField(kind, "account", record, NewField("username", "Username", PlainText, String(value.value)));
    }
  }

  lemma {:induction false} AddOptionalPassword(kind: Kind, record: LegacySecret, value: Option<string>)
    requires record.password.None?
    ensures AddFields(kind, "account", record, OptionalField("password", "Password", Concealed, value))
            == Success(record.(password := DropEmpty(value)))
  {
    if value.Some? {
      AddOneField(kind, "account", record, NewField("password", "Password", Concealed, String(value.value)));
    }
  }

  lemma {:induction false} AddOptionalTotp(kind: Kind, record: LegacySecret, value: Option<string>)
    requires record.totp.None?
    ensures AddFields(kind, "account", record, OptionalField("totp", "One-time password", Totp, value))
            == Success(record.(totp := DropEmpty(value)))
  {
    if value.Some? {
      AddOneField(kind, "account", record, NewField("totp", "One-time password", Totp, String(value.value)));
    }
  }

  lemma {:induction false} AccountRestored(kind: Kind, start: LegacySecret, record: LegacySecret)
    requires start.username.None? && start.password.None? && start.totp.None? && start.urls == []
    ensures AddFields(kind, "account", start, AccountFields(record))
            == Success(start.(username := DropEmpty(record.username), password := DropEmpty(record.password),
                              totp := DropEmpty(record.totp), urls := NonEmptyTexts(record.urls)))
  {
    hide AddFields, OptionalField, UrlFields, DropEmpty, NonEmptyTexts;
    var user := OptionalField("username", "Username", PlainText, record.username);
    var password := OptionalField("password", "Password", Concealed, record.password);
    var totp := OptionalField("totp", "One-time password", Totp, record.totp);
    var one := start.(username := DropEmpty(record.username));
    var two := one.(password := DropEmpty(record.password));
    var three := two.(totp := DropEmpty(record.totp));
    AddOptionalFields(kind, start, record.username);
    AddOptionalPassword(kind, one, record.password);
    AddOptionalTotp(kind, two, record.totp);
    AddUrls(kind, three, record.urls);
    AddFieldsConcat(kind, "account", start, user, password);
    AddFieldsConcat(kind, "account", start, user + password, totp);
    AddFieldsConcat(kind, "account", start, user + password + totp, UrlFields(record.urls));
    assert [] + NonEmptyTexts(record.urls) == NonEmptyTexts(record.urls);
  }

  // ---- Card, identity and custom fields ----

  /** A field the reverse conversion gives back: card and identity fields only on
      their own kind, and no link on a field of unknown type. */
  predicate FieldReturns(kind: Kind, f: LegacyField) {
    match f.section
    case CardFields => kind == Card
    case IdentityFields => kind == Identity
    case CustomFields => f.fieldType > 3 ==> f.linkedId.None?
  }

  /** Card and identity fields have no type of their own. */
  function Rewritten(f: LegacyField): LegacyField {
    if f.section == CustomFields then f else f.(fieldType := 0)
  }

  function Append(record: LegacySecret, fields: seq<LegacyField>): LegacySecret {
    record.(customFields := record.customFields + fields)
  }

  lemma {:induction false} UnknownTypeReturns(n: u64)
    requires n > 3
    ensures UNKNOWN_PREFIX <= CustomType(n).source
    ensures ParseU64(CustomType(n).source[|UNKNOWN_PREFIX|..]) == Some(n)
  {
    assert CustomType(n).source[|UNKNOWN_PREFIX|..] == Decimal(n);
    ParseDecimal(n);
  }

  lemma {:induction false} LinkReturns(linked: u64, value: string)
    ensures var v := Object([Member("linkedId", Number(Unsigned(linked))), Member("value", String(value))]);
            HasOnlyLinkKeys(v) && LinkTarget(v) == Some(linked) && LinkValue(v) == value
  {
    var members := [Member("linkedId", Number(Unsigned(linked))), Member("value", String(value))];
    assert members[1..] == [Member("value", String(value))];
    assert Find(members, "value") == Find(members[1..], "value");
  }

  lemma {:induction false} FieldRestored(kind: Kind, record: LegacySecret, index: nat, f: LegacyField)
    requires FieldValid(ConvertedField(index, f))
    ensures var r := AddField(kind, GroupId(f.section), record, ConvertedField(index, f));
            if FieldReturns(kind, f) then r == Success(Append(record, [Rewritten(f)])) else r.Failure?
  {
    hide ParseU64, Decimal, HasOnlyLinkKeys, LinkTarget, LinkValue;
    if f.section == CustomFields {
      if f.fieldType > 3 {
        UnknownTypeReturns(f.fieldType);
      } else if f.fieldType == 3 {
        if f.linkedId.Some? { LinkReturns(f.linkedId.value, f.value); } else { PlainLink(f.value); }
      }
    }
  }

  lemma {:induction false} PlainLink(value: string)
    ensures HasOnlyLinkKeys(String(value)) && LinkTarget(String(value)).None? && LinkValue(String(value)) == value
  {
  }

  /** The fields of one group, in their order. */
  function InGroup(group: LegacySection, fields: seq<LegacyField>): seq<LegacyField> {
    if fields == [] then []
    else
      var last := fields[|fields| - 1];
      InGroup(group, fields[..|fields| - 1]) + if last.section == group then [last] else []
  }

  function RewrittenGroup(group: LegacySection, fields: seq<LegacyField>): seq<LegacyField> {
    if fields == [] then []
    else
      var last := fields[|fields| - 1];
      RewrittenGroup(group, fields[..|fields| - 1]) + if last.section == group then [Rewritten(last)] else []
  }

  predicate GroupReturns(kind: Kind, group: LegacySection, fields: seq<LegacyField>) {
    forall i :: 0 <= i < |fields| && fields[i].section == group ==> FieldReturns(kind, fields[i])
  }

  ghost predicate GroupFieldsValid(group: LegacySection, fields: seq<LegacyField>) {
    forall i :: 0 <= i < |fields| && fields[i].section == group ==> FieldValid(ConvertedField(i, fields[i]))
  }

  function IfMine<T>(group: LegacySection, f: LegacyField, x: T): seq<T> {
    if f.section == group then [x] else []
  }

  lemma {:induction false} GroupFieldsSnoc(group: LegacySection, fields: seq<LegacyField>, n: nat)
    requires n == |fields| - 1
    ensures GroupFields(group, fields)
            == GroupFields(group, fields[..n]) + IfMine(group, fields[n], ConvertedField(n, fields[n]))
    ensures RewrittenGroup(group, fields)
            == RewrittenGroup(group, fields[..n]) + IfMine(group, fields[n], Rewritten(fields[n]))
  {
    hide ConvertedField, Rewritten;
  }

  lemma {:induction false} GroupReturnsSnoc(kind: Kind, group: LegacySection, fields: seq<LegacyField>, n: nat)
    requires n == |fields| - 1
    ensures GroupReturns(kind, group, fields)
            <==> GroupReturns(kind, group, fields[..n])
                 && (fields[n].section == group ==> FieldReturns(kind, fields[n]))
    ensures GroupFieldsValid(group, fields)
            ==> GroupFieldsValid(group, fields[..n])
                && (fields[n].section == group ==> FieldValid(ConvertedField(n, fields[n])))
  {
    hide ConvertedField, FieldReturns, FieldValid;
  }

  lemma {:induction false} AppendTwice(record: LegacySecret, a: seq<LegacyField>, b: seq<LegacyField>)
    ensures Append(Append(record, a), b) == Append(record, a + b)
  {
    assert record.customFields + a + b == record.customFields + (a + b);
  }

  lemma {:induction false} GroupRestored(kind: Kind, group: LegacySection, record: LegacySecret,
      fields: seq<LegacyField>)
    requires GroupFieldsValid(group, fields)
    ensures var r := AddFields(kind, GroupId(group), record, GroupFields(group, fields));
            if GroupReturns(kind, group, fields) then
              r == Success(Append(record, RewrittenGroup(group, fields)))
            else
              r.Failure?
    decreases |fields|
  {
    if fields == [] {
      assert record.customFields + [] == record.customFields;
    } else {
      hide *;
      var n := |fields| - 1;
      var init, last := fields[..n], fields[n];
      GroupFieldsSnoc(group, fields, n);
      GroupReturnsSnoc(kind, group, fields, n);
      GroupRestored(kind, group, record, init);
      LastRestored(kind, group, Append(record, RewrittenGroup(group, init)), n, last);
      AddFieldsConcat(kind, GroupId(group), record, GroupFields(group, init),
                      IfMine(group, last, ConvertedField(n, last)));
      AppendTwice(record, RewrittenGroup(group, init), IfMine(group, last, Rewritten(last)));
    }
  }

  lemma {:induction false} LastRestored(kind: Kind, group: LegacySection, record: LegacySecret, index: nat,
      f: LegacyField)
    requires f.section == group ==> FieldValid(ConvertedField(index, f))
    ensures var r := AddFields(kind, GroupId(group), record, IfMine(group, f, ConvertedField(index, f)));
            if f.section == group ==> FieldReturns(kind, f) then
              r == Success(Append(record, IfMine(group, f, Rewritten(f))))
            else
              r.Failure?
  {
    hide AddFields, AddField, ConvertedField, Rewritten, FieldReturns, FieldValid;
    AddNoFields(kind, GroupId(group), record);
    assert record.customFields + [] == record.customFields;
    if f.section == group {
      AddOneField(kind, GroupId(group), record, ConvertedField(index, f));
      FieldRestored(kind, record, index, f);
    }
  }

  // ---- Which records are accepted ----

  predicate FieldFits(f: LegacyField) {
    if f.section == CustomFields then
      && (f.fieldType <= 2 ==> f.linkedId.None?)
      && (f.fieldType == 2 ==> f.value in {"true", "false", ""})
    else
      f.name != "" && f.linkedId.None?
  }

  predicate GroupFits(group: LegacySection, fields: seq<LegacyField>) {
    && (forall i :: 0 <= i < |fields| && fields[i].section == group ==> FieldFits(fields[i]))
    && (group == CustomFields ||
        forall i, j :: 0 <= i < j < |fields| && fields[i].section == group && fields[j].section == group
          ==> fields[i].name != fields[j].name)
  }

  /** The records `FromLegacy` accepts, in terms of the record alone: card and
      identity fields have distinct non-empty names and no link, only references and
      unknown types may be linked, and a boolean is written as one. */
  predicate Accepted(record: LegacySecret) {
    && GroupFits(CardFields, record.customFields)
    && GroupFits(IdentityFields, record.customFields)
    && GroupFits(CustomFields, record.customFields)
  }

  lemma {:induction false} FieldFitsExactly(index: nat, f: LegacyField)
    ensures FieldValid(ConvertedField(index, f)) <==> FieldFits(f)
  {
    hide Decimal;
  }

  predicate FieldsValid(fields: seq<Field>) {
    DistinctFieldIds(fields) && forall i :: 0 <= i < |fields| ==> FieldValid(fields[i])
  }

  lemma {:induction false} FieldsValidSnoc(fields: seq<Field>, f: Field)
    ensures FieldsValid(fields + [f])
            <==> FieldsValid(fields) && FieldValid(f) && forall i :: 0 <= i < |fields| ==> fields[i].id != f.id
  {
    hide FieldValid;
    var all := fields + [f];
    if FieldsValid(all) {
      assert all[|fields|] == f;
      assert forall i :: 0 <= i < |fields| ==> fields[i] == all[i];
    }
  }

  /** The ids in a converted group are exactly those of the group's fields. */
  lemma {:induction false} GroupIds(group: LegacySection, fields: seq<LegacyField>, id: string)
    ensures (exists k :: 0 <= k < |GroupFields(group, fields)| && GroupFields(group, fields)[k].id == id)
            <==> exists i :: 0 <= i < |fields| && fields[i].section == group && ConvertedField(i, fields[i]).id == id
    decreases |fields|
  {
    hide ConvertedField;
    if fields != [] {
      var n := |fields| - 1;
      var init, all := GroupFields(group, fields[..n]), GroupFields(group, fields);
      GroupIds(group, fields[..n], id);
      GroupFieldsSnoc(group, fields, n);
      assert forall i :: 0 <= i < n ==> fields[..n][i] == fields[i];
      if k :| 0 <= k < |all| && all[k].id == id {
        if k < |init| { assert init[k].id == id; }
      }
      if i :| 0 <= i < |fields| && fields[i].section == group && ConvertedField(i, fields[i]).id == id {
        if i < n {
          assert fields[..n][i].section == group;
          var k :| 0 <= k < |init| && init[k].id == id;
          assert all[k].id == id;
        } else {
          assert all[|init|].id == id;
        }
      }
    }
  }

  lemma {:induction false} ConvertedIdsDiffer(i: nat, f: LegacyField, j: nat, g: LegacyField)
    requires f.section == g.section && i != j
    ensures ConvertedField(i, f).id == ConvertedField(j, g).id
            <==> f.section != CustomFields && f.name == g.name
  {
    if f.section == CustomFields && "custom-" + Decimal(i) == "custom-" + Decimal(j) {
      hide Decimal;
      assert ("custom-" + Decimal(i))[7..] == Decimal(i);
      assert ("custom-" + Decimal(j))[7..] == Decimal(j);
      DecimalInjective(i, j);
    }
  }

  lemma {:induction false} GroupFitsSnoc(group: LegacySection, fields: seq<LegacyField>, n: nat)
    requires n == |fields| - 1
    ensures GroupFits(group, fields)
            <==> && GroupFits(group, fields[..n])
                 && (fields[n].section == group ==>
                       && FieldFits(fields[n])
                       && (group == CustomFields ||
                           forall i :: 0 <= i < n && fields[i].section == group ==> fields[i].name != fields[n].name))
  {
    hide FieldFits;
    assert forall i :: 0 <= i < n ==> fields[..n][i] == fields[i];
  }

  lemma {:induction false} GroupFitsExactly(group: LegacySection, fields: seq<LegacyField>)
    ensures FieldsValid(GroupFields(group, fields)) <==> GroupFits(group, fields)
    decreases |fields|
  {
    if fields != [] {
      hide ConvertedField, FieldFits, FieldValid, GroupFits, GroupFields, FieldsValid;
      var n := |fields| - 1;
      var f := fields[n];
      var init := GroupFields(group, fields[..n]);
      GroupFitsExactly(group, fields[..n]);
      GroupFitsSnoc(group, fields, n);
      GroupFieldsSnoc(group, fields, n);
      if f.section == group {
        var c := ConvertedField(n, f);
        FieldsValidSnoc(init, c);
        FieldFitsExactly(n, f);
        GroupIds(group, fields[..n], c.id);
        forall i | 0 <= i < n && fields[i].section == group
          ensures ConvertedField(i, fields[i]).id == c.id <==> group != CustomFields && fields[i].name == f.name
        {
          ConvertedIdsDiffer(i, fields[i], n, f);
        }
        assert forall i :: 0 <= i < n ==> fields[..n][i] == fields[i];
      } else {
        assert init + [] == init;
      }
    }
  }

  lemma {:induction false} UrlIds(urls: seq<string>)
    ensures |UrlFields(urls)| == |urls|
    ensures forall i :: 0 <= i < |urls| ==> UrlFields(urls)[i].id == "url-" + Decimal(i)
    decreases |urls|
  {
    hide Decimal;
    if urls != [] {
      UrlIds(urls[..|urls| - 1]);
    }
  }

  lemma {:induction false} UrlIdsDiffer(i: nat, j: nat)
    requires i != j
    ensures "url-" + Decimal(i) != "url-" + Decimal(j)
  {
    if "url-" + Decimal(i) == "url-" + Decimal(j) {
      hide Decimal;
      assert ("url-" + Decimal(i))[4..] == Decimal(i);
      assert ("url-" + Decimal(j))[4..] == Decimal(j);
      DecimalInjective(i, j);
    }
  }

  lemma {:induction false} NotAUrlId(id: string, n: nat)
    requires id in {"username", "password", "totp"}
    ensures id != "url-" + Decimal(n)
  {
    hide Decimal;
    assert ("url-" + Decimal(n))[1] == 'r';
  }

  lemma {:induction false} UrlFieldsValid(urls: seq<string>, before: seq<Field>)
    requires FieldsValid(before)
    requires forall i :: 0 <= i < |before| ==> before[i].id in {"username", "password", "totp"}
    ensures FieldsValid(before + UrlFields(urls))
    decreases |urls|
  {
    if urls == [] {
      assert before + [] == before;
    } else {
      var n := |urls| - 1;
      var init := UrlFields(urls[..n]);
      var f := UrlField(n, urls[n]);
      UrlFieldsValid(urls[..n], before);
      UrlIds(urls[..n]);
      hide FieldsValid, Decimal;
      forall i | 0 <= i < |before + init|
        ensures (before + init)[i].id != f.id
      {
        if i < |before| { NotAUrlId(before[i].id, n); } else { UrlIdsDiffer(i - |before|, n); }
      }
      FieldsValidSnoc(before + init, f);
      assert before + init + [f] == before + UrlFields(urls);
    }
  }

  lemma {:induction false} AccountFieldsValid(record: LegacySecret)
    ensures FieldsValid(AccountFields(record))
  {
    UrlFieldsValid(record.urls,
      OptionalField("username", "Username", PlainText, record.username)
      + OptionalField("password", "Password", Concealed, record.password)
      + OptionalField("totp", "One-time password", Totp, record.totp));
  }

  predicate SectionsValid(sections: seq<Section>) {
    DistinctSectionIds(sections) && forall i :: 0 <= i < |sections| ==> SectionValid(sections[i])
  }

  lemma {:induction false} AddSectionValid(sections: seq<Section>, id: string, caption: string, fields: seq<Field>)
    requires id != "" && forall i :: 0 <= i < |sections| ==> sections[i].id != id
    ensures SectionsValid(sections + OptionalSection(id, caption, fields))
            <==> SectionsValid(sections) && FieldsValid(fields)
  {
    hide DistinctFieldIds, FieldValid;
    if fields == [] {
      assert sections + [] == sections;
      assert FieldsValid([]) by { NoFieldsValid(); }
    } else {
      var s := Section(id, caption, fields);
      var all := sections + [s];
      assert all[|sections|] == s;
      assert forall i :: 0 <= i < |sections| ==> all[i] == sections[i];
    }
  }

  lemma {:induction false} NoFieldsValid()
    ensures FieldsValid([])
  {
  }

  /** `FromLegacy` accepts exactly the records `Accepted` describes. */
  lemma {:induction false} AcceptedExactly(record: LegacySecret, digest: string)
    ensures FromLegacy(record, digest).Success? <==> Accepted(record)
  {
    hide SectionsValid, FieldsValid, GroupFits, AccountFields, GroupFields;
    var account := OptionalSection("account", "Account", AccountFields(record));
    var card := GroupSection(CardFields, record.customFields);
    var identity := GroupSection(IdentityFields, record.customFields);
    AccountFieldsValid(record);
    GroupFitsExactly(CardFields, record.customFields);
    GroupFitsExactly(IdentityFields, record.customFields);
    GroupFitsExactly(CustomFields, record.customFields);
    NoSectionsValid();
    AddSectionValid([], "account", "Account", AccountFields(record));
    assert [] + account == account;
    AddSectionValid(account, "card", "card", GroupFields(CardFields, record.customFields));
    AddSectionValid(account + card, "identity", "identity", GroupFields(IdentityFields, record.customFields));
    AddSectionValid(account + card + identity, "custom", "custom", GroupFields(CustomFields, record.customFields));
    ValidMeansSections(Converted(record, digest));
  }

  lemma {:induction false} NoSectionsValid()
    ensures SectionsValid([])
  {
  }

  lemma {:induction false} ValidMeansSections(item: PersonalSecret)
    ensures Valid(item) <==> item.id != "" && SectionsValid(item.sections)
  {
  }

  // ---- What comes back ----

  /** Records whose every field has a place in the legacy form of its kind. */
  predicate Returns(record: LegacySecret) {
    && IsTransferable(record.kind)
    && forall i :: 0 <= i < |record.customFields| ==> FieldReturns(record.kind, record.customFields[i])
  }

  /** The record with its empty account texts dropped, its fields grouped card,
      identity, custom (each group in its order) and untyped card and identity fields. */
  function Normalized(record: LegacySecret): LegacySecret {
    record.(username := DropEmpty(record.username),
            password := DropEmpty(record.password),
            totp := DropEmpty(record.totp),
            urls := NonEmptyTexts(record.urls),
            customFields := RewrittenGroup(CardFields, record.customFields)
                            + RewrittenGroup(IdentityFields, record.customFields)
                            + RewrittenGroup(CustomFields, record.customFields))
  }

  lemma {:induction false} ReturnsByGroup(record: LegacySecret)
    ensures Returns(record)
            <==> && IsTransferable(record.kind)
                 && GroupReturns(record.kind, CardFields, record.customFields)
                 && GroupReturns(record.kind, IdentityFields, record.customFields)
                 && GroupReturns(record.kind, CustomFields, record.customFields)
  {
    hide FieldReturns;
  }

  lemma {:induction false} FitsMeansValid(group: LegacySection, fields: seq<LegacyField>)
    requires GroupFits(group, fields)
    ensures GroupFieldsValid(group, fields)
  {
    hide FieldValid, FieldFits, ConvertedField;
    forall i | 0 <= i < |fields| && fields[i].section == group
      ensures FieldValid(ConvertedField(i, fields[i]))
    {
      FieldFitsExactly(i, fields[i]);
    }
  }

  lemma {:induction false} GroupSectionRestored(kind: Kind, record: LegacySecret, group: LegacySection,
      fields: seq<LegacyField>)
    requires GroupFits(group, fields)
    ensures var r := AddSections(kind, record, GroupSection(group, fields));
            if GroupReturns(kind, group, fields) then
              r == Success(Append(record, RewrittenGroup(group, fields)))
            else
              r.Failure?
  {
    hide AddSections, AddFields, GroupFields, GroupReturns, RewrittenGroup, GroupFits, GroupFieldsValid;
    FitsMeansValid(group, fields);
    AddOptionalSection(kind, record, GroupId(group), GroupId(group), GroupFields(group, fields));
    GroupRestored(kind, group, record, fields);
  }

  /** Converting an accepted record to an item and back either fails, exactly when
      some field has no place in the legacy form, or gives the normalised record. */
  lemma {:induction false} ThereAndBack(record: LegacySecret, digest: string)
    requires Accepted(record)
    ensures FromLegacy(record, digest).Success?
    ensures var back := ToLegacy(FromLegacy(record, digest).value);
            if Returns(record) then back == Success(Normalized(record)) else back.Failure?
  {
    AcceptedExactly(record, digest);
    hide AddSections, AccountFields, GroupSection, GroupReturns, RewrittenGroup, GroupFits, Valid, DropEmpty,
         NonEmptyTexts, AddFields, IsTransferable, Returns;
    ReturnsByGroup(record);
    var item := Converted(record, digest);
    var fields := record.customFields;
    var start := Outline(item);
    var one := start.(username := DropEmpty(record.username), password := DropEmpty(record.password),
                      totp := DropEmpty(record.totp), urls := NonEmptyTexts(record.urls));
    var account := OptionalSection("account", "Account", AccountFields(record));
    var card, identity := GroupSection(CardFields, fields), GroupSection(IdentityFields, fields);
    var custom := GroupSection(CustomFields, fields);
    AccountRestored(record.kind, start, record);
    AddOptionalSection(record.kind, start, "account", "Account", AccountFields(record));
    var two := Append(one, RewrittenGroup(CardFields, fields));
    var three := Append(two, RewrittenGroup(IdentityFields, fields));
    GroupSectionRestored(record.kind, one, CardFields, fields);
    GroupSectionRestored(record.kind, two, IdentityFields, fields);
    GroupSectionRestored(record.kind, three, CustomFields, fields);
    AddSectionsConcat(record.kind, start, account, card);
    AddSectionsConcat(record.kind, start, account + card, identity);
    AddSectionsConcat(record.kind, start, account + card + identity, custom);
    assert [] + RewrittenGroup(CardFields, fields) == RewrittenGroup(CardFields, fields);
  }

  /** The record itself, with its fields stably grouped. */
  function Grouped(record: LegacySecret): LegacySecret {
    record.(customFields := InGroup(CardFields, record.customFields)
                            + InGroup(IdentityFields, record.customFields)
                            + InGroup(CustomFields, record.customFields))
  }

  predicate HasNoEmptyText(record: LegacySecret) {
    && record.username != Some("") && record.password != Some("") && record.totp != Some("")
    && "" !in record.urls
  }

  predicate CardFieldsUntyped(record: LegacySecret) {
    forall i :: 0 <= i < |record.customFields| && record.customFields[i].section != CustomFields
      ==> record.customFields[i].fieldType == 0
  }

  lemma {:induction false} NoEmptyKept(texts: seq<string>)
    ensures |NonEmptyTexts(texts)| <= |texts|
    ensures NonEmptyTexts(texts) == texts <==> "" !in texts
    decreases |texts|
  {
    if texts != [] {
      var init, last := texts[..|texts| - 1], texts[|texts| - 1];
      NoEmptyKept(init);
      assert texts == init + [last];
    }
  }

  lemma {:induction false} RewrittenExactly(group: LegacySection, fields: seq<LegacyField>)
    ensures |RewrittenGroup(group, fields)| == |InGroup(group, fields)|
    ensures RewrittenGroup(group, fields) == InGroup(group, fields)
            <==> forall i :: 0 <= i < |fields| && fields[i].section == group ==> Rewritten(fields[i]) == fields[i]
    decreases |fields|
  {
    hide Rewritten;
    if fields != [] {
      var init, last := fields[..|fields| - 1], fields[|fields| - 1];
      RewrittenExactly(group, init);
      assert forall i :: 0 <= i < |init| ==> init[i] == fields[i];
      var a, b := RewrittenGroup(group, init), InGroup(group, init);
      if last.section == group {
        SnocEqual(a, Rewritten(last), b, last);
      } else {
        assert a + [] == a && b + [] == b;
      }
    }
  }

  lemma {:induction false} SnocEqual<T>(a: seq<T>, x: T, b: seq<T>, y: T)
    requires |a| == |b|
    ensures a + [x] == b + [y] <==> a == b && x == y
  {
    if a + [x] == b + [y] {
      assert a == (a + [x])[..|a|] && b == (b + [y])[..|b|];
      assert x == (a + [x])[|a|] && y == (b + [y])[|b|];
    }
  }

  lemma {:induction false} ConcatEqual<T>(a: seq<T>, x: seq<T>, b: seq<T>, y: seq<T>)
    requires |a| == |b|
    ensures a + x == b + y <==> a == b && x == y
  {
    if a + x == b + y {
      assert a == (a + x)[..|a|] && b == (b + y)[..|b|];
      assert x == (a + x)[|a|..] && y == (b + y)[|b|..];
    }
  }

  lemma {:induction false} NormalizedExactly(record: LegacySecret)
    ensures Normalized(record) == Grouped(record) <==> HasNoEmptyText(record) && CardFieldsUntyped(record)
  {
    hide RewrittenGroup, InGroup, NonEmptyTexts;
    var fields := record.customFields;
    NoEmptyKept(record.urls);
    RewrittenExactly(CardFields, fields);
    RewrittenExactly(IdentityFields, fields);
    RewrittenExactly(CustomFields, fields);
    var c, i, u := RewrittenGroup(CardFields, fields), RewrittenGroup(IdentityFields, fields),
        RewrittenGroup(CustomFields, fields);
    var c', i', u' := InGroup(CardFields, fields), InGroup(IdentityFields, fields), InGroup(CustomFields, fields);
    ConcatEqual(c, i, c', i');
    ConcatEqual(c + i, u, c' + i', u');
  }

  /** An accepted record comes back from its item unchanged, its fields stably
      grouped, exactly when its kind is transferable, every field has a place there,
      no account text is empty and card and identity fields carry no type. */
  lemma {:induction false} RoundTripExactly(record: LegacySecret, digest: string)
    requires FromLegacy(record, digest).Success?
    ensures ToLegacy(FromLegacy(record, digest).value) == Success(Grouped(record))
            <==> Returns(record) && HasNoEmptyText(record) && CardFieldsUntyped(record)
  {
    hide FromLegacy, ToLegacy, Normalized, Grouped, Returns, HasNoEmptyText, CardFieldsUntyped;
    AcceptedExactly(record, digest);
    ThereAndBack(record, digest);
    NormalizedExactly(record);
  }
}
