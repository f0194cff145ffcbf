/** Reading and writing the one-time password of an item. */
module OneTimePassword {
  import opened Wrappers
  import opened Seqs
  import opened Text
  import opened JsonValues
  import opened Items

  const CUSTOM_SECTION: string := "custom"
  const CUSTOM_CAPTION: string := "Custom fields"

  /** All fields of all sections, in order. */
  function AllFields(sections: seq<Section>): seq<Field> {
    if sections == [] then [] else sections[0].fields + AllFields(sections[1..])
  }

  /** The position of the first one-time password field, or the length. */
  function FirstTotp(fields: seq<Field>): (k: nat)
    ensures k <= |fields|
    ensures k < |fields| ==> fields[k].fieldType.Totp?
    ensures forall i :: 0 <= i < k ==> !fields[i].fieldType.Totp?
  {
    if fields == [] then 0
    else if fields[0].fieldType.Totp? then 0
    else 1 + FirstTotp(fields[1..])
  }

  predicate HasTotp(fields: seq<Field>) {
    FirstTotp(fields) < |fields|
  }

  /** The text of the first one-time password field. */
  function Read(item: PersonalSecret): Option<string> {
    var fields := AllFields(item.sections);
    var k := FirstTotp(fields);
    if k < |fields| then AsText(fields[k].value) else None
  }

  // ---- Writing ----

  function SetField(f: Field, link: string): Field {
    f.(value := String(link))
  }

  function SetIn(sections: seq<Section>, link: string): seq<Section> {
    if sections == [] then []
    else
      var s := sections[0];
      var k := FirstTotp(s.fields);
      if k < |s.fields| then
        [s.(fields := s.fields[k := SetField(s.fields[k], link)])] + sections[1..]
      else
        [s] + SetIn(sections[1..], link)
  }

  function CustomId(n: nat): string {
    "custom-" + Decimal(n)
  }

  function FieldIds(fields: seq<Field>): set<string> {
    set i | 0 <= i < |fields| :: fields[i].id
  }

  /** The first unused id from number `n` up to `limit`, and an empty one if there is none. */
  function FreeId(ids: set<string>, n: nat, limit: nat): string
    requires n <= limit + 1
    decreases limit + 1 - n
  {
    if n > limit then ""
    else if CustomId(n) !in ids then CustomId(n)
    else FreeId(ids, n + 1, limit)
  }

  function NewTotp(fields: seq<Field>, link: string): Field {
    NewField(FreeId(FieldIds(fields), 0, |fields|), "One-time password", Totp, String(link))
  }

  function AddToCustom(sections: seq<Section>, f: Field): seq<Section> {
    if sections == [] then [Section(CUSTOM_SECTION, CUSTOM_CAPTION, [f])]
    else if sections[0].id == CUSTOM_SECTION then
      [sections[0].(fields := sections[0].fields + [f])] + sections[1..]
    else [sections[0]] + AddToCustom(sections[1..], f)
  }

  function Written(item: PersonalSecret, link: string): PersonalSecret {
    var fields := AllFields(item.sections);
    if HasTotp(fields) then item.(sections := SetIn(item.sections, link))
    else item.(sections := AddToCustom(item.sections, NewTotp(fields, link)))
  }

  /** An item that is edited in place. */
  class Editor {
    var item: PersonalSecret

    constructor (item: PersonalSecret)
      ensures this.item == item
    {
      this.item := item;
    }

    method SetOneTimePassword(link: string)
      modifies this
      ensures item == Written(old(item), link)
    {
      hide FirstTotp, SetIn, AllFields;
      var found, sections := ReplaceFirst(item.sections, link);
      if !found {
        sections := AddField(item.sections, NewTotp(AllFields(item.sections), link));
      }
      item := item.(sections := sections);
    }
  }

  /** Search all fields for a one-time password and set the first one. */
  method ReplaceFirst(sections: seq<Section>, link: string) returns (found: bool, r: seq<Section>)
    ensures found == HasTotp(AllFields(sections))
    ensures found ==> r == SetIn(sections, link)
  {
    hide FirstTotp, AllFields, SetIn;
    assert sections[0..] == sections && [] + SetIn(sections, link) == SetIn(sections, link);
    for i := 0 to |sections|
      invariant HasTotp(AllFields(sections)) == HasTotp(AllFields(sections[i..]))
      invariant SetIn(sections, link) == sections[..i] + SetIn(sections[i..], link)
    {
      var s := sections[i];
      var k := FirstTotp(s.fields);
      SetStep(sections, i, link);
      if k < |s.fields| {
        var s' := s.(fields := s.fields[k := SetField(s.fields[k], link)]);
        UpdateSplits(sections, i, s');
        return true, sections[i := s'];
      }
    }
    assert sections[|sections|..] == [];
    NoneInEmpty();
    return false, sections;
  }

  /** Append to the custom section, or open one. */
  method AddField(sections: seq<Section>, field: Field) returns (r: seq<Section>)
    ensures r == AddToCustom(sections, field)
  {
    hide AddToCustom, AllFields;
    assert sections[0..] == sections && [] + AddToCustom(sections, field) == AddToCustom(sections, field);
    for i := 0 to |sections|
      invariant AddToCustom(sections, field) == sections[..i] + AddToCustom(sections[i..], field)
    {
      var s := sections[i];
      AddStep(sections, i, field);
      if s.id == CUSTOM_SECTION {
        var s' := s.(fields := s.fields + [field]);
        UpdateSplits(sections, i, s');
        return sections[i := s'];
      }
    }
    assert sections[|sections|..] == [] && sections[..|sections|] == sections;
    AddToNone(field);
    return sections + [Section(CUSTOM_SECTION, CUSTOM_CAPTION, [field])];
  }

  lemma {:induction false} AddToNone(f: Field)
    ensures AddToCustom([], f) == [Section(CUSTOM_SECTION, CUSTOM_CAPTION, [f])]
  {
  }

  lemma {:induction false} NoneInEmpty()
    ensures !HasTotp(AllFields([]))
  {
  }

  lemma {:induction false} SetStep(sections: seq<Section>, i: nat, link: string)
    requires i < |sections|
    ensures HasTotp(AllFields(sections[i..]))
            <==> HasTotp(sections[i].fields) || HasTotp(AllFields(sections[i + 1..]))
    ensures SetIn(sections[i..], link)
            == var s := sections[i];
               var k := FirstTotp(s.fields);
               if k < |s.fields| then
                 [s.(fields := s.fields[k := SetField(s.fields[k], link)])] + sections[i + 1..]
               else
                 [s] + SetIn(sections[i + 1..], link)
    ensures sections[..i] + ([sections[i]] + SetIn(sections[i + 1..], link))
            == sections[..i + 1] + SetIn(sections[i + 1..], link)
  {
    var rest := sections[i..];
    assert rest[0] == sections[i] && rest[1..] == sections[i + 1..];
    FirstTotpConcat(sections[i].fields, AllFields(sections[i + 1..]));
    hide FirstTotp, AllFields;
    assert sections[..i] + [sections[i]] == sections[..i + 1];
    ConcatAssociative(sections[..i], [sections[i]], SetIn(sections[i + 1..], link));
  }

  lemma {:induction false} AddStep(sections: seq<Section>, i: nat, f: Field)
    requires i < |sections|
    ensures AddToCustom(sections[i..], f)
            == if sections[i].id == CUSTOM_SECTION then
                 [sections[i].(fields := sections[i].fields + [f])] + sections[i + 1..]
               else
                 [sections[i]] + AddToCustom(sections[i + 1..], f)
    ensures sections[..i] + ([sections[i]] + AddToCustom(sections[i + 1..], f))
            == sections[..i + 1] + AddToCustom(sections[i + 1..], f)
  {
    var rest := sections[i..];
    assert rest[0] == sections[i] && rest[1..] == sections[i + 1..];
    assert sections[..i] + [sections[i]] == sections[..i + 1];
    ConcatAssociative(sections[..i], [sections[i]], AddToCustom(sections[i + 1..], f));
  }

  // ---- The written item ----

  lemma {:induction false} FirstTotpConcat(a: seq<Field>, b: seq<Field>)
    ensures FirstTotp(a + b) == if HasTotp(a) then FirstTotp(a) else |a| + FirstTotp(b)
  {
    var all := a + b;
    var k := if HasTotp(a) then FirstTotp(a) else |a| + FirstTotp(b);
    assert k < |all| ==> all[k].fieldType.Totp?;
    forall i | 0 <= i < k
      ensures !all[i].fieldType.Totp?
    {
      if i < |a| { assert all[i] == a[i]; } else { assert all[i] == b[i - |a|]; }
    }
  }

  lemma {:induction false} AllFieldsCons(s: Section, rest: seq<Section>)
    ensures AllFields([s] + rest) == s.fields + AllFields(rest)
  {
    assert ([s] + rest)[1..] == rest;
  }

  /** Setting replaces the value of the first one-time password field and no other. */
  lemma {:induction false} SetChangesOneField(sections: seq<Section>, link: string)
    requires HasTotp(AllFields(sections))
    ensures var fields := AllFields(sections);
            var k := FirstTotp(fields);
            AllFields(SetIn(sections, link)) == fields[k := SetField(fields[k], link)]
    decreases |sections|
  {
    assert sections != [];
    var s, rest := sections[0], AllFields(sections[1..]);
    assert AllFields(sections) == s.fields + rest;
    FirstTotpConcat(s.fields, rest);
    var k := FirstTotp(s.fields);
    hide FirstTotp, AllFields;
    if k < |s.fields| {
      AllFieldsCons(s.(fields := s.fields[k := SetField(s.fields[k], link)]), sections[1..]);
      UpdateInFirst(s.fields, rest, k, SetField(s.fields[k], link));
    } else {
      SetChangesOneField(sections[1..], link);
      AllFieldsCons(s, SetIn(sections[1..], link));
      UpdateInSecond(s.fields, rest, FirstTotp(rest), SetField(rest[FirstTotp(rest)], link));
    }
  }

  /** Adding inserts one field and keeps the others, in order. */
  lemma {:induction false} AddInsertsOneField(sections: seq<Section>, f: Field) returns (k: nat)
    ensures k <= |AllFields(sections)|
    ensures AllFields(AddToCustom(sections, f)) == AllFields(sections)[..k] + [f] + AllFields(sections)[k..]
    decreases |sections|
  {
    if sections == [] {
      k := 0;
      var s := Section(CUSTOM_SECTION, CUSTOM_CAPTION, [f]);
      assert [s][1..] == [];
      assert AllFields([s]) == [f] + AllFields([]);
    } else {
      var s, rest := sections[0], AllFields(sections[1..]);
      if s.id == CUSTOM_SECTION {
        k := |s.fields|;
        var s' := s.(fields := s.fields + [f]);
        assert ([s'] + sections[1..])[1..] == sections[1..];
        assert (s.fields + rest)[..k] == s.fields && (s.fields + rest)[k..] == rest;
      } else {
        var j := AddInsertsOneField(sections[1..], f);
        k := |s.fields| + j;
        assert ([s] + AddToCustom(sections[1..], f))[1..] == AddToCustom(sections[1..], f);
        assert (s.fields + rest)[..k] == s.fields + rest[..j] && (s.fields + rest)[k..] == rest[j..];
      }
    }
  }

  /** Reading after writing gives the written link, for every item. */
  lemma {:induction false} ReadWritten(item: PersonalSecret, link: string)
    ensures Read(Written(item, link)) == Some(link)
  {
    var fields := AllFields(item.sections);
    var now := AllFields(Written(item, link).sections);
    if HasTotp(fields) {
      hide SetIn, AllFields;
      SetChangesOneField(item.sections, link);
      var k := FirstTotp(fields);
      assert now[k].value == String(link);
      assert FirstTotp(now) == k;
    } else {
      hide AddToCustom, AllFields, FreeId;
      var f := NewTotp(fields, link);
      var k := AddInsertsOneField(item.sections, f);
      assert now[k] == f;
      assert forall i :: 0 <= i < k ==> now[i] == fields[i];
      assert FirstTotp(now) == k;
    }
  }

  // ---- The new id is unused ----

  lemma {:induction false} CustomIdInjective(m: nat, n: nat)
    requires CustomId(m) == CustomId(n)
    ensures m == n
  {
    hide Decimal;
    assert CustomId(m)[7..] == Decimal(m) && CustomId(n)[7..] == Decimal(n);
    DecimalInjective(m, n);
  }

  /** `n` numbered ids are `n` different ids. */
  lemma {:induction false} CountCandidates(n: nat)
    ensures |set i | 0 <= i < n :: CustomId(i)| == n
  {
    var all := set i | 0 <= i < n :: CustomId(i);
    if n > 0 {
      CountCandidates(n - 1);
      var before := set i | 0 <= i < n - 1 :: CustomId(i);
      if CustomId(n - 1) in before {
        var i :| 0 <= i < n - 1 && CustomId(i) == CustomId(n - 1);
        CustomIdInjective(i, n - 1);
      }
      hide CustomId;
      assert all == before + {CustomId(n - 1)};
    }
  }

  lemma {:induction false} CountIds(fields: seq<Field>)
    ensures |FieldIds(fields)| <= |fields|
    decreases |fields|
  {
    if fields != [] {
      var n := |fields| - 1;
      CountIds(fields[..n]);
      assert FieldIds(fields) == FieldIds(fields[..n]) + {fields[n].id};
    }
  }

  lemma {:induction false} SearchFinds(ids: set<string>, n: nat, limit: nat)
    requires n <= limit + 1
    ensures FreeId(ids, n, limit) == "" ==> forall i :: n <= i <= limit ==> CustomId(i) in ids
    ensures FreeId(ids, n, limit) != "" ==> FreeId(ids, n, limit) !in ids
    decreases limit + 1 - n
  {
    if n <= limit {
      assert CustomId(n)[0] == 'c';
      SearchFinds(ids, n + 1, limit);
    }
  }

  /** With as many fields as candidates but one, some candidate is unused. */
  lemma {:induction false} NewIdIsUnused(fields: seq<Field>)
    ensures var id := FreeId(FieldIds(fields), 0, |fields|);
            id != "" && id !in FieldIds(fields)
  {
    var ids, n := FieldIds(fields), |fields|;
    SearchFinds(ids, 0, n);
    if FreeId(ids, 0, n) == "" {
      var candidates := set i | 0 <= i < n + 1 :: CustomId(i);
      CountCandidates(n + 1);
      CountIds(fields);
      assert candidates <= ids;
      SubsetAtMost(candidates, ids);
    }
  }

  // ---- The written item is valid ----

  lemma {:induction false} InAllFields(sections: seq<Section>, i: nat, k: nat)
    requires i < |sections| && k < |sections[i].fields|
    ensures sections[i].fields[k] in AllFields(sections)
    decreases |sections|
  {
    if i > 0 {
      assert sections[1..][i - 1] == sections[i];
      InAllFields(sections[1..], i - 1, k);
    }
  }

  /** Replacing a section by a valid one of the same id keeps the sections valid. */
  ghost predicate SectionsValid(sections: seq<Section>) {
    DistinctSectionIds(sections) && forall i :: 0 <= i < |sections| ==> SectionValid(sections[i])
  }

  lemma {:induction false} SetSectionValid(s: Section, k: nat, link: string)
    requires SectionValid(s) && k < |s.fields| && s.fields[k].fieldType.Totp?
    ensures SectionValid(s.(fields := s.fields[k := SetField(s.fields[k], link)]))
  {
  }

  function SectionIds(sections: seq<Section>): set<string> {
    set i | 0 <= i < |sections| :: sections[i].id
  }

  lemma {:induction false} SectionIdsCons(s: Section, rest: seq<Section>)
    ensures SectionIds([s] + rest) == {s.id} + SectionIds(rest)
  {
    var all := [s] + rest;
    forall i | 0 <= i < |rest|
      ensures rest[i].id in SectionIds(all)
    {
      assert all[i + 1] == rest[i];
    }
    assert all[0] == s;
  }

  lemma {:induction false} SectionsValidCons(s: Section, rest: seq<Section>)
    ensures SectionsValid([s] + rest) <==> SectionValid(s) && SectionsValid(rest) && s.id !in SectionIds(rest)
  {
    hide SectionValid;
    var all := [s] + rest;
    assert forall i :: 0 <= i < |rest| ==> all[i + 1] == rest[i];
    if SectionsValid(all) {
      assert all[0] == s;
      forall i | 0 <= i < |rest| ensures SectionValid(rest[i]) && rest[i].id != s.id {
        assert all[i + 1] == rest[i];
      }
    }
  }

  lemma {:induction false} SetKeepsValid(sections: seq<Section>, link: string)
    requires SectionsValid(sections)
    ensures SectionsValid(SetIn(sections, link))
    ensures SectionIds(SetIn(sections, link)) == SectionIds(sections)
    decreases |sections|
  {
    if sections != [] {
      hide SectionValid, SectionsValid, FirstTotp, SectionIds;
      var s, rest := sections[0], sections[1..];
      assert [s] + rest == sections;
      SectionsValidCons(s, rest);
      SectionIdsCons(s, rest);
      var k := FirstTotp(s.fields);
      if k < |s.fields| {
        var s' := s.(fields := s.fields[k := SetField(s.fields[k], link)]);
        SetSectionValid(s, k, link);
        SectionsValidCons(s', rest);
        SectionIdsCons(s', rest);
      } else {
        SetKeepsValid(rest, link);
        SectionsValidCons(s, SetIn(rest, link));
        SectionIdsCons(s, SetIn(rest, link));
      }
    }
  }

  lemma {:induction false} AddSectionValid(s: Section, f: Field)
    requires SectionValid(s) && FieldValid(f)
    requires forall k :: 0 <= k < |s.fields| ==> s.fields[k].id != f.id
    ensures SectionValid(s.(fields := s.fields + [f]))
  {
    hide FieldValid;
  }

  ghost predicate IsUnusedIn(sections: seq<Section>, id: string) {
    forall i, k :: 0 <= i < |sections| && 0 <= k < |sections[i].fields| ==> sections[i].fields[k].id != id
  }

  lemma {:induction false} AddKeepsValid(sections: seq<Section>, f: Field)
    requires SectionsValid(sections) && FieldValid(f) && IsUnusedIn(sections, f.id)
    ensures SectionsValid(AddToCustom(sections, f))
    ensures SectionIds(AddToCustom(sections, f)) <= SectionIds(sections) + {CUSTOM_SECTION}
    decreases |sections|
  {
    hide FieldValid;
    if sections != [] {
      var s, rest := sections[0], sections[1..];
      assert [s] + rest == sections;
      SectionsValidCons(s, rest);
      SectionIdsCons(s, rest);
      assert IsUnusedIn(rest, f.id) by {
        assert forall i :: 0 <= i < |rest| ==> rest[i] == sections[i + 1];
      }
      hide SectionValid, SectionsValid, SectionIds;
      if s.id == CUSTOM_SECTION {
        AddSectionValid(s, f);
        SectionsValidCons(s.(fields := s.fields + [f]), rest);
        SectionIdsCons(s.(fields := s.fields + [f]), rest);
      } else {
        AddKeepsValid(rest, f);
        SectionsValidCons(s, AddToCustom(rest, f));
        SectionIdsCons(s, AddToCustom(rest, f));
      }
    }
  }

  /** Writing a one-time password keeps a valid item valid. */
  lemma {:induction false} WrittenValid(item: PersonalSecret, link: string)
    requires Valid(item)
    ensures Valid(Written(item, link))
  {
    var fields := AllFields(item.sections);
    if HasTotp(fields) {
      hide FieldValid;
      SetKeepsValid(item.sections, link);
    } else {
      NewIdIsUnused(fields);
      var f := NewTotp(fields, link);
      forall i, k | 0 <= i < |item.sections| && 0 <= k < |item.sections[i].fields|
        ensures item.sections[i].fields[k].id != f.id
      {
        InAllFields(item.sections, i, k);
      }
      hide FreeId, AddToCustom;
      AddKeepsValid(item.sections, f);
    }
  }

  // ---- Where a new field goes ----

  /** The first custom section gets the field at its end; without one a section is opened at the end. */
  lemma {:induction false} AddedAtEnd(sections: seq<Section>, f: Field, i: nat)
    requires i <= |sections| && forall j :: 0 <= j < i ==> sections[j].id != "custom"
    requires i < |sections| ==> sections[i].id == "custom"
    ensures AddToCustom(sections, f)
            == if i < |sections| then sections[i := sections[i].(fields := sections[i].fields + [f])]
               else sections + [Section("custom", "Custom fields", [f])]
  {
    if i < |sections| && i == 0 {
      assert [sections[0].(fields := sections[0].fields + [f])] + sections[1..]
             == sections[0 := sections[0].(fields := sections[0].fields + [f])];
    } else if sections != [] {
      AddedAtEnd(sections[1..], f, i - 1);
      assert sections == [sections[0]] + sections[1..];
    }
  }

  lemma {:induction false} FreeIdIsLeast(ids: set<string>, n: nat, limit: nat) returns (k: nat)
    requires n <= limit + 1 && FreeId(ids, n, limit) != ""
    ensures n <= k <= limit && FreeId(ids, n, limit) == CustomId(k) && CustomId(k) !in ids
    ensures forall j :: n <= j < k ==> CustomId(j) in ids
    decreases limit + 1 - n
  {
    hide CustomId;
    if CustomId(n) !in ids {
      k := n;
    } else {
      k := FreeIdIsLeast(ids, n + 1, limit);
    }
  }

  /** A new one-time password is a concealed field with the least free number. */
  lemma {:induction false} NewFieldIs(fields: seq<Field>, link: string) returns (k: nat)
    ensures NewTotp(fields, link) == Field("custom-" + Decimal(k), "One-time password", Totp, true, String(link))
    ensures forall j :: 0 <= j < |fields| ==> fields[j].id != "custom-" + Decimal(k)
    ensures forall n :: 0 <= n < k ==> exists j :: 0 <= j < |fields| && fields[j].id == "custom-" + Decimal(n)
  {
    NewIdIsUnused(fields);
    k := FreeIdIsLeast(FieldIds(fields), 0, |fields|);
    assert forall n :: 0 <= n < k ==> CustomId(n) == "custom-" + Decimal(n);
    hide FreeId;
    forall j | 0 <= j < |fields| ensures fields[j].id != "custom-" + Decimal(k) {
      assert fields[j].id in FieldIds(fields);
    }
  }

  lemma {:induction false} FindCustom(sections: seq<Section>) returns (i: nat)
    ensures i <= |sections| && forall j :: 0 <= j < i ==> sections[j].id != "custom"
    ensures i < |sections| ==> sections[i].id == "custom"
  {
    i := 0;
    while i < |sections| && sections[i].id != "custom"
      invariant i <= |sections| && forall j :: 0 <= j < i ==> sections[j].id != "custom"
    {
      i := i + 1;
    }
  }

  /** An item without a one-time password gets one field more: concealed, with the least free number, at the
      end of the custom fields. Everything else stays. */
  lemma {:induction false} NewPasswordPlaced(item: PersonalSecret, link: string) returns (i: nat, k: nat)
    requires !HasTotp(AllFields(item.sections))
    ensures i <= |item.sections| && (i < |item.sections| ==> item.sections[i].id == "custom")
    ensures forall j :: 0 <= j < i ==> item.sections[j].id != "custom"
    ensures var f := Field("custom-" + Decimal(k), "One-time password", Totp, true, String(link));
            var s := item.sections;
            && (forall g :: g in AllFields(s) ==> g.id != f.id)
            && Written(item, link)
               == item.(sections := if i < |s| then s[i := s[i].(fields := s[i].fields + [f])]
                                    else s + [Section("custom", "Custom fields", [f])])
  {
    hide AllFields, HasTotp, NewTotp, AddToCustom, Decimal;
    var fields := AllFields(item.sections);
    i := FindCustom(item.sections);
    k := NewFieldIs(fields, link);
    AddedAtEnd(item.sections, NewTotp(fields, link), i);
  }
}
