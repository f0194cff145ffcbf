/** Reading one item of a Bitwarden export, and what is lost when the original is dropped:
    the reader does not look at every key that the retention check takes for mapped. */
module BitwardenItem {
  import opened Wrappers
  import opened Seqs
  import opened Text
  import opened JsonValues
  import opened Items
  import opened SourceRetention

  datatype ItemError = NoName

  // ---- The reader ----

  /** The non-empty text at a key. */
  function TextAt(v: Json, key: string): Option<string> {
    var x := ValueAt(v, key);
    if x.String? then NonEmpty(x.text) else None
  }

  function KindNumber(v: Json): u64 {
    var n := AsU64(ValueAt(v, "type"));
    if n.Some? then n.value else 1
  }

  function KindOf(n: u64): Kind {
    match n
    case 1 => Login
    case 2 => SecureNote
    case 3 => Card
    case 4 => Identity
    case _ => Generic
  }

  /** The addresses of a login, leaving out entries without one. */
  function Addresses(items: seq<Json>): seq<string> {
    if items == [] then []
    else
      var uri := TextAt(items[|items| - 1], "uri");
      Addresses(items[..|items| - 1]) + if uri.Some? then [uri.value] else []
  }

  function CustomField(v: Json): LegacyField {
    var name, value := ValueAt(v, "name"), TextAt(v, "value");
    var fieldType := AsU64(ValueAt(v, "type"));
    LegacyField(if name.String? then name.text else "", if value.Some? then value.value else "", CustomFields,
                if fieldType.Some? then fieldType.value else 0, AsU64(ValueAt(v, "linkedId")))
  }

  function CustomFieldsOf(items: seq<Json>): (r: seq<LegacyField>)
    ensures |r| == |items|
    ensures forall i :: 0 <= i < |items| ==> r[i] == CustomField(items[i])
  {
    seq(|items|, i requires 0 <= i < |items| => CustomField(items[i]))
  }

  /** The non-empty texts of a card or an identity, one field each. */
  function ObjectFields(group: LegacySection, members: seq<Member>): seq<LegacyField> {
    if members == [] then []
    else
      var m := members[|members| - 1];
      ObjectFields(group, members[..|members| - 1])
      + if m.value.String? && m.value.text != "" then [LegacyField(m.key, m.value.text, group, 0, None)] else []
  }

  function GroupOf(v: Json, kind: Kind): seq<LegacyField> {
    if kind == Card && ValueAt(v, "card").Object? then ObjectFields(CardFields, ValueAt(v, "card").members)
    else if kind == Identity && ValueAt(v, "identity").Object? then
      ObjectFields(IdentityFields, ValueAt(v, "identity").members)
    else []
  }

  function ItemsAt(v: Json, key: string): seq<Json> {
    var x := ValueAt(v, key);
    if x.Array? then x.items else []
  }

  /** The custom fields, and after them those of a card or an identity. */
  function FieldsOf(v: Json): seq<LegacyField> {
    CustomFieldsOf(ItemsAt(v, "fields")) + GroupOf(v, KindOf(KindNumber(v)))
  }

  /** The folder of an item is the listed one. */
  function FolderOf(v: Json, folders: map<string, string>): Option<string> {
    var folder := ValueAt(v, "folderId");
    if folder.String? && folder.text in folders then Some(folders[folder.text]) else None
  }

  /** The record of one item. An item without a name is refused. */
  function ReadItem(v: Json, folders: map<string, string>): Result<LegacySecret, ItemError> {
    var name := ValueAt(v, "name");
    if !name.String? || Trim(name.text) == "" then Failure(NoName)
    else
      var login := ValueAt(v, "login");
      Success(NewLegacy(KindOf(KindNumber(v)), name.text).(
        notes := TextAt(v, "notes"),
        favorite := ValueAt(v, "favorite") == Bool(true),
        folder := FolderOf(v, folders),
        username := TextAt(login, "username"),
        password := TextAt(login, "password"),
        totp := TextAt(login, "totp"),
        urls := Addresses(ItemsAt(login, "uris")),
        customFields := FieldsOf(v)))
  }

  /** The item takes the id of the original where that has one. */
  function ItemId(v: Json, otherwise: string): string {
    var id := TextAt(v, "id");
    if id.Some? then "bitwarden-" + id.value else otherwise
  }

  // ---- What an imported item holds ----

  /** What an import leaves: the record, the item's id, and the folders of the file. */
  datatype Outcome = Outcome(record: LegacySecret, id: string, folders: map<string, string>)

  /** The numbers of the item types. */
  predicate IsTypeOf(n: u64, kind: Kind) {
    || (n == 1 && kind == Login) || (n == 2 && kind == SecureNote)
    || (n == 3 && kind == Card) || (n == 4 && kind == Identity)
  }

  predicate TopHeld(c: Outcome, key: string, x: Json) {
    if key == "id" then x.String? && c.id == "bitwarden-" + x.text
    else if key == "name" then x == String(c.record.title)
    else if key == "type" then x.Number? && x.number.Unsigned? && IsTypeOf(x.number.value, c.record.kind)
    else if key == "notes" then x.String? && c.record.notes == Some(x.text)
    else if key == "favorite" then x == Bool(c.record.favorite)
    else if key == "folderId" then x.String? && x.text in c.folders && c.record.folder == Some(c.folders[x.text])
    else false
  }

  predicate LoginHeld(c: Outcome, key: string, x: Json) {
    && x.String?
    && (if key == "username" then c.record.username == Some(x.text)
        else if key == "password" then c.record.password == Some(x.text)
        else if key == "totp" then c.record.totp == Some(x.text)
        else false)
  }

  predicate GroupHeld(c: Outcome, group: LegacySection, key: string, x: Json) {
    x.String? && LegacyField(key, x.text, group, 0, None) in c.record.customFields
  }

  predicate FieldHeld(c: Outcome, i: nat, key: string, x: Json) {
    && i < |c.record.customFields| && c.record.customFields[i].section == CustomFields
    && var f := c.record.customFields[i];
       if key == "name" then x == String(f.name)
       else if key == "value" then x == String(f.value)
       else if key == "type" then x == Number(Unsigned(f.fieldType))
       else if key == "linkedId" then f.linkedId.Some? && x == Number(Unsigned(f.linkedId.value))
       else false
  }

  /** The imported item holds this scalar of the original, in the part that stands for its place. */
  predicate Held(c: Outcome, path: Path, x: Json) {
    if |path| == 1 && path[0].Key? then TopHeld(c, path[0].key, x)
    else if |path| == 2 && path[0] == Key("login") && path[1].Key? then LoginHeld(c, path[1].key, x)
    else if |path| == 2 && path[0] == Key("card") && path[1].Key? then GroupHeld(c, CardFields, path[1].key, x)
    else if |path| == 2 && path[0] == Key("identity") && path[1].Key? then GroupHeld(c, IdentityFields, path[1].key, x)
    else if |path| == 3 && path[0] == Key("fields") && path[1].At? && path[2].Key? then
      FieldHeld(c, path[1].index, path[2].key, x)
    else if |path| == 4 && path[..2] == [Key("login"), Key("uris")] && path[2].At? && path[3] == Key("uri") then
      x.String? && x.text in c.record.urls
    else false
  }

  type Test = (Path, Json) -> bool

  /** Every scalar below a place passes a test. */
  predicate Every(test: Test, prefix: Path, leaves: seq<Leaf>) {
    forall k :: 0 <= k < |leaves| ==> test(prefix + leaves[k].path, leaves[k].value)
  }

  /** An empty text is as good as none. */
  predicate IsBlank(v: Json) {
    Every((_, x) => x == String(""), [], Leaves(v))
  }

  function HeldTest(c: Outcome): Test {
    (path, x) => x == String("") || Held(c, path, x)
  }

  /** Every non-empty scalar of a value at a place is held. */
  predicate AllHeld(c: Outcome, prefix: Path, v: Json) {
    Every(HeldTest(c), prefix, Leaves(v))
  }

  // ---- When nothing is lost ----

  predicate OnlyText(v: Json) {
    v.String? || IsBlank(v)
  }

  predicate OnlyNumber(v: Json) {
    AsU64(v).Some? || IsBlank(v)
  }

  predicate LoginFits(login: Json) {
    && OnlyText(ValueAt(login, "username")) && OnlyText(ValueAt(login, "password")) && OnlyText(ValueAt(login, "totp"))
    && forall i :: 0 <= i < |ItemsAt(login, "uris")| ==> OnlyText(ValueAt(ItemsAt(login, "uris")[i], "uri"))
  }

  predicate FieldsFit(fields: Json) {
    if fields.Array? then
      forall i :: 0 <= i < |fields.items| ==>
        OnlyNumber(ValueAt(fields.items[i], "type")) && OnlyNumber(ValueAt(fields.items[i], "linkedId"))
    else
      IsBlank(fields)
  }

  /** Texts are texts, numbers are numbers, the folder is listed, a card is on a card, an identity on
      an identity, and there is nothing in the part for secure notes. */
  predicate Fits(v: Json, folders: map<string, string>) {
    && OnlyText(ValueAt(v, "id")) && OnlyText(ValueAt(v, "notes"))
    && OnlyNumber(ValueAt(v, "type"))
    && (ValueAt(v, "favorite").Bool? || IsBlank(ValueAt(v, "favorite")))
    && (var folder := ValueAt(v, "folderId"); (folder.String? && folder.text in folders) || IsBlank(folder))
    && FieldsFit(ValueAt(v, "fields"))
    && ((KindNumber(v) == 3 && ValueAt(v, "card").Object?) || IsBlank(ValueAt(v, "card")))
    && ((KindNumber(v) == 4 && ValueAt(v, "identity").Object?) || IsBlank(ValueAt(v, "identity")))
    && IsBlank(ValueAt(v, "secureNote"))
    && LoginFits(ValueAt(v, "login"))
  }

  predicate DistinctKeys(members: seq<Member>) {
    forall i, j :: 0 <= i < j < |members| ==> members[i].key != members[j].key
  }

  /** Objects are maps: no object has a key twice. */
  predicate IsWellFormed(v: Json) {
    match v
    case Object(members) => DistinctKeys(members) && forall i :: 0 <= i < |members| ==> IsWellFormed(members[i].value)
    case Array(items) => forall i :: 0 <= i < |items| ==> IsWellFormed(items[i])
    case _ => true
  }

  // ---- Scalars below objects and arrays ----

  lemma {:induction false} EveryConcat(test: Test, prefix: Path, a: seq<Leaf>, b: seq<Leaf>)
    ensures Every(test, prefix, a + b) <==> Every(test, prefix, a) && Every(test, prefix, b)
  {
    if Every(test, prefix, a + b) {
      assert forall k :: 0 <= k < |a| ==> a[k] == (a + b)[k];
      assert forall k :: 0 <= k < |b| ==> b[k] == (a + b)[|a| + k];
    }
  }

  lemma {:induction false} EveryUnder(test: Test, prefix: Path, step: Step, leaves: seq<Leaf>)
    ensures Every(test, prefix, Under(step, leaves)) <==> Every(test, prefix + [step], leaves)
  {
    forall k | 0 <= k < |leaves|
      ensures test(prefix + Under(step, leaves)[k].path, Under(step, leaves)[k].value)
              == test(prefix + [step] + leaves[k].path, leaves[k].value)
    {
      ConcatAssociative(prefix, [step], leaves[k].path);
    }
  }

  lemma {:induction false} EveryMember(test: Test, prefix: Path, members: seq<Member>)
    ensures Every(test, prefix, MemberLeaves(members))
            <==> forall i :: 0 <= i < |members| ==>
                   Every(test, prefix + [Key(members[i].key)], Leaves(members[i].value))
  {
    if members != [] {
      var n := |members| - 1;
      EveryMember(test, prefix, members[..n]);
      assert forall i :: 0 <= i < n ==> members[..n][i] == members[i];
      EveryUnder(test, prefix, Key(members[n].key), Leaves(members[n].value));
      EveryConcat(test, prefix, MemberLeaves(members[..n]), Under(Key(members[n].key), Leaves(members[n].value)));
      hide Every, Leaves, Under;
    }
  }

  /** The scalars of an array are those of its items. */
  lemma {:induction false} EveryItem(test: Test, prefix: Path, items: seq<Json>)
    ensures Every(test, prefix, Leaves(Array(items)))
            <==> forall i :: 0 <= i < |items| ==> Every(test, prefix + [At(i)], Leaves(items[i]))
  {
    EveryItemOf(test, prefix, items);
  }

  lemma {:induction false} EveryItemOf(test: Test, prefix: Path, items: seq<Json>)
    ensures Every(test, prefix, ItemLeaves(items))
            <==> forall i :: 0 <= i < |items| ==> Every(test, prefix + [At(i)], Leaves(items[i]))
  {
    if items != [] {
      var n := |items| - 1;
      EveryItemOf(test, prefix, items[..n]);
      assert forall i :: 0 <= i < n ==> items[..n][i] == items[i];
      EveryUnder(test, prefix, At(n), Leaves(items[n]));
      EveryConcat(test, prefix, ItemLeaves(items[..n]), Under(At(n), Leaves(items[n])));
      hide Every, Leaves, Under;
    }
  }

  lemma {:induction false} FoundAt(members: seq<Member>, i: nat)
    requires DistinctKeys(members) && i < |members|
    ensures Find(members, members[i].key) == Some(members[i].value)
  {
    if i > 0 {
      FoundAt(members[1..], i - 1);
    }
  }

  /** The scalars of an object are those at its keys. */
  lemma {:induction false} EveryKey(test: Test, prefix: Path, v: Json)
    requires v.Object? && DistinctKeys(v.members)
    ensures Every(test, prefix, Leaves(v))
            <==> forall key: string :: Every(test, prefix + [Key(key)], Leaves(ValueAt(v, key)))
  {
    EveryMember(test, prefix, v.members);
    forall i | 0 <= i < |v.members| ensures ValueAt(v, v.members[i].key) == v.members[i].value {
      FoundAt(v.members, i);
    }
    assert Leaves(v) == MemberLeaves(v.members) && Leaves(Null) == [];
    hide Leaves;
    if forall i :: 0 <= i < |v.members| ==> Every(test, prefix + [Key(v.members[i].key)], Leaves(v.members[i].value)) {
      forall key: string ensures Every(test, prefix + [Key(key)], Leaves(ValueAt(v, key))) {
        if Find(v.members, key).Some? {
          var i :| 0 <= i < |v.members| && v.members[i] == Member(key, Find(v.members, key).value);
        }
      }
    }
    if forall key: string :: Every(test, prefix + [Key(key)], Leaves(ValueAt(v, key))) {
      forall i | 0 <= i < |v.members|
        ensures Every(test, prefix + [Key(v.members[i].key)], Leaves(v.members[i].value))
      {
        assert Every(test, prefix + [Key(v.members[i].key)], Leaves(ValueAt(v, v.members[i].key)));
      }
    }
  }

  predicate IsScalar(v: Json) {
    !v.Null? && !v.Array? && !v.Object?
  }

  lemma {:induction false} FirstStep(v: Json, k: nat)
    requires k < |Leaves(v)|
    ensures v.Object? ==> Leaves(v)[k].path != [] && Leaves(v)[k].path[0].Key?
    ensures v.Array? ==> Leaves(v)[k].path != [] && Leaves(v)[k].path[0].At?
  {
    match v
    case Object(members) => FirstKey(members, k);
    case Array(items) => FirstIndex(items, k);
    case _ =>
  }

  lemma {:induction false} FirstKey(members: seq<Member>, k: nat)
    requires k < |MemberLeaves(members)|
    ensures MemberLeaves(members)[k].path != [] && MemberLeaves(members)[k].path[0].Key?
  {
    var n := |members| - 1;
    if k < |MemberLeaves(members[..n])| {
      FirstKey(members[..n], k);
    }
  }

  lemma {:induction false} FirstIndex(items: seq<Json>, k: nat)
    requires k < |ItemLeaves(items)|
    ensures ItemLeaves(items)[k].path != [] && ItemLeaves(items)[k].path[0].At?
  {
    var n := |items| - 1;
    if k < |ItemLeaves(items[..n])| {
      FirstIndex(items[..n], k);
    }
  }

  /** Only a scalar has a scalar at its own place. */
  lemma {:induction false} Deep(v: Json, k: nat)
    requires k < |Leaves(v)|
    ensures IsScalar(v) ==> Leaves(v)[k] == Leaf([], v)
    ensures !IsScalar(v) ==> Leaves(v)[k].path != []
  {
    FirstStep(v, k);
  }

  /** Where only the place itself can be held, a value is held when it is blank, or is a scalar
      and held there. */
  lemma {:induction false} HeldHere(c: Outcome, prefix: Path, v: Json)
    requires forall path: Path, x: Json :: path != [] ==> !Held(c, prefix + path, x)
    ensures AllHeld(c, prefix, v) <==> IsBlank(v) || (IsScalar(v) && Held(c, prefix, v))
  {
    hide Held, Leaves;
    if IsScalar(v) {
      assert Leaves(v) == [Leaf([], v)] by { ScalarLeaves(v); }
      assert prefix + [] == prefix;
    } else {
      forall k | 0 <= k < |Leaves(v)|
        ensures HeldTest(c)(prefix + Leaves(v)[k].path, Leaves(v)[k].value) <==> Leaves(v)[k].value == String("")
      {
        Deep(v, k);
      }
    }
  }

  lemma {:induction false} ScalarLeaves(v: Json)
    requires IsScalar(v)
    ensures Leaves(v) == [Leaf([], v)]
  {
  }

  // ---- One place at a time ----

  lemma {:induction false} WellFormedAt(v: Json, key: string)
    requires IsWellFormed(v)
    ensures IsWellFormed(ValueAt(v, key))
  {
    hide IsWellFormed;
    if Get(v, key).Some? {
      var i :| 0 <= i < |v.members| && v.members[i] == Member(key, Get(v, key).value);
      WellFormedMember(v.members, i);
    } else {
      WellFormedNull();
    }
  }

  lemma {:induction false} WellFormedMember(members: seq<Member>, i: nat)
    requires IsWellFormed(Object(members)) && i < |members|
    ensures IsWellFormed(members[i].value) && DistinctKeys(members)
  {
  }

  lemma {:induction false} WellFormedNull()
    ensures IsWellFormed(Null)
  {
  }

  lemma {:induction false} BlankText(v: Json)
    ensures v.String? ==> (IsBlank(v) <==> v.text == "")
    ensures v.Null? ==> IsBlank(v)
    ensures IsScalar(v) && !v.String? ==> !IsBlank(v)
    ensures Leaves(v) == [] ==> IsBlank(v)
  {
    if IsScalar(v) {
      ScalarLeaves(v);
      hide Leaves;
      assert [Leaf([], v)][0].value == v;
    }
  }

  const BRANCHES: set<string> := {"login", "card", "identity", "fields"}

  lemma {:induction false} TopExactly(c: Outcome, key: string, v: Json)
    requires key !in BRANCHES
    ensures AllHeld(c, [Key(key)], v) <==> IsBlank(v) || (IsScalar(v) && TopHeld(c, key, v))
  {
    hide Leaves, IsBlank, TopHeld;
    forall path: Path, x: Json | path != [] ensures !Held(c, [Key(key)] + path, x) {
      assert ([Key(key)] + path)[0] == Key(key);
    }
    HeldHere(c, [Key(key)], v);
  }

  lemma {:induction false} LoginTextExactly(c: Outcome, key: string, v: Json)
    requires key != "uris"
    ensures AllHeld(c, [Key("login"), Key(key)], v) <==> IsBlank(v) || (IsScalar(v) && LoginHeld(c, key, v))
  {
    hide Leaves, IsBlank, LoginHeld;
    var prefix := [Key("login"), Key(key)];
    forall path: Path, x: Json | path != [] ensures !Held(c, prefix + path, x) {
      assert (prefix + path)[0] == Key("login") && (prefix + path)[1] == Key(key);
    }
    HeldHere(c, prefix, v);
  }

  lemma {:induction false} AddressExactly(c: Outcome, i: nat, v: Json)
    ensures AllHeld(c, [Key("login"), Key("uris"), At(i), Key("uri")], v)
            <==> IsBlank(v) || (v.String? && v.text in c.record.urls)
  {
    hide Leaves, IsBlank;
    var prefix := [Key("login"), Key("uris"), At(i), Key("uri")];
    assert prefix[..2] == [Key("login"), Key("uris")];
    forall path: Path, x: Json | path != [] ensures !Held(c, prefix + path, x) {
      assert (prefix + path)[0] == Key("login");
    }
    HeldHere(c, prefix, v);
  }

  lemma {:induction false} FieldExactly(c: Outcome, i: nat, key: string, v: Json)
    ensures AllHeld(c, [Key("fields"), At(i), Key(key)], v)
            <==> IsBlank(v) || (IsScalar(v) && FieldHeld(c, i, key, v))
  {
    hide Leaves, IsBlank, FieldHeld;
    var prefix := [Key("fields"), At(i), Key(key)];
    forall path: Path, x: Json | path != [] ensures !Held(c, prefix + path, x) {
      assert (prefix + path)[0] == Key("fields");
    }
    HeldHere(c, prefix, v);
  }

  lemma {:induction false} GroupExactly(c: Outcome, top: string, key: string, v: Json)
    requires top == "card" || top == "identity"
    ensures var group := if top == "card" then CardFields else IdentityFields;
            AllHeld(c, [Key(top), Key(key)], v) <==> IsBlank(v) || (IsScalar(v) && GroupHeld(c, group, key, v))
  {
    hide Leaves, IsBlank, GroupHeld;
    var prefix := [Key(top), Key(key)];
    forall path: Path, x: Json | path != [] ensures !Held(c, prefix + path, x) {
      assert (prefix + path)[0] == Key(top);
    }
    HeldHere(c, prefix, v);
  }

  // ---- Where nothing can be ----

  function Mapped(): Test {
    (path, _) => IsMapped(path)
  }

  /** Only places below a key are mapped here, so only an object can have scalars. */
  lemma {:induction false} MappedObject(prefix: Path, v: Json)
    requires Every(Mapped(), prefix, Leaves(v))
    requires forall path: Path :: IsMapped(prefix + path) ==> path != [] && path[0].Key?
    ensures v.Object? || Leaves(v) == []
  {
    if Leaves(v) != [] {
      var path := Leaves(v)[0].path;
      assert IsMapped(prefix + path);
      FirstStep(v, 0);
      Deep(v, 0);
    }
  }

  lemma {:induction false} MappedArray(prefix: Path, v: Json)
    requires Every(Mapped(), prefix, Leaves(v))
    requires forall path: Path :: IsMapped(prefix + path) ==> path != [] && path[0].At?
    ensures v.Array? || Leaves(v) == []
  {
    if Leaves(v) != [] {
      var path := Leaves(v)[0].path;
      assert IsMapped(prefix + path);
      FirstStep(v, 0);
      Deep(v, 0);
    }
  }

  lemma {:induction false} MappedNowhere(prefix: Path, v: Json)
    requires Every(Mapped(), prefix, Leaves(v))
    requires forall path: Path :: !IsMapped(prefix + path)
    ensures Leaves(v) == []
  {
    assert Leaves(v) != [] ==> IsMapped(prefix + Leaves(v)[0].path);
  }

  lemma {:induction false} EmptyHeld(c: Outcome, prefix: Path, v: Json)
    requires Leaves(v) == []
    ensures AllHeld(c, prefix, v) && IsBlank(v)
  {
  }

  /** An object whose other keys hold nothing is held when the values at its keys are. */
  lemma {:induction false} HeldAtKeys(c: Outcome, prefix: Path, v: Json, keys: set<string>)
    requires v.Object? && DistinctKeys(v.members)
    requires forall key: string :: key !in keys ==> Leaves(ValueAt(v, key)) == []
    ensures AllHeld(c, prefix, v) <==> forall key :: key in keys ==> AllHeld(c, prefix + [Key(key)], ValueAt(v, key))
  {
    EveryKey(HeldTest(c), prefix, v);
    forall key: string | key !in keys ensures AllHeld(c, prefix + [Key(key)], ValueAt(v, key)) {
      EmptyHeld(c, prefix + [Key(key)], ValueAt(v, key));
    }
    assert AllHeld(c, prefix, v) <==> forall key: string :: AllHeld(c, prefix + [Key(key)], ValueAt(v, key));
    hide AllHeld, Leaves, ValueAt;
  }

  // ---- The parts of an item ----

  /** An original read without being kept. */
  predicate IsDropped(v: Json, folders: map<string, string>, otherwise: string, c: Outcome) {
    && IsWellFormed(v) && !KeepsSource(v) && v.Object?
    && ReadItem(v, folders) == Success(c.record) && c.id == ItemId(v, otherwise) && c.folders == folders
  }

  lemma {:induction false} TextsExactly(c: Outcome, v: Json, otherwise: string)
    requires c.id == ItemId(v, otherwise) && c.record.notes == TextAt(v, "notes")
    requires ValueAt(v, "name") == String(c.record.title)
    ensures AllHeld(c, [Key("id")], ValueAt(v, "id")) <==> OnlyText(ValueAt(v, "id"))
    ensures AllHeld(c, [Key("notes")], ValueAt(v, "notes")) <==> OnlyText(ValueAt(v, "notes"))
    ensures AllHeld(c, [Key("name")], ValueAt(v, "name"))
  {
    hide Leaves, IsBlank, AllHeld, ValueAt;
    TopExactly(c, "id", ValueAt(v, "id"));
    TopExactly(c, "notes", ValueAt(v, "notes"));
    TopExactly(c, "name", ValueAt(v, "name"));
    BlankText(ValueAt(v, "id"));
    BlankText(ValueAt(v, "notes"));
  }

  lemma {:induction false} SettingsExactly(c: Outcome, v: Json)
    requires c.record.kind == KindOf(KindNumber(v)) && c.record.folder == FolderOf(v, c.folders)
    requires AsU64(ValueAt(v, "type")).Some? ==> 1 <= KindNumber(v) <= 4
    requires c.record.favorite == (ValueAt(v, "favorite") == Bool(true))
    ensures AllHeld(c, [Key("type")], ValueAt(v, "type")) <==> OnlyNumber(ValueAt(v, "type"))
    ensures var x := ValueAt(v, "favorite"); AllHeld(c, [Key("favorite")], x) <==> x.Bool? || IsBlank(x)
    ensures var x := ValueAt(v, "folderId");
            AllHeld(c, [Key("folderId")], x) <==> (x.String? && x.text in c.folders) || IsBlank(x)
    ensures AllHeld(c, [Key("secureNote")], ValueAt(v, "secureNote")) <==> IsBlank(ValueAt(v, "secureNote"))
  {
    hide Leaves, IsBlank, AllHeld, ValueAt;
    TopExactly(c, "type", ValueAt(v, "type"));
    TopExactly(c, "favorite", ValueAt(v, "favorite"));
    TopExactly(c, "folderId", ValueAt(v, "folderId"));
    TopExactly(c, "secureNote", ValueAt(v, "secureNote"));
  }

  // ---- The login ----

  lemma {:induction false} AddressListed(items: seq<Json>, i: nat)
    requires i < |items| && TextAt(items[i], "uri").Some?
    ensures TextAt(items[i], "uri").value in Addresses(items)
  {
    hide TextAt;
    if i < |items| - 1 {
      AddressListed(items[..|items| - 1], i);
    }
  }

  lemma {:induction false} AddressItemExactly(c: Outcome, items: seq<Json>, i: nat)
    requires i < |items| && IsWellFormed(items[i]) && c.record.urls == Addresses(items)
    requires Every(Mapped(), [Key("login"), Key("uris"), At(i)], Leaves(items[i]))
    ensures AllHeld(c, [Key("login"), Key("uris"), At(i)], items[i]) <==> OnlyText(ValueAt(items[i], "uri"))
  {
    var prefix, v := [Key("login"), Key("uris"), At(i)], items[i];
    forall path: Path ensures IsMapped(prefix + path) <==> IsUriPlace(path) {
      MappedInUris(i, path);
    }
    MappedObject(prefix, v);
    hide Leaves, IsBlank, IsMapped, Addresses;
    if v.Object? {
      hide IsUriPlace;
      assert DistinctKeys(v.members);
      hide IsWellFormed;
      EveryKey(Mapped(), prefix, v);
      EveryKey(HeldTest(c), prefix, v);
      forall key: string | key != "uri" ensures AllHeld(c, prefix + [Key(key)], ValueAt(v, key)) {
        NoOtherAddressKey(i, key, ValueAt(v, key));
        EmptyHeld(c, prefix + [Key(key)], ValueAt(v, key));
      }
      assert prefix + [Key("uri")] == [Key("login"), Key("uris"), At(i), Key("uri")];
      AddressExactly(c, i, ValueAt(v, "uri"));
      BlankText(ValueAt(v, "uri"));
      if TextAt(v, "uri").Some? { AddressListed(items, i); }
    } else {
      EmptyHeld(c, prefix, v);
      BlankText(Null);
    }
  }

  lemma {:induction false} MappedInUris(i: nat, path: Path)
    ensures IsMapped([Key("login"), Key("uris"), At(i)] + path) <==> IsUriPlace(path)
  {
    var whole := [Key("login"), Key("uris"), At(i)] + path;
    assert whole[1..] == [Key("uris"), At(i)] + path;
    assert whole[1..][1..] == [At(i)] + path;
    assert whole[1..][1..][1..] == path;
  }

  lemma {:induction false} NoOtherAddressKey(i: nat, key: string, v: Json)
    requires key != "uri"
    requires Every(Mapped(), [Key("login"), Key("uris"), At(i)] + [Key(key)], Leaves(v))
    ensures Leaves(v) == []
  {
    var prefix := [Key("login"), Key("uris"), At(i)];
    forall path: Path ensures !IsMapped(prefix + [Key(key)] + path) {
      ConcatAssociative(prefix, [Key(key)], path);
      MappedInUris(i, [Key(key)] + path);
      assert ([Key(key)] + path)[0] == Key(key);
    }
    hide Leaves, IsMapped;
    MappedNowhere(prefix + [Key(key)], v);
  }

  lemma {:induction false} MappedInLogin(path: Path)
    ensures IsMapped([Key("login")] + path) <==> IsLoginPlace(path)
  {
    PathTail(Key("login"), path);
  }

  lemma {:induction false} MappedAtUris(path: Path)
    ensures IsMapped([Key("login"), Key("uris")] + path) <==> IsUrisPlace(path)
  {
    assert [Key("login"), Key("uris")] + path == [Key("login")] + ([Key("uris")] + path);
    MappedInLogin([Key("uris")] + path);
    PathTail(Key("uris"), path);
  }

  lemma {:induction false} AddressesExactly(c: Outcome, login: Json)
    requires IsWellFormed(login) && c.record.urls == Addresses(ItemsAt(login, "uris"))
    requires Every(Mapped(), [Key("login"), Key("uris")], Leaves(ValueAt(login, "uris")))
    ensures AllHeld(c, [Key("login"), Key("uris")], ValueAt(login, "uris"))
            <==> forall i :: 0 <= i < |ItemsAt(login, "uris")| ==>
                   OnlyText(ValueAt(ItemsAt(login, "uris")[i], "uri"))
  {
    var prefix, v := [Key("login"), Key("uris")], ValueAt(login, "uris");
    WellFormedAt(login, "uris");
    forall path: Path ensures IsMapped(prefix + path) ==> path != [] && path[0].At? {
      MappedAtUris(path);
    }
    MappedArray(prefix, v);
    hide Leaves, IsMapped, OnlyText, Addresses;
    if v.Array? {
      EveryItem(Mapped(), prefix, v.items);
      EveryItem(HeldTest(c), prefix, v.items);
      forall i | 0 <= i < |v.items|
        ensures AllHeld(c, prefix + [At(i)], v.items[i]) <==> OnlyText(ValueAt(v.items[i], "uri"))
      {
        assert prefix + [At(i)] == [Key("login"), Key("uris"), At(i)];
        AddressItemExactly(c, v.items, i);
      }
    } else {
      EmptyHeld(c, prefix, v);
    }
  }

  lemma {:induction false} LoginTexts(c: Outcome, login: Json)
    requires c.record.username == TextAt(login, "username") && c.record.password == TextAt(login, "password")
    requires c.record.totp == TextAt(login, "totp")
    ensures AllHeld(c, [Key("login"), Key("username")], ValueAt(login, "username"))
            <==> OnlyText(ValueAt(login, "username"))
    ensures AllHeld(c, [Key("login"), Key("password")], ValueAt(login, "password"))
            <==> OnlyText(ValueAt(login, "password"))
    ensures AllHeld(c, [Key("login"), Key("totp")], ValueAt(login, "totp")) <==> OnlyText(ValueAt(login, "totp"))
  {
    hide Leaves, IsBlank, AllHeld, ValueAt;
    LoginTextExactly(c, "username", ValueAt(login, "username"));
    LoginTextExactly(c, "password", ValueAt(login, "password"));
    LoginTextExactly(c, "totp", ValueAt(login, "totp"));
    BlankText(ValueAt(login, "username"));
    BlankText(ValueAt(login, "password"));
    BlankText(ValueAt(login, "totp"));
  }

  lemma {:induction false} NoOtherLoginKey(key: string, v: Json)
    requires key !in LOGIN_KEYS && key != "uris"
    requires Every(Mapped(), [Key("login")] + [Key(key)], Leaves(v))
    ensures Leaves(v) == []
  {
    forall path: Path ensures !IsMapped([Key("login")] + [Key(key)] + path) {
      ConcatAssociative([Key("login")], [Key(key)], path);
      MappedInLogin([Key(key)] + path);
      PathTail(Key(key), path);
    }
    hide Leaves, IsMapped;
    MappedNowhere([Key("login")] + [Key(key)], v);
  }

  predicate LoginRead(record: LegacySecret, login: Json) {
    && record.username == TextAt(login, "username") && record.password == TextAt(login, "password")
    && record.totp == TextAt(login, "totp") && record.urls == Addresses(ItemsAt(login, "uris"))
  }

  lemma {:induction false} LoginExactly(c: Outcome, login: Json)
    requires IsWellFormed(login) && LoginRead(c.record, login) && Every(Mapped(), [Key("login")], Leaves(login))
    ensures AllHeld(c, [Key("login")], login) <==> LoginFits(login)
  {
    var prefix := [Key("login")];
    forall path: Path ensures IsMapped(prefix + path) ==> path != [] && path[0].Key? {
      MappedInLogin(path);
    }
    MappedObject(prefix, login);
    if login.Object? {
      LoginObject(c, login);
    } else {
      EmptyHeld(c, prefix, login);
      NothingThere(login);
    }
  }

  lemma {:induction false} LoginObject(c: Outcome, login: Json)
    requires login.Object? && IsWellFormed(login) && LoginRead(c.record, login)
    requires Every(Mapped(), [Key("login")], Leaves(login))
    ensures AllHeld(c, [Key("login")], login) <==> LoginFits(login)
  {
    var keys := LOGIN_KEYS + {"uris"};
    LoginTexts(c, login);
    LoginKeysMapped(login, keys);
    hide Leaves, IsMapped, OnlyText, Addresses, TextAt, ValueAt, Every;
    AddressesExactly(c, login);
    assert DistinctKeys(login.members);
    hide IsWellFormed;
    HeldAtKeys(c, [Key("login")], login, keys);
    hide AllHeld, ItemsAt;
    FourKeys(c, login, keys);
  }

  lemma {:induction false} LoginKeysMapped(login: Json, keys: set<string>)
    requires login.Object? && IsWellFormed(login) && Every(Mapped(), [Key("login")], Leaves(login))
    requires keys == LOGIN_KEYS + {"uris"}
    ensures Every(Mapped(), [Key("login"), Key("uris")], Leaves(ValueAt(login, "uris")))
    ensures forall key: string :: key !in keys ==> Leaves(ValueAt(login, key)) == []
  {
    assert DistinctKeys(login.members);
    hide Leaves, IsMapped, ValueAt, IsWellFormed, Every;
    EveryKey(Mapped(), [Key("login")], login);
    assert [Key("login")] + [Key("uris")] == [Key("login"), Key("uris")];
    assert Every(Mapped(), [Key("login")] + [Key("uris")], Leaves(ValueAt(login, "uris")));
    forall key: string | key !in keys ensures Leaves(ValueAt(login, key)) == [] {
      NoOtherLoginKey(key, ValueAt(login, key));
    }
  }

  lemma {:induction false} FourKeys(c: Outcome, login: Json, keys: set<string>)
    requires keys == LOGIN_KEYS + {"uris"}
    ensures (forall key :: key in keys ==> AllHeld(c, [Key("login")] + [Key(key)], ValueAt(login, key)))
            <==> && AllHeld(c, [Key("login"), Key("username")], ValueAt(login, "username"))
                 && AllHeld(c, [Key("login"), Key("password")], ValueAt(login, "password"))
                 && AllHeld(c, [Key("login"), Key("totp")], ValueAt(login, "totp"))
                 && AllHeld(c, [Key("login"), Key("uris")], ValueAt(login, "uris"))
  {
    forall key: string ensures [Key("login")] + [Key(key)] == [Key("login"), Key(key)] {}
    assert "username" in keys && "password" in keys && "totp" in keys && "uris" in keys;
    assert forall key :: key in keys ==> key == "username" || key == "password" || key == "totp" || key == "uris";
    hide AllHeld, ValueAt;
  }

  lemma {:induction false} NothingThere(v: Json)
    requires !v.Object?
    ensures forall key: string :: OnlyText(ValueAt(v, key)) && ItemsAt(v, key) == []
  {
    BlankText(Null);
  }

  // ---- The fields ----

  lemma {:induction false} UsualField(c: Outcome, i: nat, v: Json)
    requires IsWellFormed(v) && !IsUnusualField(v)
    requires i < |c.record.customFields| && c.record.customFields[i] == CustomField(v)
    ensures AllHeld(c, [Key("fields"), At(i)], v)
            <==> OnlyNumber(ValueAt(v, "type")) && OnlyNumber(ValueAt(v, "linkedId"))
  {
    var prefix := [Key("fields"), At(i)];
    assert v.Object? && DistinctKeys(v.members);
    hide IsWellFormed;
    UsualKeys(c, i, v);
    EveryKey(HeldTest(c), prefix, v);
    forall key: string ensures prefix + [Key(key)] == [Key("fields"), At(i), Key(key)] {}
    assert AllHeld(c, prefix, v) <==> forall key: string :: AllHeld(c, prefix + [Key(key)], ValueAt(v, key));
    hide AllHeld, ValueAt, OnlyNumber, IsUnusualField, CustomField;
  }

  lemma {:induction false} UsualKeys(c: Outcome, i: nat, v: Json)
    requires !IsUnusualField(v) && v.Object?
    requires i < |c.record.customFields| && c.record.customFields[i] == CustomField(v)
    ensures AllHeld(c, [Key("fields"), At(i), Key("name")], ValueAt(v, "name"))
    ensures AllHeld(c, [Key("fields"), At(i), Key("value")], ValueAt(v, "value"))
    ensures AllHeld(c, [Key("fields"), At(i), Key("type")], ValueAt(v, "type")) <==> OnlyNumber(ValueAt(v, "type"))
    ensures AllHeld(c, [Key("fields"), At(i), Key("linkedId")], ValueAt(v, "linkedId"))
            <==> OnlyNumber(ValueAt(v, "linkedId"))
    ensures forall key: string :: key !in {"name", "value", "type", "linkedId"} ==>
              AllHeld(c, [Key("fields"), At(i), Key(key)], ValueAt(v, key))
  {
    forall key: string | key !in {"name", "value", "type", "linkedId"}
      ensures AllHeld(c, [Key("fields"), At(i), Key(key)], ValueAt(v, key))
    {
      assert ValueAt(v, key) == Null;
      EmptyHeld(c, [Key("fields"), At(i), Key(key)], Null);
    }
    hide Leaves, IsBlank, AllHeld, ValueAt, HasOtherKeys;
    FieldExactly(c, i, "name", ValueAt(v, "name"));
    FieldExactly(c, i, "value", ValueAt(v, "value"));
    FieldExactly(c, i, "type", ValueAt(v, "type"));
    FieldExactly(c, i, "linkedId", ValueAt(v, "linkedId"));
    BlankText(ValueAt(v, "value"));
  }

  lemma {:induction false} FieldsExactly(c: Outcome, v: Json)
    requires IsWellFormed(v) && !HasUnusualField(v)
    requires v.Array? ==> CustomFieldsOf(v.items) <= c.record.customFields
    ensures AllHeld(c, [Key("fields")], v) <==> FieldsFit(v)
  {
    var prefix := [Key("fields")];
    if v.Array? {
      EveryItem(HeldTest(c), prefix, v.items);
      hide Leaves, OnlyNumber, IsUnusualField;
      forall i | 0 <= i < |v.items|
        ensures AllHeld(c, prefix + [At(i)], v.items[i])
                <==> OnlyNumber(ValueAt(v.items[i], "type")) && OnlyNumber(ValueAt(v.items[i], "linkedId"))
      {
        assert prefix + [At(i)] == [Key("fields"), At(i)];
        assert CustomFieldsOf(v.items)[i] == CustomField(v.items[i]);
        hide IsWellFormed, CustomField, AllHeld;
        UsualField(c, i, v.items[i]);
      }
    } else {
      NotAnArray(c, v);
    }
  }

  /** Fields that are no list are not read. */
  lemma {:induction false} NotAnArray(c: Outcome, v: Json)
    requires !v.Array?
    ensures AllHeld(c, [Key("fields")], v) <==> IsBlank(v)
  {
    forall k | 0 <= k < |Leaves(v)| ensures !Held(c, [Key("fields")] + Leaves(v)[k].path, Leaves(v)[k].value) {
      FirstStep(v, k);
      Deep(v, k);
      PathTail(Key("fields"), Leaves(v)[k].path);
      var whole := [Key("fields")] + Leaves(v)[k].path;
      assert Leaves(v)[k].path != [] ==> whole[1] == Leaves(v)[k].path[0];
      assert |whole| >= 2 ==> whole[..2][0] == whole[0];
    }
    hide Leaves, Held;
  }

  // ---- The card and the identity ----

  lemma {:induction false} TextsListed(group: LegacySection, members: seq<Member>, i: nat)
    requires i < |members| && members[i].value.String? && members[i].value.text != ""
    ensures LegacyField(members[i].key, members[i].value.text, group, 0, None) in ObjectFields(group, members)
  {
    if i < |members| - 1 {
      TextsListed(group, members[..|members| - 1], i);
    }
  }

  lemma {:induction false} OfGroup(group: LegacySection, members: seq<Member>)
    ensures forall i :: 0 <= i < |ObjectFields(group, members)| ==> ObjectFields(group, members)[i].section == group
  {
    if members != [] {
      OfGroup(group, members[..|members| - 1]);
    }
  }

  /** The part is read: each of its texts is a field of the group. */
  lemma {:induction false} GroupRead(c: Outcome, top: string, v: Json)
    requires top == "card" || top == "identity"
    requires v.Object? && IsWellFormed(v) && !HasStructuredValue(v)
    requires var group := if top == "card" then CardFields else IdentityFields;
             forall f :: f in ObjectFields(group, v.members) ==> f in c.record.customFields
    ensures AllHeld(c, [Key(top)], v)
  {
    var prefix, group := [Key(top)], if top == "card" then CardFields else IdentityFields;
    EveryMember(HeldTest(c), prefix, v.members);
    forall i | 0 <= i < |v.members| ensures AllHeld(c, prefix + [Key(v.members[i].key)], v.members[i].value) {
      var m := v.members[i];
      assert prefix + [Key(m.key)] == [Key(top), Key(m.key)];
      GroupExactly(c, top, m.key, m.value);
      BlankText(m.value);
      hide AllHeld, IsBlank, Leaves;
      if m.value.String? && m.value.text != "" { TextsListed(group, v.members, i); }
    }
    assert Leaves(v) == MemberLeaves(v.members);
  }

  /** The part is not read: no field is of its group. */
  lemma {:induction false} GroupNotRead(c: Outcome, top: string, v: Json)
    requires top == "card" || top == "identity"
    requires var group := if top == "card" then CardFields else IdentityFields;
             forall f :: f in c.record.customFields ==> f.section != group
    ensures AllHeld(c, [Key(top)], v) <==> IsBlank(v)
  {
    forall path: Path, x: Json ensures !Held(c, [Key(top)] + path, x) {
      PathTail(Key(top), path);
      var whole := [Key(top)] + path;
      assert |whole| >= 2 ==> whole[..2][0] == whole[0];
    }
    hide Leaves, Held;
  }

  lemma {:induction false} NotAGroup(c: Outcome, top: string, v: Json)
    requires (top == "card" || top == "identity") && !v.Object?
    ensures AllHeld(c, [Key(top)], v) <==> IsBlank(v)
  {
    forall k | 0 <= k < |Leaves(v)| ensures !Held(c, [Key(top)] + Leaves(v)[k].path, Leaves(v)[k].value) {
      FirstStep(v, k);
      Deep(v, k);
      PathTail(Key(top), Leaves(v)[k].path);
      var whole := [Key(top)] + Leaves(v)[k].path;
      assert Leaves(v)[k].path != [] ==> whole[1] == Leaves(v)[k].path[0];
      assert |whole| >= 2 ==> whole[..2][0] == whole[0];
    }
    hide Leaves, Held;
  }

  function GroupNamed(top: string): LegacySection {
    if top == "card" then CardFields else IdentityFields
  }

  function NumberNamed(top: string): u64 {
    if top == "card" then 3 else 4
  }

  /** A group of fields comes from its own part, and only for its own kind. */
  lemma {:induction false} GroupSource(v: Json, top: string)
    requires top == "card" || top == "identity"
    ensures KindNumber(v) != NumberNamed(top) ==> forall f :: f in FieldsOf(v) ==> f.section != GroupNamed(top)
    ensures KindNumber(v) == NumberNamed(top) && ValueAt(v, top).Object? ==>
              forall f :: f in ObjectFields(GroupNamed(top), ValueAt(v, top).members) ==> f in FieldsOf(v)
  {
    var custom, group := CustomFieldsOf(ItemsAt(v, "fields")), GroupOf(v, KindOf(KindNumber(v)));
    CustomSections(ItemsAt(v, "fields"));
    GroupSections(v, KindOf(KindNumber(v)));
    assert FieldsOf(v) == custom + group;
    hide FieldsOf, ItemsAt, ValueAt, KindNumber, CustomFieldsOf, ObjectFields;
    assert forall f :: f in custom + group <==> f in custom || f in group;
  }

  lemma {:induction false} CustomSections(items: seq<Json>)
    ensures forall f :: f in CustomFieldsOf(items) ==> f.section == CustomFields
  {
    hide ValueAt, TextAt;
  }

  lemma {:induction false} GroupSections(v: Json, kind: Kind)
    ensures forall f :: f in GroupOf(v, kind) ==>
              if kind == Card then f.section == CardFields else kind == Identity && f.section == IdentityFields
  {
    hide ValueAt, ObjectFields;
    if ValueAt(v, "card").Object? { OfGroup(CardFields, ValueAt(v, "card").members); }
    if ValueAt(v, "identity").Object? { OfGroup(IdentityFields, ValueAt(v, "identity").members); }
  }

  lemma {:induction false} GroupPartExactly(c: Outcome, v: Json, top: string)
    requires (top == "card" || top == "identity") && c.record.customFields == FieldsOf(v)
    requires IsWellFormed(ValueAt(v, top)) && !HasStructuredValue(ValueAt(v, top))
    ensures AllHeld(c, [Key(top)], ValueAt(v, top))
            <==> (KindNumber(v) == NumberNamed(top) && ValueAt(v, top).Object?) || IsBlank(ValueAt(v, top))
  {
    var x := ValueAt(v, top);
    hide Leaves, IsBlank, AllHeld, IsWellFormed, ValueAt, ObjectFields, HasStructuredValue, KindNumber, FieldsOf;
    GroupSource(v, top);
    if !x.Object? {
      NotAGroup(c, top, x);
    } else if KindNumber(v) == NumberNamed(top) {
      GroupRead(c, top, x);
    } else {
      GroupNotRead(c, top, x);
    }
  }

  // ---- The whole item ----

  lemma {:induction false} AllMapped(v: Json)
    requires v.Object? && !KeepsSource(v)
    ensures Every(Mapped(), [], Leaves(v))
  {
    hide Leaves, KeepsSource, IsMapped;
    forall k | 0 <= k < |Leaves(v)| ensures IsMapped([] + Leaves(v)[k].path) {
      DroppedIsMapped(v, Leaves(v)[k]);
      assert [] + Leaves(v)[k].path == Leaves(v)[k].path;
    }
  }

  const TOP_KEYS: set<string> := MAPPED_KEYS + {"login"}

  lemma {:induction false} NoOtherKey(v: Json, key: string)
    requires key !in TOP_KEYS && Every(Mapped(), [Key(key)], Leaves(v))
    ensures Leaves(v) == []
  {
    forall path: Path ensures !IsMapped([Key(key)] + path) {
      PathTail(Key(key), path);
    }
    hide Leaves, IsMapped;
    MappedNowhere([Key(key)], v);
  }

  /** The item is held when each of its parts is. */
  lemma {:induction false} HeldByParts(c: Outcome, v: Json)
    requires v.Object? && IsWellFormed(v) && !KeepsSource(v)
    ensures AllHeld(c, [], v) <==> forall key :: key in TOP_KEYS ==> AllHeld(c, [Key(key)], ValueAt(v, key))
    ensures Every(Mapped(), [Key("login")], Leaves(ValueAt(v, "login")))
  {
    assert DistinctKeys(v.members);
    hide Leaves, KeepsSource, IsWellFormed, ValueAt;
    AllMapped(v);
    EveryKey(Mapped(), [], v);
    forall key: string ensures [] + [Key(key)] == [Key(key)] {}
    forall key: string | key !in TOP_KEYS ensures Leaves(ValueAt(v, key)) == [] {
      assert Every(Mapped(), [] + [Key(key)], Leaves(ValueAt(v, key)));
      NoOtherKey(ValueAt(v, key), key);
    }
    assert Every(Mapped(), [] + [Key("login")], Leaves(ValueAt(v, "login")));
    HeldAtKeys(c, [], v, TOP_KEYS);
    hide AllHeld, Every;
  }

  /** What an accepted item's record holds, part by part. */
  lemma {:induction false} ReadParts(v: Json, folders: map<string, string>, record: LegacySecret)
    requires ReadItem(v, folders) == Success(record)
    ensures ValueAt(v, "name") == String(record.title) && record.kind == KindOf(KindNumber(v))
    ensures record.notes == TextAt(v, "notes") && record.favorite == (ValueAt(v, "favorite") == Bool(true))
    ensures record.folder == FolderOf(v, folders) && record.customFields == FieldsOf(v)
    ensures LoginRead(record, ValueAt(v, "login"))
  {
    hide ValueAt, FieldsOf, KindNumber, TextAt, FolderOf, Trim, Addresses;
  }

  lemma {:induction false} FieldsFirst(v: Json)
    ensures ValueAt(v, "fields").Array? ==> CustomFieldsOf(ValueAt(v, "fields").items) <= FieldsOf(v)
  {
    hide ValueAt, GroupOf, KindNumber;
  }

  lemma {:induction false} EachPart(c: Outcome, v: Json)
    ensures (forall key :: key in TOP_KEYS ==> AllHeld(c, [Key(key)], ValueAt(v, key)))
            <==> && AllHeld(c, [Key("id")], ValueAt(v, "id")) && AllHeld(c, [Key("name")], ValueAt(v, "name"))
                 && AllHeld(c, [Key("type")], ValueAt(v, "type")) && AllHeld(c, [Key("notes")], ValueAt(v, "notes"))
                 && AllHeld(c, [Key("favorite")], ValueAt(v, "favorite"))
                 && AllHeld(c, [Key("folderId")], ValueAt(v, "folderId"))
                 && AllHeld(c, [Key("fields")], ValueAt(v, "fields"))
                 && AllHeld(c, [Key("card")], ValueAt(v, "card"))
                 && AllHeld(c, [Key("identity")], ValueAt(v, "identity"))
                 && AllHeld(c, [Key("secureNote")], ValueAt(v, "secureNote"))
                 && AllHeld(c, [Key("login")], ValueAt(v, "login"))
  {
    hide AllHeld, ValueAt;
    assert "id" in TOP_KEYS && "name" in TOP_KEYS && "type" in TOP_KEYS && "notes" in TOP_KEYS
           && "favorite" in TOP_KEYS && "folderId" in TOP_KEYS && "fields" in TOP_KEYS && "card" in TOP_KEYS
           && "identity" in TOP_KEYS && "secureNote" in TOP_KEYS && "login" in TOP_KEYS;
  }

  /** An import without the original holds every non-empty scalar of it exactly when the original
      fits: each key has the type that is read, the folder is listed, a card is on a card and an
      identity on an identity, and nothing is said about secure notes. */
  lemma {:induction false} HeldExactly(v: Json, folders: map<string, string>, otherwise: string, c: Outcome)
    requires IsDropped(v, folders, otherwise, c)
    ensures AllHeld(c, [], v) <==> Fits(v, folders)
  {
    assert !HasUnusualField(ValueAt(v, "fields"));
    assert AsU64(ValueAt(v, "type")).Some? ==> 1 <= KindNumber(v) <= 4;
    assert !HasStructuredValue(ValueAt(v, "card")) && !HasStructuredValue(ValueAt(v, "identity"));
    hide Leaves, IsBlank, AllHeld, IsWellFormed, KeepsSource, ValueAt, ReadItem, OnlyText, OnlyNumber, Every,
         FieldsFit, LoginFits, LoginRead, KindNumber, FieldsOf, FolderOf, HasUnusualField, HasStructuredValue, ItemId;
    HeldByParts(c, v);
    EachPart(c, v);
    ReadParts(v, folders, c.record);
    TextsExactly(c, v, otherwise);
    SettingsExactly(c, v);
    WellFormedAt(v, "fields");
    FieldsFirst(v);
    FieldsExactly(c, ValueAt(v, "fields"));
    WellFormedAt(v, "login");
    LoginExactly(c, ValueAt(v, "login"));
    WellFormedAt(v, "card");
    GroupPartExactly(c, v, "card");
    WellFormedAt(v, "identity");
    GroupPartExactly(c, v, "identity");
  }

  /** The same for a caller: which originals are dropped without a loss. */
  lemma {:induction false} LosesNothingExactly(v: Json, folders: map<string, string>, otherwise: string)
    ensures IsWellFormed(v) && ReadItem(v, folders).Success? && !KeepsSource(v) ==>
              var c := Outcome(ReadItem(v, folders).value, ItemId(v, otherwise), folders);
              ((forall leaf :: leaf in Leaves(v) && leaf.value != String("") ==> Held(c, leaf.path, leaf.value))
               <==> Fits(v, folders))
  {
    if IsWellFormed(v) && ReadItem(v, folders).Success? && !KeepsSource(v) {
      var c := Outcome(ReadItem(v, folders).value, ItemId(v, otherwise), folders);
      assert v.Object?;
      hide Leaves, Held, Fits, IsWellFormed, KeepsSource, ReadItem, ItemId, AllHeld;
      HeldExactly(v, folders, otherwise, c);
      EachLeaf(c, v);
    }
  }

  lemma {:induction false} EachLeaf(c: Outcome, v: Json)
    ensures AllHeld(c, [], v)
            <==> forall leaf :: leaf in Leaves(v) && leaf.value != String("") ==> Held(c, leaf.path, leaf.value)
  {
    hide Leaves, Held;
    assert forall leaf: Leaf :: [] + leaf.path == leaf.path;
  }

  // ---- A loss ----

  function CardOnLogin(): Json {
    Object([Member("type", Number(Unsigned(1))), Member("name", String("x")),
            Member("card", Object([Member("number", String("4111"))]))])
  }

  lemma {:induction false} CardOnLoginKeys()
    ensures var v := CardOnLogin();
            && ValueAt(v, "type") == Number(Unsigned(1)) && ValueAt(v, "name") == String("x")
            && ValueAt(v, "card") == Object([Member("number", String("4111"))])
            && forall key: string :: key !in {"type", "name", "card"} ==> ValueAt(v, key) == Null
  {
    var members := CardOnLogin().members;
    assert DistinctKeys(members);
    FoundAt(members, 0);
    FoundAt(members, 1);
    FoundAt(members, 2);
  }

  lemma {:induction false} CardOnLoginStripped()
    ensures Strip(CardOnLogin()) == Object([]) && Prune(Object([])) == Object([])
  {
    var members := CardOnLogin().members;
    assert members[..2][..1] == members[..1] && members[..1][..0] == [];
    assert StripMembers(members[..1]) == [];
    assert StripMembers(members[..2]) == [];
  }

  lemma {:induction false} CardOnLoginRead(folders: map<string, string>)
    ensures ReadItem(CardOnLogin(), folders) == Success(NewLegacy(Login, "x"))
  {
    CardOnLoginKeys();
    assert Trim("x") == "x";
    hide ValueAt, Trim;
    assert KindNumber(CardOnLogin()) == 1;
    hide CardOnLogin, KindNumber;
    BareLogin(CardOnLogin(), folders, "x");
  }

  /** A login with a name and nothing else that is read. */
  lemma {:induction false} BareLogin(v: Json, folders: map<string, string>, title: string)
    requires ValueAt(v, "name") == String(title) && Trim(title) != "" && KindNumber(v) == 1
    requires ValueAt(v, "notes") == ValueAt(v, "favorite") == ValueAt(v, "folderId") == Null
    requires ValueAt(v, "login") == ValueAt(v, "fields") == Null
    ensures ReadItem(v, folders) == Success(NewLegacy(Login, title))
  {
    hide ValueAt, Trim, KindNumber;
    NullHasNothing();
    assert FieldsOf(v) == [] && ItemsAt(Null, "uris") == [];
    hide FieldsOf, ItemsAt;
  }

  lemma {:induction false} NullHasNothing()
    ensures forall key: string :: ValueAt(Null, key) == Null
  {
  }

  /** A card on a login is stripped with the mapped keys, is not read and leaves no trace. */
  lemma {:induction false} CardOnLoginIsLost(folders: map<string, string>)
    ensures var v := CardOnLogin();
            && IsWellFormed(v) && !KeepsSource(v)
            && ReadItem(v, folders) == Success(NewLegacy(Login, "x"))
            && Leaf([Key("card"), Key("number")], String("4111")) in Leaves(v)
            && !Fits(v, folders)
  {
    var v := CardOnLogin();
    CardOnLoginKeys();
    CardOnLoginStripped();
    CardOnLoginRead(folders);
    CardOnLoginLeaf();
    hide Leaves, Strip, Prune, ReadItem, ValueAt, IsBlank, LoginFits, FieldsFit;
    assert IsWellFormed(v) by {
      assert IsWellFormed(Object([Member("number", String("4111"))]));
    }
    assert !IsUnusual(v);
  }

  lemma {:induction false} CardOnLoginLeaf()
    ensures var v := CardOnLogin();
            && Leaf([Key("card"), Key("number")], String("4111")) in Leaves(v)
            && !IsBlank(Object([Member("number", String("4111"))]))
  {
    var inner := [Member("number", String("4111"))];
    var card := Object(inner);
    var leaf := Leaf([Key("number")], String("4111"));
    MemberLeavesSnoc([], inner[0]);
    assert [] + inner == inner && MemberLeaves([]) == [];
    assert Under(Key("number"), [Leaf([], String("4111"))])[0] == leaf;
    assert Leaves(card) == [leaf];
    var members := CardOnLogin().members;
    assert members == members[..2] + [members[2]];
    MemberLeavesSnoc(members[..2], members[2]);
    assert Under(Key("card"), [leaf])[0] == Leaf([Key("card"), Key("number")], String("4111"));
  }
}
