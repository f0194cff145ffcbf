/** Deciding whether an imported Bitwarden item must keep its original JSON:
    mapped keys are removed, empty structure is pruned, and whatever is left over
    is kept. Whether the mapped keys were read is another question. */
module SourceRetention {
  import opened Wrappers
  import opened Seqs
  import opened JsonValues

  // ---- Leaves and their places ----

  datatype Step = Key(key: string) | At(index: nat)
  type Path = seq<Step>
  datatype Leaf = Leaf(path: Path, value: Json)

  function Under(step: Step, leaves: seq<Leaf>): (r: seq<Leaf>)
    ensures |r| == |leaves|
    ensures forall i :: 0 <= i < |leaves| ==> r[i] == Leaf([step] + leaves[i].path, leaves[i].value)
  {
    seq(|leaves|, i requires 0 <= i < |leaves| => Leaf([step] + leaves[i].path, leaves[i].value))
  }

  /** The non-null scalars of a value, in order, each with its place. */
  function Leaves(v: Json): seq<Leaf>
    decreases v, 1
  {
    match v
    case Null => []
    case Array(items) => ItemLeaves(items)
    case Object(members) => MemberLeaves(members)
    case _ => [Leaf([], v)]
  }

  function ItemLeaves(items: seq<Json>): seq<Leaf>
    decreases items, 0
  {
    if items == [] then []
    else
      var n := |items| - 1;
      ItemLeaves(items[..n]) + Under(At(n), Leaves(items[n]))
  }

  function MemberLeaves(members: seq<Member>): seq<Leaf>
    decreases members, 0
  {
    if members == [] then []
    else
      var n := |members| - 1;
      MemberLeaves(members[..n]) + Under(Key(members[n].key), Leaves(members[n].value))
  }

  // ---- Pruning ----

  predicate IsHollow(v: Json) {
    v == Null || v == Object([]) || v == Array([])
  }

  predicate AllNullOrEmptyObject(items: seq<Json>) {
    forall i :: 0 <= i < |items| ==> items[i] == Null || items[i] == Object([])
  }

  function Prune(v: Json): Json
    decreases v, 1
  {
    match v
    case Object(members) => Object(PruneMembers(members))
    case Array(items) =>
      var pruned := PruneItems(items);
      Array(if AllNullOrEmptyObject(pruned) then [] else pruned)
    case _ => v
  }

  function PruneMembers(members: seq<Member>): seq<Member>
    decreases members, 0
  {
    if members == [] then []
    else
      var n := |members| - 1;
      var value := Prune(members[n].value);
      PruneMembers(members[..n]) + if IsHollow(value) then [] else [Member(members[n].key, value)]
  }

  function PruneItems(items: seq<Json>): (r: seq<Json>)
    ensures |r| == |items|
    decreases items, 0
  {
    if items == [] then []
    else PruneItems(items[..|items| - 1]) + [Prune(items[|items| - 1])]
  }

  /** The pruning as it runs over a tree, child by child. */
  method PruneEmpty(value: Json) returns (pruned: Json)
    ensures pruned == Prune(value)
    decreases value
  {
    match value
    case Object(members) =>
      var kept := [];
      for i := 0 to |members|
        invariant kept == PruneMembers(members[..i])
      {
        assert members[..i + 1][..i] == members[..i];
        var child := PruneEmpty(members[i].value);
        if !IsHollow(child) {
          kept := kept + [Member(members[i].key, child)];
        }
      }
      assert members[..|members|] == members;
      return Object(kept);
    case Array(items) =>
      var children := [];
      for i := 0 to |items|
        invariant children == PruneItems(items[..i])
      {
        assert items[..i + 1][..i] == items[..i];
        var child := PruneEmpty(items[i]);
        children := children + [child];
      }
      assert items[..|items|] == items;
      return Array(if AllNullOrEmptyObject(children) then [] else children);
    case _ =>
      return value;
  }

  lemma {:induction false} HollowHasNoLeaves(v: Json)
    requires IsHollow(v)
    ensures Leaves(v) == []
  {
  }

  lemma {:induction false} EmptyItemsHaveNoLeaves(items: seq<Json>)
    requires AllNullOrEmptyObject(items)
    ensures ItemLeaves(items) == []
    decreases |items|
  {
    if items != [] {
      var n := |items| - 1;
      EmptyItemsHaveNoLeaves(items[..n]);
      HollowHasNoLeaves(items[n]);
    }
  }

  /** Pruning keeps every non-null scalar, at its place and in order. */
  lemma {:induction false} PruneKeepsLeaves(v: Json)
    ensures Leaves(Prune(v)) == Leaves(v)
    decreases v, 1
  {
    match v
    case Object(members) => PruneKeepsMemberLeaves(members);
    case Array(items) =>
      PruneKeepsItemLeaves(items);
      if AllNullOrEmptyObject(PruneItems(items)) { EmptyItemsHaveNoLeaves(PruneItems(items)); }
    case _ =>
  }

  lemma {:induction false} PruneKeepsMemberLeaves(members: seq<Member>)
    ensures MemberLeaves(PruneMembers(members)) == MemberLeaves(members)
    decreases members, 0
  {
    if members != [] {
      var n := |members| - 1;
      var m, value := members[n], Prune(members[n].value);
      var init := PruneMembers(members[..n]);
      PruneKeepsMemberLeaves(members[..n]);
      PruneKeepsLeaves(m.value);
      hide Prune, Leaves;
      if IsHollow(value) {
        HollowHasNoLeaves(value);
        assert init + [] == init && MemberLeaves(init) + Under(Key(m.key), []) == MemberLeaves(init);
      } else {
        assert (init + [Member(m.key, value)])[..|init|] == init;
      }
    }
  }

  lemma {:induction false} PruneKeepsItemLeaves(items: seq<Json>)
    ensures ItemLeaves(PruneItems(items)) == ItemLeaves(items)
    decreases items, 0
  {
    if items != [] {
      var n := |items| - 1;
      PruneKeepsItemLeaves(items[..n]);
      PruneKeepsLeaves(items[n]);
      hide Prune, Leaves;
      assert PruneItems(items)[..n] == PruneItems(items[..n]);
    }
  }

  /** A pruned value has nothing left to prune. */
  lemma {:induction false} PruneIdempotent(v: Json)
    ensures Prune(Prune(v)) == Prune(v)
    decreases v, 1
  {
    match v
    case Object(members) => PruneMembersIdempotent(members);
    case Array(items) => PruneItemsIdempotent(items);
    case _ =>
  }

  lemma {:induction false} PruneMembersIdempotent(members: seq<Member>)
    ensures PruneMembers(PruneMembers(members)) == PruneMembers(members)
    decreases members, 0
  {
    if members != [] {
      var n := |members| - 1;
      var m, value := members[n], Prune(members[n].value);
      var init := PruneMembers(members[..n]);
      PruneMembersIdempotent(members[..n]);
      PruneIdempotent(m.value);
      hide Prune;
      if IsHollow(value) {
        assert init + [] == init;
      } else {
        assert (init + [Member(m.key, value)])[..|init|] == init;
      }
    }
  }

  lemma {:induction false} PruneItemsIdempotent(items: seq<Json>)
    ensures PruneItems(PruneItems(items)) == PruneItems(items)
    decreases items, 0
  {
    if items != [] {
      var n := |items| - 1;
      PruneItemsIdempotent(items[..n]);
      PruneIdempotent(items[n]);
      hide Prune;
      assert PruneItems(items)[..n] == PruneItems(items[..n]);
    }
  }

  // ---- When nothing is left ----

  /** Somewhere an array is directly inside an array. */
  predicate HasNestedArray(v: Json)
    decreases v, 1
  {
    match v
    case Object(members) => MembersHaveNestedArray(members)
    case Array(items) => ItemsHaveNestedArray(items)
    case _ => false
  }

  predicate ItemsHaveNestedArray(items: seq<Json>)
    decreases items, 0
  {
    items != [] &&
    var n := |items| - 1;
    ItemsHaveNestedArray(items[..n]) || items[n].Array? || HasNestedArray(items[n])
  }

  predicate MembersHaveNestedArray(members: seq<Member>)
    decreases members, 0
  {
    members != [] &&
    var n := |members| - 1;
    MembersHaveNestedArray(members[..n]) || HasNestedArray(members[n].value)
  }

  /** Pruning leaves nothing of a value exactly when it has no non-null scalar and
      no array directly inside an array. */
  lemma {:induction false} HollowExactly(v: Json)
    ensures IsHollow(Prune(v)) <==> Leaves(v) == [] && !HasNestedArray(v)
    decreases v, 1
  {
    match v
    case Object(members) => HollowMembersExactly(members);
    case Array(items) => HollowItemsExactly(items);
    case _ =>
  }

  lemma {:induction false} HollowMembersExactly(members: seq<Member>)
    ensures PruneMembers(members) == [] <==> MemberLeaves(members) == [] && !MembersHaveNestedArray(members)
    decreases members, 0
  {
    if members != [] {
      var n := |members| - 1;
      HollowMembersExactly(members[..n]);
      HollowExactly(members[n].value);
      hide Prune, Leaves, HasNestedArray;
      var mine := Under(Key(members[n].key), Leaves(members[n].value));
      assert |MemberLeaves(members)| == |MemberLeaves(members[..n])| + |mine|;
    }
  }

  lemma {:induction false} AllNullSnoc(items: seq<Json>, v: Json)
    ensures AllNullOrEmptyObject(items + [v]) <==> AllNullOrEmptyObject(items) && (v == Null || v == Object([]))
  {
    assert (items + [v])[|items|] == v;
    assert forall i :: 0 <= i < |items| ==> (items + [v])[i] == items[i];
  }

  lemma {:induction false} HollowItemsExactly(items: seq<Json>)
    ensures AllNullOrEmptyObject(PruneItems(items)) <==> ItemLeaves(items) == [] && !ItemsHaveNestedArray(items)
    decreases items, 0
  {
    if items != [] {
      var n := |items| - 1;
      HollowItemsExactly(items[..n]);
      HollowExactly(items[n]);
      assert Prune(items[n]).Array? <==> items[n].Array?;
      hide Prune, Leaves, HasNestedArray, AllNullOrEmptyObject;
      AllNullSnoc(PruneItems(items[..n]), Prune(items[n]));
      assert |ItemLeaves(items)| == |ItemLeaves(items[..n])| + |Under(At(n), Leaves(items[n]))|;
    }
  }

  // ---- Removing the mapped keys ----

  const MAPPED_KEYS: set<string> :=
    {"id", "name", "type", "notes", "favorite", "folderId", "fields", "card", "identity", "secureNote"}
  const LOGIN_KEYS: set<string> := {"username", "password", "totp"}

  function StripUri(v: Json): Json {
    if v.Object? then Object(WithoutKeys(v.members, {"uri"})) else v
  }

  function StripUris(v: Json): Json {
    if v.Array? then Array(StripUriItems(v.items)) else v
  }

  function StripUriItems(items: seq<Json>): (r: seq<Json>)
    ensures |r| == |items|
  {
    if items == [] then []
    else StripUriItems(items[..|items| - 1]) + [StripUri(items[|items| - 1])]
  }

  function WithoutKeys(members: seq<Member>, keys: set<string>): seq<Member> {
    if members == [] then []
    else
      var m := members[|members| - 1];
      WithoutKeys(members[..|members| - 1], keys) + if m.key in keys then [] else [m]
  }

  function StripLogin(v: Json): Json {
    if v.Object? then Object(StripLoginMembers(v.members)) else v
  }

  function StripLoginMembers(members: seq<Member>): seq<Member> {
    if members == [] then []
    else
      var m := members[|members| - 1];
      StripLoginMembers(members[..|members| - 1])
      + if m.key in LOGIN_KEYS then []
        else [if m.key == "uris" then Member(m.key, StripUris(m.value)) else m]
  }

  /** The original without its mapped keys. */
  function Strip(v: Json): Json {
    if v.Object? then Object(StripMembers(v.members)) else v
  }

  function StripMembers(members: seq<Member>): seq<Member> {
    if members == [] then []
    else
      var m := members[|members| - 1];
      StripMembers(members[..|members| - 1])
      + if m.key in MAPPED_KEYS then []
        else [if m.key == "login" then Member(m.key, StripLogin(m.value)) else m]
  }

  // ---- Mapped places ----

  predicate IsUriPlace(path: Path) {
    path != [] && path[0] == Key("uri")
  }

  predicate IsUrisPlace(path: Path) {
    path != [] && path[0].At? && IsUriPlace(path[1..])
  }

  predicate IsLoginPlace(path: Path) {
    && path != [] && path[0].Key?
    && (path[0].key in LOGIN_KEYS || (path[0].key == "uris" && IsUrisPlace(path[1..])))
  }

  /** The listed keys of the item, and of its login and that login's addresses. */
  predicate IsMapped(path: Path) {
    && path != [] && path[0].Key?
    && (path[0].key in MAPPED_KEYS || (path[0].key == "login" && IsLoginPlace(path[1..])))
  }

  /** The leaves that are not at a place `drop` describes. */
  function Rest(drop: Path -> bool, leaves: seq<Leaf>): seq<Leaf> {
    if leaves == [] then []
    else
      var last := leaves[|leaves| - 1];
      Rest(drop, leaves[..|leaves| - 1]) + if drop(last.path) then [] else [last]
  }

  lemma {:induction false} RestConcat(drop: Path -> bool, a: seq<Leaf>, b: seq<Leaf>)
    ensures Rest(drop, a + b) == Rest(drop, a) + Rest(drop, b)
    decreases |b|
  {
    if b == [] {
      assert a + b == a && Rest(drop, a) + [] == Rest(drop, a);
    } else {
      var n := |b| - 1;
      RestConcat(drop, a, b[..n]);
      assert (a + b)[..|a + b| - 1] == a + b[..n];
      ConcatAssociative(Rest(drop, a), Rest(drop, b[..n]), if drop(b[n].path) then [] else [b[n]]);
    }
  }

  /** Dropping below a step is dropping and then going below it. */
  lemma {:induction false} RestUnder(drop: Path -> bool, inner: Path -> bool, step: Step, leaves: seq<Leaf>)
    requires forall path: Path :: drop([step] + path) == inner(path)
    ensures Rest(drop, Under(step, leaves)) == Under(step, Rest(inner, leaves))
    decreases |leaves|
  {
    if leaves == [] {
      assert Under(step, Rest(inner, leaves)) == [];
    } else {
      var n := |leaves| - 1;
      RestUnder(drop, inner, step, leaves[..n]);
      assert Under(step, leaves)[..n] == Under(step, leaves[..n]);
      assert Under(step, leaves)[n] == Leaf([step] + leaves[n].path, leaves[n].value);
      var kept := Rest(inner, leaves[..n]);
      if !inner(leaves[n].path) {
        assert Under(step, kept + [leaves[n]]) == Under(step, kept) + [Under(step, leaves)[n]];
      } else {
        assert kept + [] == kept && Under(step, kept) + [] == Under(step, kept);
      }
    }
  }

  lemma {:induction false} RestOfAll(drop: Path -> bool, leaves: seq<Leaf>)
    requires forall path: Path :: drop(path)
    ensures Rest(drop, leaves) == []
    decreases |leaves|
  {
    if leaves != [] {
      RestOfAll(drop, leaves[..|leaves| - 1]);
    }
  }

  lemma {:induction false} RestOfNone(drop: Path -> bool, leaves: seq<Leaf>)
    requires forall path: Path :: !drop(path)
    ensures Rest(drop, leaves) == leaves
    decreases |leaves|
  {
    if leaves != [] {
      RestOfNone(drop, leaves[..|leaves| - 1]);
      assert leaves[..|leaves| - 1] + [leaves[|leaves| - 1]] == leaves;
    }
  }

  /** What stripping does to one member: drop it, keep it, or strip inside it. */
  lemma {:induction false} MemberRest(drop: Path -> bool, inner: Path -> bool, m: Member)
    requires forall path: Path :: drop([Key(m.key)] + path) == inner(path)
    ensures (forall path: Path :: inner(path)) ==> Rest(drop, Under(Key(m.key), Leaves(m.value))) == []
    ensures (forall path: Path :: !inner(path)) ==>
              Rest(drop, Under(Key(m.key), Leaves(m.value))) == Under(Key(m.key), Leaves(m.value))
    ensures Rest(drop, Under(Key(m.key), Leaves(m.value))) == Under(Key(m.key), Rest(inner, Leaves(m.value)))
  {
    hide Leaves, Rest;
    RestUnder(drop, inner, Key(m.key), Leaves(m.value));
    if forall path: Path :: inner(path) { RestOfAll(inner, Leaves(m.value)); }
    if forall path: Path :: !inner(path) { RestOfNone(inner, Leaves(m.value)); }
  }

  lemma {:induction false} PathTail(step: Step, path: Path)
    ensures ([step] + path)[0] == step && ([step] + path)[1..] == path
  {
  }

  lemma {:induction false} MemberLeavesSnoc(members: seq<Member>, m: Member)
    ensures MemberLeaves(members + [m]) == MemberLeaves(members) + Under(Key(m.key), Leaves(m.value))
  {
    hide Leaves;
    assert (members + [m])[..|members|] == members;
  }

  lemma {:induction false} UriMembersRest(members: seq<Member>)
    ensures MemberLeaves(WithoutKeys(members, {"uri"})) == Rest(IsUriPlace, MemberLeaves(members))
    decreases |members|
  {
    if members != [] {
      var n := |members| - 1;
      var m, init := members[n], WithoutKeys(members[..n], {"uri"});
      UriMembersRest(members[..n]);
      var inner := (path: Path) => m.key == "uri";
      forall path: Path ensures IsUriPlace([Key(m.key)] + path) == inner(path) { PathTail(Key(m.key), path); }
      hide Leaves, Rest, IsUriPlace;
      MemberRest(IsUriPlace, inner, m);
      RestConcat(IsUriPlace, MemberLeaves(members[..n]), Under(Key(m.key), Leaves(m.value)));
      if m.key == "uri" {
        assert init + [] == init && MemberLeaves(init) + [] == MemberLeaves(init);
      } else {
        MemberLeavesSnoc(init, m);
      }
    }
  }

  lemma {:induction false} StripUriRest(v: Json)
    ensures Leaves(StripUri(v)) == Rest(IsUriPlace, Leaves(v))
  {
    match v
    case Object(members) => UriMembersRest(members);
    case Array(items) => ItemsKept(IsUriPlace, items);
    case Null =>
    case _ => assert [Leaf([], v)][..0] == [];
  }

  /** No place in an array starts with a key. */
  lemma {:induction false} ItemsKept(drop: Path -> bool, items: seq<Json>)
    requires forall i: nat, path: Path :: !drop([At(i)] + path)
    ensures Rest(drop, ItemLeaves(items)) == ItemLeaves(items)
    decreases |items|
  {
    if items != [] {
      var n := |items| - 1;
      ItemsKept(drop, items[..n]);
      hide Leaves, Rest;
      var none := (path: Path) => false;
      RestUnder(drop, none, At(n), Leaves(items[n]));
      RestOfNone(none, Leaves(items[n]));
      RestConcat(drop, ItemLeaves(items[..n]), Under(At(n), Leaves(items[n])));
    }
  }

  lemma {:induction false} MembersKept(drop: Path -> bool, members: seq<Member>)
    requires forall key: string, path: Path :: !drop([Key(key)] + path)
    ensures Rest(drop, MemberLeaves(members)) == MemberLeaves(members)
    decreases |members|
  {
    if members != [] {
      var n := |members| - 1;
      MembersKept(drop, members[..n]);
      hide Leaves, Rest;
      var none := (path: Path) => false;
      RestUnder(drop, none, Key(members[n].key), Leaves(members[n].value));
      RestOfNone(none, Leaves(members[n].value));
      RestConcat(drop, MemberLeaves(members[..n]), Under(Key(members[n].key), Leaves(members[n].value)));
    }
  }

  lemma {:induction false} UriItemsRest(items: seq<Json>)
    ensures ItemLeaves(StripUriItems(items)) == Rest(IsUrisPlace, ItemLeaves(items))
    decreases |items|
  {
    if items != [] {
      var n := |items| - 1;
      UriItemsRest(items[..n]);
      StripUriRest(items[n]);
      forall path: Path ensures IsUrisPlace([At(n)] + path) == IsUriPlace(path) { PathTail(At(n), path); }
      hide Leaves, Rest, IsUriPlace, IsUrisPlace, StripUri;
      RestUnder(IsUrisPlace, IsUriPlace, At(n), Leaves(items[n]));
      RestConcat(IsUrisPlace, ItemLeaves(items[..n]), Under(At(n), Leaves(items[n])));
      assert StripUriItems(items)[..n] == StripUriItems(items[..n]);
    }
  }

  lemma {:induction false} StripUrisRest(v: Json)
    ensures Leaves(StripUris(v)) == Rest(IsUrisPlace, Leaves(v))
  {
    match v
    case Array(items) => UriItemsRest(items);
    case Object(members) => MembersKept(IsUrisPlace, members);
    case Null =>
    case _ => assert [Leaf([], v)][..0] == [];
  }

  function LoginInner(key: string): Path -> bool {
    if key in LOGIN_KEYS then (path: Path) => true
    else if key == "uris" then IsUrisPlace
    else (path: Path) => false
  }

  lemma {:induction false} LoginMembersRest(members: seq<Member>)
    ensures MemberLeaves(StripLoginMembers(members)) == Rest(IsLoginPlace, MemberLeaves(members))
    decreases |members|
  {
    if members != [] {
      var n := |members| - 1;
      var m, init := members[n], StripLoginMembers(members[..n]);
      LoginMembersRest(members[..n]);
      StripUrisRest(m.value);
      var inner := LoginInner(m.key);
      forall path: Path ensures IsLoginPlace([Key(m.key)] + path) == inner(path) { PathTail(Key(m.key), path); }
      hide Leaves, Rest, IsLoginPlace, IsUrisPlace, StripUris;
      MemberRest(IsLoginPlace, inner, m);
      RestConcat(IsLoginPlace, MemberLeaves(members[..n]), Under(Key(m.key), Leaves(m.value)));
      if m.key in LOGIN_KEYS {
        assert init + [] == init && MemberLeaves(init) + [] == MemberLeaves(init);
      } else {
        MemberLeavesSnoc(init, if m.key == "uris" then Member(m.key, StripUris(m.value)) else m);
      }
    }
  }

  lemma {:induction false} StripLoginRest(v: Json)
    ensures Leaves(StripLogin(v)) == Rest(IsLoginPlace, Leaves(v))
  {
    match v
    case Object(members) => LoginMembersRest(members);
    case Array(items) => ItemsKept(IsLoginPlace, items);
    case Null =>
    case _ => assert [Leaf([], v)][..0] == [];
  }

  function ItemInner(key: string): Path -> bool {
    if key in MAPPED_KEYS then (path: Path) => true
    else if key == "login" then IsLoginPlace
    else (path: Path) => false
  }

  lemma {:induction false} StripMembersRest(members: seq<Member>)
    ensures MemberLeaves(StripMembers(members)) == Rest(IsMapped, MemberLeaves(members))
    decreases |members|
  {
    if members != [] {
      var n := |members| - 1;
      var m, init := members[n], StripMembers(members[..n]);
      StripMembersRest(members[..n]);
      StripLoginRest(m.value);
      var inner := ItemInner(m.key);
      forall path: Path ensures IsMapped([Key(m.key)] + path) == inner(path) { PathTail(Key(m.key), path); }
      hide Leaves, Rest, IsLoginPlace, IsMapped, StripLogin;
      MemberRest(IsMapped, inner, m);
      RestConcat(IsMapped, MemberLeaves(members[..n]), Under(Key(m.key), Leaves(m.value)));
      if m.key in MAPPED_KEYS {
        assert init + [] == init && MemberLeaves(init) + [] == MemberLeaves(init);
      } else {
        MemberLeavesSnoc(init, if m.key == "login" then Member(m.key, StripLogin(m.value)) else m);
      }
    }
  }

  /** Stripping removes exactly the leaves at mapped places. */
  lemma {:induction false} StripRest(v: Json)
    ensures Leaves(Strip(v)) == Rest(IsMapped, Leaves(v))
  {
    match v
    case Object(members) => StripMembersRest(members);
    case Array(items) => ItemsKept(IsMapped, items);
    case Null =>
    case _ => assert [Leaf([], v)][..0] == [];
  }

  // ---- The decision ----

  function ValueAt(v: Json, key: string): Json {
    match Get(v, key) case Some(x) => x case None => Null
  }

  predicate IsPlainText(v: Json) {
    v.Null? || v.String?
  }

  predicate HasOtherKeys(v: Json, keys: set<string>) {
    v.Object? && exists i :: 0 <= i < |v.members| && v.members[i].key !in keys
  }

  predicate IsUnusualField(field: Json) {
    || !ValueAt(field, "name").String?
    || !IsPlainText(ValueAt(field, "value"))
    || HasOtherKeys(field, {"name", "value", "type", "linkedId"})
  }

  predicate HasUnusualField(fields: Json) {
    fields.Array? && exists i :: 0 <= i < |fields.items| && IsUnusualField(fields.items[i])
  }

  predicate HasStructuredValue(v: Json) {
    v.Object? && exists i :: 0 <= i < |v.members| && !IsPlainText(v.members[i].value)
  }

  /** Known keys that hold something the item cannot express. */
  predicate IsUnusual(v: Json) {
    || (AsU64(ValueAt(v, "type")).Some? && !(1 <= AsU64(ValueAt(v, "type")).value <= 4))
    || HasUnusualField(ValueAt(v, "fields"))
    || HasStructuredValue(ValueAt(v, "card"))
    || HasStructuredValue(ValueAt(v, "identity"))
  }

  predicate KeepsSource(original: Json) {
    Prune(Strip(original)) != Object([]) || IsUnusual(original)
  }

  lemma {:induction false} RestEmpty(drop: Path -> bool, leaves: seq<Leaf>)
    ensures Rest(drop, leaves) == [] <==> forall i :: 0 <= i < |leaves| ==> drop(leaves[i].path)
    decreases |leaves|
  {
    if leaves != [] {
      var n := |leaves| - 1;
      RestEmpty(drop, leaves[..n]);
      assert forall i :: 0 <= i < n ==> leaves[..n][i] == leaves[i];
    }
  }

  // ---- What is usual ----

  predicate IsUsualEntry(entry: Json) {
    && ValueAt(entry, "name").String? && (ValueAt(entry, "value").Null? || ValueAt(entry, "value").String?)
    && (entry.Object? ==>
          forall m :: m in entry.members ==>
            m.key == "name" || m.key == "value" || m.key == "type" || m.key == "linkedId")
  }

  predicate OnlyTexts(v: Json) {
    v.Object? ==> forall m :: m in v.members ==> m.value.Null? || m.value.String?
  }

  /** A type that is a number is one of the four, entries have a text as name, a text or nothing as value and
      no other keys, and a card and an identity hold texts or nothing. */
  predicate IsUsual(v: Json) {
    && (match AsU64(ValueAt(v, "type")) case None => true case Some(n) => n == 1 || n == 2 || n == 3 || n == 4)
    && (ValueAt(v, "fields").Array? ==>
          forall entry :: entry in ValueAt(v, "fields").items ==> IsUsualEntry(entry))
    && OnlyTexts(ValueAt(v, "card")) && OnlyTexts(ValueAt(v, "identity"))
  }

  lemma {:induction false} EntryExactly(entry: Json)
    ensures IsUsualEntry(entry) <==> !IsUnusualField(entry)
  {
    hide ValueAt;
    if entry.Object? {
      assert forall i :: 0 <= i < |entry.members| ==> entry.members[i] in entry.members;
    }
  }

  lemma {:induction false} TextsExactly(v: Json)
    ensures OnlyTexts(v) <==> !HasStructuredValue(v)
  {
    if v.Object? {
      assert forall i :: 0 <= i < |v.members| ==> v.members[i] in v.members;
    }
  }

  lemma {:induction false} EntriesExactly(fields: Json)
    ensures !HasUnusualField(fields)
            <==> (fields.Array? ==> forall entry :: entry in fields.items ==> IsUsualEntry(entry))
  {
    hide IsUsualEntry, IsUnusualField;
    if fields.Array? {
      forall i | 0 <= i < |fields.items| ensures IsUsualEntry(fields.items[i]) <==> !IsUnusualField(fields.items[i]) {
        EntryExactly(fields.items[i]);
      }
      assert forall i :: 0 <= i < |fields.items| ==> fields.items[i] in fields.items;
    }
  }

  lemma {:induction false} UsualExactly(v: Json)
    ensures IsUsual(v) <==> !IsUnusual(v)
  {
    hide ValueAt, HasUnusualField, HasStructuredValue, OnlyTexts, IsUsualEntry;
    EntriesExactly(ValueAt(v, "fields"));
    TextsExactly(ValueAt(v, "card"));
    TextsExactly(ValueAt(v, "identity"));
  }

  /** The original of an object item is dropped exactly when everything in it is
      usual, every non-null scalar in it is at a mapped place, and what remains
      has no array directly inside an array. */
  lemma {:induction false} DroppedExactly(original: Json)
    requires original.Object?
    ensures !KeepsSource(original)
            <==> && IsUsual(original)
                 && (forall i :: 0 <= i < |Leaves(original)| ==> IsMapped(Leaves(original)[i].path))
                 && !HasNestedArray(Strip(original))
  {
    var stripped := Strip(original);
    assert IsHollow(Prune(stripped)) <==> Prune(stripped) == Object([]);
    hide Prune, Strip, Leaves, IsUnusual, IsUsual, HasNestedArray, Rest, IsMapped;
    UsualExactly(original);
    HollowExactly(stripped);
    StripRest(original);
    RestEmpty(IsMapped, Leaves(original));
  }

  /** The mapped places: ten keys of the item, three of its login, and the text of each of its addresses. */
  predicate IsListed(path: Path) {
    && path != [] && path[0].Key?
    && var key := path[0].key;
       || key == "id" || key == "name" || key == "type" || key == "notes" || key == "favorite" || key == "folderId"
       || key == "fields" || key == "card" || key == "identity" || key == "secureNote"
       || (key == "login" && |path| >= 2 && (path[1] == Key("username") || path[1] == Key("password")
                                             || path[1] == Key("totp")))
       || (key == "login" && |path| >= 4 && path[1] == Key("uris") && path[2].At? && path[3] == Key("uri"))
  }

  lemma {:induction false} MappedExactly(path: Path)
    ensures IsMapped(path) <==> IsListed(path)
  {
    assert |path| >= 2 ==> path[1..][0] == path[1];
    assert |path| >= 3 ==> path[1..][1..][0] == path[2];
    assert |path| >= 4 ==> path[1..][1..][1..][0] == path[3];
  }

  /** Whatever scalar a dropped original held was under a mapped key. */
  lemma {:induction false} DroppedIsMapped(original: Json, leaf: Leaf)
    requires !KeepsSource(original) && leaf in Leaves(original)
    ensures IsMapped(leaf.path) && IsListed(leaf.path)
  {
    MappedExactly(leaf.path);
    assert original.Object?;
    hide KeepsSource, Leaves, IsMapped, IsListed;
    DroppedExactly(original);
  }

  /** Structure alone can keep the original: an array inside an array is never pruned. */
  lemma {:induction false} EmptyNestedArrayIsKept()
    ensures var v := Object([Member("x", Array([Array([])]))]);
            Leaves(v) == [] && KeepsSource(v)
  {
    var inner := Array([]);
    var nested := Array([inner]);
    var members := [Member("x", nested)];
    assert [inner][..0] == [] && members[..0] == [];
    assert ItemsHaveNestedArray([inner]);
    assert MembersHaveNestedArray(members);
    assert StripMembers(members) == [] + members;
    assert ItemLeaves([inner]) == ItemLeaves([]) + Under(At(0), Leaves(inner));
    assert Leaves(nested) == [];
    assert MemberLeaves(members) == MemberLeaves([]) + Under(Key("x"), Leaves(nested));
    DroppedExactly(Object(members));
  }
}
