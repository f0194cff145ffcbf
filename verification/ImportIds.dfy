/** Replacement of repeated or unusable source ids during an import. */
module ImportIds {
  import opened Seqs
  import opened Utf8
  import opened Text
  import opened Items

  /** SHA-256 over a prefix, the original id and a 64-bit occurrence number. */
  type Digest = (string, u64) -> seq<byte>

  /** What the search relies on: 32 bytes, and different bytes for the different
      occurrence numbers of one id. */
  ghost predicate Usable(digest: Digest) {
    && (forall id: string, n: u64 :: |digest(id, n)| == 32)
    && (forall id: string, m: u64, n: u64 :: digest(id, m) == digest(id, n) ==> m == n)
  }

  /** The longest list that can be held in memory, whose length is a signed 64-bit number. */
  const MAX_LENGTH: nat := 0x7FFF_FFFF_FFFF_FFFF

  // ---- There are such digests ----

  /** The last `k` bytes of a number, most significant first. */
  function BigEndian(n: nat, k: nat): (r: seq<byte>)
    ensures |r| == k
  {
    if k == 0 then [] else BigEndian(n / 256, k - 1) + [n % 256]
  }

  function FromBigEndian(b: seq<byte>): nat {
    if b == [] then 0 else FromBigEndian(b[..|b| - 1]) * 256 + b[|b| - 1]
  }

  function Power256(k: nat): nat {
    if k == 0 then 1 else 256 * Power256(k - 1)
  }

  lemma {:induction false} BigEndianReads(n: nat, k: nat)
    requires n < Power256(k)
    ensures FromBigEndian(BigEndian(n, k)) == n
  {
    if k > 0 {
      BigEndianReads(n / 256, k - 1);
      assert BigEndian(n, k)[..k - 1] == BigEndian(n / 256, k - 1);
    }
  }

  /** An occurrence number written out and padded to 32 bytes. */
  function Padded(id: string, n: u64): seq<byte> {
    BigEndian(n, 32)
  }

  /** The assumption can be met. */
  lemma {:induction false} PaddedIsUsable()
    ensures Usable(Padded)
  {
    assert U64_LIMIT <= Power256(32) by { PowerGrows(8, 32); }
    forall id: string, m: u64, n: u64 | Padded(id, m) == Padded(id, n)
      ensures m == n
    {
      BigEndianReads(m, 32);
      BigEndianReads(n, 32);
    }
  }

  lemma {:induction false} PowerGrows(j: nat, k: nat)
    requires j <= k
    ensures Power256(j) <= Power256(k)
    ensures Power256(8) == U64_LIMIT
  {
    if j < k {
      PowerGrows(j, k - 1);
    }
    assert Power256(4) == 0x1_0000_0000;
  }

  // ---- Candidates ----

  function HexDigit(n: int): char
    requires 0 <= n < 16
  {
    if n < 10 then ('0' as int + n) as char else ('a' as int + n - 10) as char
  }

  function Hex(bytes: seq<byte>): (s: string)
    ensures |s| == 2 * |bytes|
    ensures forall i :: 0 <= i < |bytes| ==>
      s[2 * i] == HexDigit(bytes[i] / 16) && s[2 * i + 1] == HexDigit(bytes[i] % 16)
  {
    if bytes == [] then []
    else Hex(bytes[..|bytes| - 1]) + [HexDigit(bytes[|bytes| - 1] / 16), HexDigit(bytes[|bytes| - 1] % 16)]
  }

  lemma {:induction false} HexDigitInjective(m: int, n: int)
    requires 0 <= m < 16 && 0 <= n < 16 && HexDigit(m) == HexDigit(n)
    ensures m == n
  {
  }

  lemma {:induction false} HexInjective(a: seq<byte>, b: seq<byte>)
    requires Hex(a) == Hex(b)
    ensures a == b
  {
    assert |a| == |b|;
    forall i | 0 <= i < |a|
      ensures a[i] == b[i]
    {
      HexDigitInjective(a[i] / 16, b[i] / 16);
      HexDigitInjective(a[i] % 16, b[i] % 16);
    }
  }

  const PREFIX: string := "duplicate-"

  function Candidate(digest: Digest, original: string, occurrence: u64): string {
    PREFIX + Hex(digest(original, occurrence))
  }

  /** Ids usable as a storage address. */
  predicate HasStorageId(id: string) {
    id != "" && |Encode(id)| <= 1024 && forall i :: 0 <= i < |id| ==> !IsControl(id[i])
  }

  /** An id can be stored exactly when it is 1 to 1024 bytes of UTF-8 without a control character. */
  lemma {:induction false} StorableExactly(id: string)
    ensures HasStorageId(id) <==>
            && 1 <= |Encode(id)| <= 1024
            && forall c :: c in id ==> 0x20 <= c as int < 0x7F || 0xA0 <= c as int
  {
    assert id != "" <==> |Encode(id)| >= 1 by {
      if id != "" { assert Encode(id) == EncodeChar(id[0]) + Encode(id[1..]); }
    }
    hide Encode;
    assert forall i :: 0 <= i < |id| ==> id[i] in id;
    assert forall c: char :: IsControl(c) <==> !(0x20 <= c as int < 0x7F || 0xA0 <= c as int);
  }

  lemma {:induction false} AsciiLength(s: string)
    requires forall i :: 0 <= i < |s| ==> s[i] as int < 0x80
    ensures |Encode(s)| == |s|
  {
    if s != [] {
      AsciiLength(s[1..]);
    }
  }

  /** Every candidate is a usable id. */
  lemma {:induction false} CandidateUsable(digest: Digest, original: string, occurrence: u64)
    requires Usable(digest)
    ensures HasStorageId(Candidate(digest, original, occurrence))
  {
    var hex := Hex(digest(original, occurrence));
    var c := Candidate(digest, original, occurrence);
    forall i | 0 <= i < |c|
      ensures 0x20 <= c[i] as int < 0x7F
    {
      if i >= |PREFIX| {
        var k := i - |PREFIX|;
        assert c[i] == hex[k] && k == 2 * (k / 2) + k % 2;
        assert hex[k] == HexDigit(if k % 2 == 0 then digest(original, occurrence)[k / 2] / 16
                                  else digest(original, occurrence)[k / 2] % 16);
      }
    }
    AsciiLength(c);
  }

  lemma {:induction false} CandidateInjective(digest: Digest, original: string, m: u64, n: u64)
    requires Usable(digest) && Candidate(digest, original, m) == Candidate(digest, original, n)
    ensures m == n
  {
    var a, b := Hex(digest(original, m)), Hex(digest(original, n));
    assert a == (PREFIX + a)[|PREFIX|..] && b == (PREFIX + b)[|PREFIX|..];
    HexInjective(digest(original, m), digest(original, n));
  }

  /** The reserved ids that are candidates from occurrence `n` on. */
  ghost function Taken(digest: Digest, original: string, reserved: set<string>, n: u64): set<string> {
    set c | c in reserved && exists m: u64 :: m >= n && Candidate(digest, original, m) == c
  }

  lemma {:induction false} TakenShrinks(digest: Digest, original: string, reserved: set<string>, n: u64)
    requires Usable(digest) && Candidate(digest, original, n) in reserved && n + 1 < U64_LIMIT
    ensures Taken(digest, original, reserved, n + 1) < Taken(digest, original, reserved, n)
    ensures |Taken(digest, original, reserved, n + 1)| < |Taken(digest, original, reserved, n)|
  {
    hide Candidate, Usable;
    var c := Candidate(digest, original, n);
    var next, now := Taken(digest, original, reserved, n + 1), Taken(digest, original, reserved, n);
    assert c in now;
    if c in next {
      var m: u64 :| m >= n + 1 && Candidate(digest, original, m) == c;
      CandidateInjective(digest, original, m, n);
    }
    SubsetSmaller(next, now);
  }

  lemma {:induction false} TakenSome(digest: Digest, original: string, reserved: set<string>, n: u64)
    requires Candidate(digest, original, n) in reserved
    ensures |Taken(digest, original, reserved, n)| > 0
  {
    assert Candidate(digest, original, n) in Taken(digest, original, reserved, n);
  }

  lemma {:induction false} TakenReserved(digest: Digest, original: string, reserved: set<string>, n: u64)
    ensures |Taken(digest, original, reserved, n)| <= |reserved|
  {
    SubsetAtMost(Taken(digest, original, reserved, n), reserved);
  }

  lemma {:induction false} TakenStep(digest: Digest, original: string, reserved: set<string>, n: u64)
    requires Usable(digest) && Candidate(digest, original, n) in reserved
    requires n + |Taken(digest, original, reserved, n)| < U64_LIMIT
    ensures n + 1 < U64_LIMIT && |Taken(digest, original, reserved, n + 1)| < |Taken(digest, original, reserved, n)|
  {
    hide Candidate, Usable, Taken;
    TakenSome(digest, original, reserved, n);
    TakenShrinks(digest, original, reserved, n);
  }

  /** The first occurrence number from `n` on whose candidate is not reserved. It is
      reached before the numbers run out. */
  function FirstFree(digest: Digest, original: string, reserved: set<string>, n: u64): (r: u64)
    requires Usable(digest) && n + |Taken(digest, original, reserved, n)| < U64_LIMIT
    ensures n <= r <= n + |Taken(digest, original, reserved, n)|
    ensures Candidate(digest, original, r) !in reserved
    ensures forall m: u64 :: n <= m < r ==> Candidate(digest, original, m) in reserved
    decreases |Taken(digest, original, reserved, n)|
  {
    if Candidate(digest, original, n) !in reserved then n
    else
      TakenStep(digest, original, reserved, n);
      FirstFree(digest, original, reserved, n + 1)
  }

  /** The search of the repair starts at the second occurrence. */
  function Replacement(digest: Digest, original: string, reserved: set<string>): (id: string)
    requires Usable(digest) && |reserved| + 2 < U64_LIMIT
    ensures id !in reserved
  {
    TakenReserved(digest, original, reserved, 2);
    Candidate(digest, original, FirstFree(digest, original, reserved, 2))
  }

  // ---- The repair ----

  predicate Keeps(id: string, seen: set<string>) {
    id !in seen && HasStorageId(id)
  }

  /** Every remaining item can still reserve an id within the occurrence numbers. */
  predicate HasRoom(items: seq<PersonalSecret>, reserved: set<string>) {
    |reserved| + |items| + 1 < U64_LIMIT
  }

  function RepairFrom(digest: Digest, items: seq<PersonalSecret>, reserved: set<string>, seen: set<string>)
    : (out: seq<PersonalSecret>)
    requires Usable(digest) && HasRoom(items, reserved)
    ensures |out| == |items|
  {
    if items == [] then []
    else
      var item, seen' := items[0], seen + {items[0].id};
      if Keeps(item.id, seen) then
        [item] + RepairFrom(digest, items[1..], reserved, seen')
      else
        var id := Replacement(digest, item.id, reserved);
        [item.(id := id)] + RepairFrom(digest, items[1..], reserved + {id}, seen')
  }

  function Ids(items: seq<PersonalSecret>): set<string> {
    set i | 0 <= i < |items| :: items[i].id
  }

  lemma {:induction false} IdsAtMost(items: seq<PersonalSecret>)
    ensures |Ids(items)| <= |items|
  {
    if items != [] {
      var n := |items| - 1;
      IdsAtMost(items[..n]);
      assert Ids(items) == Ids(items[..n]) + {items[n].id} by {
        forall x | x in Ids(items)
          ensures x in Ids(items[..n]) + {items[n].id}
        {
          var k :| 0 <= k < |items| && items[k].id == x;
          assert k < n ==> items[..n][k].id == x;
        }
        forall x | x in Ids(items[..n])
          ensures x in Ids(items)
        {
          var k :| 0 <= k < n && items[..n][k].id == x;
          assert items[k].id == x;
        }
      }
    }
  }

  function Repaired(digest: Digest, items: seq<PersonalSecret>): (out: seq<PersonalSecret>)
    requires Usable(digest) && |items| <= MAX_LENGTH
    ensures |out| == |items|
  {
    IdsAtMost(items);
    RepairFrom(digest, items, Ids(items), {})
  }

  /** The search loop. It looks at no more than one candidate per reserved id before it
      succeeds, so its counter does not overflow. */
  method FindFree(digest: Digest, original: string, reserved: set<string>) returns (occurrence: u64)
    requires Usable(digest) && |reserved| + 2 < U64_LIMIT
    ensures Candidate(digest, original, occurrence) == Replacement(digest, original, reserved)
    ensures 2 <= occurrence <= 2 + |reserved|
    ensures forall m: u64 :: 2 <= m < occurrence ==> Candidate(digest, original, m) in reserved
  {
    hide Candidate, Usable;
    TakenReserved(digest, original, reserved, 2);
    occurrence := 2;
    while Candidate(digest, original, occurrence) in reserved
      invariant 2 <= occurrence && occurrence + |Taken(digest, original, reserved, occurrence)| <= 2 + |reserved|
      invariant FirstFree(digest, original, reserved, 2) == FirstFree(digest, original, reserved, occurrence)
      decreases |Taken(digest, original, reserved, occurrence)|
    {
      TakenSome(digest, original, reserved, occurrence);
      TakenShrinks(digest, original, reserved, occurrence);
      occurrence := occurrence + 1;
    }
  }

  lemma {:induction false} RepairStep(digest: Digest, items: seq<PersonalSecret>, i: nat, reserved: set<string>,
      seen: set<string>)
    requires Usable(digest) && i < |items| && HasRoom(items[i..], reserved)
    ensures var item, seen' := items[i], seen + {items[i].id};
            RepairFrom(digest, items[i..], reserved, seen)
            == if Keeps(item.id, seen) then
                 [item] + RepairFrom(digest, items[i + 1..], reserved, seen')
               else
                 var id := Replacement(digest, item.id, reserved);
                 [item.(id := id)] + RepairFrom(digest, items[i + 1..], reserved + {id}, seen')
  {
    hide Keeps, Replacement;
    assert items[i..][1..] == items[i + 1..];
  }

  /** The repair in place: every item is visited once, in order. */
  method RepairIds(digest: Digest, items: array<PersonalSecret>)
    requires Usable(digest) && items.Length <= MAX_LENGTH
    modifies items
    ensures items[..] == Repaired(digest, old(items[..]))
  {
    hide Keeps, Candidate, Replacement, RepairFrom, Usable;
    ghost var was := items[..];
    IdsAtMost(was);
    var reserved := Ids(items[..]);
    var seen := {};
    assert [] + RepairFrom(digest, was, reserved, seen) == Repaired(digest, was);
    assert was[0..] == was;
    for i := 0 to items.Length
      invariant items[i..] == was[i..] && HasRoom(was[i..], reserved)
      invariant items[..i] + RepairFrom(digest, was[i..], reserved, seen) == Repaired(digest, was)
    {
      var item := items[i];
      ghost var done := items[..i];
      assert was[i] == was[i..][0] == items[i..][0] == item;
      RepairStep(digest, was, i, reserved, seen);
      if Keeps(item.id, seen) {
      } else {
        var occurrence := FindFree(digest, item.id, reserved);
        var id := Candidate(digest, item.id, occurrence);
        reserved := reserved + {id};
        items[i] := item.(id := id);
      }
      seen := seen + {item.id};
      ConcatAssociative(done, [items[i]], RepairFrom(digest, was[i + 1..], reserved, seen));
      assert items[..i + 1] == done + [items[i]];
      assert items[i + 1..] == items[i..][1..] == was[i..][1..] == was[i + 1..];
    }
    assert was[items.Length..] == [];
    NothingLeft(digest, reserved, seen);
    assert items[..] == items[..items.Length] + [];
  }

  lemma {:induction false} NothingLeft(digest: Digest, reserved: set<string>, seen: set<string>)
    requires Usable(digest) && HasRoom([], reserved)
    ensures RepairFrom(digest, [], reserved, seen) == []
  {
  }

  // ---- What the repair guarantees ----

  predicate DistinctIds(items: seq<PersonalSecret>) {
    forall i, j :: 0 <= i < j < |items| ==> items[i].id != items[j].id
  }

  /** A usable id that neither an earlier item nor an already seen one has. */
  predicate IsFirst(items: seq<PersonalSecret>, seen: set<string>, i: nat)
    requires i < |items|
  {
    items[i].id !in seen && HasStorageId(items[i].id) && forall j :: 0 <= j < i ==> items[j].id != items[i].id
  }

  /** One item after the repair: itself if its id is its own, and otherwise itself
      under an id that was free. */
  predicate RepairedItem(items: seq<PersonalSecret>, out: seq<PersonalSecret>, reserved: set<string>,
      seen: set<string>, i: nat)
    requires i < |items| == |out|
  {
    && out[i] == items[i].(id := out[i].id)
    && HasStorageId(out[i].id)
    && (IsFirst(items, seen, i) ==> out[i].id == items[i].id)
    && (!IsFirst(items, seen, i) ==> out[i].id !in reserved)
  }

  lemma {:induction false} IsFirstTail(items: seq<PersonalSecret>, seen: set<string>, i: nat)
    requires 0 < i < |items|
    ensures IsFirst(items, seen, i) <==> IsFirst(items[1..], seen + {items[0].id}, i - 1)
  {
    hide HasStorageId;
    var tail := items[1..];
    assert tail[i - 1] == items[i];
    assert forall j :: 1 <= j < i ==> tail[j - 1] == items[j];
    if IsFirst(tail, seen + {items[0].id}, i - 1) {
      forall j | 0 <= j < i
        ensures items[j].id != items[i].id
      {
        if j > 0 { assert tail[j - 1].id != items[i].id; }
      }
    }
  }

  /** A later item fares in the whole list as it does in the rest of the list. */
  lemma {:induction false} LaterItem(items: seq<PersonalSecret>, rest: seq<PersonalSecret>, reserved: set<string>,
                                     seen: set<string>, id: string, i: nat)
    requires 0 < i < |items| == |rest| + 1
    requires Ids(items) <= reserved
    requires if IsFirst(items, seen, 0) then id == items[0].id else id !in reserved
    requires RepairedItem(items[1..], rest, reserved + {id}, seen + {items[0].id}, i - 1)
    ensures RepairedItem(items, [items[0].(id := id)] + rest, reserved, seen, i)
    ensures rest[i - 1].id != id
  {
    hide HasStorageId, IsFirst;
    assert items[1..][i - 1] == items[i];
    assert items[i].id in Ids(items) && items[0].id in Ids(items);
    IsFirstTail(items, seen, i);
    assert IsFirst(items, seen, i) ==> items[i].id != items[0].id by { FirstDiffers(items, seen, i); }
  }

  lemma {:induction false} FirstDiffers(items: seq<PersonalSecret>, seen: set<string>, i: nat)
    requires 0 < i < |items|
    ensures IsFirst(items, seen, i) ==> items[i].id != items[0].id
  {
  }

  lemma {:induction false} ReplacementUsable(digest: Digest, original: string, reserved: set<string>)
    requires Usable(digest) && |reserved| + 2 < U64_LIMIT
    ensures HasStorageId(Replacement(digest, original, reserved))
  {
    hide HasStorageId, Candidate, Usable;
    TakenReserved(digest, original, reserved, 2);
    CandidateUsable(digest, original, FirstFree(digest, original, reserved, 2));
  }

  /** The first item of the list is repaired against the reserved ids alone. */
  lemma {:induction false} RepairHead(digest: Digest, items: seq<PersonalSecret>, reserved: set<string>,
      seen: set<string>)
    returns (id: string)
    requires Usable(digest) && items != [] && Ids(items) <= reserved && HasRoom(items, reserved)
    ensures HasRoom(items[1..], reserved + {id})
    ensures RepairFrom(digest, items, reserved, seen)
            == [items[0].(id := id)] + RepairFrom(digest, items[1..], reserved + {id}, seen + {items[0].id})
    ensures HasStorageId(id)
    ensures if IsFirst(items, seen, 0) then id == items[0].id else id !in reserved
  {
    hide HasStorageId, Candidate, Usable;
    var item := items[0];
    assert items[0].id in Ids(items);
    if Keeps(item.id, seen) {
      id := item.id;
      assert reserved + {id} == reserved;
    } else {
      id := Replacement(digest, item.id, reserved);
      ReplacementUsable(digest, item.id, reserved);
    }
  }

  lemma {:induction false} IdsOfTail(items: seq<PersonalSecret>)
    requires items != []
    ensures Ids(items[1..]) <= Ids(items)
  {
    var tail := items[1..];
    forall x | x in Ids(tail)
      ensures x in Ids(items)
    {
      var k :| 0 <= k < |tail| && tail[k].id == x;
      assert items[k + 1].id == x;
    }
  }

  lemma {:induction false} RepairFromKeeps(digest: Digest, items: seq<PersonalSecret>, reserved: set<string>,
      seen: set<string>)
    requires Usable(digest) && HasRoom(items, reserved)
    requires Ids(items) <= reserved
    ensures var out := RepairFrom(digest, items, reserved, seen);
            && (forall i :: 0 <= i < |items| ==> RepairedItem(items, out, reserved, seen, i))
            && DistinctIds(out)
    decreases |items|
  {
    if items != [] {
      hide HasStorageId, Usable, IsFirst, Ids, RepairFrom;
      IdsOfTail(items);
      var seen' := seen + {items[0].id};
      var id := RepairHead(digest, items, reserved, seen);
      var rest := RepairFrom(digest, items[1..], reserved + {id}, seen');
      var out := [items[0].(id := id)] + rest;
      RepairFromKeeps(digest, items[1..], reserved + {id}, seen');
      forall i | 0 <= i < |items|
        ensures RepairedItem(items, out, reserved, seen, i) && (i > 0 ==> out[i].id != id)
      {
        if i > 0 {
          assert RepairedItem(items[1..], rest, reserved + {id}, seen', i - 1);
          hide RepairedItem, DistinctIds;
          LaterItem(items, rest, reserved, seen, id, i);
        }
      }
      AllDistinct(items[0].(id := id), rest);
    }
  }

  lemma {:induction false} AllDistinct(first: PersonalSecret, rest: seq<PersonalSecret>)
    requires DistinctIds(rest)
    requires forall i :: 0 < i < |[first] + rest| ==> ([first] + rest)[i].id != first.id
    ensures DistinctIds([first] + rest)
  {
    var out := [first] + rest;
    forall i, j | 0 <= i < j < |out|
      ensures out[i].id != out[j].id
    {
      if i > 0 { assert out[i] == rest[i - 1] && out[j] == rest[j - 1]; }
    }
  }

  /** After the repair all ids are distinct and usable; order and all other content
      are kept; the first item with a usable id keeps it; and a replacement id is
      none of the ids the import started with. */
  lemma {:induction false} RepairGuarantees(digest: Digest, items: seq<PersonalSecret>)
    requires Usable(digest) && |items| <= MAX_LENGTH
    ensures var out := Repaired(digest, items);
            && DistinctIds(out)
            && (forall i :: 0 <= i < |items| ==> RepairedItem(items, out, Ids(items), {}, i))
  {
    IdsAtMost(items);
    RepairFromKeeps(digest, items, Ids(items), {});
  }

  lemma {:induction false} NothingToRepair(digest: Digest, items: seq<PersonalSecret>, reserved: set<string>,
      seen: set<string>)
    requires Usable(digest) && DistinctIds(items) && HasRoom(items, reserved)
    requires forall i :: 0 <= i < |items| ==> HasStorageId(items[i].id) && items[i].id !in seen
    ensures RepairFrom(digest, items, reserved, seen) == items
    decreases |items|
  {
    hide HasStorageId, Usable;
    if items != [] {
      var tail := items[1..];
      assert forall i :: 0 <= i < |tail| ==> tail[i] == items[i + 1];
      NothingToRepair(digest, tail, reserved, seen + {items[0].id});
      assert [items[0]] + tail == items;
    }
  }

  /** The repair changes nothing exactly when the ids are distinct and usable. */
  lemma {:induction false} UnchangedExactly(digest: Digest, items: seq<PersonalSecret>)
    requires Usable(digest) && |items| <= MAX_LENGTH
    ensures Repaired(digest, items) == items
            <==> DistinctIds(items) && forall i :: 0 <= i < |items| ==> HasStorageId(items[i].id)
  {
    hide HasStorageId, Usable, RepairFrom, IsFirst;
    AllUsable(digest, items);
    if DistinctIds(items) && forall i :: 0 <= i < |items| ==> HasStorageId(items[i].id) {
      IdsAtMost(items);
      NothingToRepair(digest, items, Ids(items), {});
    }
  }

  lemma {:induction false} AllUsable(digest: Digest, items: seq<PersonalSecret>)
    requires Usable(digest) && |items| <= MAX_LENGTH
    ensures var out := Repaired(digest, items);
            DistinctIds(out) && forall i :: 0 <= i < |out| ==> HasStorageId(out[i].id)
  {
    hide HasStorageId, Usable, RepairFrom, IsFirst;
    RepairGuarantees(digest, items);
    var out := Repaired(digest, items);
    forall i | 0 <= i < |out|
      ensures HasStorageId(out[i].id)
    {
      assert RepairedItem(items, out, Ids(items), {}, i);
    }
  }

  /** Repairing a second time changes nothing. */
  lemma {:induction false} RepairIdempotent(digest: Digest, items: seq<PersonalSecret>)
    requires Usable(digest) && |items| <= MAX_LENGTH
    ensures Repaired(digest, Repaired(digest, items)) == Repaired(digest, items)
  {
    hide *;
    AllUsable(digest, items);
    UnchangedExactly(digest, Repaired(digest, items));
  }

  // ---- Which replacement ----

  /** A replacement id is a fixed word and 64 hexadecimal digits. */
  lemma {:induction false} CandidateForm(digest: Digest, original: string, n: u64)
    requires Usable(digest)
    ensures var c := Candidate(digest, original, n);
            && |c| == 74 && c[..10] == "duplicate-"
            && forall i :: 10 <= i < 74 ==> '0' <= c[i] <= '9' || 'a' <= c[i] <= 'f'
  {
    var c, hex := Candidate(digest, original, n), Hex(digest(original, n));
    assert |digest(original, n)| == 32;
    assert c == "duplicate-" + hex;
    forall i | 10 <= i < 74 ensures '0' <= c[i] <= '9' || 'a' <= c[i] <= 'f' {
      var k := (i - 10) / 2;
      assert hex[2 * k] == HexDigit(digest(original, n)[k] / 16);
      assert hex[2 * k + 1] == HexDigit(digest(original, n)[k] % 16);
      assert c[i] == hex[i - 10] && (i - 10 == 2 * k || i - 10 == 2 * k + 1);
    }
  }

  /** The candidate of the least occurrence number, from the second on, that is not used. */
  ghost predicate IsLeastFree(digest: Digest, original: string, id: string, used: set<string>) {
    exists n: u64 :: n >= 2 && id == Candidate(digest, original, n) && id !in used && AllUsed(digest, original, n, used)
  }

  ghost predicate AllUsed(digest: Digest, original: string, n: u64, used: set<string>) {
    forall m: u64 :: 2 <= m < n ==> Candidate(digest, original, m) in used
  }

  lemma {:induction false} ReplacementLeast(digest: Digest, original: string, reserved: set<string>)
    requires Usable(digest) && |reserved| + 2 < U64_LIMIT
    ensures IsLeastFree(digest, original, Replacement(digest, original, reserved), reserved)
  {
    hide Candidate, Usable;
    TakenReserved(digest, original, reserved, 2);
    var n := FirstFree(digest, original, reserved, 2);
    assert AllUsed(digest, original, n, reserved);
  }

  lemma {:induction false} HeadLeast(digest: Digest, items: seq<PersonalSecret>, reserved: set<string>,
                                     seen: set<string>)
    returns (id: string)
    requires Usable(digest) && items != [] && Ids(items) <= reserved && HasRoom(items, reserved)
    ensures HasRoom(items[1..], reserved + {id})
    ensures RepairFrom(digest, items, reserved, seen)
            == [items[0].(id := id)] + RepairFrom(digest, items[1..], reserved + {id}, seen + {items[0].id})
    ensures !IsFirst(items, seen, 0) ==> IsLeastFree(digest, items[0].id, id, reserved)
  {
    hide HasStorageId, Candidate, Usable, IsLeastFree;
    id := RepairHead(digest, items, reserved, seen);
    if !IsFirst(items, seen, 0) {
      ReplacementLeast(digest, items[0].id, reserved);
      assert !Keeps(items[0].id, seen);
      assert RepairFrom(digest, items, reserved, seen)[0].id == Replacement(digest, items[0].id, reserved);
      assert id == RepairFrom(digest, items, reserved, seen)[0].id;
    }
  }

  lemma {:induction false} IdsSplit(a: seq<PersonalSecret>, b: seq<PersonalSecret>)
    ensures Ids(a + b) == Ids(a) + Ids(b)
  {
    forall x | x in Ids(a + b) ensures x in Ids(a) + Ids(b) {
      var k :| 0 <= k < |a + b| && (a + b)[k].id == x;
      assert k < |a| ==> a[k].id == x;
      assert k >= |a| ==> b[k - |a|].id == x;
    }
    forall x | x in Ids(a) + Ids(b) ensures x in Ids(a + b) {
      if x in Ids(a) {
        var k :| 0 <= k < |a| && a[k].id == x;
        assert (a + b)[k].id == x;
      } else {
        var k :| 0 <= k < |b| && b[k].id == x;
        assert (a + b)[|a| + k].id == x;
      }
    }
  }

  lemma {:induction false} UsedAfterHead(first: PersonalSecret, rest: seq<PersonalSecret>, reserved: set<string>,
                                         i: nat)
    requires 0 < i <= |rest| + 1
    ensures reserved + Ids(([first] + rest)[..i]) == reserved + {first.id} + Ids(rest[..i - 1])
  {
    assert ([first] + rest)[..i] == [first] + rest[..i - 1];
    IdsSplit([first], rest[..i - 1]);
    assert [first][0].id == first.id && Ids([first]) == {first.id};
  }

  lemma {:induction false} RepairFromLeast(digest: Digest, items: seq<PersonalSecret>, reserved: set<string>,
                                           seen: set<string>, i: nat)
    requires Usable(digest) && HasRoom(items, reserved) && Ids(items) <= reserved
    requires i < |items| && !IsFirst(items, seen, i)
    ensures var out := RepairFrom(digest, items, reserved, seen);
            IsLeastFree(digest, items[i].id, out[i].id, reserved + Ids(out[..i]))
    decreases |items|
  {
    hide HasStorageId, Usable, IsFirst, RepairFrom, IsLeastFree, HasRoom;
    var id := HeadLeast(digest, items, reserved, seen);
    var first, rest := items[0].(id := id), RepairFrom(digest, items[1..], reserved + {id}, seen + {items[0].id});
    if i == 0 {
      assert ([first] + rest)[..0] == [];
      assert reserved + Ids([]) == reserved;
    } else {
      IdsOfTail(items);
      IsFirstTail(items, seen, i);
      RepairFromLeast(digest, items[1..], reserved + {id}, seen + {items[0].id}, i - 1);
      UsedAfterHead(first, rest, reserved, i);
    }
  }

  /** A repaired item gets the candidate of the least occurrence number, from the second on, that is neither
      an id of the import nor one given out before. */
  lemma {:induction false} RepairLeast(digest: Digest, items: seq<PersonalSecret>, i: nat)
    requires Usable(digest) && |items| <= MAX_LENGTH && i < |items| && !IsFirst(items, {}, i)
    ensures var out := Repaired(digest, items);
            IsLeastFree(digest, items[i].id, out[i].id, Ids(items) + Ids(out[..i]))
  {
    hide HasStorageId, Usable, IsFirst, RepairFrom, IsLeastFree, Ids;
    IdsAtMost(items);
    RepairFromLeast(digest, items, Ids(items), {}, i);
  }
}
