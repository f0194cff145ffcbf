/** Unique names for imported items: the first item with a title keeps it, later
    ones get a number that no title and no earlier name uses. */
module ImportNames {
  import opened Seqs
  import opened Text

  function Numbered(title: string, n: nat): string {
    title + " (" + Decimal(n) + ")"
  }

  lemma {:induction false} NumberedInjective(title: string, m: nat, n: nat)
    requires Numbered(title, m) == Numbered(title, n)
    ensures m == n
  {
    hide Decimal;
    var k := |title| + 2;
    var a, b := Numbered(title, m), Numbered(title, n);
    assert a[k..|a| - 1] == Decimal(m) && b[k..|b| - 1] == Decimal(n);
    DecimalInjective(m, n);
  }

  /** The reserved names that are this title numbered `n` or higher. */
  ghost function TakenNames(title: string, reserved: set<string>, n: nat): set<string> {
    set name | name in reserved && exists m: nat :: m >= n && Numbered(title, m) == name
  }

  lemma {:induction false} TakenNamesShrink(title: string, reserved: set<string>, n: nat)
    requires Numbered(title, n) in reserved
    ensures |TakenNames(title, reserved, n + 1)| < |TakenNames(title, reserved, n)|
  {
    hide Numbered;
    var next, now := TakenNames(title, reserved, n + 1), TakenNames(title, reserved, n);
    assert Numbered(title, n) in now;
    if Numbered(title, n) in next {
      var m: nat :| m >= n + 1 && Numbered(title, m) == Numbered(title, n);
      NumberedInjective(title, m, n);
    }
    SubsetSmaller(next, now);
  }

  /** The first number from `n` on that gives an unreserved name. */
  function FreeNumber(title: string, reserved: set<string>, n: nat): (r: nat)
    ensures n <= r <= n + |TakenNames(title, reserved, n)|
    ensures Numbered(title, r) !in reserved
    ensures forall m :: n <= m < r ==> Numbered(title, m) in reserved
    decreases |TakenNames(title, reserved, n)|
  {
    if Numbered(title, n) !in reserved then n
    else
      TakenNamesShrink(title, reserved, n);
      FreeNumber(title, reserved, n + 1)
  }

  function NextNumber(title: string, seen: map<string, nat>): nat {
    if title in seen then seen[title] else 1
  }

  function NamesFrom(titles: seq<string>, reserved: set<string>, seen: map<string, nat>): (out: seq<string>)
    ensures |out| == |titles|
    decreases |titles|
  {
    if titles == [] then []
    else
      var title := titles[0];
      if NextNumber(title, seen) == 1 then
        [title] + NamesFrom(titles[1..], reserved, seen[title := 2])
      else
        var n := FreeNumber(title, reserved, NextNumber(title, seen));
        [Numbered(title, n)] + NamesFrom(titles[1..], reserved + {Numbered(title, n)}, seen[title := n + 1])
  }

  function Titles(titles: seq<string>): set<string> {
    set i | 0 <= i < |titles| :: titles[i]
  }

  function UniqueNames(titles: seq<string>): (out: seq<string>)
    ensures |out| == |titles|
  {
    NamesFrom(titles, Titles(titles), map[])
  }

  /** The assignment as it runs: one counter per title and one set of used names. */
  method AssignNames(titles: seq<string>) returns (names: seq<string>)
    ensures names == UniqueNames(titles)
  {
    hide NamesFrom, Numbered, FreeNumber;
    var reserved := Titles(titles);
    var seen: map<string, nat> := map[];
    names := [];
    assert titles[0..] == titles;
    for i := 0 to |titles|
      invariant names + NamesFrom(titles[i..], reserved, seen) == UniqueNames(titles)
    {
      var title := titles[i];
      var number := NextNumber(title, seen);
      ghost var done := names;
      NamesStep(titles, i, reserved, seen);
      if number == 1 {
        seen := seen[title := 2];
        names := names + [title];
      } else {
        var start := number;
        while Numbered(title, number) in reserved
          invariant number >= start
          invariant FreeNumber(title, reserved, start) == FreeNumber(title, reserved, number)
          decreases |TakenNames(title, reserved, number)|
        {
          TakenNamesShrink(title, reserved, number);
          FreeNumberSkips(title, reserved, number);
          number := number + 1;
        }
        FreeNumberHere(title, reserved, number);
        var name := Numbered(title, number);
        reserved := reserved + {name};
        seen := seen[title := number + 1];
        names := names + [name];
      }
      ConcatAssociative(done, [names[i]], NamesFrom(titles[i + 1..], reserved, seen));
    }
    assert titles[|titles|..] == [] && names + [] == names;
  }

  lemma {:induction false} FreeNumberSkips(title: string, reserved: set<string>, n: nat)
    requires Numbered(title, n) in reserved
    ensures FreeNumber(title, reserved, n) == FreeNumber(title, reserved, n + 1)
  {
    hide Numbered;
  }

  lemma {:induction false} FreeNumberHere(title: string, reserved: set<string>, n: nat)
    requires Numbered(title, n) !in reserved
    ensures FreeNumber(title, reserved, n) == n
  {
    hide Numbered;
  }

  lemma {:induction false} NamesStep(titles: seq<string>, i: nat, reserved: set<string>, seen: map<string, nat>)
    requires i < |titles|
    ensures var title := titles[i];
            NamesFrom(titles[i..], reserved, seen)
            == if NextNumber(title, seen) == 1 then
                 [title] + NamesFrom(titles[i + 1..], reserved, seen[title := 2])
               else
                 var n := FreeNumber(title, reserved, NextNumber(title, seen));
                 [Numbered(title, n)]
                 + NamesFrom(titles[i + 1..], reserved + {Numbered(title, n)}, seen[title := n + 1])
  {
    hide Numbered, FreeNumber, NextNumber;
    assert titles[i..][1..] == titles[i + 1..];
  }

  // ---- What the names guarantee ----

  predicate Distinct(names: seq<string>) {
    forall i, j :: 0 <= i < j < |names| ==> names[i] != names[j]
  }

  predicate IsFirstTitle(titles: seq<string>, seen: set<string>, i: nat)
    requires i < |titles|
  {
    titles[i] !in seen && forall j :: 0 <= j < i ==> titles[j] != titles[i]
  }

  /** The first item with a title is named by it; a later one by the title and a
      number of at least two, which is no reserved name. */
  ghost predicate NamedItem(titles: seq<string>, out: seq<string>, reserved: set<string>, seen: set<string>, i: nat)
    requires i < |titles| == |out|
  {
    if IsFirstTitle(titles, seen, i) then
      out[i] == titles[i]
    else
      out[i] !in reserved && exists n: nat :: n >= 2 && out[i] == Numbered(titles[i], n)
  }

  ghost predicate CountersStarted(seen: map<string, nat>) {
    forall title :: title in seen ==> seen[title] >= 2
  }

  lemma {:induction false} FirstTitleTail(titles: seq<string>, seen: set<string>, i: nat)
    requires 0 < i < |titles|
    ensures IsFirstTitle(titles, seen, i) <==> IsFirstTitle(titles[1..], seen + {titles[0]}, i - 1)
    ensures IsFirstTitle(titles, seen, i) ==> titles[i] != titles[0]
  {
    var tail := titles[1..];
    assert tail[i - 1] == titles[i];
    assert forall j :: 1 <= j < i ==> tail[j - 1] == titles[j];
    if IsFirstTitle(tail, seen + {titles[0]}, i - 1) {
      forall j | 0 <= j < i
        ensures titles[j] != titles[i]
      {
        if j > 0 { assert tail[j - 1] != titles[i]; }
      }
    }
  }

  lemma {:induction false} LaterName(titles: seq<string>, rest: seq<string>, reserved: set<string>,
      seen: set<string>, name: string, i: nat)
    requires 0 < i < |titles| == |rest| + 1
    requires Titles(titles) <= reserved
    requires if IsFirstTitle(titles, seen, 0) then name == titles[0] else name !in reserved
    requires NamedItem(titles[1..], rest, reserved + {name}, seen + {titles[0]}, i - 1)
    ensures NamedItem(titles, [name] + rest, reserved, seen, i)
    ensures rest[i - 1] != name
  {
    hide Numbered, IsFirstTitle;
    assert titles[1..][i - 1] == titles[i];
    assert titles[i] in Titles(titles) && titles[0] in Titles(titles);
    FirstTitleTail(titles, seen, i);
  }

  lemma {:induction false} NamesHead(titles: seq<string>, reserved: set<string>, seen: map<string, nat>)
    returns (name: string, seen': map<string, nat>)
    requires titles != [] && CountersStarted(seen)
    requires Titles(titles) <= reserved
    ensures CountersStarted(seen') && seen'.Keys == seen.Keys + {titles[0]}
    ensures NamesFrom(titles, reserved, seen) == [name] + NamesFrom(titles[1..], reserved + {name}, seen')
    ensures NamedItem(titles, [name] + NamesFrom(titles[1..], reserved + {name}, seen'), reserved, seen.Keys, 0)
  {
    hide Numbered;
    var title := titles[0];
    assert title in Titles(titles);
    if title !in seen {
      name, seen' := title, seen[title := 2];
      assert reserved + {name} == reserved;
    } else {
      var n := FreeNumber(title, reserved, seen[title]);
      name, seen' := Numbered(title, n), seen[title := n + 1];
    }
  }

  lemma {:induction false} TitlesOfTail(titles: seq<string>)
    requires titles != []
    ensures Titles(titles[1..]) <= Titles(titles)
  {
    var tail := titles[1..];
    forall x | x in Titles(tail)
      ensures x in Titles(titles)
    {
      var k :| 0 <= k < |tail| && tail[k] == x;
      assert titles[k + 1] == x;
    }
  }

  lemma {:induction false} NamesFromGuarantee(titles: seq<string>, reserved: set<string>, seen: map<string, nat>)
    requires Titles(titles) <= reserved && CountersStarted(seen)
    ensures var out := NamesFrom(titles, reserved, seen);
            && (forall i :: 0 <= i < |titles| ==> NamedItem(titles, out, reserved, seen.Keys, i))
            && Distinct(out)
    decreases |titles|
  {
    if titles != [] {
      var tail := titles[1..];
      hide NamesFrom, Titles, IsFirstTitle, Numbered, NamedItem, CountersStarted;
      TitlesOfTail(titles);
      var name, seen' := NamesHead(titles, reserved, seen);
      var rest := NamesFrom(tail, reserved + {name}, seen');
      var out := [name] + rest;
      NamesFromGuarantee(tail, reserved + {name}, seen');
      forall i | 0 <= i < |titles|
        ensures NamedItem(titles, out, reserved, seen.Keys, i) && (i > 0 ==> out[i] != name)
      {
        if i > 0 {
          assert NamedItem(tail, rest, reserved + {name}, seen'.Keys, i - 1);
          LaterName(titles, rest, reserved, seen.Keys, name, i);
        }
      }
      forall i, j | 0 <= i < j < |out|
        ensures out[i] != out[j]
      {
        if i > 0 { assert out[i] == rest[i - 1] && out[j] == rest[j - 1]; }
      }
    }
  }

  /** All names are different. The first item with a title keeps the title; every
      other item is named by its title and a number, and that name is no item's title. */
  lemma {:induction false} NamesGuarantee(titles: seq<string>)
    ensures var out := UniqueNames(titles);
            && Distinct(out)
            && (forall i :: 0 <= i < |titles| ==> NamedItem(titles, out, Titles(titles), {}, i))
  {
    var none: map<string, nat> := map[];
    assert none.Keys == {};
    NamesFromGuarantee(titles, Titles(titles), none);
  }

  // ---- Which number ----

  /** The title with the least number from two on that no used name has. */
  ghost predicate LeastNumbered(name: string, title: string, used: set<string>) {
    exists n: nat :: n >= 2 && name == Numbered(title, n) && name !in used && AllTaken(title, n, used)
  }

  ghost predicate AllTaken(title: string, n: nat, used: set<string>) {
    forall m: nat :: 2 <= m < n ==> Numbered(title, m) in used
  }

  /** Every number below a title's counter is taken. */
  ghost predicate CountersFull(seen: map<string, nat>, used: set<string>) {
    forall title :: title in seen ==> seen[title] >= 2 && AllTaken(title, seen[title], used)
  }

  lemma {:induction false} HeadLeast(titles: seq<string>, reserved: set<string>, seen: map<string, nat>)
    returns (name: string, seen': map<string, nat>)
    requires titles != [] && Titles(titles) <= reserved && CountersFull(seen, reserved)
    ensures NamesFrom(titles, reserved, seen) == [name] + NamesFrom(titles[1..], reserved + {name}, seen')
    ensures seen'.Keys == seen.Keys + {titles[0]} && CountersFull(seen', reserved + {name})
    ensures if titles[0] in seen then LeastNumbered(name, titles[0], reserved) else name == titles[0]
  {
    hide Numbered;
    var title := titles[0];
    assert title in Titles(titles);
    if title !in seen {
      name, seen' := title, seen[title := 2];
      assert reserved + {name} == reserved;
    } else {
      var n := FreeNumber(title, reserved, seen[title]);
      name, seen' := Numbered(title, n), seen[title := n + 1];
      assert AllTaken(title, n, reserved);
    }
  }

  lemma {:induction false} UsedAfterHead(name: string, rest: seq<string>, reserved: set<string>, i: nat)
    requires 0 < i <= |rest| + 1
    ensures reserved + Titles(([name] + rest)[..i]) == reserved + {name} + Titles(rest[..i - 1])
  {
    assert ([name] + rest)[..i] == [name] + rest[..i - 1];
    TitlesSplit([name], rest[..i - 1]);
    assert [name][0] == name && Titles([name]) == {name};
  }

  lemma {:induction false} TitlesSplit(a: seq<string>, b: seq<string>)
    ensures Titles(a + b) == Titles(a) + Titles(b)
  {
    assert forall x :: x in Titles(a + b) <==> x in a + b;
    assert forall x :: x in Titles(a) <==> x in a;
    assert forall x :: x in Titles(b) <==> x in b;
  }

  lemma {:induction false} NamesFromLeast(titles: seq<string>, reserved: set<string>, seen: map<string, nat>, i: nat)
    requires Titles(titles) <= reserved && CountersFull(seen, reserved) && i < |titles|
    requires !IsFirstTitle(titles, seen.Keys, i)
    ensures var out := NamesFrom(titles, reserved, seen);
            LeastNumbered(out[i], titles[i], reserved + Titles(out[..i]))
    decreases |titles|
  {
    var name, seen' := HeadLeast(titles, reserved, seen);
    var rest := NamesFrom(titles[1..], reserved + {name}, seen');
    hide NamesFrom, Numbered, LeastNumbered, CountersFull;
    if i == 0 {
      assert ([name] + rest)[..0] == [];
      assert reserved + Titles([]) == reserved;
    } else {
      hide Titles;
      TitlesOfTail(titles);
      FirstTitleTail(titles, seen.Keys, i);
      NamesFromLeast(titles[1..], reserved + {name}, seen', i - 1);
      UsedAfterHead(name, rest, reserved, i);
    }
  }

  /** A later item gets the least number that neither a title nor an earlier name uses. */
  lemma {:induction false} NamesLeast(titles: seq<string>, i: nat)
    requires i < |titles| && !IsFirstTitle(titles, {}, i)
    ensures var out := UniqueNames(titles);
            LeastNumbered(out[i], titles[i], Titles(titles) + Titles(out[..i]))
  {
    var none: map<string, nat> := map[];
    assert none.Keys == {};
    NamesFromLeast(titles, Titles(titles), none, i);
  }
}
