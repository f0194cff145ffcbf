/** Facts about sequences and finite sets that the proofs cite by name. */
module Seqs {

  lemma {:induction false} AppendFirst<T>(done: seq<T>, rest: seq<T>)
    requires rest != []
    ensures done + [rest[0]] + rest[1..] == done + rest
  {
  }

  lemma {:induction false} ConcatAssociative<T>(a: seq<T>, b: seq<T>, c: seq<T>)
    ensures a + b + c == a + (b + c)
  {
  }

  lemma {:induction false} ConcatTail<T>(a: seq<T>, b: seq<T>)
    requires a != []
    ensures (a + b)[1..] == a[1..] + b
  {
  }

  lemma {:induction false} UpdateSplits<T>(s: seq<T>, i: nat, x: T)
    requires i < |s|
    ensures s[..i] + ([x] + s[i + 1..]) == s[i := x]
  {
  }

  lemma {:induction false} UpdateInFirst<T>(a: seq<T>, b: seq<T>, i: nat, x: T)
    requires i < |a|
    ensures a[i := x] + b == (a + b)[i := x]
  {
  }

  lemma {:induction false} UpdateInSecond<T>(a: seq<T>, b: seq<T>, i: nat, x: T)
    requires i < |b|
    ensures a + b[i := x] == (a + b)[|a| + i := x]
  {
  }

  lemma {:induction false} SubsetSmaller<T>(a: set<T>, b: set<T>)
    requires a < b
    ensures |a| < |b|
  {
    var x :| x in b && x !in a;
    SubsetAtMost(a, b - {x});
  }

  lemma {:induction false} SubsetAtMost<T>(a: set<T>, b: set<T>)
    requires a <= b
    ensures |a| <= |b|
    decreases a
  {
    if a != {} {
      var x :| x in a;
      SubsetAtMost(a - {x}, b - {x});
    }
  }
}
