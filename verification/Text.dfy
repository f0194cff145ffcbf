/** The string operations of Rust's standard library the modelled code uses. */
module Text {
  import opened Wrappers

  /** The Unicode White_Space property. */
  predicate IsWhitespace(c: char) {
    var n := c as int;
    || 9 <= n <= 13 || n == 0x20 || n == 0x85 || n == 0xA0 || n == 0x1680
    || 0x2000 <= n <= 0x200A || n == 0x2028 || n == 0x2029 || n == 0x202F
    || n == 0x205F || n == 0x3000
  }

  /** The Unicode general category Cc. */
  predicate IsControl(c: char) {
    var n := c as int;
    n < 0x20 || 0x7F <= n < 0xA0
  }

  function TrimStart(s: string): string {
    if s != [] && IsWhitespace(s[0]) then TrimStart(s[1..]) else s
  }

  function TrimEnd(s: string): string {
    if s != [] && IsWhitespace(s[|s| - 1]) then TrimEnd(s[..|s| - 1]) else s
  }

  function Trim(s: string): string {
    TrimEnd(TrimStart(s))
  }

  function Split(s: string, separator: char): (parts: seq<string>)
    ensures parts != []
  {
    if s == [] then [[]]
    else if s[0] == separator then [[]] + Split(s[1..], separator)
    else
      var rest := Split(s[1..], separator);
      [[s[0]] + rest[0]] + rest[1..]
  }

  function Join(parts: seq<string>, separator: string): string {
    if parts == [] then []
    else if |parts| == 1 then parts[0]
    else parts[0] + separator + Join(parts[1..], separator)
  }

  lemma {:induction false} TrimStartShrinks(s: string)
    ensures |TrimStart(s)| <= |s|
  {
    if s != [] && IsWhitespace(s[0]) {
      TrimStartShrinks(s[1..]);
    }
  }

  /** A trimmed non-empty text neither starts nor ends with white space. */
  lemma {:induction false} TrimmedEnds(s: string)
    requires s != [] && Trim(s) == s
    ensures !IsWhitespace(s[0]) && !IsWhitespace(s[|s| - 1])
  {
    TrimStartShrinks(s[1..]);
    TrimEndShrinks(TrimStart(s));
    if IsWhitespace(s[|s| - 1]) {
      TrimEndShrinks(s[..|s| - 1]);
    }
  }

  lemma {:induction false} TrimEndShrinks(s: string)
    ensures |TrimEnd(s)| <= |s|
  {
    if s != [] && IsWhitespace(s[|s| - 1]) {
      TrimEndShrinks(s[..|s| - 1]);
    }
  }

  lemma {:induction false} TrimLeadingSpace(s: string)
    requires s != [] && Trim(s) == s
    ensures Trim([' '] + s) == s
  {
    TrimmedEnds(s);
    assert ([' '] + s)[1..] == s;
    assert TrimStart([' '] + s) == TrimStart(s);
  }

  predicate AllWhitespace(s: string) {
    forall i :: 0 <= i < |s| ==> IsWhitespace(s[i])
  }

  lemma {:induction false} TrimStartAt(s: string) returns (a: nat)
    ensures a <= |s| && TrimStart(s) == s[a..] && AllWhitespace(s[..a])
  {
    if s != [] && IsWhitespace(s[0]) {
      var k := TrimStartAt(s[1..]);
      a := k + 1;
      assert s[1..][k..] == s[a..];
      assert forall i :: 1 <= i < a ==> s[..a][i] == s[1..][..k][i - 1];
    } else {
      a := 0;
    }
  }

  lemma {:induction false} TrimEndAt(s: string) returns (b: nat)
    ensures b <= |s| && TrimEnd(s) == s[..b] && AllWhitespace(s[b..])
  {
    var last := |s| - 1;
    if s != [] && IsWhitespace(s[last]) {
      b := TrimEndAt(s[..last]);
      assert s[..last][..b] == s[..b];
      assert forall i :: 0 <= i < last - b ==> s[b..][i] == s[..last][b..][i];
    } else {
      b := |s|;
      assert s[..b] == s;
    }
  }

  lemma {:induction false} TrimmedAt(s: string) returns (a: nat, b: nat)
    ensures a <= b <= |s| && Trim(s) == s[a..b] && AllWhitespace(s[..a]) && AllWhitespace(s[b..])
  {
    a := TrimStartAt(s);
    var k := TrimEndAt(s[a..]);
    b := a + k;
    assert s[a..][..k] == s[a..b];
    assert s[a..][k..] == s[b..];
  }

  lemma {:induction false} TrimStartOf(s: string, a: nat)
    requires a < |s| && AllWhitespace(s[..a]) && !IsWhitespace(s[a])
    ensures TrimStart(s) == s[a..]
  {
    if a > 0 {
      assert s[..a][0] == s[0];
      var blank := s[1..][..a - 1];
      forall i | 0 <= i < |blank| ensures IsWhitespace(blank[i]) {
        assert s[..a][i + 1] == blank[i];
      }
      TrimStartOf(s[1..], a - 1);
      assert s[1..][a - 1..] == s[a..];
    }
  }

  lemma {:induction false} TrimEndOf(s: string, b: nat)
    requires 0 < b <= |s| && AllWhitespace(s[b..]) && !IsWhitespace(s[b - 1])
    ensures TrimEnd(s) == s[..b]
  {
    var last := |s| - 1;
    if b == |s| {
      assert s[..b] == s;
    } else {
      assert s[b..][last - b] == s[last];
      assert forall i :: 0 <= i < last - b ==> s[..last][b..][i] == s[b..][i];
      TrimEndOf(s[..last], b);
      assert s[..last][..b] == s[..b];
    }
  }

  lemma {:induction false} TrimOf(s: string, a: nat, b: nat)
    requires a < b <= |s| && AllWhitespace(s[..a]) && AllWhitespace(s[b..])
    requires !IsWhitespace(s[a]) && !IsWhitespace(s[b - 1])
    ensures Trim(s) == s[a..b]
  {
    TrimStartOf(s, a);
    assert s[a..][b - a..] == s[b..];
    TrimEndOf(s[a..], b - a);
    assert s[a..][..b - a] == s[a..b];
  }

  /** A text is trimmed exactly when it neither starts nor ends with white space. */
  lemma {:induction false} TrimmedExactly(s: string)
    ensures Trim(s) == s <==> s == "" || (!IsWhitespace(s[0]) && !IsWhitespace(s[|s| - 1]))
  {
    if s != "" {
      if Trim(s) == s {
        TrimmedEnds(s);
      } else if !IsWhitespace(s[0]) && !IsWhitespace(s[|s| - 1]) {
        TrimOf(s, 0, |s|);
      }
    }
  }

  /** Trimming leaves nothing of a text exactly when it is all white space. */
  lemma {:induction false} BlankExactly(s: string)
    ensures Trim(s) == "" <==> AllWhitespace(s)
  {
    var a, b := TrimmedAt(s);
    if Trim(s) == "" {
      assert s == s[..a] + s[b..];
      assert forall i :: 0 <= i < |s| ==> s[i] == if i < a then s[..a][i] else s[b..][i - b];
    } else if AllWhitespace(s) {
      TrimsToNothing(s);
    }
  }

  lemma {:induction false} TrimsToNothing(s: string)
    requires AllWhitespace(s)
    ensures TrimStart(s) == "" && Trim(s) == ""
  {
    if s != "" {
      assert forall i :: 0 <= i < |s| - 1 ==> s[1..][i] == s[i + 1];
      TrimsToNothing(s[1..]);
    }
  }

  lemma {:induction false} SplitAtFirst(part: string, rest: string, separator: char)
    requires separator !in part
    ensures Split(part + [separator] + rest, separator) == [part] + Split(rest, separator)
  {
    var s := part + [separator] + rest;
    if part == [] {
      assert s[1..] == rest;
    } else {
      assert s[1..] == part[1..] + [separator] + rest;
      SplitAtFirst(part[1..], rest, separator);
      assert [part[0]] + part[1..] == part;
    }
  }

  lemma {:induction false} SplitWhole(part: string, separator: char)
    requires separator !in part
    ensures Split(part, separator) == [part]
  {
    if part != [] {
      SplitWhole(part[1..], separator);
      assert [part[0]] + part[1..] == part;
    }
  }

  /** Splitting cuts at every separator and nowhere else. */
  lemma {:induction false} SplitExactly(s: string, separator: char)
    ensures Join(Split(s, separator), [separator]) == s
    ensures forall i :: 0 <= i < |Split(s, separator)| ==> separator !in Split(s, separator)[i]
  {
    if s != [] {
      SplitExactly(s[1..], separator);
      var rest := Split(s[1..], separator);
      assert rest == [rest[0]] + rest[1..] && s == [s[0]] + s[1..];
      if s[0] == separator {
        assert ([[]] + rest)[1..] == rest;
      } else {
        assert ([[s[0]] + rest[0]] + rest[1..])[1..] == rest[1..];
      }
    }
  }

  // ---- Decimal numerals ----

  function Digit(n: int): char
    requires 0 <= n < 10
  {
    ('0' as int + n) as char
  }

  predicate IsDigit(c: char) {
    '0' <= c <= '9'
  }

  function DigitValue(c: char): (n: int)
    requires IsDigit(c)
    ensures 0 <= n < 10 && Digit(n) == c
  {
    c as int - '0' as int
  }

  /** How an unsigned integer is formatted. */
  function Decimal(n: nat): (s: string)
    ensures s != [] && forall i :: 0 <= i < |s| ==> IsDigit(s[i])
  {
    if n < 10 then [Digit(n)] else Decimal(n / 10) + [Digit(n % 10)]
  }

  function NumeralValue(s: string): (n: nat)
    requires forall i :: 0 <= i < |s| ==> IsDigit(s[i])
  {
    if s == [] then 0 else NumeralValue(s[..|s| - 1]) * 10 + DigitValue(s[|s| - 1])
  }

  lemma {:induction false} DecimalValue(n: nat)
    ensures NumeralValue(Decimal(n)) == n
  {
    var s := Decimal(n);
    if n < 10 {
      assert s[..|s| - 1] == [];
    } else {
      assert s[..|s| - 1] == Decimal(n / 10);
      DecimalValue(n / 10);
    }
  }

  lemma {:induction false} DecimalInjective(m: nat, n: nat)
    requires Decimal(m) == Decimal(n)
    ensures m == n
  {
    DecimalValue(m);
    DecimalValue(n);
  }

  const U64_LIMIT: nat := 0x1_0000_0000_0000_0000

  type u64 = n: nat | n < U64_LIMIT

  predicate AllDigits(s: string) {
    forall i :: 0 <= i < |s| ==> IsDigit(s[i])
  }

  /** Rust's `str::parse::<u64>`: an optional plus sign and at least one digit. */
  function ParseU64(s: string): (r: Option<u64>) {
    var digits := if s != [] && s[0] == '+' then s[1..] else s;
    if digits == [] || !AllDigits(digits) || NumeralValue(digits) >= U64_LIMIT then None
    else Some(NumeralValue(digits))
  }

  lemma {:induction false} ParseDecimal(n: u64)
    ensures ParseU64(Decimal(n)) == Some(n)
  {
    DecimalValue(n);
    assert IsDigit(Decimal(n)[0]);
  }

  function Zeros(k: nat): string {
    seq(k, _ => '0')
  }

  lemma {:induction false} NumeralForm(digits: string) returns (k: nat)
    requires AllDigits(digits) && digits != []
    ensures digits == Zeros(k) + Decimal(NumeralValue(digits))
  {
    var init, c := digits[..|digits| - 1], digits[|digits| - 1];
    if init == [] {
      k := 0;
      assert NumeralValue([]) == 0 && digits == [c];
    } else {
      k := NumeralForm(init);
      var v := NumeralValue(init);
      if v == 0 {
        k := k + 1;
        assert init == Zeros(k) && digits == init + [c];
      } else {
        assert Decimal(v * 10 + DigitValue(c)) == Decimal(v) + [c];
        assert digits == init + [c];
      }
    }
  }

  lemma {:induction false} NumeralOf(k: nat, n: nat)
    ensures AllDigits(Zeros(k) + Decimal(n)) && NumeralValue(Zeros(k) + Decimal(n)) == n
    decreases k + n, n
  {
    var s := Zeros(k) + Decimal(n);
    if n < 10 {
      ZerosAreNothing(k);
      assert s[..|s| - 1] == Zeros(k);
    } else {
      NumeralOf(k, n / 10);
      assert s[..|s| - 1] == Zeros(k) + Decimal(n / 10);
    }
  }

  lemma {:induction false} ZerosAreNothing(k: nat)
    ensures NumeralValue(Zeros(k)) == 0
  {
    if k > 0 {
      assert Zeros(k)[..k - 1] == Zeros(k - 1);
      ZerosAreNothing(k - 1);
    }
  }

  /** A text is read as a number exactly when it is its numeral, with zeros and then a plus sign before it
      or not. */
  lemma {:induction false} ParseExactly(s: string, n: u64)
    ensures ParseU64(s) == Some(n)
            <==> exists k: nat :: s == Zeros(k) + Decimal(n) || s == "+" + (Zeros(k) + Decimal(n))
  {
    hide Decimal, NumeralValue;
    var digits := if s != [] && s[0] == '+' then s[1..] else s;
    if ParseU64(s) == Some(n) {
      var k := NumeralForm(digits);
      assert s == digits || s == "+" + digits;
    }
    forall k: nat | s == Zeros(k) + Decimal(n) || s == "+" + (Zeros(k) + Decimal(n)) ensures ParseU64(s) == Some(n) {
      NumeralOf(k, n);
      var plain := Zeros(k) + Decimal(n);
      assert plain != [] && IsDigit(plain[0]);
      assert s == plain || s[1..] == plain;
    }
  }
}
