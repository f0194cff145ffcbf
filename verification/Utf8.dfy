/** UTF-8 text: section 3 of RFC 3629, as Rust's `str` stores and checks it.
    Texts are sequences of Unicode scalar values; storage is a byte sequence. */
module Utf8 {
  import opened Wrappers
  import opened Seqs

  type byte = b: int | 0 <= b < 256

  predicate IsContinuation(b: byte) {
    0x80 <= b < 0xC0
  }

  /** One lead byte followed only by continuation bytes. */
  function EncodeChar(c: char): (r: seq<byte>)
    ensures 1 <= |r| <= 4
    ensures !IsContinuation(r[0])
    ensures forall i :: 1 <= i < |r| ==> IsContinuation(r[i])
    ensures |r| == 1 ==> r == [c as int]
    ensures |r| > 1 ==> r[0] >= 0xC0
  {
    var n := c as int;
    if n < 0x80 then
      [n]
    else if n < 0x800 then
      [0xC0 + n / 64, 0x80 + n % 64]
    else if n < 0x10000 then
      [0xE0 + n / 4096, 0x80 + n / 64 % 64, 0x80 + n % 64]
    else
      [0xF0 + n / 262144, 0x80 + n / 4096 % 64, 0x80 + n / 64 % 64, 0x80 + n % 64]
  }

  function Encode(s: string): (r: seq<byte>) {
    if s == [] then [] else EncodeChar(s[0]) + Encode(s[1..])
  }

  /** How many bytes a character takes, by its lead byte. */
  function LeadWidth(lead: byte): (n: nat) {
    if lead < 0x80 then 1
    else if lead < 0xE0 then 2
    else if lead < 0xF0 then 3
    else 4
  }

  function ScalarOf(b: seq<int>): (n: int)
    requires 1 <= |b| <= 4
  {
    if |b| == 1 then b[0]
    else if |b| == 2 then (b[0] - 0xC0) * 64 + (b[1] - 0x80)
    else if |b| == 3 then (b[0] - 0xE0) * 4096 + (b[1] - 0x80) * 64 + (b[2] - 0x80)
    else (b[0] - 0xF0) * 262144 + (b[1] - 0x80) * 4096 + (b[2] - 0x80) * 64 + (b[3] - 0x80)
  }

  predicate IsScalar(n: int) {
    0 <= n < 0xD800 || 0xE000 <= n < 0x11_0000
  }

  /** The character a well-formed byte sequence starts with; overlong forms,
      surrogates and truncated sequences are refused. */
  function DecodeFirst(b: seq<byte>): (r: Option<char>)
    ensures r.Some? ==> EncodeChar(r.value) <= b
  {
    if b == [] || LeadWidth(b[0]) > |b| then
      None
    else
      var unit := b[..LeadWidth(b[0])];
      var n := ScalarOf(unit);
      if IsScalar(n) && EncodeChar(n as char) == unit then Some(n as char) else None
  }

  function Decode(b: seq<byte>): (r: Option<string>)
    ensures r.Some? ==> Encode(r.value) == b
    decreases |b|
  {
    if b == [] then
      Some([])
    else
      match DecodeFirst(b)
      case None => None
      case Some(c) =>
        match Decode(b[|EncodeChar(c)|..])
        case None => None
        case Some(rest) =>
          assert Encode([c] + rest) == EncodeChar(c) + Encode(rest);
          Some([c] + rest)
  }

  predicate IsText(b: seq<byte>) {
    Decode(b).Some?
  }

  lemma {:induction false} EncodedCharParts(c: char)
    ensures LeadWidth(EncodeChar(c)[0]) == |EncodeChar(c)|
    ensures ScalarOf(EncodeChar(c)) == c as int
  {
    var n := c as int;
    if 0x800 <= n < 0x10000 {
      assert n / 64 == n / 4096 * 64 + n / 64 % 64;
    } else if 0x10000 <= n {
      assert n / 64 == n / 4096 * 64 + n / 64 % 64;
      assert n / 4096 == n / 262144 * 64 + n / 4096 % 64;
    }
  }

  lemma {:induction false} DecodeFirstOfEncoded(c: char, rest: seq<byte>)
    ensures DecodeFirst(EncodeChar(c) + rest) == Some(c)
  {
    hide EncodeChar;
    hide LeadWidth;
    hide ScalarOf;
    EncodedCharParts(c);
    var b := EncodeChar(c) + rest;
    assert b[..|EncodeChar(c)|] == EncodeChar(c);
  }

  /** Decoding undoes encoding, for every text. */
  lemma {:induction false} DecodeEncode(s: string)
    ensures Decode(Encode(s)) == Some(s)
  {
    hide EncodeChar;
    hide DecodeFirst;
    if s != [] {
      DecodeFirstOfEncoded(s[0], Encode(s[1..]));
      assert Encode(s)[|EncodeChar(s[0])|..] == Encode(s[1..]);
      DecodeEncode(s[1..]);
      assert [s[0]] + s[1..] == s;
    }
  }

  lemma {:induction false} EncodeConcat(s: string, t: string)
    ensures Encode(s + t) == Encode(s) + Encode(t)
  {
    hide EncodeChar;
    if s == [] {
      assert s + t == t;
    } else {
      EncodeConcat(s[1..], t);
      ConcatTail(s, t);
      ConcatAssociative(EncodeChar(s[0]), Encode(s[1..]), Encode(t));
    }
  }
}
