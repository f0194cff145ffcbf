/** Sending an image to the desktop in parts: the base64 text (section 4 of RFC 4648) is
    cut into slices, and the receiver decodes and checks each slice by itself. */
module ImageParts {
  import opened Wrappers
  import opened Seqs
  import opened Utf8

  /** Characters per part, the bytes they stand for, and the largest image. */
  const PART: nat := 43_688
  const PART_BYTES: nat := 32_766
  const MAX_IMAGE: nat := 8 * 1024 * 1024

  function Symbol(n: int): char
    requires 0 <= n < 64
  {
    if n < 26 then ('A' as int + n) as char
    else if n < 52 then ('a' as int + n - 26) as char
    else if n < 62 then ('0' as int + n - 52) as char
    else if n == 62 then '+' else '/'
  }

  function Value(c: char): (r: Option<int>)
    ensures r.Some? ==> 0 <= r.value < 64
  {
    if 'A' <= c <= 'Z' then Some(c as int - 'A' as int)
    else if 'a' <= c <= 'z' then Some(c as int - 'a' as int + 26)
    else if '0' <= c <= '9' then Some(c as int - '0' as int + 52)
    else if c == '+' then Some(62) else if c == '/' then Some(63) else None
  }

  lemma {:induction false} ValueOfSymbol(n: int)
    requires 0 <= n < 64
    ensures Value(Symbol(n)) == Some(n) && Symbol(n) != '='
  {
  }

  const UPPER := "ABCDEFGHIJKLMNOPQRSTUVWXYZ"
  const LOWER := "abcdefghijklmnopqrstuvwxyz"
  const DIGITS := "0123456789"

  /** The alphabet is that of table 1 of RFC 4648. */
  lemma {:induction false} AlphabetIs(n: int)
    requires 0 <= n < 64
    ensures Symbol(n) == (UPPER + LOWER + DIGITS + "+/")[n]
  {
    if n < 26 {
      UpperIs(n);
    } else if n < 52 {
      LowerIs(n - 26);
    } else if n < 62 {
      assert DIGITS[n - 52] == ('0' as int + n - 52) as char;
    }
  }

  lemma {:induction false} UpperIs(n: int)
    requires 0 <= n < 26
    ensures UPPER[n] == ('A' as int + n) as char
  {
  }

  lemma {:induction false} LowerIs(n: int)
    requires 0 <= n < 26
    ensures LOWER[n] == ('a' as int + n) as char
  {
  }

  lemma {:induction false} ValueExactly(c: char, n: int)
    ensures Value(c) == Some(n) <==> 0 <= n < 64 && Symbol(n) == c
  {
  }

  // ---- Encoding ----

  function Group(a: byte, b: byte, c: byte): (s: string)
    ensures |s| == 4
  {
    [Symbol(a / 4), Symbol(a % 4 * 16 + b / 16), Symbol(b % 16 * 4 + c / 64), Symbol(c % 64)]
  }

  /** Three bytes make four characters; a rest of one or two bytes is padded. */
  function Encoded(b: seq<byte>): string {
    if |b| == 0 then ""
    else if |b| == 1 then [Symbol(b[0] / 4), Symbol(b[0] % 4 * 16), '=', '=']
    else if |b| == 2 then [Symbol(b[0] / 4), Symbol(b[0] % 4 * 16 + b[1] / 16), Symbol(b[1] % 16 * 4), '=']
    else Group(b[0], b[1], b[2]) + Encoded(b[3..])
  }

  function Padding(s: string): nat {
    if |s| >= 2 && s[|s| - 2..] == "==" then 2 else if |s| >= 1 && s[|s| - 1] == '=' then 1 else 0
  }

  /** The size that the sender declares and the receiver expects. */
  function Size(s: string): int {
    |s| / 4 * 3 - Padding(s)
  }

  /** The number that sextets, or bytes, make together. */
  function Number(digits: seq<int>, base: int): int {
    if digits == [] then 0 else Number(digits[..|digits| - 1], base) * base + digits[|digits| - 1]
  }

  function Values(s: string): seq<int> {
    seq(|s|, i requires 0 <= i < |s| => if Value(s[i]).Some? then Value(s[i]).value else 0)
  }

  lemma {:induction false} NumberOf(a: int, b: int, c: int, d: int, base: int)
    ensures Number([a, b], base) == a * base + b
    ensures Number([a, b, c], base) == (a * base + b) * base + c
    ensures Number([a, b, c, d], base) == ((a * base + b) * base + c) * base + d
  {
    assert [a, b, c, d][..3] == [a, b, c] && [a, b, c][..2] == [a, b] && [a, b][..1] == [a] && [a][..0] == [];
    assert Number([a], base) == a;
  }

  lemma {:induction false} GroupBits(a: byte, b: byte, c: byte)
    ensures Number(Values(Group(a, b, c)), 64) == Number([a, b, c], 256)
  {
    Sextets(a, b);
    Sextets(b, c);
    hide Symbol, Value;
    var p, q, r, t := a / 4, a % 4 * 16 + b / 16, b % 16 * 4 + c / 64, c % 64;
    ValueOfSymbol(p);
    ValueOfSymbol(q);
    ValueOfSymbol(r);
    ValueOfSymbol(t);
    assert Values(Group(a, b, c)) == [p, q, r, t];
    hide Number, Values, Group;
    NumberOf(p, q, r, t, 64);
    NumberOf(a, b, c, 0, 256);
  }

  lemma {:induction false} PairValues(a: byte, b: byte)
    ensures |Encoded([a, b])| == 4
    ensures Values(Encoded([a, b])[..3]) == [a / 4, a % 4 * 16 + b / 16, b % 16 * 4]
  {
    hide Symbol, Value;
    ValueOfSymbol(a / 4);
    ValueOfSymbol(a % 4 * 16 + b / 16);
    ValueOfSymbol(b % 16 * 4);
  }

  lemma {:induction false} PairBits(a: byte, b: byte)
    ensures |Encoded([a, b])| == 4 && Number(Values(Encoded([a, b])[..3]), 64) == Number([a, b], 256) * 4
  {
    Sextets(a, b);
    PairValues(a, b);
    hide Number, Values, Encoded;
    NumberOf(a / 4, a % 4 * 16 + b / 16, b % 16 * 4, 0, 64);
    NumberOf(a, b, 0, 0, 256);
  }

  lemma {:induction false} ByteBits(a: byte)
    ensures |Encoded([a])| == 4 && Number(Values(Encoded([a])[..2]), 64) == a * 16
  {
    Sextets(a, 0);
    hide Symbol, Value;
    var p, q := a / 4, a % 4 * 16;
    ValueOfSymbol(p);
    ValueOfSymbol(q);
    assert Values(Encoded([a])[..2]) == [p, q];
    hide Number, Values;
    NumberOf(p, q, 0, 0, 64);
  }

  /** Four characters are the 24 bits of three bytes, most significant first. A rest of one or two bytes
      is filled with zero bits to whole characters. */
  lemma {:induction false} SameBits(a: byte, b: byte, c: byte)
    ensures Number(Values(Encoded([a, b, c])), 64) == Number([a, b, c], 256)
    ensures |Encoded([a, b])| == 4 && Number(Values(Encoded([a, b])[..3]), 64) == Number([a, b], 256) * 4
    ensures |Encoded([a])| == 4 && Number(Values(Encoded([a])[..2]), 64) == a * 16
  {
    hide Number, Values, Group;
    GroupBits(a, b, c);
    PairBits(a, b);
    ByteBits(a);
    assert [a, b, c][3..] == [] && Encoded([a, b, c]) == Group(a, b, c) + "";
    assert Group(a, b, c) + "" == Group(a, b, c);
  }

  // ---- Decoding ----

  /** Four characters without padding. */
  function DecodedGroup(s: string): Option<seq<byte>>
    requires |s| == 4
  {
    match (Value(s[0]), Value(s[1]), Value(s[2]), Value(s[3]))
    case (Some(p), Some(q), Some(r), Some(t)) => Some([p * 4 + q / 16, q % 16 * 16 + r / 4, r % 4 * 64 + t])
    case _ => None
  }

  /** The last four characters, padded or not. The unused bits must be zero. */
  function DecodedLast(s: string): Option<seq<byte>>
    requires |s| == 4
  {
    if s[3] != '=' then DecodedGroup(s)
    else if s[2] != '=' then
      match (Value(s[0]), Value(s[1]), Value(s[2]))
      case (Some(p), Some(q), Some(r)) =>
        if r % 4 == 0 then Some([p * 4 + q / 16, q % 16 * 16 + r / 4]) else None
      case _ => None
    else
      match (Value(s[0]), Value(s[1]))
      case (Some(p), Some(q)) => if q % 16 == 0 then Some([p * 4 + q / 16]) else None
      case _ => None
  }

  function DecodedGroups(s: string): Option<seq<byte>>
    requires |s| % 4 == 0
  {
    if |s| == 0 then Some([])
    else if |s| == 4 then DecodedLast(s)
    else
      match (DecodedGroup(s[..4]), DecodedGroups(s[4..]))
      case (Some(head), Some(rest)) => Some(head + rest)
      case _ => None
  }

  /** The receiver's decoding, with its checks on the length. */
  function Decoded(s: string): Option<seq<byte>> {
    if |s| % 4 != 0 || Size(s) < 0 then None
    else
      match DecodedGroups(s)
      case None => None
      case Some(b) => if |b| == Size(s) then Some(b) else None
  }

  lemma {:induction false} Sextets(a: byte, b: byte)
    ensures var q := a % 4 * 16 + b / 16; 0 <= q < 64 && q / 16 == a % 4 && q % 16 == b / 16
    ensures var r := a % 16 * 4 + b / 64; 0 <= r < 64 && r / 4 == a % 16 && r % 4 == b / 64
  {
  }

  lemma {:induction false} GroupDecodes(a: byte, b: byte, c: byte)
    ensures DecodedGroup(Group(a, b, c)) == Some([a, b, c]) && Group(a, b, c)[3] != '='
  {
    hide Symbol, Value;
    Sextets(a, b);
    Sextets(b, c);
    var p, q, r, t := a / 4, a % 4 * 16 + b / 16, b % 16 * 4 + c / 64, c % 64;
    ValueOfSymbol(p);
    ValueOfSymbol(q);
    ValueOfSymbol(r);
    ValueOfSymbol(t);
    assert p * 4 + q / 16 == a && q % 16 * 16 + r / 4 == b && r % 4 * 64 + t == c;
  }

  lemma {:induction false} RestDecodes(b: seq<byte>)
    requires |b| == 1 || |b| == 2
    ensures |Encoded(b)| == 4 && DecodedLast(Encoded(b)) == Some(b) && Padding(Encoded(b)) == 3 - |b|
  {
    hide Symbol, Value;
    var s := Encoded(b);
    ValueOfSymbol(b[0] / 4);
    if |b| == 1 {
      ValueOfSymbol(b[0] % 4 * 16);
      assert s[2..] == "==";
      assert DecodedLast(s) == Some([b[0] / 4 * 4 + b[0] % 4 * 16 / 16]);
      assert [b[0]] == b;
    } else {
      ValueOfSymbol(b[0] % 4 * 16 + b[1] / 16);
      ValueOfSymbol(b[1] % 16 * 4);
      assert s[2..][0] != '=';
      assert [b[0], b[1]] == b;
    }
  }

  lemma {:induction false} PaddingOfConcat(a: string, b: string)
    requires |b| >= 4
    ensures Padding(a + b) == Padding(b)
  {
    assert (a + b)[|a + b| - 2..] == b[|b| - 2..];
  }

  /** Encoded text has a multiple of four characters, says how many bytes it stands for,
      and decodes to them. */
  lemma {:induction false} GroupsOfEncoded(b: seq<byte>)
    ensures |Encoded(b)| % 4 == 0 && Size(Encoded(b)) == |b| && DecodedGroups(Encoded(b)) == Some(b)
    ensures b != [] ==> |Encoded(b)| >= 4
  {
    if |b| < 3 {
      ShortDecodes(b);
    } else {
      hide Group, Size, DecodedGroup, DecodedGroups;
      var head, rest := Group(b[0], b[1], b[2]), Encoded(b[3..]);
      GroupsOfEncoded(b[3..]);
      assert Encoded(b) == head + rest;
      hide Encoded;
      GroupBefore(b[0], b[1], b[2], rest, b[3..]);
      assert b == [b[0], b[1], b[2]] + b[3..];
    }
  }

  lemma {:induction false} ShortDecodes(b: seq<byte>)
    requires |b| < 3
    ensures |Encoded(b)| % 4 == 0 && Size(Encoded(b)) == |b| && DecodedGroups(Encoded(b)) == Some(b)
    ensures b != [] ==> |Encoded(b)| >= 4
  {
    if b != [] {
      RestDecodes(b);
      hide DecodedLast, Padding, Encoded;
    }
  }

  lemma {:induction false} GroupBefore(a: byte, b: byte, c: byte, rest: string, tail: seq<byte>)
    requires |rest| % 4 == 0 && Size(rest) == |tail| && DecodedGroups(rest) == Some(tail)
    ensures var s := Group(a, b, c) + rest;
            |s| % 4 == 0 && Size(s) == |[a, b, c] + tail| && DecodedGroups(s) == Some([a, b, c] + tail)
  {
    GroupDecodes(a, b, c);
    var head := Group(a, b, c);
    hide Group, DecodedGroup, DecodedLast;
    var s := head + rest;
    assert s[..4] == head && s[4..] == rest;
    SizeBefore(head, rest);
    hide Size;
    if rest == "" {
      assert s == head && [a, b, c] + tail == [a, b, c];
      assert DecodedGroups(head) == DecodedLast(head);
      LastWithoutPadding(head);
    }
  }

  lemma {:induction false} LastWithoutPadding(s: string)
    requires |s| == 4 && s[3] != '='
    ensures DecodedLast(s) == DecodedGroup(s)
  {
  }

  lemma {:induction false} SizeBefore(head: string, rest: string)
    requires |head| == 4 && head[3] != '=' && |rest| % 4 == 0
    ensures Size(head + rest) == 3 + Size(rest)
  {
    assert |head + rest| == 4 + |rest|;
    assert (4 + |rest|) / 4 == 1 + |rest| / 4;
    if rest == "" {
      assert head + rest == head;
      assert Padding(head) == 0 by { assert head[2..][1] == head[3]; }
    } else {
      PaddingOfConcat(head, rest);
    }
  }

  /** Decoding undoes encoding. */
  lemma {:induction false} DecodedEncoded(b: seq<byte>)
    ensures Decoded(Encoded(b)) == Some(b)
  {
    hide Encoded, DecodedGroups;
    GroupsOfEncoded(b);
  }

  lemma {:induction false} GroupEncodes(s: string)
    requires |s| == 4 && DecodedGroup(s).Some?
    ensures var b := DecodedGroup(s).value; |b| == 3 && Group(b[0], b[1], b[2]) == s
  {
    hide Symbol, Value;
    var p, q, r, t := Value(s[0]).value, Value(s[1]).value, Value(s[2]).value, Value(s[3]).value;
    ValueExactly(s[0], p);
    ValueExactly(s[1], q);
    ValueExactly(s[2], r);
    ValueExactly(s[3], t);
    var a, b, c := p * 4 + q / 16, q % 16 * 16 + r / 4, r % 4 * 64 + t;
    assert a / 4 == p && a % 4 == q / 16 && b / 16 == q % 16 && b % 16 == r / 4 && c / 64 == r % 4 && c % 64 == t;
    assert Group(a, b, c) == [s[0], s[1], s[2], s[3]];
  }

  lemma {:induction false} PairEncodes(s: string)
    requires |s| == 4 && s[3] == '=' && s[2] != '=' && DecodedLast(s).Some?
    ensures Encoded(DecodedLast(s).value) == s
  {
    hide Symbol, Value;
    var p, q, r := Value(s[0]).value, Value(s[1]).value, Value(s[2]).value;
    ValueExactly(s[0], p);
    ValueExactly(s[1], q);
    ValueExactly(s[2], r);
    var a, b := p * 4 + q / 16, q % 16 * 16 + r / 4;
    assert a / 4 == p && a % 4 == q / 16 && b / 16 == q % 16 && b % 16 * 4 == r;
    assert Encoded([a, b]) == [s[0], s[1], s[2], s[3]];
  }

  lemma {:induction false} ByteEncodes(s: string)
    requires |s| == 4 && s[3] == '=' && s[2] == '=' && DecodedLast(s).Some?
    ensures Encoded(DecodedLast(s).value) == s
  {
    hide Symbol, Value;
    var p, q := Value(s[0]).value, Value(s[1]).value;
    ValueExactly(s[0], p);
    ValueExactly(s[1], q);
    var a := p * 4 + q / 16;
    assert a / 4 == p && a % 4 * 16 == q;
    assert Encoded([a]) == [s[0], s[1], s[2], s[3]];
  }

  lemma {:induction false} LastEncodes(s: string)
    requires |s| == 4 && DecodedLast(s).Some?
    ensures Encoded(DecodedLast(s).value) == s
  {
    if s[3] != '=' {
      LastWithoutPadding(s);
      GroupEncodes(s);
      hide DecodedLast, DecodedGroup, Group;
      var b := DecodedGroup(s).value;
      assert b[3..] == [] && Encoded(b) == Group(b[0], b[1], b[2]) + "";
      assert s + "" == s;
    } else {
      hide DecodedLast, Encoded;
      if s[2] != '=' { PairEncodes(s); } else { ByteEncodes(s); }
    }
  }

  lemma {:induction false} EncodedStarts(head: seq<byte>, rest: seq<byte>)
    requires |head| == 3
    ensures Encoded(head + rest) == Group(head[0], head[1], head[2]) + Encoded(rest)
  {
    hide Group;
    assert (head + rest)[3..] == rest;
  }

  lemma {:induction false} GroupsStart(s: string)
    requires |s| % 4 == 0 && |s| > 4 && DecodedGroups(s).Some?
    ensures DecodedGroup(s[..4]).Some? && DecodedGroups(s[4..]).Some?
    ensures DecodedGroups(s).value == DecodedGroup(s[..4]).value + DecodedGroups(s[4..]).value
  {
    hide DecodedGroup, DecodedLast;
  }

  lemma {:induction false} ShortGroups(s: string)
    requires |s| % 4 == 0 && |s| <= 4
    ensures s != "" ==> DecodedGroups(s) == DecodedLast(s)
    ensures s == "" ==> DecodedGroups(s) == Some([]) && Encoded([]) == s
  {
    hide DecodedLast;
  }

  lemma {:induction false} GroupsEncode(s: string)
    requires |s| % 4 == 0 && DecodedGroups(s).Some?
    ensures Encoded(DecodedGroups(s).value) == s
  {
    hide DecodedGroup, DecodedGroups, DecodedLast, Group, Encoded;
    if |s| <= 4 {
      ShortGroups(s);
      if s != "" { LastEncodes(s); }
    } else {
      GroupsStart(s);
      GroupEncodes(s[..4]);
      GroupsEncode(s[4..]);
      EncodedStarts(DecodedGroup(s[..4]).value, DecodedGroups(s[4..]).value);
      assert s == s[..4] + s[4..];
    }
  }

  /** Only an encoding is decoded: every text has at most one meaning, and no two texts the same one. */
  lemma {:induction false} DecodedExactly(s: string, b: seq<byte>)
    ensures Decoded(s) == Some(b) <==> s == Encoded(b)
  {
    hide Encoded, DecodedGroups, Size;
    if Decoded(s) == Some(b) {
      GroupsEncode(s);
    }
    DecodedEncoded(b);
  }

  // ---- Cutting at groups ----

  lemma {:induction false} EncodedConcat(a: seq<byte>, b: seq<byte>)
    requires |a| % 3 == 0
    ensures Encoded(a + b) == Encoded(a) + Encoded(b) && |Encoded(a)| == |a| / 3 * 4
  {
    hide Group;
    if a == [] {
      assert a + b == b;
    } else {
      EncodedConcat(a[3..], b);
      assert (a + b)[3..] == a[3..] + b;
      ConcatAssociative(Group(a[0], a[1], a[2]), Encoded(a[3..]), Encoded(b));
    }
  }

  /** The text cut every `PART` characters. */
  function Parts(s: string): seq<string> {
    if s == "" then [] else if |s| <= PART then [s] else [s[..PART]] + Parts(s[PART..])
  }

  /** The bytes cut every `PART_BYTES`. */
  function Chunks(b: seq<byte>): seq<seq<byte>> {
    if b == [] then [] else if |b| <= PART_BYTES then [b] else [b[..PART_BYTES]] + Chunks(b[PART_BYTES..])
  }

  lemma {:induction false} EncodedLength(b: seq<byte>)
    ensures |Encoded(b)| == (|b| + 2) / 3 * 4
  {
    hide Group;
    if |b| >= 3 {
      EncodedLength(b[3..]);
    }
  }

  /** Cutting the text cuts the bytes: each part is the encoding of its chunk. */
  lemma {:induction false} PartsAreChunks(b: seq<byte>)
    ensures |Parts(Encoded(b))| == |Chunks(b)|
    ensures forall i :: 0 <= i < |Chunks(b)| ==> Parts(Encoded(b))[i] == Encoded(Chunks(b)[i])
  {
    hide Encoded;
    EncodedLength(b);
    if b == [] {
      assert Encoded(b) == "";
    } else if |b| > PART_BYTES {
      var head, rest := b[..PART_BYTES], b[PART_BYTES..];
      assert b == head + rest;
      EncodedConcat(head, rest);
      EncodedLength(rest);
      assert (Encoded(head) + Encoded(rest))[..PART] == Encoded(head);
      assert (Encoded(head) + Encoded(rest))[PART..] == Encoded(rest);
      PartsAreChunks(rest);
    }
  }

  lemma {:induction false} PartsAreFull(s: string)
    ensures forall i :: 0 <= i < |Parts(s)| - 1 ==> |Parts(s)[i]| == PART
  {
    if |s| > PART {
      PartsAreFull(s[PART..]);
    }
  }

  function Flatten(chunks: seq<seq<byte>>): seq<byte> {
    if chunks == [] then [] else chunks[0] + Flatten(chunks[1..])
  }

  lemma {:induction false} ChunksJoin(b: seq<byte>)
    ensures Flatten(Chunks(b)) == b
    ensures forall i :: 0 <= i < |Chunks(b)| ==> 0 < |Chunks(b)[i]| <= PART_BYTES && |Chunks(b)[i]| <= |b|
  {
    if |b| > PART_BYTES {
      ChunksJoin(b[PART_BYTES..]);
      assert ([b[..PART_BYTES]] + Chunks(b[PART_BYTES..]))[1..] == Chunks(b[PART_BYTES..]);
    }
  }

  // ---- The receiver ----

  /** The receiver's check of one part. */
  predicate Accepted(size: int, data: seq<byte>) {
    size != 0 && size <= MAX_IMAGE && data != [] && |data| <= size
  }

  /** What the receiver has after decoding and joining the parts, if each decodes. */
  function Received(parts: seq<string>): Option<seq<byte>> {
    if parts == [] then Some([])
    else
      match (Decoded(parts[0]), Received(parts[1..]))
      case (Some(head), Some(rest)) => Some(head + rest)
      case _ => None
  }

  lemma {:induction false} ReceivedChunks(parts: seq<string>, chunks: seq<seq<byte>>)
    requires |parts| == |chunks| && forall i :: 0 <= i < |chunks| ==> parts[i] == Encoded(chunks[i])
    ensures Received(parts) == Some(Flatten(chunks))
  {
    hide Encoded, Decoded;
    if parts != [] {
      DecodedEncoded(chunks[0]);
      ReceivedChunks(parts[1..], chunks[1..]);
    }
  }

  /** The parts of an image decode separately and join to the image. The declared size is
      the image's, and a part is accepted exactly when the image is within the limit. */
  lemma {:induction false} PartsCarryImage(image: seq<byte>)
    ensures var text := Encoded(image);
            && Size(text) == |image|
            && Received(Parts(text)) == Some(image)
            && forall i :: 0 <= i < |Parts(text)| ==>
                 && |Parts(text)[i]| <= 43_688 && (i < |Parts(text)| - 1 ==> |Parts(text)[i]| == 43_688)
                 && Decoded(Parts(text)[i]).Some?
                 && (Accepted(Size(text), Decoded(Parts(text)[i]).value) <==> |image| <= 8_388_608)
  {
    var text := Encoded(image);
    GroupsOfEncoded(image);
    PartsAreChunks(image);
    ChunksJoin(image);
    PartsAreFull(text);
    hide Encoded, Decoded, Parts, Chunks, Flatten, Received;
    ReceivedChunks(Parts(text), Chunks(image));
    forall i | 0 <= i < |Parts(text)|
      ensures |Parts(text)[i]| <= PART && Decoded(Parts(text)[i]) == Some(Chunks(image)[i])
    {
      DecodedEncoded(Chunks(image)[i]);
      EncodedLength(Chunks(image)[i]);
    }
  }

  lemma {:induction false} NextPart(image: string, start: nat)
    requires start < |image|
    ensures var end := if start + PART <= |image| then start + PART else |image|;
            Parts(image[start..]) == [image[start..end]] + Parts(image[end..])
  {
    var rest := image[start..];
    assert image[|image|..] == "";
    if start + PART < |image| {
      assert rest[..PART] == image[start..start + PART] && rest[PART..] == image[start + PART..];
    } else {
      assert rest == image[start..|image|];
    }
  }

  /** The sending loop. It stops early when the request is no longer active or a reply is
      not a state; `goesOn` says after how many parts that happens. */
  method SendImage(image: string, goesOn: nat) returns (sent: seq<string>, size: int)
    ensures size == Size(image)
    ensures sent <= Parts(image)
    ensures |sent| == if goesOn < |Parts(image)| then goesOn else |Parts(image)|
  {
    size := |image| / 4 * 3 - Padding(image);
    sent := [];
    var start := 0;
    while start < |image| && |sent| < goesOn
      invariant start <= |image| || |sent| == |Parts(image)|
      invariant sent <= Parts(image)
      invariant start <= |image| ==> Parts(image)[|sent|..] == Parts(image[start..])
      invariant start > |image| ==> sent == Parts(image)
      invariant |sent| <= goesOn
      decreases |image| - start
    {
      var end := if start + PART <= |image| then start + PART else |image|;
      NextPart(image, start);
      sent := sent + [image[start..end]];
      start := start + PART;
    }
  }
}
