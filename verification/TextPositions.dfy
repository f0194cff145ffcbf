/** Positions in a text: byte offsets, UTF-16 offsets and masked display columns. */
module TextPositions {
  import opened Seqs
  import opened Utf8

  function Chars(b: seq<byte>): (s: string)
    requires IsText(b)
    ensures Encode(s) == b
  {
    Decode(b).value
  }

  lemma {:induction false} CharsOfEncoded(s: string)
    ensures IsText(Encode(s)) && Chars(Encode(s)) == s
  {
    DecodeEncode(s);
  }

  /** `str::is_char_boundary`. */
  predicate IsBoundary(b: seq<byte>, i: int) {
    0 <= i <= |b| && (i == 0 || i == |b| || !IsContinuation(b[i]))
  }

  function Width(s: string): nat {
    |Encode(s)|
  }

  lemma {:induction false} WidthConcat(s: string, t: string)
    ensures Width(s + t) == Width(s) + Width(t)
  {
    EncodeConcat(s, t);
  }

  lemma {:induction false} WidthOne(c: char)
    ensures Width([c]) == |EncodeChar(c)|
  {
    hide EncodeChar;
    assert [c][1..] == [];
    assert Encode([c]) == EncodeChar(c) + Encode([]);
  }

  /** The boundaries of a text are the ends of its prefixes. */
  lemma {:induction false} BoundaryIsPrefixEnd(s: string, i: nat) returns (k: nat)
    requires IsBoundary(Encode(s), i)
    ensures k <= |s| && i == Width(s[..k])
    decreases |s|
  {
    if i == 0 {
      k := 0;
    } else {
      var c, rest := s[0], Encode(s[1..]);
      assert i >= |EncodeChar(c)|;
      var j := i - |EncodeChar(c)|;
      assert j < |rest| ==> rest[j] == Encode(s)[i];
      hide EncodeChar;
      k := BoundaryIsPrefixEnd(s[1..], j);
      k := k + 1;
      assert s[..k] == [c] + s[1..][..k - 1];
      WidthOne(c);
      WidthConcat([c], s[1..][..k - 1]);
    }
  }

  lemma {:induction false} PrefixEndIsBoundary(s: string, k: nat)
    requires k <= |s|
    ensures IsBoundary(Encode(s), Width(s[..k]))
    ensures Encode(s)[..Width(s[..k])] == Encode(s[..k]) && Encode(s)[Width(s[..k])..] == Encode(s[k..])
  {
    assert s == s[..k] + s[k..];
    EncodeConcat(s[..k], s[k..]);
    var i := Width(s[..k]);
    assert Encode(s)[i..] == Encode(s[k..]);
    if k < |s| {
      assert Encode(s)[i] == Encode(s[k..])[0];
    }
  }

  /** A text split at a boundary is two texts, and only there. */
  lemma {:induction false} SplitAtBoundary(b: seq<byte>, i: nat)
    requires IsText(b) && i <= |b|
    ensures IsBoundary(b, i) ==> IsText(b[..i]) && IsText(b[i..]) && Chars(b) == Chars(b[..i]) + Chars(b[i..])
    ensures IsText(b[..i]) ==> IsBoundary(b, i)
  {
    var s := Chars(b);
    if IsBoundary(b, i) {
      var k := BoundaryIsPrefixEnd(s, i);
      PrefixEndIsBoundary(s, k);
      CharsOfEncoded(s[..k]);
      CharsOfEncoded(s[k..]);
      assert s == s[..k] + s[k..];
    }
    if IsText(b[..i]) {
      PrefixOfTextEnds(Chars(b[..i]), s);
    }
  }

  lemma {:induction false} FirstCharAgrees(p: string, s: string)
    requires p != [] && Encode(p) <= Encode(s)
    ensures s != [] && s[0] == p[0] && Encode(p[1..]) <= Encode(s[1..])
  {
    hide EncodeChar, DecodeFirst;
    assert Encode(p) == EncodeChar(p[0]) + Encode(p[1..]);
    assert s != [];
    assert Encode(s) == EncodeChar(s[0]) + Encode(s[1..]);
    var w := |EncodeChar(p[0])|;
    assert Encode(s) == EncodeChar(p[0]) + Encode(s)[w..];
    DecodeFirstOfEncoded(p[0], Encode(s)[w..]);
    DecodeFirstOfEncoded(s[0], Encode(s[1..]));
    assert Encode(p)[w..] == Encode(p[1..]) && Encode(s)[w..] == Encode(s[1..]);
  }

  /** Where one text's bytes are a prefix of another's, so are its characters. */
  lemma {:induction false} PrefixOfTextEnds(p: string, s: string)
    requires Encode(p) <= Encode(s)
    ensures p <= s && IsBoundary(Encode(s), Width(p))
    decreases |p|
  {
    hide Encode;
    if p == [] {
      assert Width(p) == 0 by { WidthNone(); }
    } else {
      FirstCharAgrees(p, s);
      PrefixOfTextEnds(p[1..], s[1..]);
      assert p == [p[0]] + p[1..] && s == [s[0]] + s[1..];
      assert s[..|p|] == p;
      PrefixEndIsBoundary(s, |p|);
    }
  }

  lemma {:induction false} WidthNone()
    ensures Width([]) == 0
  {
  }

  lemma {:induction false} ConcatText(a: seq<byte>, b: seq<byte>)
    requires IsText(a) && IsText(b)
    ensures IsText(a + b) && Chars(a + b) == Chars(a) + Chars(b)
  {
    EncodeConcat(Chars(a), Chars(b));
    CharsOfEncoded(Chars(a) + Chars(b));
  }

  // ---- UTF-16 offsets ----

  function Units(c: char): nat {
    if c as int < 0x10000 then 1 else 2
  }

  function Utf16Length(s: string): nat {
    if s == [] then 0 else Units(s[0]) + Utf16Length(s[1..])
  }

  lemma {:induction false} Utf16Concat(s: string, t: string)
    ensures Utf16Length(s + t) == Utf16Length(s) + Utf16Length(t)
  {
    if s == [] {
      assert s + t == t;
    } else {
      ConcatTail(s, t);
      Utf16Concat(s[1..], t);
    }
  }

  /** How many UTF-16 units stand before a byte position. */
  function Utf16Offset(b: seq<byte>, i: nat): nat
    requires i <= |b| && IsText(b[..i])
  {
    Utf16Length(Chars(b[..i]))
  }

  /** The byte position a UTF-16 offset falls on, rounded up to a boundary and
      clamped to the end. */
  function ByteOffset(s: string, offset: int): nat {
    if s == [] || offset <= 0 then 0
    else |EncodeChar(s[0])| + ByteOffset(s[1..], offset - Units(s[0]))
  }

  /** The character position a UTF-16 offset falls on. */
  function CharOffset(s: string, offset: int): (k: nat)
    ensures k <= |s|
  {
    if s == [] || offset <= 0 then 0 else 1 + CharOffset(s[1..], offset - Units(s[0]))
  }

  lemma {:induction false} ByteOffsetIsPrefixEnd(s: string, offset: int)
    ensures ByteOffset(s, offset) == Width(s[..CharOffset(s, offset)])
  {
    hide EncodeChar;
    if s != [] && offset > 0 {
      ByteOffsetIsPrefixEnd(s[1..], offset - Units(s[0]));
      var k := CharOffset(s, offset);
      assert s[..k] == [s[0]] + s[1..][..k - 1];
      WidthOne(s[0]);
      WidthConcat([s[0]], s[1..][..k - 1]);
    }
  }

  /** The character position is the least one with enough units before it. */
  lemma {:induction false} CharOffsetLeast(s: string, offset: int, k: nat)
    requires k <= |s|
    ensures offset <= Utf16Length(s) ==> (CharOffset(s, offset) <= k <==> offset <= Utf16Length(s[..k]))
    ensures offset > Utf16Length(s) ==> CharOffset(s, offset) == |s|
    decreases |s|
  {
    if s != [] && offset > 0 {
      if k == 0 {
        CharOffsetLeast(s[1..], offset - Units(s[0]), 0);
        assert s[..0] == [];
      } else {
        CharOffsetLeast(s[1..], offset - Units(s[0]), k - 1);
        assert s[..k][0] == s[0] && s[..k][1..] == s[1..][..k - 1];
      }
    } else if s == [] {
      assert s[..k] == [];
    }
  }

  lemma {:induction false} WidthMonotone(s: string, j: nat, k: nat)
    requires j <= |s| && k <= |s|
    ensures j <= k <==> Width(s[..j]) <= Width(s[..k])
  {
    var a, b := if j <= k then j else k, if j <= k then k else j;
    assert s[..b] == s[..a] + s[a..b];
    WidthConcat(s[..a], s[a..b]);
    assert a < b ==> Width(s[a..b]) > 0;
  }

  lemma {:induction false} Utf16AtPrefix(s: string, k: nat)
    requires k <= |s|
    ensures Width(s[..k]) <= |Encode(s)| && IsText(Encode(s)[..Width(s[..k])])
    ensures Utf16Offset(Encode(s), Width(s[..k])) == Utf16Length(s[..k])
  {
    PrefixEndIsBoundary(s, k);
    CharsOfEncoded(s[..k]);
  }

  /** Byte and UTF-16 offsets are adjoint: for every boundary, the byte offset of a
      count is at or before it exactly when the count is at most the units before it.
      A count past the end gives the end. */
  lemma {:induction false} OffsetsAdjoint(b: seq<byte>, offset: int, i: nat)
    requires IsText(b) && IsBoundary(b, i)
    ensures IsText(b[..i])
    ensures offset <= Utf16Length(Chars(b)) ==>
              (ByteOffset(Chars(b), offset) <= i <==> offset <= Utf16Offset(b, i))
    ensures offset > Utf16Length(Chars(b)) ==> ByteOffset(Chars(b), offset) == |b|
    ensures IsBoundary(b, ByteOffset(Chars(b), offset))
  {
    var s := Chars(b);
    var k := BoundaryIsPrefixEnd(s, i);
    Utf16AtPrefix(s, k);
    ByteOffsetIsPrefixEnd(s, offset);
    CharOffsetLeast(s, offset, k);
    WidthMonotone(s, CharOffset(s, offset), k);
    PrefixEndIsBoundary(s, CharOffset(s, offset));
    assert s[..|s|] == s;
  }

  lemma {:induction false} CharOffsetOfPrefix(s: string, k: nat)
    requires k <= |s|
    ensures CharOffset(s, Utf16Length(s[..k])) == k
    decreases k
  {
    if k == 0 {
      assert s[..0] == [];
    } else {
      assert s[..k][0] == s[0] && s[..k][1..] == s[1..][..k - 1];
      CharOffsetOfPrefix(s[1..], k - 1);
    }
  }

  /** Going to UTF-16 and back is the identity on boundaries. */
  lemma {:induction false} ByteOffsetOfUtf16(b: seq<byte>, i: nat)
    requires IsText(b) && IsBoundary(b, i)
    ensures IsText(b[..i]) && ByteOffset(Chars(b), Utf16Offset(b, i)) == i
  {
    var s := Chars(b);
    var k := BoundaryIsPrefixEnd(s, i);
    Utf16AtPrefix(s, k);
    CharOffsetOfPrefix(s, k);
    ByteOffsetIsPrefixEnd(s, Utf16Length(s[..k]));
  }

  lemma {:induction false} ByteOffsetBoundary(b: seq<byte>, offset: int)
    requires IsText(b)
    ensures IsBoundary(b, ByteOffset(Chars(b), offset))
  {
    var s := Chars(b);
    ByteOffsetIsPrefixEnd(s, offset);
    PrefixEndIsBoundary(s, CharOffset(s, offset));
  }

  // ---- Masked display ----

  const DOT_WIDTH: nat := 3 // bytes of the bullet a masked field shows per character

  /** The display column of a byte position in a masked field. */
  function MaskedColumn(b: seq<byte>, i: nat): nat
    requires i <= |b| && IsText(b[..i])
  {
    |Chars(b[..i])| * DOT_WIDTH
  }

  /** The byte position of a display column in a masked field. */
  function MaskedPosition(b: seq<byte>, column: nat): nat
    requires IsText(b)
  {
    var s, k := Chars(b), column / DOT_WIDTH;
    if k < |s| then Width(s[..k]) else |b|
  }

  /** Every masked column leads to a boundary, and a boundary's own column leads
      back to it. */
  lemma {:induction false} MaskedRoundTrip(b: seq<byte>, i: nat)
    requires IsText(b) && IsBoundary(b, i)
    ensures IsText(b[..i]) && MaskedPosition(b, MaskedColumn(b, i)) == i
  {
    SplitAtBoundary(b, i);
    var s, p := Chars(b), Chars(b[..i]);
    assert s[..|p|] == p;
    assert b[..|b|] == b;
    if |p| == |s| {
      assert p == s;
    }
  }

  lemma {:induction false} MaskedPositionBoundary(b: seq<byte>, column: nat)
    requires IsText(b)
    ensures IsBoundary(b, MaskedPosition(b, column))
    ensures IsText(b[..MaskedPosition(b, column)])
    ensures MaskedColumn(b, MaskedPosition(b, column))
            == (if column / DOT_WIDTH < |Chars(b)| then column / DOT_WIDTH else |Chars(b)|) * DOT_WIDTH
  {
    var s, k := Chars(b), column / DOT_WIDTH;
    assert b[..|b|] == b;
    if k < |s| {
      PrefixEndIsBoundary(s, k);
      CharsOfEncoded(s[..k]);
    }
  }

  // ---- The same positions, computed on the bytes ----

  /** The next boundary after a position, or the end. */
  function Next(b: seq<byte>, i: nat): (j: nat)
    ensures i < |b| ==> i < j <= |b| && IsBoundary(b, j) && forall k :: i < k < j ==> IsContinuation(b[k])
    ensures i >= |b| ==> j == i
    decreases |b| - i
  {
    if i >= |b| then i
    else if i + 1 == |b| || !IsContinuation(b[i + 1]) then i + 1
    else Next(b, i + 1)
  }

  /** The last boundary before a position, or the start. */
  function Previous(b: seq<byte>, i: nat): (j: nat)
    requires i <= |b|
    ensures 0 < i ==> j < i && IsBoundary(b, j) && forall k :: j < k < i ==> IsContinuation(b[k])
    ensures i == 0 ==> j == 0
  {
    if i == 0 then 0
    else if i == 1 || !IsContinuation(b[i - 1]) then i - 1
    else Previous(b, i - 1)
  }

  /** The boundary reached from `i` in `n` steps, or the end. */
  function Advance(b: seq<byte>, i: nat, n: nat): (j: nat)
    requires i <= |b|
    ensures i <= j <= |b| && (IsBoundary(b, i) ==> IsBoundary(b, j))
    decreases n
  {
    if n == 0 || i == |b| then i else Advance(b, Next(b, i), n - 1)
  }

  function ByteUnits(b: byte): nat {
    if IsContinuation(b) then 0 else if b < 0xF0 then 1 else 2
  }

  /** UTF-16 units before a byte position, counted on the lead bytes. */
  function UnitsBefore(b: seq<byte>, i: nat): nat
    requires i <= |b|
  {
    if i == 0 then 0 else UnitsBefore(b, i - 1) + ByteUnits(b[i - 1])
  }

  function OffsetFrom(b: seq<byte>, i: nat, count: nat, offset: nat): (r: nat)
    requires i <= |b|
    ensures i <= r <= |b| && (IsBoundary(b, i) ==> IsBoundary(b, r))
    decreases |b| - i
  {
    if i == |b| || count >= offset then i
    else OffsetFrom(b, Next(b, i), count + ByteUnits(b[i]), offset)
  }

  /** The search loop over the boundaries of the text. */
  method FindByteOffset(b: seq<byte>, offset: nat) returns (r: nat)
    ensures r == OffsetFrom(b, 0, 0, offset)
  {
    var count: nat, index: nat := 0, 0;
    while index < |b|
      invariant index <= |b| && OffsetFrom(b, index, count, offset) == OffsetFrom(b, 0, 0, offset)
    {
      if count >= offset {
        return index;
      }
      count := count + ByteUnits(b[index]);
      index := Next(b, index);
    }
    return |b|;
  }

  lemma {:induction false} NextSkipsChar(p: seq<byte>, c: char, rest: seq<byte>)
    requires rest != [] ==> !IsContinuation(rest[0])
    ensures Next(p + EncodeChar(c) + rest, |p|) == |p| + |EncodeChar(c)|
  {
    var b, i, w := p + EncodeChar(c) + rest, |p|, |EncodeChar(c)|;
    assert forall k :: i <= k < i + w ==> b[k] == EncodeChar(c)[k - i];
    assert i + w < |b| ==> b[i + w] == rest[0];
  }

  lemma {:induction false} EncodedStart(s: string)
    ensures Encode(s) != [] ==> !IsContinuation(Encode(s)[0])
    ensures Encode(s) == [] <==> s == []
  {
  }

  lemma {:induction false} NextAfterPrefix(p: string, s: string)
    requires s != []
    ensures var b := Encode(p) + Encode(s);
            && Next(b, Width(p)) == Width(p + [s[0]])
            && b == Encode(p + [s[0]]) + Encode(s[1..])
            && b[Width(p)] == EncodeChar(s[0])[0]
  {
    hide EncodeChar;
    EncodedStart(s[1..]);
    NextSkipsChar(Encode(p), s[0], Encode(s[1..]));
    ConcatAssociative(Encode(p), EncodeChar(s[0]), Encode(s[1..]));
    WidthOne(s[0]);
    EncodeConcat(p, [s[0]]);
    assert Encode([s[0]]) == EncodeChar(s[0]) by { EncodeOne(s[0]); }
  }

  lemma {:induction false} EncodeOne(c: char)
    ensures Encode([c]) == EncodeChar(c)
  {
    hide EncodeChar;
    assert [c][1..] == [];
    assert Encode([c]) == EncodeChar(c) + Encode([]);
  }

  lemma {:induction false} LeadUnits(c: char)
    ensures ByteUnits(EncodeChar(c)[0]) == Units(c)
  {
  }

  /** The byte-level search finds the offset the characters define. */
  lemma {:induction false} OffsetFromPrefix(p: string, s: string, count: nat, offset: nat)
    ensures OffsetFrom(Encode(p) + Encode(s), Width(p), count, offset) == Width(p) + ByteOffset(s, offset - count)
    decreases |s|
  {
    hide EncodeChar, Encode;
    EncodedStart(s);
    if s != [] && count < offset {
      NextAfterPrefix(p, s);
      LeadUnits(s[0]);
      WidthOne(s[0]);
      WidthConcat(p, [s[0]]);
      OffsetFromPrefix(p + [s[0]], s[1..], count + Units(s[0]), offset);
    }
  }

  lemma {:induction false} OffsetIsByteOffset(b: seq<byte>, offset: nat)
    requires IsText(b)
    ensures OffsetFrom(b, 0, 0, offset) == ByteOffset(Chars(b), offset)
  {
    hide Encode, ByteOffset, OffsetFrom;
    OffsetFromPrefix([], Chars(b), 0, offset);
    assert Encode([]) == [] by { EncodedStart([]); }
    assert [] + b == b;
  }

  lemma {:induction false} UnitsBeforePrefix(a: seq<byte>, b: seq<byte>, i: nat)
    requires i <= |a|
    ensures UnitsBefore(a + b, i) == UnitsBefore(a, i)
    decreases i
  {
    if i > 0 {
      UnitsBeforePrefix(a, b, i - 1);
    }
  }

  lemma {:induction false} UnitsOverContinuations(b: seq<byte>, i: nat, j: nat)
    requires i <= j <= |b| && forall k :: i <= k < j ==> IsContinuation(b[k])
    ensures UnitsBefore(b, j) == UnitsBefore(b, i)
    decreases j
  {
    if i < j {
      UnitsOverContinuations(b, i, j - 1);
    }
  }

  lemma {:induction false} UnitsAfterChar(a: seq<byte>, c: char)
    ensures UnitsBefore(a + EncodeChar(c), |a| + |EncodeChar(c)|) == UnitsBefore(a, |a|) + Units(c)
  {
    LeadUnits(c);
    hide EncodeChar;
    var e := EncodeChar(c);
    var b, i := a + e, |a|;
    assert forall k :: i <= k < |b| ==> b[k] == e[k - i];
    UnitsBeforePrefix(a, e, i);
    UnitsOverContinuations(b, i + 1, |b|);
    assert UnitsBefore(b, i + 1) == UnitsBefore(b, i) + ByteUnits(b[i]);
  }

  lemma {:induction false} UnitsOfEncoded(s: string)
    ensures UnitsBefore(Encode(s), Width(s)) == Utf16Length(s)
    decreases |s|
  {
    if s != [] {
      hide EncodeChar, Encode, Utf16Length;
      var p, c := s[..|s| - 1], s[|s| - 1];
      assert s == p + [c];
      EncodeConcat(p, [c]);
      EncodeOne(c);
      Utf16Concat(p, [c]);
      Utf16One(c);
      UnitsOfEncoded(p);
      UnitsAfterChar(Encode(p), c);
    }
  }

  lemma {:induction false} Utf16One(c: char)
    ensures Utf16Length([c]) == Units(c)
  {
    assert [c][1..] == [];
  }

  /** Counting lead bytes counts the UTF-16 units of the characters. */
  lemma {:induction false} UnitsAreUtf16(b: seq<byte>, i: nat)
    requires IsText(b) && IsBoundary(b, i)
    ensures IsText(b[..i]) && UnitsBefore(b, i) == Utf16Offset(b, i)
  {
    SplitAtBoundary(b, i);
    UnitsOfEncoded(Chars(b[..i]));
    UnitsBeforePrefix(b[..i], b[i..], i);
    assert b == b[..i] + b[i..];
  }

  lemma {:induction false} AdvancePrefix(p: string, s: string, n: nat)
    ensures Advance(Encode(p) + Encode(s), Width(p), n)
            == if n < |s| then Width(p + s[..n]) else Width(p + s)
    decreases |s|
  {
    hide Encode;
    EncodedStart(s);
    EncodeConcat(p, s);
    if s == [] {
      assert p + s == p;
    } else if n == 0 {
      assert p + s[..0] == p;
    } else {
      NextAfterPrefix(p, s);
      AdvancePrefix(p + [s[0]], s[1..], n - 1);
      assert p + [s[0]] + s[1..] == p + s;
      assert n < |s| ==> p + [s[0]] + s[1..][..n - 1] == p + s[..n];
    }
  }

  /** Stepping over boundaries is stepping over characters. */
  lemma {:induction false} AdvanceIsMaskedPosition(b: seq<byte>, column: nat)
    requires IsText(b)
    ensures Advance(b, 0, column / DOT_WIDTH) == MaskedPosition(b, column)
  {
    hide Encode, Advance;
    var s, n := Chars(b), column / DOT_WIDTH;
    AdvancePrefix([], s, n);
    assert Encode([]) == [] by { EncodedStart([]); }
    assert [] + b == b && [] + s == s;
    assert n < |s| ==> [] + s[..n] == s[..n];
  }
}
