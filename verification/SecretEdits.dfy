/** What the field's edits mean for the characters of its text and what it
    shows of a masked text. */
module SecretEdits {
  import opened Wrappers
  import opened Utf8
  import opened TextPositions
  import opened SecretInput

  // ---- One character forwards and back ----

  lemma {:induction false} NextIsOneChar(b: seq<byte>, i: nat)
    requires IsText(b) && IsBoundary(b, i) && i < |b|
    ensures var j := Next(b, i);
            && IsText(b[..i]) && IsText(b[i..]) && IsText(b[..j]) && IsText(b[j..])
            && Chars(b[i..]) != []
            && Chars(b[..j]) == Chars(b[..i]) + [Chars(b[i..])[0]]
            && Chars(b[j..]) == Chars(b[i..])[1..]
  {
    hide IsText, Chars, EncodeChar, Encode, Next;
    var j := Next(b, i);
    SplitAtBoundary(b, i);
    var p, s := Chars(b[..i]), Chars(b[i..]);
    assert b == b[..i] + b[i..];
    assert s != [] by { EncodedStart(s); }
    NextAfterPrefix(p, s);
    var q, rest := p + [s[0]], s[1..];
    assert b == Encode(q) + Encode(rest) && j == |Encode(q)|;
    assert b[..j] == Encode(q) && b[j..] == Encode(rest);
    CharsOfEncoded(q);
    CharsOfEncoded(rest);
  }

  lemma {:induction false} NextFrom(b: seq<byte>, j: nat, i: nat)
    requires j < i <= |b| && (i == |b| || !IsContinuation(b[i]))
    requires forall k :: j < k < i ==> IsContinuation(b[k])
    ensures Next(b, j) == i
  {
  }

  lemma {:induction false} PreviousIsOneChar(b: seq<byte>, i: nat)
    requires IsText(b) && IsBoundary(b, i) && i > 0
    ensures var j := Previous(b, i);
            && Next(b, j) == i
            && IsText(b[..i]) && IsText(b[i..]) && IsText(b[..j]) && IsText(b[j..])
            && Chars(b[..i]) != []
            && Chars(b[..j]) == Chars(b[..i])[..|Chars(b[..i])| - 1]
            && Chars(b[j..]) == [Chars(b[..i])[|Chars(b[..i])| - 1]] + Chars(b[i..])
  {
    hide IsText, Chars;
    var j := Previous(b, i);
    NextFrom(b, j, i);
    NextIsOneChar(b, j);
    var before, after := Chars(b[..j]), Chars(b[j..]);
    assert (before + [after[0]])[..|before|] == before;
    assert after == [after[0]] + after[1..];
  }

  // ---- Edits on characters ----

  /** An insertion puts the text between the characters before and after its range,
      leaves the caret right behind it and ends the composition. */
  lemma {:induction false} InsertingSplices(f: Input, range: Option<Span>, t: string, alloc: bool)
    requires Sound(f) && Happens(f, Target(f, range), t, alloc)
    ensures Step(f, Insert(range, t, alloc)) == Some(Inserted(f, range, t, alloc))
    ensures range.None? ==> Step(f, Paste(Some(t), alloc)) == Some(Inserted(f, range, t, alloc))
    ensures var r, g := Target(f, range), Inserted(f, range, t, alloc);
            && IsText(f.text[..r.start]) && IsText(f.text[r.end..]) && IsText(g.text)
            && Chars(g.text) == Chars(f.text[..r.start]) + t + Chars(f.text[r.end..])
            && g.selection == Span(r.start + Width(t), r.start + Width(t))
            && g.marked == None && !g.reversed && !g.allocationFailed
  {
    hide IsText, Chars, Target, Encode;
    SplicedText(f.text, Target(f, range), t);
  }

  predicate Caret(f: Input, i: nat) {
    f.selection == Span(i, i) && f.marked.None?
  }

  /** Removing a range is always accepted. */
  lemma {:induction false} RemovalAccepted(f: Input, r: Span)
    requires Sound(f) && SpanGood(f.text, r)
    ensures Happens(f, r, "", true)
  {
    WidthNone();
  }

  /** Backspace at a caret takes away the one character before it. */
  lemma {:induction false} BackspaceRemovesOne(f: Input, i: nat)
    requires Sound(f) && Caret(f, i) && i > 0
    ensures Step(f, Backspace(true)) == Some(Deleted(f, true, true))
    ensures var g, j := Deleted(f, true, true), Previous(f.text, i);
            && IsText(f.text[..i]) && IsText(f.text[i..]) && IsText(g.text)
            && Chars(f.text[..i]) != []
            && Chars(g.text) == Chars(f.text[..i])[..|Chars(f.text[..i])| - 1] + Chars(f.text[i..])
            && Caret(g, j)
  {
    hide IsText, Chars, Encode, NewlineFree, Inserted, Happens;
    PreviousIsOneChar(f.text, i);
    hide Previous, Next;
    var j := Previous(f.text, i);
    var w := f.(selection := Span(j, i));
    assert Sound(w);
    assert Target(w, None) == Span(j, i);
    RemovalAccepted(w, Span(j, i));
    WidthNone();
    InsertingSplices(w, None, "", true);
    NothingBetween(Chars(f.text[..j]), Chars(f.text[i..]));
  }

  lemma {:induction false} NothingBetween(a: string, b: string)
    ensures a + "" + b == a + b
  {
  }

  /** Delete at a caret takes away the one character after it. */
  lemma {:induction false} DeleteRemovesOne(f: Input, i: nat)
    requires Sound(f) && Caret(f, i) && i < |f.text|
    ensures Step(f, Delete(true)) == Some(Deleted(f, false, true))
    ensures var g := Deleted(f, false, true);
            && IsText(f.text[..i]) && IsText(f.text[i..]) && IsText(g.text)
            && Chars(f.text[i..]) != []
            && Chars(g.text) == Chars(f.text[..i]) + Chars(f.text[i..])[1..]
            && Caret(g, i)
  {
    hide IsText, Chars, Encode, NewlineFree, Inserted, Happens;
    NextIsOneChar(f.text, i);
    var j := Next(f.text, i);
    hide Previous, Next;
    var w := f.(selection := Span(i, j));
    assert Sound(w);
    assert Target(w, None) == Span(i, j);
    RemovalAccepted(w, Span(i, j));
    WidthNone();
    InsertingSplices(w, None, "", true);
    NothingBetween(Chars(f.text[..i]), Chars(f.text[j..]));
  }

  lemma {:induction false} SameChars(a: seq<byte>, b: seq<byte>)
    requires IsText(a) && IsText(b) && Chars(a) == Chars(b)
    ensures a == b
  {
    assert Encode(Chars(a)) == a && Encode(Chars(b)) == b;
  }

  /** Typing one character at a caret and pressing backspace restores the text and the caret. */
  lemma {:induction false} BackspaceUndoesTyping(f: Input, i: nat, c: char)
    requires Sound(f) && Caret(f, i) && Happens(f, Span(i, i), [c], true)
    ensures var h := Deleted(Inserted(f, None, [c], true), true, true);
            h.text == f.text && Caret(h, i)
  {
    hide IsText, Chars, Encode, NewlineFree, Happens, Accepts, EncodeChar;
    var g := Inserted(f, None, [c], true);
    InsertingSplices(f, None, [c], true);
    InsertedSound(f, None, [c], true);
    hide Inserted;
    var k := i + Width([c]);
    assert k > i by { WidthOne(c); EncodedStart([c]); }
    hide Width;
    var before, after := Chars(f.text[..i]), Chars(f.text[i..]);
    SplitAtBoundary(f.text, i);
    TypedBeforeCaret(f, g, i, c);
    BackspaceRemovesOne(g, k);
    assert (before + [c])[..|before|] == before;
    SameChars(Deleted(g, true, true).text, f.text);
    PreviousIsTyped(g, i, k, before, c);
  }

  /** After typing, the characters before the caret end with the one typed. */
  lemma {:induction false} TypedBeforeCaret(f: Input, g: Input, i: nat, c: char)
    requires Sound(f) && Caret(f, i) && Happens(f, Span(i, i), [c], true) && g == Inserted(f, None, [c], true)
    ensures var k := i + Width([c]);
            && k <= |g.text|
            && IsText(f.text[..i]) && IsText(f.text[i..]) && IsText(g.text[..k]) && IsText(g.text[k..])
            && Chars(g.text[..k]) == Chars(f.text[..i]) + [c]
            && Chars(g.text[k..]) == Chars(f.text[i..])
            && g.text[..i] == f.text[..i]
  {
    hide IsText, Chars, Encode, NewlineFree, EncodeChar;
    SplitAtBoundary(f.text, i);
    var k, t := i + Width([c]), Encode([c]);
    assert g.text == Spliced(f.text, Span(i, i), t);
    assert g.text[..k] == f.text[..i] + t;
    assert g.text[k..] == f.text[i..];
    assert g.text[..i] == f.text[..i];
    CharsOfEncoded([c]);
    ConcatText(f.text[..i], t);
  }

  lemma {:induction false} PreviousIsTyped(g: Input, i: nat, k: nat, before: string, c: char)
    requires Sound(g) && i < k <= |g.text| && IsBoundary(g.text, k)
    requires IsText(g.text[..i]) && Chars(g.text[..i]) == before
    requires IsText(g.text[..k]) && Chars(g.text[..k]) == before + [c]
    ensures Previous(g.text, k) == i
  {
    hide NewlineFree;
    PreviousIsOneChar(g.text, k);
    var j := Previous(g.text, k);
    assert (before + [c])[..|before|] == before;
    SameChars(g.text[..j], g.text[..i]);
    assert |g.text[..j]| == j && |g.text[..i]| == i;
  }

  /** Moving right and then left returns to the same caret, and right passes exactly
      one character. */
  lemma {:induction false} LeftUndoesRight(f: Input, i: nat)
    requires Sound(f) && Caret(f, i) && i < |f.text|
    ensures var g := Moved(f, Forward, false);
            && Step(f, Right(false)) == Some(g)
            && Caret(g, Next(f.text, i))
            && Sound(g)
            && Step(g, Left(false)) == Some(Moved(g, Back, false))
            && Caret(Moved(g, Back, false), i)
  {
    hide IsText, NewlineFree;
    MovedSound(f, Forward, false);
    var j := Next(f.text, i);
    assert Moved(f, Forward, false).selection == Span(j, j);
    PreviousOfNext(f.text, i);
  }

  lemma {:induction false} PreviousOfNext(b: seq<byte>, i: nat)
    requires IsText(b) && IsBoundary(b, i) && i < |b|
    ensures Previous(b, Next(b, i)) == i
  {
    assert !IsContinuation(b[i]) by {
      hide IsText, Encode;
      EncodedStart(Chars(b));
    }
    hide IsText;
    assert !(Previous(b, Next(b, i)) < i);
  }

  // ---- Compositions, newlines, values and extended selections ----

  /** A composition puts its text between the characters before and after its range and
      marks exactly that text; without a sub-range the caret follows it. */
  lemma {:induction false} ComposingMarks(f: Input, range: Option<Span>, t: string, selected: Option<Span>, alloc: bool)
    requires Sound(f) && Happens(f, Target(f, range), t, alloc)
    ensures var r, done := Target(f, range), Composed(f, range, t, selected, alloc);
            && Step(f, Compose(range, t, selected, alloc)) == done
            && done.Some? && IsText(done.value.text)
            && IsText(f.text[..r.start]) && IsText(f.text[r.end..])
            && Chars(done.value.text) == Chars(f.text[..r.start]) + t + Chars(f.text[r.end..])
            && done.value.text[r.start..r.start + Width(t)] == Encode(t)
            && done.value.marked == (if t == "" then None else Some(Span(r.start, r.start + Width(t))))
            && (selected.None? ==> done.value.selection == Span(r.start + Width(t), r.start + Width(t)))
  {
    hide IsText, Chars, Target, Encode, RangeBytes, UnitsBefore;
    SplicedText(f.text, Target(f, range), t);
  }

  /** The least boundary with that many UTF-16 units before it, or the end. */
  predicate IsOffset(b: seq<byte>, offset: nat, p: nat) {
    && IsBoundary(b, p)
    && (p == |b| || UnitsBefore(b, p) >= offset)
    && forall i :: 0 <= i < p && IsBoundary(b, i) ==> UnitsBefore(b, i) < offset
  }

  /** A sub-range of a composition selects from its start: the ends of the selection are the
      offsets of the sub-range, counted from the start of the composed text. */
  lemma {:induction false} ComposedSelection(f: Input, range: Option<Span>, t: string, part: Span, alloc: bool)
    requires Sound(f) && Happens(f, Target(f, range), t, alloc)
    ensures var before, g := UnitsBefore(f.text, Target(f, range).start), Composed(f, range, t, Some(part), alloc);
            && g.Some?
            && IsOffset(g.value.text, before + part.start, g.value.selection.start)
            && IsOffset(g.value.text, before + part.end, g.value.selection.end)
  {
    hide IsText, Chars, Target, Encode, UnitsBefore, OffsetFrom;
    SplicedText(f.text, Target(f, range), t);
    var before := UnitsBefore(f.text, Target(f, range).start);
    var text := Composed(f, range, t, Some(part), alloc).value.text;
    OffsetIsLeast(text, before + part.start);
    OffsetIsLeast(text, before + part.end);
  }

  lemma {:induction false} OffsetIsLeast(b: seq<byte>, offset: nat)
    requires IsText(b)
    ensures IsOffset(b, offset, OffsetFrom(b, 0, 0, offset))
  {
    hide IsText, UnitsBefore, OffsetFrom, IsBoundary;
    var p := OffsetFrom(b, 0, 0, offset);
    assert IsBoundary(b, p) by { OffsetIsByteOffset(b, offset); ByteOffsetBoundary(b, offset); }
    OffsetDecides(b, offset, p);
    forall i: nat | i < p && IsBoundary(b, i) ensures UnitsBefore(b, i) < offset {
      OffsetDecides(b, offset, i);
    }
  }

  lemma {:induction false} OffsetDecides(b: seq<byte>, offset: nat, i: nat)
    requires IsText(b) && IsBoundary(b, i)
    ensures var p := OffsetFrom(b, 0, 0, offset);
            && (i < p ==> UnitsBefore(b, i) < offset)
            && (i == p ==> p == |b| || UnitsBefore(b, i) >= offset)
  {
    hide IsText, Chars, ByteOffset, OffsetFrom, UnitsBefore, Utf16Length;
    OffsetIsByteOffset(b, offset);
    UnitsAreUtf16(b, i);
    OffsetsAdjoint(b, offset, i);
    SplitAtBoundary(b, i);
    Utf16Concat(Chars(b[..i]), Chars(b[i..]));
  }

  /** A newline takes the place of the selected characters, and the caret follows it. */
  lemma {:induction false} EnteringSplices(f: Input, shift: bool, alloc: bool)
    requires Sound(f) && InsertsNewline(f, shift) && Happens(f, f.selection, "\n", alloc)
    ensures var g := Entered(f, shift, alloc);
            && IsText(f.text[..f.selection.start]) && IsText(f.text[f.selection.end..]) && IsText(g.text)
            && Step(f, Enter(shift, alloc)) == Some(g)
            && Chars(g.text) == Chars(f.text[..f.selection.start]) + "\n" + Chars(f.text[f.selection.end..])
            && g.selection == Span(f.selection.start + 1, f.selection.start + 1)
  {
    hide IsText, Chars, Encode;
    SplicedText(f.text, f.selection, "\n");
  }

  /** A value that fits replaces everything, with the caret at its end. */
  lemma {:induction false} SettingHolds(f: Input, t: string)
    requires Width(t) <= MAX_BYTES && (f.multiline || !HasNewline(t))
    ensures var g := ValueSet(f, t, true);
            && (SpanGood(f.text, f.selection) ==> Step(f, SetValue(t, true)) == Some(g))
            && IsText(g.text) && Chars(g.text) == t && !g.allocationFailed
            && g.selection == Span(Width(t), Width(t)) && g.marked.None?
  {
    hide Encode, IsText, HasNewline;
    CharsOfEncoded(t);
    assert Spliced([], Span(0, 0), Encode(t)) == Encode(t);
  }

  /** The end of the selection that stays when it is extended, and the one that moves. */
  function Anchor(f: Input): nat {
    if f.reversed then f.selection.end else f.selection.start
  }

  function Head(f: Input): nat {
    if f.reversed then f.selection.start else f.selection.end
  }

  /** Extending a selection keeps its anchor and moves its head to the destination. */
  lemma {:induction false} ExtendingKeepsAnchor(f: Input, motion: Motion)
    requires SpanGood(f.text, f.selection)
    ensures var g := Moved(f, motion, true);
            Anchor(g) == Anchor(f) && Head(g) == Destination(f, motion, true)
  {
    hide Destination, IsBoundary;
  }

  // ---- What a masked field shows ----

  /** The painted text: one dot per character. */
  function Rendered(s: string, masked: bool): string {
    if masked then Repeat('•', |s|) else s
  }

  /** The text given to an input method: one star per UTF-16 unit. */
  function Queried(s: string, masked: bool): string {
    if masked then Repeat('*', Utf16Length(s)) else s
  }

  function Repeat(c: char, n: nat): string {
    seq(n, _ => c)
  }

  /** A masked text reveals its length and nothing else; an unmasked one is shown as it is. */
  lemma {:induction false} MaskedRevealsLength(s: string, t: string)
    ensures Rendered(s, true) == Rendered(t, true) <==> |s| == |t|
    ensures Queried(s, true) == Queried(t, true) <==> Utf16Length(s) == Utf16Length(t)
    ensures Rendered(s, false) == s && Queried(s, false) == s
    ensures |Rendered(s, true)| == |s| && forall c :: c in Rendered(s, true) ==> c == '•'
    ensures |Queried(s, true)| == Utf16Length(s) && forall c :: c in Queried(s, true) ==> c == '*'
  {
    assert |Rendered(s, true)| == |s| && |Rendered(t, true)| == |t|;
    assert |Queried(s, true)| == Utf16Length(s) && |Queried(t, true)| == Utf16Length(t);
  }

  lemma {:induction false} StarsLength(n: nat)
    ensures Utf16Length(Repeat('*', n)) == n
  {
    if n > 0 {
      assert Repeat('*', n)[1..] == Repeat('*', n - 1);
      StarsLength(n - 1);
    }
  }

  /** The range reported with a queried text is as long as that text, masked or not. */
  lemma {:induction false} QueryMatchesRange(f: Input, asked: Span)
    requires Sound(f) && asked.start <= asked.end
    ensures var r := RangeBytes(f.text, asked);
            && r.start <= r.end <= |f.text| && IsText(f.text[r.start..r.end])
            && Utf16Length(Queried(Chars(f.text[r.start..r.end]), f.masked))
               == UnitsBefore(f.text, r.end) - UnitsBefore(f.text, r.start)
  {
    var r := RangeBytes(f.text, asked);
    RangeBytesGood(f.text, asked);
    hide RangeBytes, IsText, Chars, NewlineFree, UnitsBefore;
    UnitsAreUtf16(f.text, r.start);
    UnitsAreUtf16(f.text, r.end);
    var whole, part := f.text[..r.end], f.text[r.start..r.end];
    SplitAtBoundary(f.text, r.end);
    assert whole[..r.start] == f.text[..r.start] && whole[r.start..] == part;
    SplitAtBoundary(whole, r.start);
    Utf16Concat(Chars(f.text[..r.start]), Chars(part));
    StarsLength(Utf16Length(Chars(part)));
  }
}
