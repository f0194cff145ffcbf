/** The same field on characters: a text, a selection and a composition mark counted in characters,
    and what each event does to them. The field of bytes does exactly this. */
module SecretDocument {
  import opened Wrappers
  import opened Utf8
  import opened TextPositions
  import opened SecretInput

  datatype Document = Document(
    chars: string,
    from: nat,
    to: nat,
    reversed: bool,
    mark: Option<(nat, nat)>,
    allocationFailed: bool,
    multiline: bool,
    masked: bool,
    submitOnEnter: bool,
    newlineOnEnter: bool)

  predicate Placed(d: Document) {
    && d.from <= d.to <= |d.chars|
    && (d.mark.Some? ==> d.mark.value.0 <= d.mark.value.1 <= |d.chars|)
  }

  // ---- What events do to characters ----

  function Least(a: nat, b: nat): nat {
    if a < b then a else b
  }

  function Before(k: nat): nat {
    if k == 0 then 0 else k - 1
  }

  /** The text fits in 64 KiB, and a single-line field takes no line end. */
  predicate HasRoom(d: Document, a: nat, b: nat, t: string) {
    && a <= b <= |d.chars|
    && Width(d.chars[..a] + t + d.chars[b..]) <= 65536
    && (d.multiline || ('\n' !in t && '\r' !in t))
  }

  function Put(d: Document, a: nat, b: nat, t: string, alloc: bool): Document {
    if !HasRoom(d, a, b, t) then d
    else if !alloc then d.(allocationFailed := true)
    else d.(chars := d.chars[..a] + t + d.chars[b..], allocationFailed := false)
  }

  /** Text takes the place of the characters from `a` to `b`; the caret follows it. */
  function Typed(d: Document, a: nat, b: nat, t: string, alloc: bool): Document {
    if HasRoom(d, a, b, t) && alloc then
      Put(d, a, b, t, alloc).(from := a + |t|, to := a + |t|, reversed := false, mark := None)
    else
      Put(d, a, b, t, alloc)
  }

  /** An explicit range, or else the composition, or else the selection. */
  function Aim(d: Document, range: Option<Span>): (nat, nat) {
    if range.Some? then (CharOffset(d.chars, range.value.start), CharOffset(d.chars, range.value.end))
    else if d.mark.Some? then d.mark.value
    else (d.from, d.to)
  }

  function TypedAt(d: Document, range: Option<Span>, t: string, alloc: bool): Document {
    Typed(d, Aim(d, range).0, Aim(d, range).1, t, alloc)
  }

  function ComposedAt(d: Document, range: Option<Span>, t: string, selected: Option<Span>, alloc: bool): Document {
    var (a, b) := Aim(d, range);
    var g := Put(d, a, b, t, alloc);
    if !(HasRoom(d, a, b, t) && alloc) then g
    else
      var units := Utf16Length(d.chars[..a]);
      g.(from := if selected.None? then a + |t| else CharOffset(g.chars, units + selected.value.start),
         to := if selected.None? then a + |t| else CharOffset(g.chars, units + selected.value.end),
         reversed := false,
         mark := if t == "" then None else Some((a, a + |t|)))
  }

  function CaretAt(d: Document, k: nat): Document {
    d.(from := k, to := k, reversed := false, mark := None)
  }

  /** The head of the selection moves to `k`; its other end stays. */
  function Extended(d: Document, k: nat): Document {
    var anchor := if d.reversed then d.to else d.from;
    d.(from := Least(anchor, k), to := if anchor <= k then k else anchor, reversed := k < anchor, mark := None)
  }

  function HeadOf(d: Document): nat {
    if d.reversed then d.from else d.to
  }

  function Emptied(d: Document): Document {
    d.(chars := "", from := 0, to := 0, reversed := false, mark := None, allocationFailed := false)
  }

  /** The character that starts at a byte, or the end of the text. */
  function PlaceOf(s: string, index: nat): (k: nat)
    ensures k <= |s|
  {
    if index == 0 then 0
    else if s == [] || index < |EncodeChar(s[0])| then |s|
    else 1 + PlaceOf(s[1..], index - |EncodeChar(s[0])|)
  }

  function ClickedCharacter(d: Document, p: Spot): nat {
    match p
    case NoLayout => |d.chars|
    case InWrapped(index) => PlaceOf(d.chars, index)
    case OnLine(index) => if d.masked then Least(index / 3, |d.chars|) else PlaceOf(d.chars, index)
  }

  /** One event on characters. */
  function After(d: Document, e: Event): Document
    requires Placed(d)
  {
    match e
    case Escape => if d.submitOnEnter then d else Emptied(d)
    case Enter(shift, alloc) =>
      if !d.multiline || (d.submitOnEnter && !d.newlineOnEnter && !shift) then d
      else if HasRoom(d, d.from, d.to, "\n") && alloc then
        Put(d, d.from, d.to, "\n", alloc).(from := d.from + 1, to := d.from + 1)
      else Put(d, d.from, d.to, "\n", alloc)
    case SelectAll => d.(from := 0, to := |d.chars|, reversed := false)
    case Paste(None, _) => d
    case Paste(Some(t), alloc) => TypedAt(d, None, t, alloc)
    case Backspace(alloc) =>
      TypedAt(if d.from < d.to then d else d.(from := Before(d.from)), None, "", alloc)
    case Delete(alloc) =>
      TypedAt(if d.from < d.to then d else d.(to := Least(d.to + 1, |d.chars|)), None, "", alloc)
    case Left(false) => CaretAt(d, if d.from < d.to then d.from else Before(d.from))
    case Right(false) => CaretAt(d, if d.from < d.to then d.to else Least(d.to + 1, |d.chars|))
    case Home(false) => CaretAt(d, 0)
    case End(false) => CaretAt(d, |d.chars|)
    case Left(true) => Extended(d, Before(HeadOf(d)))
    case Right(true) => Extended(d, Least(HeadOf(d) + 1, |d.chars|))
    case Home(true) => Extended(d, 0)
    case End(true) => Extended(d, |d.chars|)
    case Insert(range, t, alloc) => TypedAt(d, range, t, alloc)
    case Compose(range, t, selected, alloc) => ComposedAt(d, range, t, selected, alloc)
    case Unmark => d.(mark := None)
    case SetMasked(masked) => d.(masked := masked, mark := None)
    case Clear => Emptied(d)
    case SetValue(t, alloc) => var g := Put(Emptied(d), 0, 0, t, alloc); g.(from := |g.chars|, to := |g.chars|)
    case MouseDown(p) =>
      var k := ClickedCharacter(d, p);
      d.(from := k, to := k, reversed := false)
    case QueryMarked => d
    case QueryText(_) => d
  }

  // ---- The bytes of a document ----

  /** The byte position of a character. */
  function At(s: string, k: nat): nat
    requires k <= |s|
  {
    Width(s[..k])
  }

  function Bytes(d: Document): Input
    requires Placed(d)
  {
    Input(Encode(d.chars), d.allocationFailed, d.multiline, d.masked, d.submitOnEnter, d.newlineOnEnter,
          Span(At(d.chars, d.from), At(d.chars, d.to)),
          if d.mark.None? then None else Some(Span(At(d.chars, d.mark.value.0), At(d.chars, d.mark.value.1))),
          d.reversed)
  }

  lemma {:induction false} AtBoundary(s: string, k: nat)
    requires k <= |s|
    ensures IsBoundary(Encode(s), At(s, k))
    ensures Encode(s)[..At(s, k)] == Encode(s[..k]) && Encode(s)[At(s, k)..] == Encode(s[k..])
  {
    PrefixEndIsBoundary(s, k);
  }

  lemma {:induction false} AtEnds(s: string)
    ensures At(s, 0) == 0 && At(s, |s|) == |Encode(s)|
  {
    assert s[..0] == [] && s[..|s|] == s;
    WidthNone();
  }

  lemma {:induction false} NextChar(s: string, k: nat)
    requires k <= |s|
    ensures Next(Encode(s), At(s, k)) == At(s, Least(k + 1, |s|))
  {
    hide Encode;
    AtEnds(s);
    if k < |s| {
      var p, rest := s[..k], s[k..];
      assert s == p + rest;
      EncodeConcat(p, rest);
      NextAfterPrefix(p, rest);
      assert s[..k + 1] == p + [rest[0]];
    } else {
      NextAtEnd(Encode(s));
    }
  }

  lemma {:induction false} NextAtEnd(b: seq<byte>)
    ensures Next(b, |b|) == |b|
  {
  }

  lemma {:induction false} PreviousChar(s: string, k: nat)
    requires k <= |s|
    ensures At(s, k) <= |Encode(s)| && Previous(Encode(s), At(s, k)) == At(s, Before(k))
  {
    hide Encode;
    AtEnds(s);
    AtBoundary(s, k);
    if k > 0 {
      NextChar(s, k - 1);
      AtBoundary(s, k - 1);
      WidthMonotone(s, k, k - 1);
      LeadByte(s, k - 1);
      PreviousOf(Encode(s), At(s, k - 1), At(s, k));
    }
  }

  lemma {:induction false} LeadByte(s: string, k: nat)
    requires k < |s|
    ensures At(s, k) < |Encode(s)| && !IsContinuation(Encode(s)[At(s, k)])
  {
    hide Encode;
    AtEnds(s);
    WidthMonotone(s, |s|, k);
    AtBoundary(s, k);
    EncodedStart(s[k..]);
  }

  lemma {:induction false} PreviousOf(b: seq<byte>, i: nat, j: nat)
    requires i < j <= |b| && Next(b, i) == j && !IsContinuation(b[i])
    ensures Previous(b, j) == i
  {
    assert !(Previous(b, j) < i);
  }

  lemma {:induction false} OffsetChar(s: string, offset: nat)
    ensures OffsetFrom(Encode(s), 0, 0, offset) == At(s, CharOffset(s, offset))
  {
    hide Encode;
    CharsOfEncoded(s);
    OffsetIsByteOffset(Encode(s), offset);
    ByteOffsetIsPrefixEnd(s, offset);
  }

  lemma {:induction false} UnitsChar(s: string, k: nat)
    requires k <= |s|
    ensures At(s, k) <= |Encode(s)| && UnitsBefore(Encode(s), At(s, k)) == Utf16Length(s[..k])
  {
    hide Encode;
    CharsOfEncoded(s);
    AtBoundary(s, k);
    UnitsAreUtf16(Encode(s), At(s, k));
    Utf16AtPrefix(s, k);
  }

  lemma {:induction false} AdvanceChar(s: string, n: nat)
    ensures Advance(Encode(s), 0, n) == At(s, Least(n, |s|))
  {
    hide Encode, Advance;
    AdvancePrefix([], s, n);
    assert Encode([]) == [] by { EncodedStart([]); }
    assert [] + Encode(s) == Encode(s) && [] + s == s;
    assert n < |s| ==> [] + s[..n] == s[..n];
    assert s[..|s|] == s;
  }

  /** The boundaries inside a text are those of its rest, and its first character is in one piece. */
  lemma {:induction false} BoundaryAfterFirst(s: string, index: nat)
    requires s != [] && index > 0
    ensures var w := |EncodeChar(s[0])|;
            IsBoundary(Encode(s), index) <==> index >= w && IsBoundary(Encode(s[1..]), index - w)
  {
    var c, w, rest := s[0], |EncodeChar(s[0])|, Encode(s[1..]);
    assert Encode(s) == EncodeChar(c) + rest;
    EncodedStart(s[1..]);
    if index < w {
      assert Encode(s)[index] == EncodeChar(c)[index] && IsContinuation(EncodeChar(c)[index]);
    } else if index < |Encode(s)| {
      assert Encode(s)[index] == rest[index - w];
    }
  }

  lemma {:induction false} PlaceChar(s: string, index: nat)
    ensures IsBoundary(Encode(s), index) ==> At(s, PlaceOf(s, index)) == index
    ensures !IsBoundary(Encode(s), index) ==> PlaceOf(s, index) == |s|
  {
    hide Encode, EncodeChar, IsBoundary;
    AtEnds(s);
    if index == 0 {
      AtBoundary(s, 0);
    } else if s == [] {
      AtBoundary(s, 0);
      NoBoundary(index);
    } else {
      var w := |EncodeChar(s[0])|;
      BoundaryAfterFirst(s, index);
      if index >= w {
        PlaceChar(s[1..], index - w);
        var k := PlaceOf(s[1..], index - w);
        assert s[..k + 1] == [s[0]] + s[1..][..k];
        WidthOne(s[0]);
        WidthConcat([s[0]], s[1..][..k]);
      }
    }
  }

  lemma {:induction false} NoBoundary(index: nat)
    requires index > 0
    ensures !IsBoundary(Encode([]), index)
  {
  }

  // ---- Replacing ----

  function Changed(s: string, a: nat, b: nat, t: string): string
    requires a <= b <= |s|
  {
    s[..a] + t + s[b..]
  }

  lemma {:induction false} SpliceChars(s: string, a: nat, b: nat, t: string)
    requires a <= b <= |s|
    ensures At(s, a) <= At(s, b) <= |Encode(s)|
    ensures Spliced(Encode(s), Span(At(s, a), At(s, b)), Encode(t)) == Encode(Changed(s, a, b, t))
    ensures At(Changed(s, a, b, t), a) == At(s, a)
    ensures At(Changed(s, a, b, t), a + |t|) == At(s, a) + Width(t)
    ensures |Encode(s)| - (At(s, b) - At(s, a)) + Width(t) == Width(Changed(s, a, b, t))
  {
    hide Encode;
    var now := Changed(s, a, b, t);
    AtBoundary(s, a);
    AtBoundary(s, b);
    WidthMonotone(s, a, b);
    EncodeConcat(s[..a], t);
    EncodeConcat(s[..a] + t, s[b..]);
    assert now[..a] == s[..a];
    assert now[..a + |t|] == s[..a] + t;
    WidthConcat(s[..a], t);
  }

  lemma {:induction false} RoomIsAccepted(d: Document, a: nat, b: nat, t: string)
    requires Placed(d) && a <= |d.chars| && b <= |d.chars|
    ensures Accepts(Bytes(d), Span(At(d.chars, a), At(d.chars, b)), t) <==> HasRoom(d, a, b, t)
  {
    hide Encode, IsBoundary;
    AtBoundary(d.chars, a);
    AtBoundary(d.chars, b);
    WidthMonotone(d.chars, a, b);
    WithinText(d.chars, b);
    if a <= b {
      SpliceChars(d.chars, a, b, t);
      hide At, Width;
    }
  }

  lemma {:induction false} WithinText(s: string, k: nat)
    requires k <= |s|
    ensures At(s, k) <= |Encode(s)|
  {
    AtBoundary(s, k);
  }

  /** The field after a replacement, apart from its selection and mark. */
  lemma {:induction false} PutBytes(d: Document, a: nat, b: nat, t: string, alloc: bool)
    requires Placed(d) && a <= |d.chars| && b <= |d.chars|
    ensures var r, p := Span(At(d.chars, a), At(d.chars, b)), Put(d, a, b, t, alloc);
            && (Happens(Bytes(d), r, t, alloc) <==> HasRoom(d, a, b, t) && alloc)
            && Replaced(Bytes(d), r, t, alloc)
               == Bytes(d).(text := Encode(p.chars), allocationFailed := p.allocationFailed)
  {
    hide Encode, At, Accepts, HasRoom;
    RoomIsAccepted(d, a, b, t);
    if HasRoom(d, a, b, t) && alloc {
      RoomInOrder(d, a, b, t);
      SpliceChars(d.chars, a, b, t);
    }
  }

  lemma {:induction false} RoomInOrder(d: Document, a: nat, b: nat, t: string)
    requires HasRoom(d, a, b, t)
    ensures a <= b <= |d.chars|
  {
  }

  lemma {:induction false} AimBytes(d: Document, range: Option<Span>)
    requires Placed(d)
    ensures var (a, b) := Aim(d, range);
            a <= |d.chars| && b <= |d.chars| && Target(Bytes(d), range) == Span(At(d.chars, a), At(d.chars, b))
  {
    hide Encode, At, OffsetFrom, CharOffset;
    if range.Some? {
      OffsetChar(d.chars, range.value.start);
      OffsetChar(d.chars, range.value.end);
    }
  }

  /** A document whose text is replaced and whose caret and mark are set, as bytes. */
  lemma {:induction false} SetBytes(d: Document, g: Document, now: string)
    requires Placed(d) && Placed(g)
    requires g == d.(chars := now, from := g.from, to := g.to, reversed := g.reversed, mark := g.mark,
                     allocationFailed := g.allocationFailed)
    ensures Bytes(g) == Bytes(d).(text := Encode(now), allocationFailed := g.allocationFailed,
                                  selection := Span(At(now, g.from), At(now, g.to)), reversed := g.reversed,
                                  marked := if g.mark.None? then None
                                            else Some(Span(At(now, g.mark.value.0), At(now, g.mark.value.1))))
  {
    hide Encode, At;
  }

  lemma {:induction false} RefusedBytes(d: Document, failed: bool)
    requires Placed(d)
    ensures Bytes(d.(allocationFailed := failed)) == Bytes(d).(allocationFailed := failed)
  {
    hide Encode, At;
  }

  lemma {:induction false} TypedHere(d: Document, a: nat, b: nat, t: string, alloc: bool)
    requires Placed(d) && HasRoom(d, a, b, t) && alloc
    ensures var g := Typed(d, a, b, t, alloc);
            Placed(g) && Bytes(g) == Bytes(d).(text := Encode(g.chars), allocationFailed := false,
                                               selection := Span(At(d.chars, a) + Width(t), At(d.chars, a) + Width(t)),
                                               reversed := false, marked := None)
    ensures Put(d, a, b, t, alloc).chars == Typed(d, a, b, t, alloc).chars && !Put(d, a, b, t, alloc).allocationFailed
  {
    RoomInOrder(d, a, b, t);
    hide Encode, At, HasRoom, Width;
    SpliceChars(d.chars, a, b, t);
    SetBytes(d, Typed(d, a, b, t, alloc), Changed(d.chars, a, b, t));
  }

  lemma {:induction false} PutRefused(d: Document, a: nat, b: nat, t: string, alloc: bool)
    requires Placed(d) && !(HasRoom(d, a, b, t) && alloc)
    ensures var g := Put(d, a, b, t, alloc);
            && Typed(d, a, b, t, alloc) == g && Placed(g) && g.chars == d.chars
            && Bytes(g) == Bytes(d).(text := Encode(g.chars), allocationFailed := g.allocationFailed)
  {
    hide HasRoom;
    RefusedBytes(d, Put(d, a, b, t, alloc).allocationFailed);
    TextOf(d);
    hide Encode, At, Bytes;
  }

  lemma {:induction false} TypedBytes(d: Document, range: Option<Span>, t: string, alloc: bool)
    requires Placed(d)
    ensures Placed(TypedAt(d, range, t, alloc))
    ensures Inserted(Bytes(d), range, t, alloc) == Bytes(TypedAt(d, range, t, alloc))
  {
    hide Encode, At, HasRoom, Width, Happens, Replaced, Target, Bytes, Aim, Put, Typed, Placed;
    var (a, b) := Aim(d, range);
    AimBytes(d, range);
    PutBytes(d, a, b, t, alloc);
    if HasRoom(d, a, b, t) && alloc {
      TypedHere(d, a, b, t, alloc);
    } else {
      PutRefused(d, a, b, t, alloc);
    }
  }

  lemma {:induction false} TextOf(d: Document)
    requires Placed(d)
    ensures Bytes(d).text == Encode(d.chars)
  {
  }

  lemma {:induction false} ComposedHere(d: Document, a: nat, b: nat, t: string, g: Document)
    requires Placed(d) && HasRoom(d, a, b, t) && Placed(g)
    requires g == Put(d, a, b, t, true).(from := g.from, to := g.to, reversed := false,
                                         mark := if t == "" then None else Some((a, a + |t|)))
    ensures a <= b <= |d.chars| && g.chars == Changed(d.chars, a, b, t)
    ensures Bytes(g) == Bytes(d).(text := Encode(g.chars), allocationFailed := false,
                                  selection := Span(At(g.chars, g.from), At(g.chars, g.to)), reversed := false,
                                  marked := if t == "" then None
                                            else Some(Span(At(d.chars, a), At(d.chars, a) + Width(t))))
  {
    RoomInOrder(d, a, b, t);
    hide Encode, At, HasRoom, Width;
    SpliceChars(d.chars, a, b, t);
    SetBytes(d, g, Changed(d.chars, a, b, t));
  }

  lemma {:induction false} RangeChars(s: string, r: Span)
    ensures RangeBytes(Encode(s), r) == Span(At(s, CharOffset(s, r.start)), At(s, CharOffset(s, r.end)))
    ensures r.start <= r.end ==> CharOffset(s, r.start) <= CharOffset(s, r.end)
  {
    hide Encode, At, OffsetFrom, CharOffset;
    OffsetChar(s, r.start);
    OffsetChar(s, r.end);
    if r.start <= r.end {
      CharOffsetMonotone(s, r.start, r.end);
    }
  }

  lemma {:induction false} ComposedPlaced(d: Document, range: Option<Span>, t: string, selected: Option<Span>)
    requires Placed(d) && (selected.Some? ==> selected.value.start <= selected.value.end)
    requires HasRoom(d, Aim(d, range).0, Aim(d, range).1, t)
    ensures var (a, b), g := Aim(d, range), ComposedAt(d, range, t, selected, true);
            && a <= b <= |d.chars| && Placed(g)
            && Put(d, a, b, t, true).chars == g.chars == Changed(d.chars, a, b, t)
            && !Put(d, a, b, t, true).allocationFailed
  {
    var (a, b) := Aim(d, range);
    RoomInOrder(d, a, b, t);
    hide HasRoom, Aim;
    if selected.Some? {
      var units := Utf16Length(d.chars[..a]);
      CharOffsetMonotone(Changed(d.chars, a, b, t), units + selected.value.start, units + selected.value.end);
    }
  }

  lemma {:induction false} ComposedBytes(d: Document, range: Option<Span>, t: string, selected: Option<Span>,
                                         alloc: bool)
    requires Placed(d) && (selected.Some? ==> selected.value.start <= selected.value.end)
    ensures Placed(ComposedAt(d, range, t, selected, alloc))
    ensures Composed(Bytes(d), range, t, selected, alloc) == Some(Bytes(ComposedAt(d, range, t, selected, alloc)))
  {
    hide Encode, At, HasRoom, Width, Happens, Replaced, Target, UnitsBefore, RangeBytes, CharOffset, IsBoundary, Bytes,
         Aim, Put, Changed;
    var (a, b) := Aim(d, range);
    AimBytes(d, range);
    PutBytes(d, a, b, t, alloc);
    TextOf(d);
    AtBoundary(d.chars, a);
    UnitsChar(d.chars, a);
    if HasRoom(d, a, b, t) && alloc {
      ComposedPlaced(d, range, t, selected);
      var g := ComposedAt(d, range, t, selected, alloc);
      SpliceChars(d.chars, a, b, t);
      if selected.Some? {
        var units := Utf16Length(d.chars[..a]);
        RangeChars(g.chars, Span(units + selected.value.start, units + selected.value.end));
      }
      ComposedHere(d, a, b, t, g);
    } else {
      PutRefused(d, a, b, t, alloc);
    }
  }

  lemma {:induction false} CharOffsetMonotone(s: string, m: int, n: int)
    requires m <= n
    ensures CharOffset(s, m) <= CharOffset(s, n)
  {
    if s != [] && m > 0 {
      CharOffsetMonotone(s[1..], m - Units(s[0]), n - Units(s[0]));
    }
  }

  // ---- The other events ----

  lemma {:induction false} SelectedBytes(d: Document, g: Document)
    requires Placed(d) && Placed(g)
    requires g == d.(from := g.from, to := g.to, reversed := g.reversed, mark := g.mark)
    ensures Bytes(g) == Bytes(d).(selection := Span(At(d.chars, g.from), At(d.chars, g.to)), reversed := g.reversed,
                                  marked := if g.mark == d.mark then Bytes(d).marked else Bytes(g).marked)
    ensures g.mark == None ==> Bytes(g).marked == None
  {
    hide Encode, At;
  }

  lemma {:induction false} EmptyBytes(d: Document)
    requires Placed(d)
    ensures Placed(Emptied(d)) && Bytes(Emptied(d)) == Cleared(Bytes(d))
  {
    AtEnds("");
    WidthNone();
  }

  lemma {:induction false} EnteredBytes(d: Document, shift: bool, alloc: bool)
    requires Placed(d) && !Disturbs(Bytes(d), Enter(shift, alloc))
    ensures Placed(After(d, Enter(shift, alloc)))
    ensures Entered(Bytes(d), shift, alloc) == Bytes(After(d, Enter(shift, alloc)))
  {
    EncodedNewline();
    hide Encode, At, HasRoom, Width, Happens, Replaced, Put;
    if InsertsNewline(Bytes(d), shift) {
      PutBytes(d, d.from, d.to, "\n", alloc);
      if HasRoom(d, d.from, d.to, "\n") && alloc {
        NewlineHere(d);
      } else {
        PutRefused(d, d.from, d.to, "\n", alloc);
      }
    }
  }

  lemma {:induction false} NewlineHere(d: Document)
    requires Placed(d) && d.mark == None && HasRoom(d, d.from, d.to, "\n")
    ensures var p := Put(d, d.from, d.to, "\n", true);
            var g := p.(from := d.from + 1, to := d.from + 1);
            && Placed(g) && !p.allocationFailed
            && Bytes(g) == Bytes(d).(text := Encode(p.chars), allocationFailed := false,
                                     selection := Span(At(d.chars, d.from) + 1, At(d.chars, d.from) + 1))
  {
    EncodedNewline();
    hide Encode, At, HasRoom, Width;
    SpliceChars(d.chars, d.from, d.to, "\n");
    var p := Put(d, d.from, d.to, "\n", true);
    SetBytes(d, p.(from := d.from + 1, to := d.from + 1), Changed(d.chars, d.from, d.to, "\n"));
  }

  lemma {:induction false} EmptyAlike(d: Document)
    requires Placed(d)
    ensures IsEmpty(Bytes(d).selection) <==> d.from == d.to
    ensures SpanGood(Bytes(d).text, Bytes(d).selection)
  {
    hide Encode, IsBoundary;
    WidthMonotone(d.chars, d.from, d.to);
    WidthMonotone(d.chars, d.to, d.from);
    AtBoundary(d.chars, d.from);
    AtBoundary(d.chars, d.to);
  }

  /** The selection that is deleted: an empty one grows by one character. */
  function Grown(d: Document, backwards: bool): Document {
    if d.from < d.to then d
    else if backwards then d.(from := Before(d.from)) else d.(to := Least(d.to + 1, |d.chars|))
  }

  lemma {:induction false} GrownBytes(d: Document, backwards: bool)
    requires Placed(d)
    ensures SpanGood(Bytes(d).text, Bytes(d).selection)
    ensures Placed(Grown(d, backwards))
    ensures Bytes(Grown(d, backwards)) == Bytes(d).(selection := Widened(Bytes(d), backwards))
  {
    EmptyAlike(d);
    hide Encode, At, Previous, Next, SpanGood, IsEmpty;
    var g := Grown(d, backwards);
    PreviousChar(d.chars, d.from);
    NextChar(d.chars, d.to);
    SelectedBytes(d, g);
  }

  lemma {:induction false} DeletedBytes(d: Document, backwards: bool, alloc: bool)
    requires Placed(d)
    ensures SpanGood(Bytes(d).text, Bytes(d).selection)
    ensures var g := TypedAt(Grown(d, backwards), None, "", alloc);
            Placed(g) && Deleted(Bytes(d), backwards, alloc) == Bytes(g)
  {
    hide Inserted, TypedAt, Bytes, SpanGood, Grown, Placed, Widened;
    GrownBytes(d, backwards);
    TypedBytes(Grown(d, backwards), None, "", alloc);
  }

  lemma {:induction false} DestinationChar(d: Document, motion: Motion, shift: bool)
    requires Placed(d)
    ensures SpanGood(Bytes(d).text, Bytes(d).selection)
    ensures var k := match motion
                     case ToStart => 0
                     case ToEnd => |d.chars|
                     case Back => if !shift && d.from < d.to then d.from else Before(HeadOf(d))
                     case Forward => if !shift && d.from < d.to then d.to else Least(HeadOf(d) + 1, |d.chars|);
            k <= |d.chars| && Destination(Bytes(d), motion, shift) == At(d.chars, k)
  {
    hide Encode, At, Previous, Next, IsBoundary;
    EmptyAlike(d);
    AtEnds(d.chars);
    PreviousChar(d.chars, HeadOf(d));
    NextChar(d.chars, HeadOf(d));
  }

  lemma {:induction false} MovedBytes(d: Document, k: nat, shift: bool)
    requires Placed(d) && k <= |d.chars|
    ensures var g := if shift then Extended(d, k) else CaretAt(d, k);
            Placed(g) && MovedTo(Bytes(d), At(d.chars, k), shift) == Bytes(g)
  {
    hide Encode, At;
    var anchor := if d.reversed then d.to else d.from;
    AtOrder(d.chars, anchor, k);
  }

  lemma {:induction false} AtOrder(s: string, j: nat, k: nat)
    requires j <= |s| && k <= |s|
    ensures At(s, j) <= At(s, k) <==> j <= k
  {
    WidthMonotone(s, j, k);
  }

  lemma {:induction false} ClickedBytes(d: Document, p: Spot)
    requires Placed(d) && Promised(Bytes(d), MouseDown(p))
    ensures Placed(After(d, MouseDown(p))) && Clicked(Bytes(d), p) == Bytes(After(d, MouseDown(p)))
  {
    hide Encode, At, Advance, IsBoundary, PlaceOf;
    AtEnds(d.chars);
    match p
    case NoLayout =>
    case InWrapped(index) => PlaceChar(d.chars, index);
    case OnLine(index) =>
      AdvanceChar(d.chars, index / 3);
      PlaceChar(d.chars, index);
      if index >= |Encode(d.chars)| { PastEnd(d.chars, index); }
  }

  lemma {:induction false} PastEnd(s: string, index: nat)
    requires index >= |Encode(s)|
    ensures PlaceOf(s, index) == |s|
  {
    AtEnds(s);
    PlaceChar(s, index);
    if index == |Encode(s)| {
      var k := PlaceOf(s, index);
      WidthMonotone(s, |s|, k);
    }
  }

  lemma {:induction false} ValueBytes(d: Document, t: string, alloc: bool)
    requires Placed(d)
    ensures Placed(After(d, SetValue(t, alloc))) && ValueSet(Bytes(d), t, alloc) == Bytes(After(d, SetValue(t, alloc)))
  {
    EmptyBytes(d);
    var empty := Emptied(d);
    AtEnds("");
    hide Encode, At, HasRoom, Happens, Replaced, Put, Cleared, Emptied;
    PutBytes(empty, 0, 0, t, alloc);
    var g := Put(empty, 0, 0, t, alloc);
    PutOnly(empty, 0, 0, t, alloc);
    AtEnds(g.chars);
    SetBytes(empty, g.(from := |g.chars|, to := |g.chars|), g.chars);
  }

  lemma {:induction false} PutOnly(d: Document, a: nat, b: nat, t: string, alloc: bool)
    ensures var g := Put(d, a, b, t, alloc); g == d.(chars := g.chars, allocationFailed := g.allocationFailed)
  {
  }

  // ---- The field on characters ----

  lemma {:induction false} MotionBytes(d: Document, motion: Motion, shift: bool, k: nat)
    requires Placed(d) && k <= |d.chars| && SpanGood(Bytes(d).text, Bytes(d).selection)
    requires Destination(Bytes(d), motion, shift) == At(d.chars, k)
    ensures var g := if shift then Extended(d, k) else CaretAt(d, k);
            Placed(g) && Moved(Bytes(d), motion, shift) == Bytes(g)
  {
    hide Destination, Bytes, Placed, MovedTo, SpanGood, At;
    MovedBytes(d, k, shift);
  }

  lemma {:induction false} MotionStep(d: Document, e: Event)
    requires Placed(d) && (e.Left? || e.Right? || e.Home? || e.End?)
    ensures Placed(After(d, e)) && Step(Bytes(d), e) == Some(Bytes(After(d, e)))
  {
    hide Destination, Bytes, MovedTo, Moved, SpanGood, At, Extended, CaretAt;
    EmptyAlike(d);
    var motion := if e.Left? then Back else if e.Right? then Forward else if e.Home? then ToStart else ToEnd;
    DestinationChar(d, motion, e.shift);
    var k := if e.Home? then 0 else if e.End? then |d.chars|
             else if e.Left? then (if !e.shift && d.from < d.to then d.from else Before(HeadOf(d)))
             else if !e.shift && d.from < d.to then d.to else Least(HeadOf(d) + 1, |d.chars|);
    MotionBytes(d, motion, e.shift, k);
  }

  lemma {:induction false} FlagStep(d: Document, e: Event)
    requires Placed(d) && (e.SelectAll? || e.Unmark? || e.SetMasked? || e.QueryMarked? || e.QueryText?)
    requires Promised(Bytes(d), e)
    ensures Placed(After(d, e)) && Step(Bytes(d), e) == Some(Bytes(After(d, e)))
  {
    EmptyAlike(d);
    AtEnds(d.chars);
    hide Encode, At, IsBoundary, RangeBytes;
    if e.QueryText? {
      RangeBytesGood(Bytes(d).text, e.asked);
    }
    if e.QueryMarked? && d.mark.Some? {
      AtBoundary(d.chars, d.mark.value.0);
      AtBoundary(d.chars, d.mark.value.1);
    }
  }

  /** Every event does to the bytes what it does to the characters. */
  lemma {:induction false} StepOnCharacters(d: Document, e: Event)
    requires Placed(d) && Promised(Bytes(d), e) && !Disturbs(Bytes(d), e)
    ensures Placed(After(d, e)) && Step(Bytes(d), e) == Some(Bytes(After(d, e)))
  {
    hide Bytes, Placed, Inserted, Composed, Entered, Deleted, Clicked, ValueSet, Moved, Cleared, TypedAt, ComposedAt,
         Emptied, HasRoom, Put, SpanGood;
    EmptyAlike(d);
    match e
    case Escape => EmptyBytes(d); SameFlags(d);
    case Enter(shift, alloc) => EnteredBytes(d, shift, alloc);
    case Paste(clipboard, alloc) => if clipboard.Some? { TypedBytes(d, None, clipboard.value, alloc); }
    case Backspace(alloc) => DeletedBytes(d, true, alloc);
    case Delete(alloc) => DeletedBytes(d, false, alloc);
    case Insert(range, t, alloc) => TypedBytes(d, range, t, alloc);
    case Compose(range, t, selected, alloc) => ComposedBytes(d, range, t, selected, alloc);
    case Clear => EmptyBytes(d);
    case SetValue(t, alloc) => ValueBytes(d, t, alloc);
    case MouseDown(p) => ClickedBytes(d, p);
    case Left(_) => MotionStep(d, e);
    case Right(_) => MotionStep(d, e);
    case Home(_) => MotionStep(d, e);
    case End(_) => MotionStep(d, e);
    case SelectAll => FlagStep(d, e);
    case Unmark => FlagStep(d, e);
    case SetMasked(_) => FlagStep(d, e);
    case QueryMarked => FlagStep(d, e);
    case QueryText(_) => FlagStep(d, e);
  }

  lemma {:induction false} SameFlags(d: Document)
    requires Placed(d)
    ensures Bytes(d).submitOnEnter == d.submitOnEnter
  {
  }

  /** Every sound field with a good mark is the bytes of a document. */
  lemma {:induction false} Represented(f: Input) returns (d: Document)
    requires Sound(f) && MarkGood(f)
    ensures Placed(d) && Bytes(d) == f
  {
    hide IsText, Chars, Encode, IsBoundary, NewlineFree;
    var s := Chars(f.text);
    var from := BoundaryIsPrefixEnd(s, f.selection.start);
    var to := BoundaryIsPrefixEnd(s, f.selection.end);
    AtOrder(s, from, to);
    var mark := None;
    if f.marked.Some? {
      var start := BoundaryIsPrefixEnd(s, f.marked.value.start);
      var end := BoundaryIsPrefixEnd(s, f.marked.value.end);
      AtOrder(s, start, end);
      mark := Some((start, end));
    }
    d := Document(s, from, to, f.reversed, mark, f.allocationFailed, f.multiline, f.masked, f.submitOnEnter,
                  f.newlineOnEnter);
  }

  function AfterAll(d: Document, events: seq<Event>): Document
    requires Placed(d)
    requires AllPromised(Bytes(d), events) && Undisturbed(Bytes(d), events)
    decreases |events|
  {
    if events == [] then d else StepOnCharacters(d, events[0]); AfterAll(After(d, events[0]), events[1..])
  }

  /** Over every run the field of bytes is the document of characters. */
  lemma {:induction false} RunOnCharacters(d: Document, events: seq<Event>)
    requires Placed(d) && AllPromised(Bytes(d), events) && Undisturbed(Bytes(d), events)
    ensures Placed(AfterAll(d, events)) && Run(Bytes(d), events) == Some(Bytes(AfterAll(d, events)))
    decreases |events|
  {
    hide Step, Bytes, After, Placed, Promised, Disturbs;
    if events != [] {
      StepOnCharacters(d, events[0]);
      RunOnCharacters(After(d, events[0]), events[1..]);
    }
  }
}
