/** The masked single- or multi-line text field: a bounded UTF-8 buffer edited by
    keys, clipboard and input methods, with a selection and a composition mark kept
    as byte positions. */
module SecretInput {
  import opened Wrappers
  import opened Utf8
  import opened TextPositions

  const MAX_BYTES: nat := 64 * 1024
  const NEWLINES: set<byte> := {10, 13}

  datatype Span = Span(start: nat, end: nat)

  datatype Input = Input(
    text: seq<byte>,
    allocationFailed: bool,
    multiline: bool,
    masked: bool,
    submitOnEnter: bool,
    newlineOnEnter: bool,
    selection: Span,
    marked: Option<Span>,
    reversed: bool)

  predicate SpanGood(text: seq<byte>, s: Span) {
    s.start <= s.end && IsBoundary(text, s.start) && IsBoundary(text, s.end)
  }

  predicate NewlineFree(text: seq<byte>) {
    forall i :: 0 <= i < |text| ==> text[i] !in NEWLINES
  }

  /** Valid UTF-8 within the size limit, without line ends in a single-line field. */
  predicate TextSound(f: Input) {
    && IsText(f.text)
    && |f.text| <= MAX_BYTES
    && (f.multiline || NewlineFree(f.text))
  }

  /** A sound text, and a selection that is ordered, in bounds and on character boundaries. */
  predicate Sound(f: Input) {
    TextSound(f) && SpanGood(f.text, f.selection)
  }

  predicate MarkGood(f: Input) {
    f.marked.Some? ==> SpanGood(f.text, f.marked.value)
  }

  // ---- Replacing a range of the buffer ----

  predicate HasNewline(t: string) {
    '\n' in t || '\r' in t
  }

  predicate Accepts(f: Input, r: Span, t: string) {
    && r.start <= r.end <= |f.text|
    && IsBoundary(f.text, r.start) && IsBoundary(f.text, r.end)
    && |f.text| - (r.end - r.start) + Width(t) <= MAX_BYTES
    && (f.multiline || !HasNewline(t))
  }

  function Spliced(text: seq<byte>, r: Span, t: seq<byte>): seq<byte>
    requires r.start <= r.end <= |text|
  {
    text[..r.start] + t + text[r.end..]
  }

  /** The replacement is refused, or fails to get memory, or happens. `alloc` is
      whether locked memory was available. */
  function Replaced(f: Input, r: Span, t: string, alloc: bool): (g: Input) {
    if !Accepts(f, r, t) then f
    else if !alloc then f.(allocationFailed := true)
    else f.(text := Spliced(f.text, r, Encode(t)), allocationFailed := false)
  }

  predicate Happens(f: Input, r: Span, t: string, alloc: bool) {
    Accepts(f, r, t) && alloc
  }

  lemma {:induction false} EncodedNewlines(t: string)
    ensures NewlineFree(Encode(t)) <==> !HasNewline(t)
  {
    if t != [] {
      var c, head, rest := t[0], EncodeChar(t[0]), Encode(t[1..]);
      EncodedNewlines(t[1..]);
      assert t == [c] + t[1..];
      assert NewlineFree(head) <==> c != '\n' && c != '\r' by {
        if |head| == 1 {
          assert head == [c as int];
          assert head[0] in NEWLINES <==> c == '\n' || c == '\r';
        } else {
          assert c as int >= 0x80;
        }
      }
      hide EncodeChar;
      NewlineFreeConcat(head, rest);
    }
  }

  lemma {:induction false} NewlineFreeConcat(a: seq<byte>, b: seq<byte>)
    ensures NewlineFree(a + b) <==> NewlineFree(a) && NewlineFree(b)
  {
    if NewlineFree(a + b) {
      assert forall i :: 0 <= i < |a| ==> a[i] == (a + b)[i];
      assert forall i :: 0 <= i < |b| ==> b[i] == (a + b)[|a| + i];
    }
  }

  /** Splicing text between boundaries gives text, whose characters are spliced too;
      both ends of the inserted text are boundaries. */
  lemma {:induction false} SplicedText(text: seq<byte>, r: Span, t: string)
    requires IsText(text) && SpanGood(text, r)
    ensures IsText(text[..r.start]) && IsText(text[r.end..])
    ensures var now := Spliced(text, r, Encode(t));
            && IsText(now)
            && Chars(now) == Chars(text[..r.start]) + t + Chars(text[r.end..])
            && IsBoundary(now, r.start) && IsBoundary(now, r.start + Width(t))
  {
    var now := Spliced(text, r, Encode(t));
    SplitAtBoundary(text, r.start);
    SplitAtBoundary(text, r.end);
    CharsOfEncoded(t);
    var a, b := text[..r.start], text[r.end..];
    ConcatText(a, Encode(t));
    ConcatText(a + Encode(t), b);
    assert now[..r.start] == a && now[..r.start + Width(t)] == a + Encode(t);
    SplitAtBoundary(now, r.start);
    SplitAtBoundary(now, r.start + Width(t));
  }

  lemma {:induction false} ReplacedSound(f: Input, r: Span, t: string, alloc: bool)
    requires Sound(f)
    ensures var g := Replaced(f, r, t, alloc);
            && g == f.(text := g.text, allocationFailed := g.allocationFailed)
            && TextSound(g)
            && (!Happens(f, r, t, alloc) ==> g.text == f.text)
            && (Happens(f, r, t, alloc) ==> IsBoundary(g.text, r.start) && IsBoundary(g.text, r.start + Width(t)))
  {
    hide Encode, IsText, NewlineFree, HasNewline, IsBoundary;
    if Happens(f, r, t, alloc) {
      SplicedText(f.text, r, t);
      EncodedNewlines(t);
      NewlineFreeConcat(f.text[..r.start] + Encode(t), f.text[r.end..]);
      NewlineFreeConcat(f.text[..r.start], Encode(t));
      NewlineFreeParts(f.text, r);
    }
  }

  lemma {:induction false} NewlineFreeParts(text: seq<byte>, r: Span)
    requires r.start <= r.end <= |text|
    ensures NewlineFree(text) ==> NewlineFree(text[..r.start]) && NewlineFree(text[r.end..])
  {
  }

  // ---- Events ----

  /** Where a click falls: on a laid-out line, in a wrapped layout, or nowhere. */
  datatype Spot = OnLine(index: nat) | InWrapped(index: nat) | NoLayout

  datatype Event =
    | Escape
    | Enter(shift: bool, alloc: bool)
    | SelectAll
    | Paste(clipboard: Option<string>, alloc: bool)
    | Backspace(alloc: bool)
    | Delete(alloc: bool)
    | Left(shift: bool)
    | Right(shift: bool)
    | Home(shift: bool)
    | End(shift: bool)
    | Insert(range: Option<Span>, text: string, alloc: bool)
    | Compose(range: Option<Span>, text: string, selected: Option<Span>, alloc: bool)
    | Unmark
    | SetMasked(masked: bool)
    | Clear
    | SetValue(text: string, alloc: bool)
    | MouseDown(spot: Spot)
    | QueryMarked
    | QueryText(asked: Span)

  /** What the platform promises: sub-ranges are ordered, and a click on an
      unmasked line is reported on a character boundary. */
  predicate Promised(f: Input, e: Event) {
    match e
    case Compose(_, _, Some(selected), _) => selected.start <= selected.end
    case QueryText(asked) => asked.start <= asked.end
    case MouseDown(OnLine(index)) => f.masked || index >= |f.text| || IsBoundary(f.text, index)
    case _ => true
  }

  function Cleared(f: Input): Input {
    f.(text := [], allocationFailed := false, selection := Span(0, 0), reversed := false, marked := None)
  }

  /** A UTF-16 range as bytes. */
  function RangeBytes(text: seq<byte>, r: Span): Span {
    Span(OffsetFrom(text, 0, 0, r.start), OffsetFrom(text, 0, 0, r.end))
  }

  /** An explicit range wins over the mark, and the mark over the selection. */
  function Target(f: Input, range: Option<Span>): Span {
    if range.Some? then RangeBytes(f.text, range.value)
    else if f.marked.Some? then f.marked.value
    else f.selection
  }

  function Inserted(f: Input, range: Option<Span>, t: string, alloc: bool): Input {
    var r := Target(f, range);
    var g := Replaced(f, r, t, alloc);
    if Happens(f, r, t, alloc) then
      g.(selection := Span(r.start + Width(t), r.start + Width(t)), reversed := false, marked := None)
    else
      g
  }

  /** Composing first measures the text before its range. On a range that does not
      start on a boundary of the text that measuring stops the field: no result. */
  function Composed(f: Input, range: Option<Span>, t: string, selected: Option<Span>, alloc: bool): Option<Input> {
    var r := Target(f, range);
    if !IsBoundary(f.text, r.start) then None
    else
      var before := UnitsBefore(f.text, r.start);
      var g := Replaced(f, r, t, alloc);
      if !Happens(f, r, t, alloc) then Some(g)
      else
        var end := r.start + Width(t);
        Some(g.(selection := if selected.None? then Span(end, end)
                             else RangeBytes(g.text, Span(before + selected.value.start, before + selected.value.end)),
                reversed := false,
                marked := if t == "" then None else Some(Span(r.start, end))))
  }

  predicate InsertsNewline(f: Input, shift: bool) {
    f.multiline && (!f.submitOnEnter || f.newlineOnEnter || shift)
  }

  /** The newline replaces the selection and leaves the composition mark alone. */
  function Entered(f: Input, shift: bool, alloc: bool): Input {
    if !InsertsNewline(f, shift) then f
    else
      var g := Replaced(f, f.selection, "\n", alloc);
      if Happens(f, f.selection, "\n", alloc) then
        g.(selection := Span(f.selection.start + 1, f.selection.start + 1))
      else
        g
  }

  predicate IsEmpty(s: Span) {
    s.start >= s.end
  }

  /** An empty selection grows by one character before it is deleted. */
  function Widened(f: Input, backwards: bool): Span
    requires SpanGood(f.text, f.selection)
  {
    var s := f.selection;
    if !IsEmpty(s) then s
    else if backwards then Span(Previous(f.text, s.start), s.end)
    else Span(s.start, Next(f.text, s.end))
  }

  function Deleted(f: Input, backwards: bool, alloc: bool): Input
    requires SpanGood(f.text, f.selection)
  {
    Inserted(f.(selection := Widened(f, backwards)), None, "", alloc)
  }

  datatype Motion = ToStart | ToEnd | Back | Forward

  function Destination(f: Input, motion: Motion, shift: bool): nat
    requires SpanGood(f.text, f.selection)
  {
    var s := f.selection;
    var caret := if f.reversed then s.start else s.end;
    match motion
    case ToStart => 0
    case ToEnd => |f.text|
    case Back => if !shift && !IsEmpty(s) then s.start else Previous(f.text, caret)
    case Forward => if !shift && !IsEmpty(s) then s.end else Next(f.text, caret)
  }

  /** The selection runs from its anchor to the new position, or collapses there. */
  function MovedTo(f: Input, next: nat, shift: bool): Input {
    var anchor := if f.reversed then f.selection.end else f.selection.start;
    f.(selection := if !shift then Span(next, next)
                    else if anchor <= next then Span(anchor, next) else Span(next, anchor),
       reversed := shift && next < anchor,
       marked := None)
  }

  function Moved(f: Input, motion: Motion, shift: bool): Input
    requires SpanGood(f.text, f.selection)
  {
    MovedTo(f, Destination(f, motion, shift), shift)
  }

  function ClickPosition(f: Input, p: Spot): nat {
    match p
    case InWrapped(index) => if IsBoundary(f.text, index) then index else |f.text|
    case NoLayout => |f.text|
    case OnLine(index) =>
      if f.masked then Advance(f.text, 0, index / DOT_WIDTH)
      else if index < |f.text| then index else |f.text|
  }

  function Clicked(f: Input, p: Spot): Input {
    var i := ClickPosition(f, p);
    f.(selection := Span(i, i), reversed := false)
  }

  function ValueSet(f: Input, t: string, alloc: bool): Input {
    var g := Replaced(Cleared(f), Span(0, 0), t, alloc);
    g.(selection := Span(|g.text|, |g.text|), reversed := false)
  }

  /** Reporting the mark measures the text before both of its ends. */
  predicate MarkMeasurable(f: Input) {
    f.marked.Some? ==> IsBoundary(f.text, f.marked.value.start) && IsBoundary(f.text, f.marked.value.end)
  }

  /** One event. No result means the field stops with a range error: it slices its
      text at the selection, at the mark or at a queried range. */
  function Step(f: Input, e: Event): Option<Input> {
    if !SpanGood(f.text, f.selection) then None
    else
      match e
      case Escape => Some(if f.submitOnEnter then f else Cleared(f))
      case Enter(shift, alloc) => Some(Entered(f, shift, alloc))
      case SelectAll => Some(f.(selection := Span(0, |f.text|), reversed := false))
      case Paste(clipboard, alloc) =>
        Some(if clipboard.None? then f else Inserted(f, None, clipboard.value, alloc))
      case Backspace(alloc) => Some(Deleted(f, true, alloc))
      case Delete(alloc) => Some(Deleted(f, false, alloc))
      case Left(shift) => Some(Moved(f, Back, shift))
      case Right(shift) => Some(Moved(f, Forward, shift))
      case Home(shift) => Some(Moved(f, ToStart, shift))
      case End(shift) => Some(Moved(f, ToEnd, shift))
      case Insert(range, t, alloc) => Some(Inserted(f, range, t, alloc))
      case Compose(range, t, selected, alloc) => Composed(f, range, t, selected, alloc)
      case Unmark => Some(f.(marked := None))
      case SetMasked(masked) => Some(f.(masked := masked, marked := None))
      case Clear => Some(Cleared(f))
      case SetValue(t, alloc) => Some(ValueSet(f, t, alloc))
      case MouseDown(p) => Some(Clicked(f, p))
      case QueryMarked => if MarkMeasurable(f) then Some(f) else None
      case QueryText(asked) =>
        var r := RangeBytes(f.text, asked);
        if r.start <= r.end then Some(f) else None
  }

  // ---- Every event keeps the field sound ----

  /** The mark is only disturbed by a newline entered while a composition is active. */
  predicate Disturbs(f: Input, e: Event) {
    e.Enter? && InsertsNewline(f, e.shift) && f.marked.Some?
  }

  lemma {:induction false} OffsetMonotone(b: seq<byte>, i: nat, count: nat, m: nat, n: nat)
    requires i <= |b| && m <= n
    ensures OffsetFrom(b, i, count, m) <= OffsetFrom(b, i, count, n)
    decreases |b| - i
  {
    if i < |b| && count < m {
      OffsetMonotone(b, Next(b, i), count + ByteUnits(b[i]), m, n);
    }
  }

  lemma {:induction false} RangeBytesGood(text: seq<byte>, r: Span)
    ensures IsBoundary(text, RangeBytes(text, r).start) && IsBoundary(text, RangeBytes(text, r).end)
    ensures r.start <= r.end ==> SpanGood(text, RangeBytes(text, r))
  {
    if r.start <= r.end {
      OffsetMonotone(text, 0, 0, r.start, r.end);
    }
  }

  lemma {:induction false} EmptySound(f: Input)
    requires f.text == [] && f.selection == Span(0, 0)
    ensures Sound(f)
  {
  }

  lemma {:induction false} SameTextSound(f: Input, g: Input)
    requires g.text == f.text && g.multiline == f.multiline && g.selection == f.selection && g.marked == f.marked
    ensures Sound(f) ==> Sound(g)
    ensures MarkGood(f) ==> MarkGood(g)
  {
  }

  /** Placing the caret, or a selection and a mark, on boundaries of a sound text. */
  lemma {:induction false} PlacedSound(g: Input, selection: Span, reversed: bool, marked: Option<Span>)
    requires TextSound(g) && SpanGood(g.text, selection)
    requires marked.Some? ==> SpanGood(g.text, marked.value)
    ensures var h := g.(selection := selection, reversed := reversed, marked := marked); Sound(h) && MarkGood(h)
  {
  }

  lemma {:induction false} InsertedSound(f: Input, range: Option<Span>, t: string, alloc: bool)
    requires Sound(f)
    ensures Sound(Inserted(f, range, t, alloc))
    ensures MarkGood(f) ==> MarkGood(Inserted(f, range, t, alloc))
  {
    hide Sound, MarkGood, TextSound, Target, Happens, Replaced, Width, IsBoundary;
    var r := Target(f, range);
    var g, end := Replaced(f, r, t, alloc), r.start + Width(t);
    ReplacedSound(f, r, t, alloc);
    if Happens(f, r, t, alloc) {
      PlacedSound(g, Span(end, end), false, None);
    } else {
      SameTextSound(f, g);
    }
  }

  lemma {:induction false} TargetGood(f: Input, range: Option<Span>)
    requires Sound(f) && MarkGood(f)
    ensures IsBoundary(f.text, Target(f, range).start)
  {
    if range.Some? { RangeBytesGood(f.text, range.value); }
  }

  lemma {:induction false} ComposedSound(f: Input, range: Option<Span>, t: string, selected: Option<Span>, alloc: bool)
    requires Sound(f) && (selected.Some? ==> selected.value.start <= selected.value.end)
    ensures var g := Composed(f, range, t, selected, alloc);
            && (g.Some? ==> Sound(g.value))
            && (MarkGood(f) ==> g.Some? && MarkGood(g.value))
  {
    hide Sound, MarkGood, TextSound, Target, Happens, Replaced, Width, RangeBytes, UnitsBefore;
    var r := Target(f, range);
    if MarkGood(f) { TargetGood(f, range); }
    var g, end := Replaced(f, r, t, alloc), r.start + Width(t);
    ReplacedSound(f, r, t, alloc);
    if !Happens(f, r, t, alloc) {
      SameTextSound(f, g);
    } else if IsBoundary(f.text, r.start) {
      var marked := if t == "" then None else Some(Span(r.start, end));
      var before := UnitsBefore(f.text, r.start);
      if selected.Some? {
        var part := Span(before + selected.value.start, before + selected.value.end);
        RangeBytesGood(g.text, part);
        PlacedSound(g, RangeBytes(g.text, part), false, marked);
      } else {
        PlacedSound(g, Span(end, end), false, marked);
      }
    }
  }

  lemma {:induction false} EnteredSound(f: Input, shift: bool, alloc: bool)
    requires Sound(f)
    ensures Sound(Entered(f, shift, alloc))
    ensures f.marked.None? ==> MarkGood(Entered(f, shift, alloc))
  {
    hide Sound, MarkGood, TextSound, Happens, Replaced, Width, Encode, IsBoundary;
    var g, end := Replaced(f, f.selection, "\n", alloc), f.selection.start + 1;
    EncodedNewline();
    ReplacedSound(f, f.selection, "\n", alloc);
    NoMark(Entered(f, shift, alloc));
    if Happens(f, f.selection, "\n", alloc) {
      SelectionSound(g, Span(end, end));
    } else {
      SameTextSound(f, g);
    }
  }

  lemma {:induction false} SelectionSound(g: Input, selection: Span)
    requires TextSound(g) && SpanGood(g.text, selection)
    ensures Sound(g.(selection := selection))
  {
  }

  lemma {:induction false} NoMark(g: Input)
    ensures g.marked.None? ==> MarkGood(g)
  {
  }

  lemma {:induction false} DeletedSound(f: Input, backwards: bool, alloc: bool)
    requires Sound(f)
    ensures Sound(Deleted(f, backwards, alloc))
    ensures MarkGood(f) ==> MarkGood(Deleted(f, backwards, alloc))
  {
    hide IsText, NewlineFree, Inserted;
    var w := f.(selection := Widened(f, backwards));
    assert Sound(w);
    InsertedSound(w, None, "", alloc);
  }

  lemma {:induction false} DestinationBoundary(f: Input, motion: Motion, shift: bool)
    requires SpanGood(f.text, f.selection)
    ensures IsBoundary(f.text, Destination(f, motion, shift))
  {
  }

  lemma {:induction false} MovedSound(f: Input, motion: Motion, shift: bool)
    requires Sound(f)
    ensures Sound(Moved(f, motion, shift)) && MarkGood(Moved(f, motion, shift))
  {
    hide TextSound;
    DestinationBoundary(f, motion, shift);
    hide Destination, IsBoundary;
    var g := Moved(f, motion, shift);
    PlacedSound(f, g.selection, g.reversed, None);
  }

  lemma {:induction false} ClickedSound(f: Input, p: Spot)
    requires Sound(f) && Promised(f, MouseDown(p))
    ensures Sound(Clicked(f, p))
    ensures MarkGood(f) ==> MarkGood(Clicked(f, p))
  {
    hide IsText, NewlineFree;
    assert IsBoundary(f.text, ClickPosition(f, p));
  }

  lemma {:induction false} ValueSetSound(f: Input, t: string, alloc: bool)
    ensures Sound(ValueSet(f, t, alloc)) && MarkGood(ValueSet(f, t, alloc))
  {
    EmptySound(Cleared(f));
    ReplacedSound(Cleared(f), Span(0, 0), t, alloc);
    hide IsText, Encode, NewlineFree, Accepts, HasNewline;
  }

  /** Every event keeps the field sound. With a good mark no event stops the field,
      and every event but a newline entered during a composition keeps the mark good. */
  lemma {:induction false} StepSound(f: Input, e: Event)
    requires Sound(f) && Promised(f, e)
    ensures Step(f, e).Some? ==> Sound(Step(f, e).value)
    ensures MarkGood(f) ==> Step(f, e).Some?
    ensures MarkGood(f) && !Disturbs(f, e) ==> MarkGood(Step(f, e).value)
  {
    hide IsText, NewlineFree, Inserted, Composed, Entered, Deleted, Moved, Clicked, ValueSet, RangeBytes, IsBoundary;
    match e
    case Escape => EmptySound(Cleared(f));
    case Enter(shift, alloc) => EnteredSound(f, shift, alloc); EnterWithoutNewline(f, shift, alloc);
    case SelectAll => WholeText(f.text);
    case Paste(clipboard, alloc) => if clipboard.Some? { InsertedSound(f, None, clipboard.value, alloc); }
    case Backspace(alloc) => DeletedSound(f, true, alloc);
    case Delete(alloc) => DeletedSound(f, false, alloc);
    case Left(shift) => MovedSound(f, Back, shift);
    case Right(shift) => MovedSound(f, Forward, shift);
    case Home(shift) => MovedSound(f, ToStart, shift);
    case End(shift) => MovedSound(f, ToEnd, shift);
    case Insert(range, t, alloc) => InsertedSound(f, range, t, alloc);
    case Compose(range, t, selected, alloc) => ComposedSound(f, range, t, selected, alloc);
    case Unmark =>
    case SetMasked(masked) =>
    case Clear => EmptySound(Cleared(f));
    case SetValue(t, alloc) => ValueSetSound(f, t, alloc);
    case MouseDown(p) => ClickedSound(f, p);
    case QueryMarked =>
    case QueryText(asked) => RangeBytesGood(f.text, asked);
  }

  lemma {:induction false} EnterWithoutNewline(f: Input, shift: bool, alloc: bool)
    ensures !InsertsNewline(f, shift) ==> Entered(f, shift, alloc) == f
  {
  }

  lemma {:induction false} WholeText(text: seq<byte>)
    ensures SpanGood(text, Span(0, |text|))
  {
  }

  // ---- Runs ----

  function Run(f: Input, events: seq<Event>): Option<Input>
    decreases |events|
  {
    if events == [] then Some(f)
    else
      match Step(f, events[0])
      case None => None
      case Some(g) => Run(g, events[1..])
  }

  /** Along the run the platform keeps its promises. */
  predicate AllPromised(f: Input, events: seq<Event>)
    decreases |events|
  {
    events != [] ==>
      && Promised(f, events[0])
      && (Step(f, events[0]).Some? ==> AllPromised(Step(f, events[0]).value, events[1..]))
  }

  /** Along the run no newline is entered while a composition is active. */
  predicate Undisturbed(f: Input, events: seq<Event>)
    decreases |events|
  {
    events != [] ==>
      && !Disturbs(f, events[0])
      && (Step(f, events[0]).Some? ==> Undisturbed(Step(f, events[0]).value, events[1..]))
  }

  /** A new field, single-line or multi-line, is sound. */
  function New(multiline: bool, submitOnEnter: bool, newlineOnEnter: bool, masked: bool): Input {
    Input([], false, multiline, masked, submitOnEnter, newlineOnEnter, Span(0, 0), None, false)
  }

  /** Over every run of events the field stays sound. */
  lemma {:induction false} RunSound(f: Input, events: seq<Event>)
    requires Sound(f) && AllPromised(f, events)
    ensures Run(f, events).Some? ==> Sound(Run(f, events).value)
    decreases |events|
  {
    hide Step, Sound, Promised;
    if events != [] {
      StepSound(f, events[0]);
      if Step(f, events[0]).Some? {
        RunSound(Step(f, events[0]).value, events[1..]);
      }
    }
  }

  /** Over every run without a newline during a composition the field never stops,
      and the mark stays ordered, in bounds and on character boundaries. */
  lemma {:induction false} RunNeverStops(f: Input, events: seq<Event>)
    requires Sound(f) && MarkGood(f) && AllPromised(f, events) && Undisturbed(f, events)
    ensures Run(f, events).Some? && Sound(Run(f, events).value) && MarkGood(Run(f, events).value)
    decreases |events|
  {
    hide Step, Sound, Promised, MarkGood, Disturbs;
    if events != [] {
      StepSound(f, events[0]);
      RunNeverStops(Step(f, events[0]).value, events[1..]);
    }
  }

  /** From a new field every such run succeeds. */
  lemma {:induction false} NewFieldNeverStops(f: Input, events: seq<Event>)
    requires f.text == [] && f.selection == Span(0, 0) && f.marked.None?
    requires AllPromised(f, events) && Undisturbed(f, events)
    ensures Run(f, events).Some? && Sound(Run(f, events).value) && MarkGood(Run(f, events).value)
  {
    EmptySound(f);
    RunNeverStops(f, events);
  }

  // ---- The newline and the mark ----

  /** An end of the mark is still a boundary after a newline replaces the selection. */
  predicate EndSurvives(f: Input, p: nat) {
    p <= f.selection.start || IsBoundary(f.text, p - 1 + (f.selection.end - f.selection.start))
  }

  /** A newline entered during a composition keeps the mark good exactly when each of
      its ends is before the selection or lands on a boundary of the shifted text. */
  lemma {:induction false} NewlineKeepsMarkExactly(f: Input, shift: bool, alloc: bool)
    requires Sound(f) && f.marked.Some? && MarkGood(f)
    requires InsertsNewline(f, shift) && Happens(f, f.selection, "\n", alloc)
    ensures MarkGood(Entered(f, shift, alloc))
            <==> EndSurvives(f, f.marked.value.start) && EndSurvives(f, f.marked.value.end)
  {
    hide IsText, NewlineFree, HasNewline;
    EncodedNewline();
    hide Encode;
    ShiftedBoundary(f.text, f.selection, f.marked.value.start);
    ShiftedBoundary(f.text, f.selection, f.marked.value.end);
  }

  lemma {:induction false} EncodedNewline()
    ensures Encode("\n") == [10] && Width("\n") == 1
  {
    EncodeOne('\n');
  }

  lemma {:induction false} ShiftedBoundary(text: seq<byte>, s: Span, p: nat)
    requires IsText(text) && SpanGood(text, s) && IsBoundary(text, p)
    ensures IsBoundary(Spliced(text, s, [10]), p)
            <==> p <= s.start || IsBoundary(text, p - 1 + (s.end - s.start))
  {
    EncodedStart(Chars(text));
    hide IsText, Chars, Encode;
    var now, q := Spliced(text, s, [10]), p - 1 + (s.end - s.start);
    assert |now| == |text| + 1 - (s.end - s.start);
    if p < s.start {
      assert now[p] == text[p];
    } else if p == s.start {
      assert now[p] == 10;
    } else if q < |text| {
      assert now[p] == text[q];
    }
  }

  /** Composing two letters, selecting all and entering a newline leaves a mark past
      the end of the text; asking for the mark then stops the field. */
  lemma {:induction false} NewlineDuringCompositionStops()
    ensures var f := New(true, false, false, true);
            var events := [Compose(None, "ab", None, true), SelectAll, Enter(false, true), QueryMarked];
            AllPromised(f, events) && Run(f, events) == None
  {
    var f := New(true, false, false, true);
    var text := Encode("ab");
    var one := f.(text := text, selection := Span(2, 2), marked := Some(Span(0, 2)));
    var two := one.(selection := Span(0, 2));
    var three := two.(text := [10], selection := Span(1, 1));
    var events := [Compose(None, "ab", None, true), SelectAll, Enter(false, true), QueryMarked];
    assert |text| == 2 by { TwoLetters(); }
    ComposesFirst(f, "ab");
    SelectsAll(one);
    EntersOver(two);
    StaleMark(three);
    hide Step, Encode;
    assert events[1..] == [SelectAll, Enter(false, true), QueryMarked];
    assert events[1..][1..] == [Enter(false, true), QueryMarked];
    assert events[1..][1..][1..] == [QueryMarked];
    assert Run(three, [QueryMarked]) == None;
    assert Run(two, [Enter(false, true), QueryMarked]) == None;
    assert Run(one, [SelectAll, Enter(false, true), QueryMarked]) == None;
    assert AllPromised(three, [QueryMarked]) && AllPromised(two, [Enter(false, true), QueryMarked]);
    assert AllPromised(one, [SelectAll, Enter(false, true), QueryMarked]);
  }

  lemma {:induction false} TwoLetters()
    ensures Width("ab") == 2
  {
    WidthOne('a');
    WidthOne('b');
    WidthConcat("a", "b");
    assert "a" + "b" == "ab";
  }

  /** Composing in an empty field marks all of the new text. */
  lemma {:induction false} ComposesFirst(f: Input, t: string)
    requires f.text == [] && f.selection == Span(0, 0) && f.marked.None?
    requires t != "" && !HasNewline(t) && Width(t) <= MAX_BYTES
    ensures Step(f, Compose(None, t, None, true))
         == Some(f.(text := Encode(t), allocationFailed := false, selection := Span(Width(t), Width(t)),
                    reversed := false, marked := Some(Span(0, Width(t)))))
  {
    hide Encode, HasNewline;
    assert Spliced([], Span(0, 0), Encode(t)) == Encode(t);
  }

  /** Entering a newline over the whole text leaves the mark as it was. */
  lemma {:induction false} EntersOver(f: Input)
    requires f.multiline && !f.submitOnEnter && f.selection == Span(0, |f.text|) && |f.text| <= MAX_BYTES
    ensures Step(f, Enter(false, true))
         == Some(f.(text := [10], allocationFailed := false, selection := Span(1, 1)))
  {
    EncodedNewline();
    hide Encode, HasNewline;
    assert Spliced(f.text, f.selection, [10]) == [10];
  }

  lemma {:induction false} StaleMark(f: Input)
    requires f.marked.Some? && f.marked.value.end > |f.text|
    ensures Step(f, QueryMarked) == None
  {
  }

  lemma {:induction false} SelectsAll(f: Input)
    requires SpanGood(f.text, f.selection)
    ensures Step(f, SelectAll) == Some(f.(selection := Span(0, |f.text|), reversed := false))
  {
  }
}
