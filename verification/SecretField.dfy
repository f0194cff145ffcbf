/** The field as an object updated in place. */
module SecretField {
  import opened Wrappers
  import opened Utf8
  import opened TextPositions
  import opened SecretInput

  class Field {
    var text: array<byte>
    var allocationFailed: bool
    const multiline: bool
    var masked: bool
    const submitOnEnter: bool
    const newlineOnEnter: bool
    var selection: Span
    var marked: Option<Span>
    var reversed: bool

    constructor (multiline: bool, submitOnEnter: bool, newlineOnEnter: bool, masked: bool)
      ensures View() == New(multiline, submitOnEnter, newlineOnEnter, masked)
      ensures fresh(text)
    {
      text := new byte[0];
      this.multiline, this.submitOnEnter, this.newlineOnEnter := multiline, submitOnEnter, newlineOnEnter;
      this.masked, allocationFailed := masked, false;
      selection, marked, reversed := Span(0, 0), None, false;
    }

    function View(): Input
      reads this, text
    {
      Input(text[..], allocationFailed, multiline, masked, submitOnEnter, newlineOnEnter, selection, marked, reversed)
    }

    /** Replaces a range of the buffer: checks, then allocates, then copies into the
        new memory and swaps it in. The old memory is not written. */
    method Replace(r: Span, t: string, alloc: bool) returns (ok: bool)
      modifies this`text, this`allocationFailed
      ensures View() == Replaced(old(View()), r, t, alloc)
      ensures ok == Happens(old(View()), r, t, alloc)
      ensures text == old(text) || fresh(text)
    {
      hide Encode, HasNewline, IsBoundary;
      ok := false;
      if !Accepts(View(), r, t) {
        return;
      }
      if !alloc {
        allocationFailed := true;
        return;
      }
      var next := Joined(text[..r.start], Encode(t), text[r.end..]);
      text := next;
      allocationFailed := false;
      ok := true;
    }

    /** Replaces an explicit range, the mark or the selection, and puts the caret after it. */
    method Insert(range: Option<Span>, t: string, alloc: bool)
      modifies this
      ensures View() == Inserted(old(View()), range, t, alloc)
      ensures text == old(text) || fresh(text)
    {
      hide Encode, HasNewline, IsBoundary, Accepts;
      var r := Chosen(range);
      var end := r.start + Width(t);
      var ok := Replace(r, t, alloc);
      if ok {
        selection, reversed, marked := Span(end, end), false, None;
      }
    }

    method Chosen(range: Option<Span>) returns (r: Span)
      ensures r == Target(View(), range)
    {
      if range.Some? {
        r := Offsets(range.value);
      } else {
        r := if marked.Some? then marked.value else selection;
      }
    }

    method Offsets(range: Span) returns (r: Span)
      ensures r == RangeBytes(View().text, range)
    {
      var start := FindByteOffset(text[..], range.start);
      var end := FindByteOffset(text[..], range.end);
      r := Span(start, end);
    }

    /** An input method's composition. The result is false when measuring the text
        before the range stops the field. */
    method Compose(range: Option<Span>, t: string, selected: Option<Span>, alloc: bool) returns (going: bool)
      modifies this
      ensures Composed(old(View()), range, t, selected, alloc) == if going then Some(View()) else None
      ensures text == old(text) || fresh(text)
    {
      hide Encode, HasNewline, Accepts, RangeBytes, Replaced, Target, UnitsBefore;
      var r := Chosen(range);
      if !IsBoundary(text[..], r.start) {
        return false;
      }
      var before := UnitsBefore(text[..], r.start);
      var end := r.start + Width(t);
      var ok := Replace(r, t, alloc);
      if !ok {
        return true;
      }
      selection, reversed := Span(end, end), false;
      marked := if t != "" then Some(Span(r.start, end)) else None;
      if selected.Some? {
        selection := Offsets(Span(before + selected.value.start, before + selected.value.end));
      }
      return true;
    }

    method Clear()
      modifies this
      ensures View() == Cleared(old(View()))
      ensures fresh(text)
    {
      text := new byte[0];
      allocationFailed := false;
      selection, reversed, marked := Span(0, 0), false, None;
    }

    method SetValue(t: string, alloc: bool)
      modifies this
      ensures View() == ValueSet(old(View()), t, alloc)
      ensures fresh(text)
    {
      hide Encode, HasNewline, IsBoundary, Accepts;
      Clear();
      var ok := Replace(Span(0, 0), t, alloc);
      selection, reversed := Span(text.Length, text.Length), false;
    }

    /** A newline replaces the selection and leaves the mark alone. */
    method PressEnter(shift: bool, alloc: bool)
      modifies this
      ensures View() == Entered(old(View()), shift, alloc)
      ensures text == old(text) || fresh(text)
    {
      hide Encode, HasNewline, IsBoundary, Accepts;
      if multiline && (!submitOnEnter || newlineOnEnter || shift) {
        var start := selection.start;
        var ok := Replace(selection, "\n", alloc);
        if ok {
          selection := Span(start + 1, start + 1);
        }
      }
    }

    /** Backspace and delete widen an empty selection first. */
    method Erase(backwards: bool, alloc: bool)
      requires SpanGood(View().text, selection)
      modifies this
      ensures View() == Deleted(old(View()), backwards, alloc)
      ensures text == old(text) || fresh(text)
    {
      hide Encode, HasNewline, Accepts, Inserted, Next, Previous;
      if IsEmpty(selection) {
        if backwards {
          selection := selection.(start := Previous(text[..], selection.start));
        } else {
          selection := selection.(end := Next(text[..], selection.end));
        }
      }
      Insert(None, "", alloc);
    }

    method Seek(motion: Motion, shift: bool) returns (next: nat)
      requires SpanGood(View().text, selection)
      ensures next == Destination(View(), motion, shift)
    {
      hide Next, Previous;
      var end := if reversed then selection.start else selection.end;
      match motion
      case ToStart => next := 0;
      case ToEnd => next := text.Length;
      case Back => next := if !shift && !IsEmpty(selection) then selection.start else Previous(text[..], end);
      case Forward => next := if !shift && !IsEmpty(selection) then selection.end else Next(text[..], end);
    }

    /** The arrow, home and end keys. */
    method Move(motion: Motion, shift: bool)
      requires SpanGood(View().text, selection)
      modifies this`selection, this`reversed, this`marked
      ensures View() == Moved(old(View()), motion, shift)
    {
      hide Destination, SpanGood;
      var next := Seek(motion, shift);
      MoveTo(next, shift);
    }

    method MoveTo(next: nat, shift: bool)
      modifies this`selection, this`reversed, this`marked
      ensures View() == MovedTo(old(View()), next, shift)
    {
      var anchor := if reversed then selection.end else selection.start;
      if shift {
        selection := if anchor <= next then Span(anchor, next) else Span(next, anchor);
      } else {
        selection := Span(next, next);
      }
      reversed := shift && next < anchor;
      marked := None;
    }

    method Click(p: Spot)
      modifies this`selection, this`reversed
      ensures View() == Clicked(old(View()), p)
    {
      var i := text.Length;
      match p {
        case InWrapped(index) =>
          if IsBoundary(text[..], index) {
            i := index;
          }
        case OnLine(index) =>
          if masked {
            i := Advance(text[..], 0, index / DOT_WIDTH);
          } else if index < text.Length {
            i := index;
          }
        case NoLayout =>
      }
      selection, reversed := Span(i, i), false;
    }

    predicate IsKey(e: Event) {
      e.Escape? || e.Enter? || e.SelectAll? || e.Paste? || e.Backspace? || e.Delete?
      || e.Left? || e.Right? || e.Home? || e.End?
    }

    method KeyDown(e: Event)
      requires IsKey(e) && SpanGood(View().text, selection)
      modifies this
      ensures Step(old(View()), e) == Some(View())
      ensures text == old(text) || fresh(text)
    {
      hide Inserted, Entered, Deleted, Moved, IsBoundary;
      match e {
        case Escape =>
          if !submitOnEnter {
            Clear();
          }
        case Enter(shift, alloc) => PressEnter(shift, alloc);
        case SelectAll => selection, reversed := Span(0, text.Length), false;
        case Paste(clipboard, alloc) =>
          if clipboard.Some? {
            Insert(None, clipboard.value, alloc);
          }
        case Backspace(alloc) => Erase(true, alloc);
        case Delete(alloc) => Erase(false, alloc);
        case Left(shift) => Move(Back, shift);
        case Right(shift) => Move(Forward, shift);
        case Home(shift) => Move(ToStart, shift);
        case End(shift) => Move(ToEnd, shift);
      }
    }

    /** Handles one event. The result is false when a range error stops the field. */
    method Handle(e: Event) returns (going: bool)
      requires SpanGood(View().text, selection)
      modifies this
      ensures Step(old(View()), e) == if going then Some(View()) else None
      ensures text == old(text) || fresh(text)
    {
      if IsKey(e) {
        KeyDown(e);
        return true;
      }
      hide Inserted, Composed, Clicked, ValueSet, RangeBytes, IsBoundary, IsKey;
      going := true;
      match e {
        case Insert(range, t, alloc) => Insert(range, t, alloc);
        case Compose(range, t, selected, alloc) => going := Compose(range, t, selected, alloc);
        case Unmark => marked := None;
        case SetMasked(value) => masked, marked := value, None;
        case Clear => Clear();
        case SetValue(t, alloc) => SetValue(t, alloc);
        case MouseDown(p) => Click(p);
        case QueryMarked => going := MarkMeasurable(View());
        case QueryText(asked) =>
          var r := Offsets(asked);
          going := r.start <= r.end;
      }
    }
  }

  /** New memory filled with three slices, one after the other. */
  method Joined(a: seq<byte>, b: seq<byte>, c: seq<byte>) returns (next: array<byte>)
    ensures fresh(next) && next[..] == a + b + c
  {
    next := new byte[|a| + |b| + |c|];
    Fill(next, 0, a);
    Fill(next, |a|, b);
    Fill(next, |a| + |b|, c);
    assert next[..] == a + b + c;
  }

  /** Copies a slice into an array, element by element. */
  method Fill(a: array<byte>, start: nat, source: seq<byte>)
    requires start + |source| <= a.Length
    modifies a
    ensures a[..] == old(a[..start]) + source + old(a[start + |source|..])
  {
    for i := 0 to |source|
      invariant a[..start] == old(a[..start])
      invariant a[start..start + i] == source[..i]
      invariant a[start + |source|..] == old(a[start + |source|..])
    {
      a[start + i] := source[i];
    }
  }
}
