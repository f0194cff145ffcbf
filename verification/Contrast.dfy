/** Contrast repair of theme colours, over the real numbers. A colour is known by its
    relative luminance, 1 for white and 0 for black; how two colours mix is arbitrary.
    The ratio and its thresholds are those of success criterion 1.4.3 of WCAG 2.1. */
module Contrast {

  datatype Paint = Paint(name: int, luminance: real)

  type Color = c: Paint | 0.0 <= c.luminance <= 1.0 witness Paint(0, 0.0)

  const WHITE: Color := Paint(1, 1.0)
  const BLACK: Color := Paint(0, 0.0)

  const TEXT_CONTRAST := 4.5
  const BORDER_CONTRAST := 1.4
  const CONTRAST_STEPS: nat := 20

  /** How a target and a colour mix at a step. */
  type Mix = (Color, Color, nat) -> Color

  function Larger(a: real, b: real): real {
    if a >= b then a else b
  }

  function Smaller(a: real, b: real): real {
    if a >= b then b else a
  }

  function Ratio(a: Color, b: Color): real {
    (Larger(a.luminance, b.luminance) + 0.05) / (Smaller(a.luminance, b.luminance) + 0.05)
  }

  lemma {:induction false} Quotient(x: real, y: real, f: real)
    requires y > 0.0
    ensures x / y >= f <==> x >= f * y
    ensures x / y <= f <==> x <= f * y
  {
    assert x == (x / y) * y;
    if x / y >= f {
      assert (x / y - f) * y >= 0.0;
    } else {
      assert (f - x / y) * y > 0.0;
    }
    if x / y <= f {
      assert (f - x / y) * y >= 0.0;
    } else {
      assert (x / y - f) * y > 0.0;
    }
  }

  /** A ratio reaches a floor exactly when the lighter colour is that much lighter. */
  lemma {:induction false} RatioReaches(a: Color, b: Color, floor: real)
    ensures var high, low := Larger(a.luminance, b.luminance), Smaller(a.luminance, b.luminance);
            && (Ratio(a, b) >= floor <==> high + 0.05 >= floor * (low + 0.05))
            && (Ratio(a, b) <= floor <==> high + 0.05 <= floor * (low + 0.05))
  {
    Quotient(Larger(a.luminance, b.luminance) + 0.05, Smaller(a.luminance, b.luminance) + 0.05, floor);
  }

  /** The ratio is symmetric and runs from 1 to 21. */
  lemma {:induction false} RatioRange(a: Color, b: Color)
    ensures Ratio(a, b) == Ratio(b, a) && 1.0 <= Ratio(a, b) <= 21.0
  {
    RatioReaches(a, b, 1.0);
    RatioReaches(a, b, 21.0);
  }

  /** White reads on exactly the fills no lighter than 11/60, black on exactly those no
      darker than 7/40, and every fill is one or the other. */
  lemma {:induction false} PolesReadExactly(fill: Color)
    ensures Ratio(WHITE, fill) >= TEXT_CONTRAST <==> fill.luminance <= 11.0 / 60.0
    ensures Ratio(BLACK, fill) >= TEXT_CONTRAST <==> fill.luminance >= 7.0 / 40.0
    ensures Ratio(WHITE, fill) >= TEXT_CONTRAST || Ratio(BLACK, fill) >= TEXT_CONTRAST
  {
    RatioReaches(WHITE, fill, TEXT_CONTRAST);
    RatioReaches(BLACK, fill, TEXT_CONTRAST);
  }

  /** The ratios of white and black to any colour multiply to 21. */
  lemma {:induction false} PolesMultiply(fill: Color)
    ensures Ratio(WHITE, fill) * Ratio(BLACK, fill) == 21.0
  {
    var l := fill.luminance + 0.05;
    assert Ratio(WHITE, fill) == 1.05 / l;
    assert Ratio(BLACK, fill) == l / 0.05;
    assert (1.05 / l) * l == 1.05;
    assert (1.05 / l) * (l / 0.05) == ((1.05 / l) * l) / 0.05;
  }

  // ---- Lifting a colour until it reads ----

  predicate Reads(c: Color, surfaces: seq<Color>, floor: real) {
    forall i :: 0 <= i < |surfaces| ==> Ratio(c, surfaces[i]) >= floor
  }

  /** The colour itself, then its mixes with the target, step by step. */
  function Candidate(mix: Mix, c: Color, target: Color, step: nat): Color {
    if step == 0 then c else mix(target, c, step)
  }

  function LiftFrom(mix: Mix, c: Color, target: Color, surfaces: seq<Color>, floor: real, step: nat): Color
    decreases CONTRAST_STEPS + 1 - step
  {
    if step > CONTRAST_STEPS then target
    else if Reads(Candidate(mix, c, target, step), surfaces, floor) then Candidate(mix, c, target, step)
    else LiftFrom(mix, c, target, surfaces, floor, step + 1)
  }

  function Lift(mix: Mix, c: Color, target: Color, surfaces: seq<Color>, floor: real): Color {
    LiftFrom(mix, c, target, surfaces, floor, 0)
  }

  /** Some candidate reads. */
  predicate SomeCandidateReads(mix: Mix, c: Color, target: Color, surfaces: seq<Color>, floor: real, from: nat) {
    exists step :: from <= step <= CONTRAST_STEPS && Reads(Candidate(mix, c, target, step), surfaces, floor)
  }

  lemma {:induction false} LiftFromReads(
      mix: Mix, c: Color, target: Color, surfaces: seq<Color>, floor: real, step: nat)
    ensures Reads(LiftFrom(mix, c, target, surfaces, floor, step), surfaces, floor)
            <==> SomeCandidateReads(mix, c, target, surfaces, floor, step) || Reads(target, surfaces, floor)
    decreases CONTRAST_STEPS + 1 - step
  {
    hide Reads;
    if step <= CONTRAST_STEPS {
      LiftFromReads(mix, c, target, surfaces, floor, step + 1);
      if Reads(Candidate(mix, c, target, step), surfaces, floor) {
        assert SomeCandidateReads(mix, c, target, surfaces, floor, step);
      }
    }
  }

  /** The lifted colour reads on all surfaces exactly when the colour, one of its mixes or
      the target does; a colour that already reads is kept. */
  lemma {:induction false} LiftReadsExactly(mix: Mix, c: Color, target: Color, surfaces: seq<Color>, floor: real)
    ensures Reads(Lift(mix, c, target, surfaces, floor), surfaces, floor)
            <==> SomeCandidateReads(mix, c, target, surfaces, floor, 0) || Reads(target, surfaces, floor)
    ensures Reads(c, surfaces, floor) ==> Lift(mix, c, target, surfaces, floor) == c
  {
    hide Reads;
    LiftFromReads(mix, c, target, surfaces, floor, 0);
  }

  predicate NoneReads(mix: Mix, c: Color, target: Color, surfaces: seq<Color>, floor: real, from: nat, to: nat) {
    forall step :: from <= step < to ==> !Reads(Candidate(mix, c, target, step), surfaces, floor)
  }

  lemma {:induction false} LiftFromFirst(mix: Mix, c: Color, target: Color, surfaces: seq<Color>, floor: real,
                                         step: nat, k: nat)
    requires step <= k <= 21 && NoneReads(mix, c, target, surfaces, floor, step, k)
    requires k <= 20 ==> Reads(Candidate(mix, c, target, k), surfaces, floor)
    ensures LiftFrom(mix, c, target, surfaces, floor, step)
            == if k <= 20 then Candidate(mix, c, target, k) else target
    decreases k - step
  {
    hide Reads;
    if step < k {
      LiftFromFirst(mix, c, target, surfaces, floor, step + 1, k);
    }
  }

  /** The first of the colour and its twenty mixes that reads is taken, and the target if none does. */
  lemma {:induction false} LiftTakesFirst(mix: Mix, c: Color, target: Color, surfaces: seq<Color>, floor: real, k: nat)
    requires k <= 21 && NoneReads(mix, c, target, surfaces, floor, 0, k)
    requires k <= 20 ==> Reads(Candidate(mix, c, target, k), surfaces, floor)
    ensures Lift(mix, c, target, surfaces, floor)
            == if k == 0 then c else if k <= 20 then mix(target, c, k) else target
  {
    hide Reads;
    LiftFromFirst(mix, c, target, surfaces, floor, 0, k);
  }

  /** A mix that jumps to the target at once. */
  function Jump(target: Color, c: Color, step: nat): Color {
    target
  }

  lemma {:induction false} JumpCandidates(c: Color, target: Color, surfaces: seq<Color>, floor: real)
    ensures SomeCandidateReads(Jump, c, target, surfaces, floor, 0)
            <==> Reads(c, surfaces, floor) || Reads(target, surfaces, floor)
  {
    hide Reads;
    assert Candidate(Jump, c, target, 0) == c && Candidate(Jump, c, target, 1) == target;
    assert forall step: nat :: Candidate(Jump, c, target, step) in {c, target};
  }

  /** Lifting makes every colour read, whatever the mix, exactly when the target reads. */
  lemma {:induction false} AlwaysLiftsExactly(target: Color, surfaces: seq<Color>, floor: real)
    ensures (forall mix: Mix, c: Color :: Reads(Lift(mix, c, target, surfaces, floor), surfaces, floor))
            <==> Reads(target, surfaces, floor)
  {
    hide Reads, Lift, SomeCandidateReads;
    if Reads(target, surfaces, floor) {
      forall mix: Mix, c: Color ensures Reads(Lift(mix, c, target, surfaces, floor), surfaces, floor) {
        LiftReadsExactly(mix, c, target, surfaces, floor);
      }
    } else {
      LiftReadsExactly(Jump, target, target, surfaces, floor);
      JumpCandidates(target, target, surfaces, floor);
    }
  }

  // ---- A colour readable on fills ----

  predicate LightestOf(c: Color, fills: seq<Color>) {
    forall i :: 0 <= i < |fills| ==> c.luminance >= fills[i].luminance
  }

  /** The pole tried first and the other one. */
  function Poles(c: Color, fills: seq<Color>): (Color, Color) {
    if LightestOf(c, fills) then (WHITE, BLACK) else (BLACK, WHITE)
  }

  function ReadableOn(mix: Mix, c: Color, fills: seq<Color>): Color {
    var (first, second) := Poles(c, fills);
    var near := Lift(mix, c, first, fills, TEXT_CONTRAST);
    var far := Lift(mix, c, second, fills, TEXT_CONTRAST);
    if Reads(near, fills, TEXT_CONTRAST) then near
    else if Reads(far, fills, TEXT_CONTRAST) then far
    else first
  }

  predicate CanRead(mix: Mix, c: Color, pole: Color, fills: seq<Color>) {
    SomeCandidateReads(mix, c, pole, fills, TEXT_CONTRAST, 0) || Reads(pole, fills, TEXT_CONTRAST)
  }

  /** The result reads on all fills exactly when some candidate or pole does, and a colour
      that already reads is kept. */
  lemma {:induction false} ReadableOnExactly(mix: Mix, c: Color, fills: seq<Color>)
    ensures Reads(ReadableOn(mix, c, fills), fills, TEXT_CONTRAST)
            <==> CanRead(mix, c, WHITE, fills) || CanRead(mix, c, BLACK, fills)
    ensures Reads(c, fills, TEXT_CONTRAST) ==> ReadableOn(mix, c, fills) == c
  {
    hide Reads, Lift, SomeCandidateReads, LightestOf;
    LiftReadsExactly(mix, c, WHITE, fills, TEXT_CONTRAST);
    LiftReadsExactly(mix, c, BLACK, fills, TEXT_CONTRAST);
  }

  /** A colour lighter than every fill is moved towards white first, any other towards black, and the
      other way only when that does not make it read. */
  lemma {:induction false} NearPoleFirst(mix: Mix, c: Color, fills: seq<Color>)
    ensures var near := if forall i :: 0 <= i < |fills| ==> c.luminance >= fills[i].luminance then WHITE else BLACK;
            var far := if near == WHITE then BLACK else WHITE;
            && (CanRead(mix, c, near, fills) ==> ReadableOn(mix, c, fills) == Lift(mix, c, near, fills, 4.5))
            && (!CanRead(mix, c, near, fills) && CanRead(mix, c, far, fills) ==>
                ReadableOn(mix, c, fills) == Lift(mix, c, far, fills, 4.5))
            && (!CanRead(mix, c, near, fills) && !CanRead(mix, c, far, fills) ==> ReadableOn(mix, c, fills) == near)
  {
    hide Reads, Lift, SomeCandidateReads;
    LiftReadsExactly(mix, c, WHITE, fills, TEXT_CONTRAST);
    LiftReadsExactly(mix, c, BLACK, fills, TEXT_CONTRAST);
  }

  /** On one fill the result always reads. */
  lemma {:induction false} ReadableOnOneFill(mix: Mix, c: Color, fill: Color)
    ensures Ratio(ReadableOn(mix, c, [fill]), fill) >= TEXT_CONTRAST
  {
    ReadableOnExactly(mix, c, [fill]);
    PolesReadExactly(fill);
    hide ReadableOn, SomeCandidateReads, Ratio;
    assert Reads(WHITE, [fill], TEXT_CONTRAST) || Reads(BLACK, [fill], TEXT_CONTRAST);
    assert Reads(ReadableOn(mix, c, [fill]), [fill], TEXT_CONTRAST);
    assert [fill][0] == fill;
  }

  /** No fill is too light for white, or none too dark for black. */
  predicate Alike(fills: seq<Color>) {
    || (forall i :: 0 <= i < |fills| ==> fills[i].luminance <= 11.0 / 60.0)
    || (forall i :: 0 <= i < |fills| ==> fills[i].luminance >= 7.0 / 40.0)
  }

  /** A pole reads on all fills exactly when they are alike. */
  lemma {:induction false} AlikeExactly(fills: seq<Color>)
    ensures Alike(fills) <==> Reads(WHITE, fills, TEXT_CONTRAST) || Reads(BLACK, fills, TEXT_CONTRAST)
  {
    hide Ratio;
    forall i | 0 <= i < |fills|
      ensures Ratio(WHITE, fills[i]) >= TEXT_CONTRAST <==> fills[i].luminance <= 11.0 / 60.0
      ensures Ratio(BLACK, fills[i]) >= TEXT_CONTRAST <==> fills[i].luminance >= 7.0 / 40.0
    {
      PolesReadExactly(fills[i]);
    }
  }

  lemma {:induction false} ReadableOnAlikeFills(mix: Mix, c: Color, fills: seq<Color>)
    requires Alike(fills)
    ensures Reads(ReadableOn(mix, c, fills), fills, TEXT_CONTRAST)
  {
    hide ReadableOn, SomeCandidateReads, Ratio, Alike, Reads;
    ReadableOnExactly(mix, c, fills);
    AlikeExactly(fills);
  }

  /** On fills that are not alike, a colour as light as one of them cannot be helped by a mix
      that jumps to the target. */
  lemma {:induction false} UnlikeFillsFail(fills: seq<Color>)
    requires !Alike(fills)
    ensures fills != [] && !Reads(ReadableOn(Jump, fills[0], fills), fills, TEXT_CONTRAST)
  {
    var c := fills[0];
    AlikeExactly(fills);
    RatioReaches(c, c, TEXT_CONTRAST);
    assert !Reads(c, fills, TEXT_CONTRAST);
    ReadableOnExactly(Jump, c, fills);
    hide Ratio, Alike, Reads, ReadableOn, SomeCandidateReads;
    JumpCandidates(c, WHITE, fills, TEXT_CONTRAST);
    JumpCandidates(c, BLACK, fills, TEXT_CONTRAST);
  }

  /** The result reads for every colour and every mix exactly when the fills are alike. */
  lemma {:induction false} AlwaysReadableExactly(fills: seq<Color>)
    ensures (forall mix: Mix, c: Color :: Reads(ReadableOn(mix, c, fills), fills, TEXT_CONTRAST)) <==> Alike(fills)
  {
    hide Reads, ReadableOn, Alike;
    if Alike(fills) {
      forall mix: Mix, c: Color ensures Reads(ReadableOn(mix, c, fills), fills, TEXT_CONTRAST) {
        ReadableOnAlikeFills(mix, c, fills);
      }
    } else {
      UnlikeFillsFail(fills);
    }
  }

  /** On three unlike fills no colour at all reads. */
  lemma {:induction false} NoColorReadsOnUnlikeFills(c: Color)
    ensures !Reads(c, [BLACK, Paint(2, 0.18), WHITE], TEXT_CONTRAST)
  {
    var middle: Color := Paint(2, 0.18);
    var fills: seq<Color> := [BLACK, middle, WHITE];
    RatioReaches(c, BLACK, TEXT_CONTRAST);
    RatioReaches(c, middle, TEXT_CONTRAST);
    RatioReaches(c, WHITE, TEXT_CONTRAST);
    hide Ratio;
    assert fills[0] == BLACK && fills[1] == middle && fills[2] == WHITE;
  }

  // ---- The theme ----

  /** Four surfaces that the pole of the theme reads on. */
  predicate PoleReads(dark: bool, surfaces: seq<Color>) {
    Reads(if dark then WHITE else BLACK, surfaces, TEXT_CONTRAST)
  }

  /** A theme's pole reads on its surfaces exactly when none is too light, or too dark. */
  lemma {:induction false} PoleReadsExactly(dark: bool, surfaces: seq<Color>)
    ensures PoleReads(dark, surfaces)
            <==> forall i :: 0 <= i < |surfaces| ==>
                   if dark then surfaces[i].luminance <= 11.0 / 60.0 else surfaces[i].luminance >= 7.0 / 40.0
  {
    hide Ratio;
    forall i | 0 <= i < |surfaces|
      ensures Ratio(WHITE, surfaces[i]) >= TEXT_CONTRAST <==> surfaces[i].luminance <= 11.0 / 60.0
      ensures Ratio(BLACK, surfaces[i]) >= TEXT_CONTRAST <==> surfaces[i].luminance >= 7.0 / 40.0
    {
      PolesReadExactly(surfaces[i]);
    }
  }

  // ---- The active row ----

  /** The text colour a theme is repaired towards: white on dark, black on light. */
  function PoleOf(dark: bool): Color {
    if dark then WHITE else BLACK
  }

  function Ground(dark: bool): Color {
    if dark then BLACK else WHITE
  }

  /** Some surface is too dark for black, in a dark theme, or too light for white, in a light one. */
  predicate IsDecided(dark: bool, surfaces: seq<Color>) {
    exists i :: 0 <= i < |surfaces|
      && if dark then surfaces[i].luminance < 7.0 / 40.0 else surfaces[i].luminance > 11.0 / 60.0
  }

  /** The ground reads under any text that reads on such a surface. */
  lemma {:induction false} GroundReads(dark: bool, surfaces: seq<Color>, text: Color)
    requires IsDecided(dark, surfaces) && TextReads(text, surfaces)
    ensures Ratio(Ground(dark), text) >= TEXT_CONTRAST
  {
    hide Ratio;
    var i :| 0 <= i < |surfaces|
      && if dark then surfaces[i].luminance < 7.0 / 40.0 else surfaces[i].luminance > 11.0 / 60.0;
    var l, t := surfaces[i].luminance, text.luminance;
    RatioReaches(text, surfaces[i], TEXT_CONTRAST);
    assert Ratio(text, surfaces[i]) >= TEXT_CONTRAST;
    assert if t >= l then t + 0.05 >= 4.5 * (l + 0.05) else l + 0.05 >= 4.5 * (t + 0.05);
    assert if dark then t >= 7.0 / 40.0 else t <= 11.0 / 60.0;
    PolesReadExactly(text);
  }

  /** The active row is readable under whatever text reads on the surfaces, for every colour
      of the row and every mix, exactly when some surface is decided. */
  lemma {:induction false} ActiveRowExactly(dark: bool, surfaces: seq<Color>)
    ensures (forall mix: Mix, row: Color, a: Color, b: Color :: TextReads(a, surfaces) && TextReads(b, surfaces) ==>
               TextReads(Lift(mix, row, Ground(dark), [a, b], TEXT_CONTRAST), [a, b]))
            <==> IsDecided(dark, surfaces)
  {
    if IsDecided(dark, surfaces) {
      forall mix: Mix, row: Color, a: Color, b: Color | TextReads(a, surfaces) && TextReads(b, surfaces)
        ensures TextReads(Lift(mix, row, Ground(dark), [a, b], TEXT_CONTRAST), [a, b])
      {
        hide Lift, Ratio, Ground, IsDecided;
        RowReads(mix, row, dark, surfaces, a, b);
      }
    } else {
      var g := Ground(dark);
      AlikeGround(dark, surfaces);
      RatioReaches(g, g, TEXT_CONTRAST);
      assert !TextReads(g, [g, g]) by { assert [g, g][0] == g; }
      hide Lift, Ratio, Ground, IsDecided, Reads;
      LiftReadsExactly(Jump, g, g, [g, g], TEXT_CONTRAST);
      JumpCandidates(g, g, [g, g], TEXT_CONTRAST);
    }
  }

  lemma {:induction false} RowReads(mix: Mix, row: Color, dark: bool, surfaces: seq<Color>, a: Color, b: Color)
    requires IsDecided(dark, surfaces) && TextReads(a, surfaces) && TextReads(b, surfaces)
    ensures TextReads(Lift(mix, row, Ground(dark), [a, b], TEXT_CONTRAST), [a, b])
  {
    hide Lift, Ratio, Ground, IsDecided;
    GroundReads(dark, surfaces, a);
    GroundReads(dark, surfaces, b);
    assert Reads(Ground(dark), [a, b], TEXT_CONTRAST);
    LiftReads(mix, row, Ground(dark), [a, b], TEXT_CONTRAST);
  }

  /** Where no surface is decided, the ground itself reads on all of them. */
  lemma {:induction false} AlikeGround(dark: bool, surfaces: seq<Color>)
    requires !IsDecided(dark, surfaces)
    ensures TextReads(Ground(dark), surfaces)
  {
    hide Ratio;
    forall i | 0 <= i < |surfaces| ensures Ratio(Ground(dark), surfaces[i]) >= TEXT_CONTRAST {
      PolesReadExactly(surfaces[i]);
    }
  }

  lemma {:induction false} ReadsLower(c: Color, surfaces: seq<Color>, floor: real, lower: real)
    requires Reads(c, surfaces, floor) && lower <= floor
    ensures Reads(c, surfaces, lower)
  {
  }

  lemma {:induction false} LiftReads(mix: Mix, c: Color, target: Color, surfaces: seq<Color>, floor: real)
    requires Reads(target, surfaces, floor)
    ensures Reads(Lift(mix, c, target, surfaces, floor), surfaces, floor)
  {
    LiftReadsExactly(mix, c, target, surfaces, floor);
  }

  lemma {:induction false} ReadsOne(c: Color, surfaces: seq<Color>, i: nat, floor: real)
    requires i < |surfaces| && Reads(c, surfaces, floor)
    ensures Reads(c, [surfaces[i]], floor)
  {
  }

  predicate TextReads(c: Color, surfaces: seq<Color>) {
    Reads(c, surfaces, TEXT_CONTRAST)
  }

  lemma {:induction false} PoleIsRead(dark: bool, surfaces: seq<Color>)
    ensures PoleReads(dark, surfaces) <==> TextReads(PoleOf(dark), surfaces)
  {
    hide Ratio;
  }

  /** Text colours on the surfaces. */
  datatype Texts = Texts(foreground: Color, muted: Color, popover: Color, sidebar: Color, groupBox: Color)

  /** A colour with its hovered and pressed variants. */
  datatype Variants = Variants(base: Color, hover: Color, active: Color)

  /** A fill and the text on it. */
  datatype Filled = Filled(fill: Color, text: Color)

  datatype Borders = Borders(border: Color, input: Color, sidebar: Color, titleBar: Color, window: Color)

  function All(v: Variants): seq<Color> {
    [v.base, v.hover, v.active]
  }

  predicate VariantsRead(v: Variants, surfaces: seq<Color>) {
    TextReads(v.base, surfaces) && TextReads(v.hover, surfaces) && TextReads(v.active, surfaces)
  }

  predicate FilledReads(f: Filled) {
    Ratio(f.text, f.fill) >= TEXT_CONTRAST
  }

  /** What repairing the text of a button achieves: it reads exactly when some colour tried does,
      and in any case when the fills are alike. */
  predicate ButtonRepaired(mix: Mix, was: Color, now: Color, fills: Variants) {
    && (Reads(now, All(fills), TEXT_CONTRAST) <==> CanReadOn(mix, was, All(fills)))
    && (Alike(All(fills)) ==> Reads(now, All(fills), TEXT_CONTRAST))
  }

  /** The fill stays and the text on it is repaired. */
  function Refilled(mix: Mix, f: Filled): Filled {
    f.(text := ReadableOn(mix, f.text, [f.fill]))
  }

  function LiftedTexts(mix: Mix, t: Texts, pole: Color, surfaces: seq<Color>): Texts
    requires |surfaces| == 4
  {
    var foreground := Lift(mix, t.foreground, pole, surfaces, TEXT_CONTRAST);
    Texts(foreground, Lift(mix, t.muted, foreground, surfaces, TEXT_CONTRAST),
          Lift(mix, t.popover, pole, [surfaces[1]], TEXT_CONTRAST),
          Lift(mix, t.sidebar, pole, [surfaces[3]], TEXT_CONTRAST), foreground)
  }

  function LiftedVariants(mix: Mix, v: Variants, pole: Color, surfaces: seq<Color>): Variants {
    Variants(Lift(mix, v.base, pole, surfaces, TEXT_CONTRAST), Lift(mix, v.hover, pole, surfaces, TEXT_CONTRAST),
             Lift(mix, v.active, pole, surfaces, TEXT_CONTRAST))
  }

  class Theme {
    const dark: bool
    const background: Color
    const popover: Color
    const muted: Color
    const sidebar: Color
    var texts: Texts
    var link: Variants
    var danger: Variants
    var dangerForeground: Color
    const primary: Variants
    var primaryForeground: Color
    const secondary: Variants
    var secondaryForeground: Color
    var accent: Filled
    var sidebarAccent: Filled
    var sidebarPrimary: Filled
    var listActive: Color
    var borders: Borders
    var ring: Color

    function Surfaces(): seq<Color> {
      [background, popover, muted, sidebar]
    }

    /** The text colours on the surfaces. Each is kept if it reads already, and reads
        afterwards if the pole does. */
    method LiftTexts(mix: Mix, pole: Color)
      modifies this`texts
      ensures texts == LiftedTexts(mix, old(texts), pole, Surfaces())
      ensures TextReads(pole, Surfaces()) ==>
                && TextReads(texts.foreground, Surfaces()) && TextReads(texts.muted, Surfaces())
                && Ratio(texts.popover, popover) >= TEXT_CONTRAST && Ratio(texts.sidebar, sidebar) >= TEXT_CONTRAST
      ensures TextReads(old(texts).foreground, Surfaces()) ==> texts.foreground == old(texts).foreground
      ensures TextReads(old(texts).muted, Surfaces()) ==> texts.muted == old(texts).muted
      ensures texts.groupBox == texts.foreground
    {
      hide Lift, Ratio, Reads;
      var surfaces := Surfaces();
      LiftReadsExactly(mix, texts.foreground, pole, surfaces, TEXT_CONTRAST);
      texts := texts.(foreground := Lift(mix, texts.foreground, pole, surfaces, TEXT_CONTRAST));
      LiftReadsExactly(mix, texts.muted, texts.foreground, surfaces, TEXT_CONTRAST);
      texts := texts.(muted := Lift(mix, texts.muted, texts.foreground, surfaces, TEXT_CONTRAST));
      LiftReadsOn(mix, texts.popover, pole, surfaces, 1);
      texts := texts.(popover := Lift(mix, texts.popover, pole, [popover], TEXT_CONTRAST));
      LiftReadsOn(mix, texts.sidebar, pole, surfaces, 3);
      texts := texts.(sidebar := Lift(mix, texts.sidebar, pole, [sidebar], TEXT_CONTRAST));
      texts := texts.(groupBox := texts.foreground);
    }

    /** Three variants lifted one by one. */
    method LiftVariants(mix: Mix, v: Variants, pole: Color) returns (w: Variants)
      ensures w == LiftedVariants(mix, v, pole, Surfaces())
      ensures TextReads(pole, Surfaces()) ==> VariantsRead(w, Surfaces())
      ensures VariantsRead(v, Surfaces()) ==> w == v
    {
      hide Lift, Ratio, Reads;
      var surfaces := Surfaces();
      LiftReadsExactly(mix, v.base, pole, surfaces, TEXT_CONTRAST);
      LiftReadsExactly(mix, v.hover, pole, surfaces, TEXT_CONTRAST);
      LiftReadsExactly(mix, v.active, pole, surfaces, TEXT_CONTRAST);
      w := Variants(Lift(mix, v.base, pole, surfaces, TEXT_CONTRAST),
                    Lift(mix, v.hover, pole, surfaces, TEXT_CONTRAST),
                    Lift(mix, v.active, pole, surfaces, TEXT_CONTRAST));
    }

    /** The text on a button, whose fill changes, reads exactly when some colour tried does. */
    method ButtonText(mix: Mix, text: Color, fills: Variants) returns (r: Color)
      ensures r == ReadableOn(mix, text, All(fills))
      ensures ButtonRepaired(mix, text, r, fills)
      ensures Reads(text, All(fills), TEXT_CONTRAST) ==> r == text
    {
      hide ReadableOn, Ratio, Reads, CanRead, Alike;
      ReadableOnExactly(mix, text, All(fills));
      if Alike(All(fills)) {
        ReadableOnAlikeFills(mix, text, All(fills));
      }
      r := ReadableOn(mix, text, All(fills));
    }

    /** The text on a single fill always reads. */
    method FillText(mix: Mix, f: Filled) returns (g: Filled)
      ensures g == Refilled(mix, f) && FilledReads(g)
    {
      hide ReadableOn, Ratio;
      ReadableOnOneFill(mix, f.text, f.fill);
      g := f.(text := ReadableOn(mix, f.text, [f.fill]));
    }

    method LiftAccents(mix: Mix, pole: Color)
      modifies this`link, this`danger
      ensures link == LiftedVariants(mix, old(link), pole, Surfaces())
      ensures danger == LiftedVariants(mix, old(danger), pole, Surfaces())
      ensures TextReads(pole, Surfaces()) ==> VariantsRead(link, Surfaces()) && VariantsRead(danger, Surfaces())
      ensures VariantsRead(old(link), Surfaces()) ==> link == old(link)
      ensures VariantsRead(old(danger), Surfaces()) ==> danger == old(danger)
    {
      hide TextReads, VariantsRead, LiftedVariants;
      link := LiftVariants(mix, link, pole);
      danger := LiftVariants(mix, danger, pole);
    }

    method ButtonTexts(mix: Mix)
      modifies this`dangerForeground, this`primaryForeground, this`secondaryForeground
      ensures ButtonRepaired(mix, old(dangerForeground), dangerForeground, danger)
      ensures ButtonRepaired(mix, old(primaryForeground), primaryForeground, primary)
      ensures ButtonRepaired(mix, old(secondaryForeground), secondaryForeground, secondary)
      ensures dangerForeground == ReadableOn(mix, old(dangerForeground), All(danger))
      ensures primaryForeground == ReadableOn(mix, old(primaryForeground), All(primary))
      ensures secondaryForeground == ReadableOn(mix, old(secondaryForeground), All(secondary))
    {
      hide ButtonRepaired, Reads, All, ReadableOn;
      dangerForeground := ButtonText(mix, dangerForeground, danger);
      primaryForeground := ButtonText(mix, primaryForeground, primary);
      secondaryForeground := ButtonText(mix, secondaryForeground, secondary);
    }

    method SingleTexts(mix: Mix)
      modifies this`accent, this`sidebarAccent, this`sidebarPrimary
      ensures FilledReads(accent) && FilledReads(sidebarAccent) && FilledReads(sidebarPrimary)
      ensures accent == Refilled(mix, old(accent)) && sidebarAccent == Refilled(mix, old(sidebarAccent))
      ensures sidebarPrimary == Refilled(mix, old(sidebarPrimary))
    {
      hide FilledReads, Refilled;
      accent := FillText(mix, accent);
      sidebarAccent := FillText(mix, sidebarAccent);
      sidebarPrimary := FillText(mix, sidebarPrimary);
    }

    /** The text on every fill. */
    method FillTexts(mix: Mix)
      modifies this`dangerForeground, this`primaryForeground, this`secondaryForeground,
               this`accent, this`sidebarAccent, this`sidebarPrimary
      ensures FilledReads(accent) && FilledReads(sidebarAccent) && FilledReads(sidebarPrimary)
      ensures accent == Refilled(mix, old(accent)) && sidebarAccent == Refilled(mix, old(sidebarAccent))
      ensures sidebarPrimary == Refilled(mix, old(sidebarPrimary))
      ensures ButtonRepaired(mix, old(dangerForeground), dangerForeground, danger)
      ensures ButtonRepaired(mix, old(primaryForeground), primaryForeground, primary)
      ensures ButtonRepaired(mix, old(secondaryForeground), secondaryForeground, secondary)
      ensures dangerForeground == ReadableOn(mix, old(dangerForeground), All(danger))
      ensures primaryForeground == ReadableOn(mix, old(primaryForeground), All(primary))
      ensures secondaryForeground == ReadableOn(mix, old(secondaryForeground), All(secondary))
    {
      hide ButtonRepaired, FilledReads, Refilled, ReadableOn;
      ButtonTexts(mix);
      SingleTexts(mix);
    }

    /** Every colour that stands on the surfaces. */
    method SurfaceTexts(mix: Mix, pole: Color)
      modifies this`texts, this`link, this`danger
      ensures texts == LiftedTexts(mix, old(texts), pole, Surfaces())
      ensures link == LiftedVariants(mix, old(link), pole, Surfaces())
      ensures danger == LiftedVariants(mix, old(danger), pole, Surfaces())
      ensures TextReads(pole, Surfaces()) ==>
                && TextReads(texts.foreground, Surfaces()) && TextReads(texts.muted, Surfaces())
                && Ratio(texts.popover, popover) >= TEXT_CONTRAST && Ratio(texts.sidebar, sidebar) >= TEXT_CONTRAST
                && VariantsRead(link, Surfaces()) && VariantsRead(danger, Surfaces())
      ensures TextReads(old(texts).foreground, Surfaces()) ==> texts.foreground == old(texts).foreground
      ensures VariantsRead(old(link), Surfaces()) ==> link == old(link)
      ensures VariantsRead(old(danger), Surfaces()) ==> danger == old(danger)
      ensures texts.groupBox == texts.foreground
    {
      hide Ratio, TextReads, VariantsRead, LiftedTexts, LiftedVariants;
      LiftTexts(mix, pole);
      LiftAccents(mix, pole);
    }

    /** The active row, and the border, which follows the repaired foreground. */
    method LiftListAndBorder(mix: Mix)
      modifies this`listActive, this`borders, this`ring
      ensures listActive == Lift(mix, old(listActive), Ground(dark), [texts.foreground, texts.muted], TEXT_CONTRAST)
      ensures borders.border == Lift(mix, old(borders).border, texts.foreground, Surfaces(), BORDER_CONTRAST)
      ensures TextReads(texts.foreground, Surfaces()) ==> Reads(borders.border, Surfaces(), BORDER_CONTRAST)
      ensures Reads(old(borders).border, Surfaces(), BORDER_CONTRAST) ==> borders.border == old(borders).border
      ensures var b := borders.border; borders == Borders(b, b, b, b, b)
      ensures ring == texts.foreground
      ensures IsDecided(dark, Surfaces()) && TextReads(texts.foreground, Surfaces())
              && TextReads(texts.muted, Surfaces()) ==>
                TextReads(listActive, [texts.foreground, texts.muted])
      ensures TextReads(old(listActive), [texts.foreground, texts.muted]) ==> listActive == old(listActive)
    {
      hide Lift, Ratio, Reads, IsDecided;
      var surfaces := Surfaces();
      var rows := [texts.foreground, texts.muted];
      if IsDecided(dark, surfaces) && TextReads(texts.foreground, surfaces) && TextReads(texts.muted, surfaces) {
        RowReads(mix, listActive, dark, surfaces, texts.foreground, texts.muted);
      }
      LiftReadsExactly(mix, listActive, Ground(dark), rows, TEXT_CONTRAST);
      listActive := Lift(mix, listActive, Ground(dark), rows, TEXT_CONTRAST);
      if TextReads(texts.foreground, surfaces) {
        ReadsLower(texts.foreground, surfaces, TEXT_CONTRAST, BORDER_CONTRAST);
      }
      LiftReadsExactly(mix, borders.border, texts.foreground, surfaces, BORDER_CONTRAST);
      var b := Lift(mix, borders.border, texts.foreground, surfaces, BORDER_CONTRAST);
      borders := Borders(b, b, b, b, b);
      ring := texts.foreground;
    }

    /** Repairs the colours of the theme. When the theme's pole reads on all four surfaces, so
        does every text colour afterwards, and the border stands out. The text on a single
        fill reads in any case. */
    method MapAppTokens(mix: Mix)
      modifies this
      ensures PoleReads(dark, Surfaces()) ==>
                && TextReads(texts.foreground, Surfaces()) && TextReads(texts.muted, Surfaces())
                && TextReads(texts.groupBox, Surfaces())
                && Ratio(texts.popover, popover) >= TEXT_CONTRAST && Ratio(texts.sidebar, sidebar) >= TEXT_CONTRAST
                && VariantsRead(link, Surfaces()) && VariantsRead(danger, Surfaces())
                && Reads(borders.border, Surfaces(), BORDER_CONTRAST) && TextReads(ring, Surfaces())
      ensures PoleReads(dark, Surfaces()) && IsDecided(dark, Surfaces()) ==>
                TextReads(listActive, [texts.foreground, texts.muted])
      ensures FilledReads(accent) && FilledReads(sidebarAccent) && FilledReads(sidebarPrimary)
      ensures accent == Refilled(mix, old(accent)) && sidebarAccent == Refilled(mix, old(sidebarAccent))
      ensures sidebarPrimary == Refilled(mix, old(sidebarPrimary))
      ensures ButtonRepaired(mix, old(dangerForeground), dangerForeground, danger)
      ensures ButtonRepaired(mix, old(primaryForeground), primaryForeground, primary)
      ensures ButtonRepaired(mix, old(secondaryForeground), secondaryForeground, secondary)
      ensures dangerForeground == ReadableOn(mix, old(dangerForeground), All(danger))
      ensures primaryForeground == ReadableOn(mix, old(primaryForeground), All(primary))
      ensures secondaryForeground == ReadableOn(mix, old(secondaryForeground), All(secondary))
      ensures VariantsRead(old(link), Surfaces()) ==> link == old(link)
      ensures VariantsRead(old(danger), Surfaces()) ==> danger == old(danger)
      ensures TextReads(old(texts).foreground, Surfaces()) ==> texts.foreground == old(texts).foreground
      ensures var b := borders.border; borders == Borders(b, b, b, b, b)
      ensures texts == LiftedTexts(mix, old(texts), PoleOf(dark), Surfaces())
      ensures link == LiftedVariants(mix, old(link), PoleOf(dark), Surfaces())
      ensures danger == LiftedVariants(mix, old(danger), PoleOf(dark), Surfaces())
      ensures listActive == Lift(mix, old(listActive), Ground(dark), [texts.foreground, texts.muted], TEXT_CONTRAST)
      ensures borders.border == Lift(mix, old(borders).border, texts.foreground, Surfaces(), BORDER_CONTRAST)
      ensures ring == texts.foreground
    {
      var pole := PoleOf(dark);
      PoleIsRead(dark, Surfaces());
      hide Lift, Ratio, Reads, ButtonRepaired, PoleReads, TextReads, VariantsRead, FilledReads, IsDecided, LiftedTexts,
           LiftedVariants, Refilled, ReadableOn, All, PoleOf, Ground, Surfaces;
      SurfaceTexts(mix, pole);
      FillTexts(mix);
      LiftListAndBorder(mix);
    }
  }

  predicate CanReadOn(mix: Mix, c: Color, fills: seq<Color>) {
    CanRead(mix, c, WHITE, fills) || CanRead(mix, c, BLACK, fills)
  }

  lemma {:induction false} LiftReadsOn(mix: Mix, c: Color, pole: Color, surfaces: seq<Color>, i: nat)
    requires i < |surfaces|
    ensures Reads(pole, surfaces, TEXT_CONTRAST) ==>
              Ratio(Lift(mix, c, pole, [surfaces[i]], TEXT_CONTRAST), surfaces[i]) >= TEXT_CONTRAST
  {
    hide Lift, Ratio;
    if Reads(pole, surfaces, TEXT_CONTRAST) {
      ReadsOne(pole, surfaces, i, TEXT_CONTRAST);
      LiftReads(mix, c, pole, [surfaces[i]], TEXT_CONTRAST);
      assert [surfaces[i]][0] == surfaces[i];
    }
  }
}
