/** The desktop settings loader. It starts from the defaults and goes over the stored map
    twice, taking each stored value that leaves the settings valid as a whole. The idle
    timeout must not exceed the maximum lifetime, so the order of those two matters. */
module Settings {
  import opened Wrappers
  import opened Text
  import opened TextPositions

  datatype Style = Random | Words

  datatype Generator = Generator(style: Style, length: nat, words: nat, digits: bool, symbols: bool)

  /** A number of the window placement, which can overflow to an infinity when read. */
  datatype Coordinate = Finite(value: real) | Infinite

  datatype Placement = Placement(x: Coordinate, y: Coordinate, width: Coordinate, height: Coordinate, maximized: bool)

  /** A theme and a page are known by their stored names. */
  datatype Settings = Settings(
    deviceName: Option<string>,
    theme: string,
    uiScale: nat,
    textSize: Option<nat>,
    font: Option<string>,
    reducedMotion: bool,
    websiteIcons: bool,
    crashReports: bool,
    idleSeconds: nat,
    maximumSeconds: nat,
    generator: Generator,
    window: Option<Placement>,
    page: Option<string>)

  function Default(theme: string): Settings {
    Settings(None, theme, 100, None, None, false, true, true, 300, 28_800,
             Generator(Words, 20, 12, true, true), None, None)
  }

  /** A stored value that has the type of its key. A key that is not known, or a value that
      does not have the type of its key, is `Unusable`. */
  datatype Entry =
    | DeviceName(name: Option<string>)
    | Theme(theme: string)
    | UiScale(scale: nat)
    | TextSize(size: Option<nat>)
    | Font(font: Option<string>)
    | ReducedMotion(on: bool)
    | WebsiteIcons(on: bool)
    | CrashReports(on: bool)
    | Idle(seconds: nat)
    | Maximum(seconds: nat)
    | GeneratorOptions(options: Generator)
    | Window(placement: Option<Placement>)
    | Page(page: Option<string>)
    | Unusable(key: string)

  datatype Key =
    | DeviceNameKey | ThemeKey | UiScaleKey | TextSizeKey | FontKey | ReducedMotionKey | WebsiteIconsKey
    | CrashReportsKey | IdleKey | MaximumKey | GeneratorKey | WindowKey | PageKey | OtherKey(name: string)

  function KeyOf(e: Entry): Key {
    match e
    case DeviceName(_) => DeviceNameKey
    case Theme(_) => ThemeKey
    case UiScale(_) => UiScaleKey
    case TextSize(_) => TextSizeKey
    case Font(_) => FontKey
    case ReducedMotion(_) => ReducedMotionKey
    case WebsiteIcons(_) => WebsiteIconsKey
    case CrashReports(_) => CrashReportsKey
    case Idle(_) => IdleKey
    case Maximum(_) => MaximumKey
    case GeneratorOptions(_) => GeneratorKey
    case Window(_) => WindowKey
    case Page(_) => PageKey
    case Unusable(key) => OtherKey(key)
  }

  /** The stored form of one field. */
  function Get(s: Settings, k: Key): Entry {
    match k
    case DeviceNameKey => DeviceName(s.deviceName)
    case ThemeKey => Theme(s.theme)
    case UiScaleKey => UiScale(s.uiScale)
    case TextSizeKey => TextSize(s.textSize)
    case FontKey => Font(s.font)
    case ReducedMotionKey => ReducedMotion(s.reducedMotion)
    case WebsiteIconsKey => WebsiteIcons(s.websiteIcons)
    case CrashReportsKey => CrashReports(s.crashReports)
    case IdleKey => Idle(s.idleSeconds)
    case MaximumKey => Maximum(s.maximumSeconds)
    case GeneratorKey => GeneratorOptions(s.generator)
    case WindowKey => Window(s.window)
    case PageKey => Page(s.page)
    case OtherKey(name) => Unusable(name)
  }

  /** The settings with one field replaced. */
  function With(s: Settings, e: Entry): Settings {
    match e
    case DeviceName(name) => s.(deviceName := name)
    case Theme(theme) => s.(theme := theme)
    case UiScale(scale) => s.(uiScale := scale)
    case TextSize(size) => s.(textSize := size)
    case Font(font) => s.(font := font)
    case ReducedMotion(on) => s.(reducedMotion := on)
    case WebsiteIcons(on) => s.(websiteIcons := on)
    case CrashReports(on) => s.(crashReports := on)
    case Idle(seconds) => s.(idleSeconds := seconds)
    case Maximum(seconds) => s.(maximumSeconds := seconds)
    case GeneratorOptions(options) => s.(generator := options)
    case Window(placement) => s.(window := placement)
    case Page(page) => s.(page := page)
    case Unusable(_) => s
  }

  // ---- Validity ----

  predicate GeneratorValid(g: Generator) {
    8 <= g.length <= 64 && 12 <= g.words <= 24 && (g.words - 12) % 3 == 0
  }

  predicate PlacementValid(p: Placement) {
    p.x.Finite? && p.y.Finite? && p.width.Finite? && p.height.Finite? && p.width.value > 0.0 && p.height.value > 0.0
  }

  predicate NameValid(name: string) {
    Trim(name) != "" && Width(name) <= 80 && forall i :: 0 <= i < |name| ==> !IsControl(name[i])
  }

  predicate LeaseValid(idle: nat, maximum: nat) {
    idle != 0 && maximum != 0 && idle <= maximum
  }

  predicate Valid(s: Settings) {
    && (s.deviceName.Some? ==> NameValid(s.deviceName.value))
    && 80 <= s.uiScale <= 200
    && (s.textSize.Some? ==> 12 <= s.textSize.value <= 24)
    && (s.font.Some? ==> Trim(s.font.value) != "")
    && GeneratorValid(s.generator)
    && (s.window.Some? ==> PlacementValid(s.window.value))
    && LeaseValid(s.idleSeconds, s.maximumSeconds)
  }

  /** Whether a value is acceptable by itself, for the fields not tied to another. */
  predicate OwnValid(e: Entry) {
    match e
    case DeviceName(name) => name.Some? ==> NameValid(name.value)
    case UiScale(scale) => 80 <= scale <= 200
    case TextSize(size) => size.Some? ==> 12 <= size.value <= 24
    case Font(font) => font.Some? ==> Trim(font.value) != ""
    case GeneratorOptions(options) => GeneratorValid(options)
    case Window(placement) => placement.Some? ==> PlacementValid(placement.value)
    case _ => true
  }

  predicate IsLease(e: Entry) {
    e.Idle? || e.Maximum?
  }

  // ---- Loading ----

  /** A stored value is taken when the settings with it are valid. */
  function Taken(s: Settings, e: Entry): Settings {
    if Valid(With(s, e)) then With(s, e) else s
  }

  function Pass(s: Settings, stored: seq<Entry>): Settings {
    if stored == [] then s else Taken(Pass(s, stored[..|stored| - 1]), stored[|stored| - 1])
  }

  function Loaded(theme: string, stored: seq<Entry>): Settings {
    Pass(Pass(Default(theme), stored), stored)
  }

  /** Two passes over the stored map. */
  method Load(theme: string, stored: seq<Entry>) returns (settings: Settings)
    ensures settings == Loaded(theme, stored) && Valid(settings)
  {
    hide Valid, With;
    settings := Default(theme);
    ghost var begin := settings;
    for round := 0 to 2
      invariant settings == if round == 0 then begin else if round == 1 then Pass(begin, stored)
                            else Pass(Pass(begin, stored), stored)
    {
      ghost var first := settings;
      for i := 0 to |stored|
        invariant settings == Pass(first, stored[..i])
      {
        assert stored[..i + 1][..i] == stored[..i];
        var candidate := With(settings, stored[i]);
        if Valid(candidate) {
          settings := candidate;
        }
      }
      assert stored[..|stored|] == stored;
    }
    LoadedValid(theme, stored);
  }

  // ---- The result is always valid ----

  lemma {:induction false} PassValid(s: Settings, stored: seq<Entry>)
    requires Valid(s)
    ensures Valid(Pass(s, stored))
  {
    hide Valid, With;
    if stored != [] {
      PassValid(s, stored[..|stored| - 1]);
    }
  }

  /** Whatever is stored, in whatever order, the loaded settings are valid. */
  lemma {:induction false} LoadedValid(theme: string, stored: seq<Entry>)
    ensures Valid(Loaded(theme, stored))
  {
    assert Valid(Default(theme));
    hide Valid;
    PassValid(Default(theme), stored);
    PassValid(Pass(Default(theme), stored), stored);
  }

  // ---- Fields ----

  lemma {:induction false} GetWith(s: Settings, e: Entry, k: Key)
    ensures Get(With(s, e), k) == if k == KeyOf(e) then e else Get(s, k)
  {
  }

  lemma {:induction false} SameFields(s: Settings, t: Settings)
    requires forall k :: Get(s, k) == Get(t, k)
    ensures s == t
  {
    assert s.deviceName == t.deviceName by { assert Get(s, DeviceNameKey) == Get(t, DeviceNameKey); }
    assert s.theme == t.theme by { assert Get(s, ThemeKey) == Get(t, ThemeKey); }
    assert s.uiScale == t.uiScale by { assert Get(s, UiScaleKey) == Get(t, UiScaleKey); }
    assert s.textSize == t.textSize by { assert Get(s, TextSizeKey) == Get(t, TextSizeKey); }
    assert s.font == t.font by { assert Get(s, FontKey) == Get(t, FontKey); }
    assert s.reducedMotion == t.reducedMotion by { assert Get(s, ReducedMotionKey) == Get(t, ReducedMotionKey); }
    assert s.websiteIcons == t.websiteIcons by { assert Get(s, WebsiteIconsKey) == Get(t, WebsiteIconsKey); }
    assert s.crashReports == t.crashReports by { assert Get(s, CrashReportsKey) == Get(t, CrashReportsKey); }
    assert s.idleSeconds == t.idleSeconds by { assert Get(s, IdleKey) == Get(t, IdleKey); }
    assert s.maximumSeconds == t.maximumSeconds by { assert Get(s, MaximumKey) == Get(t, MaximumKey); }
    assert s.generator == t.generator by { assert Get(s, GeneratorKey) == Get(t, GeneratorKey); }
    assert s.window == t.window by { assert Get(s, WindowKey) == Get(t, WindowKey); }
    assert s.page == t.page by { assert Get(s, PageKey) == Get(t, PageKey); }
  }

  /** One value decides whether valid settings stay valid with it, unless it is part of
      the lease; then it decides together with the other part. */
  lemma {:induction false} ValidWith(s: Settings, e: Entry)
    requires Valid(s)
    ensures !IsLease(e) ==> (Valid(With(s, e)) <==> OwnValid(e))
    ensures e.Idle? ==> (Valid(With(s, e)) <==> LeaseValid(e.seconds, s.maximumSeconds))
    ensures e.Maximum? ==> (Valid(With(s, e)) <==> LeaseValid(s.idleSeconds, e.seconds))
  {
    hide NameValid, GeneratorValid, PlacementValid, LeaseValid, Trim;
  }

  lemma {:induction false} ValidFields(s: Settings, k: Key)
    requires Valid(s)
    ensures OwnValid(Get(s, k)) && LeaseValid(s.idleSeconds, s.maximumSeconds)
  {
    hide NameValid, GeneratorValid, PlacementValid, LeaseValid, Trim;
  }

  predicate DistinctKeys(stored: seq<Entry>) {
    forall i, j :: 0 <= i < j < |stored| ==> KeyOf(stored[i]) != KeyOf(stored[j])
  }

  /** The value a map holds for a key. */
  function Lookup(stored: seq<Entry>, k: Key): Option<Entry> {
    if stored == [] then None
    else if KeyOf(stored[|stored| - 1]) == k then Some(stored[|stored| - 1])
    else Lookup(stored[..|stored| - 1], k)
  }

  predicate IsLeaseKey(k: Key) {
    k.IdleKey? || k.MaximumKey?
  }

  lemma {:induction false} LookupKey(stored: seq<Entry>, k: Key)
    ensures Lookup(stored, k).Some? ==> KeyOf(Lookup(stored, k).value) == k
    ensures (forall i :: 0 <= i < |stored| ==> KeyOf(stored[i]) != k) ==> Lookup(stored, k) == None
  {
    if stored != [] {
      LookupKey(stored[..|stored| - 1], k);
    }
  }

  /** A pass gives a field its stored value when that is acceptable, and leaves the field
      alone otherwise. */
  lemma {:induction false} PassField(s: Settings, stored: seq<Entry>, k: Key)
    requires Valid(s) && DistinctKeys(stored) && !IsLeaseKey(k)
    ensures var e := Lookup(stored, k);
            Get(Pass(s, stored), k) == if e.Some? && OwnValid(e.value) then e.value else Get(s, k)
  {
    hide Valid, With, OwnValid, Get;
    if stored != [] {
      var front, last := stored[..|stored| - 1], stored[|stored| - 1];
      var t := Pass(s, front);
      PassField(s, front, k);
      PassValid(s, front);
      GetWith(t, last, k);
      if KeyOf(last) == k {
        assert !IsLease(last);
        ValidWith(t, last);
        LookupKey(front, k);
      }
    }
  }

  // ---- The lease ----

  datatype Lease = Lease(idle: nat, maximum: nat)

  function LeaseOf(s: Settings): Lease {
    Lease(s.idleSeconds, s.maximumSeconds)
  }

  function LeaseTaken(l: Lease, e: Entry): Lease {
    match e
    case Idle(seconds) => if LeaseValid(seconds, l.maximum) then l.(idle := seconds) else l
    case Maximum(seconds) => if LeaseValid(l.idle, seconds) then l.(maximum := seconds) else l
    case _ => l
  }

  function LeasePass(l: Lease, stored: seq<Entry>): Lease {
    if stored == [] then l else LeaseTaken(LeasePass(l, stored[..|stored| - 1]), stored[|stored| - 1])
  }

  function LeaseEntries(stored: seq<Entry>): seq<Entry> {
    if stored == [] then []
    else
      var rest := LeaseEntries(stored[..|stored| - 1]);
      if IsLease(stored[|stored| - 1]) then rest + [stored[|stored| - 1]] else rest
  }

  lemma {:induction false} TakenLease(s: Settings, e: Entry)
    requires Valid(s)
    ensures LeaseOf(Taken(s, e)) == LeaseTaken(LeaseOf(s), e)
  {
    ValidWith(s, e);
    hide Valid;
  }

  /** A pass treats the lease as if only its own entries were stored. */
  lemma {:induction false} PassLease(s: Settings, stored: seq<Entry>)
    requires Valid(s)
    ensures LeaseOf(Pass(s, stored)) == LeasePass(LeaseOf(s), LeaseEntries(stored))
  {
    hide Valid, Taken, LeaseOf;
    if stored != [] {
      var front, last := stored[..|stored| - 1], stored[|stored| - 1];
      PassLease(s, front);
      PassValid(s, front);
      TakenLease(Pass(s, front), last);
      var rest := LeaseEntries(front);
      assert (rest + [last])[..|rest|] == rest;
    }
  }

  lemma {:induction false} LeaseEntriesAre(stored: seq<Entry>)
    requires DistinctKeys(stored)
    ensures var l, idle, maximum := LeaseEntries(stored), Lookup(stored, IdleKey), Lookup(stored, MaximumKey);
            && (idle.None? && maximum.None? ==> l == [])
            && (idle.Some? && maximum.None? ==> l == [idle.value])
            && (idle.None? && maximum.Some? ==> l == [maximum.value])
            && (idle.Some? && maximum.Some? ==> l == [idle.value, maximum.value] || l == [maximum.value, idle.value])
  {
    if stored != [] {
      LeaseEntriesAre(stored[..|stored| - 1]);
      LookupKey(stored[..|stored| - 1], IdleKey);
      LookupKey(stored[..|stored| - 1], MaximumKey);
    }
  }

  lemma {:induction false} PassOne(l: Lease, a: Entry)
    ensures LeasePass(l, [a]) == LeaseTaken(l, a)
  {
    assert [a][..0] == [];
  }

  lemma {:induction false} PassTwo(l: Lease, a: Entry, b: Entry)
    ensures LeasePass(l, [a, b]) == LeaseTaken(LeaseTaken(l, a), b)
  {
    assert [a, b][..1] == [a];
    PassOne(l, a);
  }

  const DEFAULT_LEASE := Lease(300, 28_800)

  /** Two passes reach a fixed point, and the stored pair when it is acceptable. */
  lemma {:induction false} LeaseSettles(stored: seq<Entry>)
    requires DistinctKeys(stored)
    ensures var l := LeaseEntries(stored);
            var done := LeasePass(LeasePass(DEFAULT_LEASE, l), l);
            LeasePass(done, l) == done
    ensures var l, idle, maximum := LeaseEntries(stored), Lookup(stored, IdleKey), Lookup(stored, MaximumKey);
            idle.Some? && idle.value.Idle? && maximum.Some? && maximum.value.Maximum?
            && LeaseValid(idle.value.seconds, maximum.value.seconds) ==>
              LeasePass(LeasePass(DEFAULT_LEASE, l), l) == Lease(idle.value.seconds, maximum.value.seconds)
  {
    LeaseEntriesAre(stored);
    LookupKey(stored, IdleKey);
    LookupKey(stored, MaximumKey);
    var l, start := LeaseEntries(stored), DEFAULT_LEASE;
    var one := LeasePass(start, l);
    var two := LeasePass(one, l);
    hide Lookup, LeaseEntries;
    if |l| == 1 {
      PassOne(start, l[0]);
      PassOne(one, l[0]);
      PassOne(two, l[0]);
      assert l == [l[0]];
    } else if |l| == 2 {
      PassTwo(start, l[0], l[1]);
      PassTwo(one, l[0], l[1]);
      PassTwo(two, l[0], l[1]);
      assert l == [l[0], l[1]];
    }
    hide LeasePass;
  }

  // ---- Main results ----

  lemma {:induction false} DefaultValid(theme: string)
    ensures Valid(Default(theme)) && LeaseOf(Default(theme)) == DEFAULT_LEASE
  {
  }

  /** The lease after loading, and after one more pass. */
  lemma {:induction false} LoadedLease(theme: string, stored: seq<Entry>)
    ensures var l := LeaseEntries(stored);
            var settled := LeasePass(LeasePass(DEFAULT_LEASE, l), l);
            && Valid(Pass(Default(theme), stored)) && Valid(Loaded(theme, stored))
            && LeaseOf(Pass(Default(theme), stored)) == LeasePass(DEFAULT_LEASE, l)
            && LeaseOf(Loaded(theme, stored)) == settled
            && LeaseOf(Pass(Loaded(theme, stored), stored)) == LeasePass(settled, l)
  {
    hide Valid, Default, Pass, LeasePass, LeaseEntries, LeaseOf;
    DefaultValid(theme);
    var start := Default(theme);
    var one := Pass(start, stored);
    var two := Pass(one, stored);
    PassValid(start, stored);
    PassValid(one, stored);
    PassLease(start, stored);
    PassLease(one, stored);
    PassLease(two, stored);
  }

  /** A third pass would change nothing, for every stored map and every order of its keys. */
  lemma {:induction false} ThirdPassChangesNothing(theme: string, stored: seq<Entry>)
    requires DistinctKeys(stored)
    ensures Pass(Loaded(theme, stored), stored) == Loaded(theme, stored)
  {
    hide Valid, Default, DistinctKeys, Pass, LeasePass, LeaseEntries, Lookup;
    LoadedLease(theme, stored);
    LeaseSettles(stored);
    var one := Pass(Default(theme), stored);
    var two := Pass(one, stored);
    forall k ensures Get(Pass(two, stored), k) == Get(two, k) {
      FieldSettles(one, stored, k);
    }
    SameFields(Pass(two, stored), two);
  }

  /** Beside the lease, one pass is enough for any field. */
  lemma {:induction false} FieldSettles(s: Settings, stored: seq<Entry>, k: Key)
    requires Valid(s) && DistinctKeys(stored)
    requires LeaseOf(Pass(Pass(s, stored), stored)) == LeaseOf(Pass(s, stored))
    ensures Get(Pass(Pass(s, stored), stored), k) == Get(Pass(s, stored), k)
  {
    hide Valid, Pass;
    if !IsLeaseKey(k) {
      assert Valid(Pass(s, stored)) by { PassValid(s, stored); }
      PassField(s, stored, k);
      PassField(Pass(s, stored), stored, k);
    }
  }

  /** The map holds the value of every field. */
  ghost predicate Stores(stored: seq<Entry>, s: Settings) {
    forall k: Key :: !k.OtherKey? ==> Lookup(stored, k) == Some(Get(s, k))
  }

  lemma {:induction false} StoredFieldTaken(t: Settings, stored: seq<Entry>, s: Settings, k: Key)
    requires Valid(t) && Valid(s) && DistinctKeys(stored) && Stores(stored, s) && !IsLeaseKey(k) && !k.OtherKey?
    ensures Get(Pass(t, stored), k) == Get(s, k)
  {
    hide Valid, OwnValid, Get, Pass, Lookup, DistinctKeys;
    PassField(t, stored, k);
    ValidFields(s, k);
  }

  /** Valid settings load back unchanged, in whatever order their keys are stored and
      whatever else is stored beside them. */
  lemma {:induction false} SavedLoadsBack(theme: string, s: Settings, stored: seq<Entry>)
    requires Valid(s) && DistinctKeys(stored) && Stores(stored, s)
    ensures Loaded(theme, stored) == s
  {
    hide Valid, Default, DistinctKeys, OwnValid, Pass, LeasePass, LeaseEntries, Lookup;
    LoadedLease(theme, stored);
    SavedLeaseLoads(s, stored);
    var one := Pass(Default(theme), stored);
    forall k: Key ensures Get(Loaded(theme, stored), k) == Get(s, k) {
      if !IsLeaseKey(k) && !k.OtherKey? {
        StoredFieldTaken(one, stored, s, k);
      }
    }
    SameFields(Loaded(theme, stored), s);
  }

  lemma {:induction false} SavedLeaseLoads(s: Settings, stored: seq<Entry>)
    requires Valid(s) && DistinctKeys(stored) && Stores(stored, s)
    ensures var l := LeaseEntries(stored); LeasePass(LeasePass(DEFAULT_LEASE, l), l) == LeaseOf(s)
  {
    hide Valid, DistinctKeys, LeasePass, LeaseEntries, Lookup, OwnValid;
    LeaseSettles(stored);
    ValidFields(s, IdleKey);
    assert Lookup(stored, IdleKey) == Some(Get(s, IdleKey));
    assert Lookup(stored, MaximumKey) == Some(Get(s, MaximumKey));
  }

  lemma {:induction false} BothLeaseEntries(idle: nat, maximum: nat)
    ensures LeaseEntries([Idle(idle), Maximum(maximum)]) == [Idle(idle), Maximum(maximum)]
  {
    var stored := [Idle(idle), Maximum(maximum)];
    assert stored[..1] == [Idle(idle)] && [Idle(idle)][..0] == [];
    assert LeaseEntries([Idle(idle)]) == LeaseEntries([]) + [Idle(idle)];
    assert LeaseEntries(stored) == LeaseEntries([Idle(idle)]) + [Maximum(maximum)];
  }

  /** One pass is not enough: with the idle timeout first, ten hours is refused against the
      default maximum of eight and only taken once twelve hours have been. */
  lemma {:induction false} OnePassIsNotEnough(theme: string)
    ensures var stored := [Idle(36_000), Maximum(43_200)];
            && DistinctKeys(stored)
            && LeaseOf(Pass(Default(theme), stored)) == Lease(300, 43_200)
            && LeaseOf(Loaded(theme, stored)) == Lease(36_000, 43_200)
  {
    hide Valid, Default, Pass, LeasePass, LeaseEntries;
    var stored := [Idle(36_000), Maximum(43_200)];
    BothLeaseEntries(36_000, 43_200);
    LoadedLease(theme, stored);
    PassTwo(DEFAULT_LEASE, stored[0], stored[1]);
    PassTwo(Lease(300, 43_200), stored[0], stored[1]);
  }

  /** What is repaired: a field is its stored value when that is acceptable by itself, and
      the default otherwise. */
  lemma {:induction false} LoadedField(theme: string, stored: seq<Entry>, k: Key)
    requires DistinctKeys(stored) && !IsLeaseKey(k)
    ensures var e := Lookup(stored, k);
            Get(Loaded(theme, stored), k) == if e.Some? && OwnValid(e.value) then e.value else Get(Default(theme), k)
  {
    var start := Default(theme);
    assert Valid(start);
    hide Valid, Default;
    PassValid(start, stored);
    PassField(start, stored, k);
    PassField(Pass(start, stored), stored, k);
  }

  // ---- The limits ----

  lemma {:induction false} LookupAt(stored: seq<Entry>, i: nat)
    requires DistinctKeys(stored) && i < |stored|
    ensures Lookup(stored, KeyOf(stored[i])) == Some(stored[i])
    decreases |stored|
  {
    hide KeyOf;
    if i < |stored| - 1 {
      LookupAt(stored[..|stored| - 1], i);
    }
  }

  /** Which values are taken, and what stands in for the others. */
  predicate Repaired(e: Entry, s: Settings) {
    match e
    case DeviceName(None) => s.deviceName == None
    case DeviceName(Some(name)) =>
      var fits := Trim(name) != "" && Width(name) <= 80 && forall c :: c in name ==> !IsControl(c);
      s.deviceName == if fits then Some(name) else None
    case Theme(theme) => s.theme == theme
    case UiScale(scale) => s.uiScale == if 80 <= scale <= 200 then scale else 100
    case TextSize(None) => s.textSize == None
    case TextSize(Some(size)) => s.textSize == if 12 <= size <= 24 then Some(size) else None
    case Font(None) => s.font == None
    case Font(Some(font)) => s.font == if Trim(font) != "" then Some(font) else None
    case ReducedMotion(on) => s.reducedMotion == on
    case WebsiteIcons(on) => s.websiteIcons == on
    case CrashReports(on) => s.crashReports == on
    case GeneratorOptions(g) =>
      s.generator == if 8 <= g.length <= 64 && g.words in {12, 15, 18, 21, 24} then g
                     else Generator(Words, 20, 12, true, true)
    case Window(None) => s.window == None
    case Window(Some(p)) =>
      var fits := p.x.Finite? && p.y.Finite? && p.width.Finite? && p.height.Finite?
                  && p.width.value > 0.0 && p.height.value > 0.0;
      s.window == if fits then Some(p) else None
    case Page(page) => s.page == page
    case _ => true
  }

  lemma {:induction false} RepairedField(theme: string, e: Entry, s: Settings)
    requires !IsLease(e) && !e.Unusable?
    requires Get(s, KeyOf(e)) == if OwnValid(e) then e else Get(Default(theme), KeyOf(e))
    ensures Repaired(e, s)
  {
    hide Trim, Width, IsControl;
  }

  /** Every stored value is taken as it is within its limits, and its default is kept outside them. */
  lemma {:induction false} StoredValue(theme: string, stored: seq<Entry>, i: nat)
    requires DistinctKeys(stored) && i < |stored|
    ensures Repaired(stored[i], Loaded(theme, stored))
  {
    hide Loaded, DistinctKeys, Lookup, OwnValid, Get, Default;
    if !IsLease(stored[i]) && !stored[i].Unusable? {
      LookupAt(stored, i);
      LoadedField(theme, stored, KeyOf(stored[i]));
      RepairedField(theme, stored[i], Loaded(theme, stored));
    }
  }

  /** A key that is not stored has its default. */
  lemma {:induction false} MissingValue(theme: string, stored: seq<Entry>, k: Key)
    requires DistinctKeys(stored) && !IsLeaseKey(k) && forall i :: 0 <= i < |stored| ==> KeyOf(stored[i]) != k
    ensures Get(Loaded(theme, stored), k)
            == Get(Settings(None, theme, 100, None, None, false, true, true, 300, 28_800,
                            Generator(Words, 20, 12, true, true), None, None), k)
  {
    hide Loaded, OwnValid;
    LookupKey(stored, k);
    LoadedField(theme, stored, k);
  }

  /** A part of the lease that is stored alone is held against the default of the other part. */
  lemma {:induction false} LoneLeasePart(theme: string, stored: seq<Entry>, e: Entry)
    requires LeaseEntries(stored) == [e]
    ensures var lease := LeaseOf(Loaded(theme, stored));
            && (e.Idle? ==> lease == Lease(if 0 < e.seconds <= 28_800 then e.seconds else 300, 28_800))
            && (e.Maximum? ==> lease == Lease(300, if e.seconds >= 300 then e.seconds else 28_800))
  {
    LoadedLease(theme, stored);
    hide Loaded, LeaseOf, LeasePass, LeaseEntries;
    PassOne(DEFAULT_LEASE, e);
    PassOne(LeaseTaken(DEFAULT_LEASE, e), e);
  }

  /** A stored pair is taken whenever the idle time is not nought and not above the maximum. */
  lemma {:induction false} LeasePairTaken(theme: string, stored: seq<Entry>, i: nat, j: nat)
    requires DistinctKeys(stored) && i < |stored| && j < |stored| && stored[i].Idle? && stored[j].Maximum?
    requires 0 < stored[i].seconds <= stored[j].seconds
    ensures LeaseOf(Loaded(theme, stored)) == Lease(stored[i].seconds, stored[j].seconds)
  {
    hide Loaded, LeaseOf, LeasePass, LeaseEntries, DistinctKeys, Lookup;
    LookupAt(stored, i);
    LookupAt(stored, j);
    LeaseSettles(stored);
    LoadedLease(theme, stored);
  }
}
