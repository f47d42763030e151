// compiler/src/ir/ir_differential_lowering.c and the serializer queries of compiler/src/chip_data.c.
module Serializers {
  import opened Text
  import ClockVariants

  // ---- The chip's output serializers ----

  datatype Clocks = Clocks(fclk: bool, pclk: bool, reset: bool)

  datatype Serializer = Serializer(ratio: int, clocks: Clocks, maps: seq<ClockVariants.MapEntry>)

  /** has_output_serializer and the serializers, in the order of the chip file. */
  datatype Chip = Chip(hasOutput: bool, serializers: seq<Serializer>)

  /** The entry the queries settle on: the first one with the least ratio that is at least width. */
  function Best(sers: seq<Serializer>, width: int): (r: Option<nat>)
    ensures r.Some? ==> r.value < |sers|
  {
    if sers == [] then None
    else
      var n := |sers| - 1;
      var earlier := Best(sers[..n], width);
      if sers[n].ratio >= width && (earlier.None? || sers[n].ratio < sers[earlier.value].ratio) then Some(n)
      else earlier
  }

  predicate Suffices(s: Serializer, width: int) { s.ratio >= width }

  predicate IsFirstLeast(sers: seq<Serializer>, width: int, k: nat) {
    && k < |sers|
    && Suffices(sers[k], width)
    && (forall j :: 0 <= j < |sers| && Suffices(sers[j], width) ==> sers[k].ratio <= sers[j].ratio)
    && (forall j :: 0 <= j < k && Suffices(sers[j], width) ==> sers[k].ratio < sers[j].ratio)
  }

  /** Best is None exactly when no ratio suffices, and otherwise the first least sufficient entry. */
  lemma {:induction false} BestIsFirstLeast(sers: seq<Serializer>, width: int)
    ensures Best(sers, width).None? <==> forall j :: 0 <= j < |sers| ==> !Suffices(sers[j], width)
    ensures forall k: nat :: Best(sers, width) == Some(k) <==> IsFirstLeast(sers, width, k)
  {
    if sers != [] {
      var front := sers[..|sers| - 1];
      BestIsFirstLeast(front, width);
      var e := Best(front, width);
      assert e.Some? ==> IsFirstLeast(front, width, e.value);
      var b := Best(sers, width);
      assert b.Some? ==> IsFirstLeast(sers, width, b.value);
    }
  }

  /** The ratio of an optional entry, 0 when there is none. */
  function RatioOf(sers: seq<Serializer>, k: Option<nat>): int
    requires k.Some? ==> k.value < |sers|
  {
    if k.Some? then sers[k.value].ratio else 0
  }

  /** The entry for a width, if the chip has output serializers and the width is positive. */
  function Chosen(chip: Chip, width: int): (r: Option<nat>)
    ensures r.Some? ==> r.value < |chip.serializers|
  {
    if chip.hasOutput && width > 0 then Best(chip.serializers, width) else None
  }

  /** The chip has output serializers, the width is positive, and entry k is the first with the least ratio
      of at least the width. */
  predicate Serves(chip: Chip, width: int, k: nat) {
    && chip.hasOutput && width > 0 && k < |chip.serializers| && chip.serializers[k].ratio >= width
    && (forall j :: 0 <= j < k && chip.serializers[j].ratio >= width ==>
          chip.serializers[k].ratio < chip.serializers[j].ratio)
    && (forall j :: k < j < |chip.serializers| && chip.serializers[j].ratio >= width ==>
          chip.serializers[k].ratio <= chip.serializers[j].ratio)
  }

  predicate Unserved(chip: Chip, width: int) {
    !chip.hasOutput || width <= 0 || forall s <- chip.serializers :: s.ratio < width
  }

  lemma ChosenServes(chip: Chip, width: int)
    ensures if Unserved(chip, width) then Chosen(chip, width) == None
            else Chosen(chip, width).Some? && Serves(chip, width, Chosen(chip, width).value)
  {
    var sers := chip.serializers;
    BestIsFirstLeast(sers, width);
    if chip.hasOutput && width > 0 {
      var best := Best(sers, width);
      if best.Some? {
        assert IsFirstLeast(sers, width, best.value);
        assert sers[best.value] in sers;
        forall j | best.value < j < |sers| && sers[j].ratio >= width ensures sers[best.value].ratio <= sers[j].ratio {
          assert Suffices(sers[j], width);
        }
        forall j | 0 <= j < best.value && sers[j].ratio >= width ensures sers[best.value].ratio < sers[j].ratio {
          assert Suffices(sers[j], width);
        }
      } else {
        forall s <- sers ensures s.ratio < width {
          var j :| 0 <= j < |sers| && sers[j] == s;
          assert !Suffices(sers[j], width);
        }
      }
    }
  }

  /** jz_chip_diff_best_serializer_ratio. */
  method BestRatio(chip: Chip, width: int) returns (best: int)
    ensures best == RatioOf(chip.serializers, Chosen(chip, width))
    ensures if Unserved(chip, width) then best == 0
            else exists k: nat :: Serves(chip, width, k) && best == chip.serializers[k].ratio
  {
    ChosenServes(chip, width);
    hide Serves, Unserved;
    if !chip.hasOutput || width <= 0 {
      return 0;
    }
    var sers := chip.serializers;
    best := 0;
    for i := 0 to |sers|
      invariant best == RatioOf(sers[..i], Best(sers[..i], width)) && (best == 0 <==> Best(sers[..i], width).None?)
      invariant best != 0 ==> best >= width
    {
      assert sers[..i + 1][..i] == sers[..i];
      if sers[i].ratio >= width {
        if best == 0 || sers[i].ratio < best {
          best := sers[i].ratio;
        }
      }
    }
    assert sers[..|sers|] == sers;
  }

  /** The loop shared by jz_chip_diff_best_serializer_map and jz_chip_diff_serializer_required_clocks. */
  method BestEntry(sers: seq<Serializer>, width: int) returns (best: Option<nat>)
    ensures best == Best(sers, width)
  {
    best := None;
    for i := 0 to |sers|
      invariant best == Best(sers[..i], width)
    {
      assert sers[..i + 1][..i] == sers[..i];
      if sers[i].ratio >= width {
        if best.None? || sers[i].ratio < sers[best.value].ratio {
          best := Some(i);
        }
      }
    }
    assert sers[..|sers|] == sers;
  }

  /** jz_chip_diff_best_serializer_map. */
  method BestMap(chip: Chip, width: int, backend: string) returns (template: Option<string>)
    ensures template == match Chosen(chip, width)
                        case None => None
                        case Some(k) => ClockVariants.FindTemplate(chip.serializers[k].maps, backend)
    ensures if Unserved(chip, width) then template == None
            else exists k: nat :: Serves(chip, width, k)
                                  && ClockVariants.IsTemplateFor(chip.serializers[k].maps, backend, template)
  {
    ChosenServes(chip, width);
    hide Serves, Unserved;
    if !chip.hasOutput || width <= 0 {
      return None;
    }
    var best := BestEntry(chip.serializers, width);
    if best.None? {
      return None;
    }
    template := ClockVariants.LookupTemplate(chip.serializers[best.value].maps, backend);
  }

  /** jz_chip_diff_serializer_required_clocks. */
  method RequiredClocks(chip: Chip, width: int) returns (clocks: Option<Clocks>)
    ensures clocks == match Chosen(chip, width)
                      case None => None
                      case Some(k) => Some(chip.serializers[k].clocks)
    ensures if Unserved(chip, width) then clocks == None
            else exists k: nat :: Serves(chip, width, k) && clocks == Some(chip.serializers[k].clocks)
  {
    ChosenServes(chip, width);
    hide Serves, Unserved;
    if !chip.hasOutput || width <= 0 {
      return None;
    }
    var best := BestEntry(chip.serializers, width);
    if best.None? {
      return None;
    }
    return Some(chip.serializers[best.value].clocks);
  }

  /** What the loop of jz_chip_diff_serializer_ratio has found after the given serializers. */
  function Smallest(sers: seq<Serializer>): int {
    if sers == [] then 0
    else
      var n := |sers| - 1;
      var best := Smallest(sers[..n]);
      if best == 0 || sers[n].ratio < best then sers[n].ratio else best
  }

  /** jz_chip_diff_serializer_ratio. */
  method SmallestRatio(chip: Chip) returns (best: int)
    ensures best == if chip.hasOutput then Smallest(chip.serializers) else 0
  {
    if !chip.hasOutput {
      return 0;
    }
    var sers := chip.serializers;
    best := 0;
    for i := 0 to |sers|
      invariant best == Smallest(sers[..i])
    {
      assert sers[..i + 1][..i] == sers[..i];
      if best == 0 || sers[i].ratio < best {
        best := sers[i].ratio;
      }
    }
    assert sers[..|sers|] == sers;
  }

  /** The largest ratio, 0 if none is positive. */
  function Largest(sers: seq<Serializer>): (m: int)
    ensures m >= 0 && forall s <- sers :: s.ratio <= m
    ensures m > 0 ==> exists s <- sers :: s.ratio == m
  {
    if sers == [] then 0
    else
      var n := |sers| - 1;
      var m := Largest(sers[..n]);
      assert sers == sers[..n] + [sers[n]] && sers[n] in sers;
      if sers[n].ratio > m then sers[n].ratio else m
  }

  /** jz_chip_diff_max_serializer_ratio. */
  method MaxRatio(chip: Chip) returns (max: int)
    ensures max == if chip.hasOutput then Largest(chip.serializers) else 0
  {
    max := 0;
    if !chip.hasOutput {
      return;
    }
    var sers := chip.serializers;
    for i := 0 to |sers|
      invariant max == Largest(sers[..i])
    {
      assert sers[..i + 1][..i] == sers[..i];
      if sers[i].ratio > max {
        max := sers[i].ratio;
      }
    }
    assert sers[..|sers|] == sers;
  }

  /** The smallest ratio is usable exactly when no ratio is negative and the last is not 0: a ratio of 0
      resets the search. */
  lemma {:induction false} SmallestIsPositive(sers: seq<Serializer>)
    ensures Smallest(sers) > 0 <==> NoneNegative(sers) && sers != [] && sers[|sers| - 1].ratio > 0
    ensures Smallest(sers) < 0 <==> !NoneNegative(sers)
  {
    if sers != [] {
      var n := |sers| - 1;
      SmallestIsPositive(sers[..n]);
      assert NoneNegative(sers) <==> NoneNegative(sers[..n]) && sers[n].ratio >= 0;
    }
  }

  predicate NoneNegative(sers: seq<Serializer>) {
    forall j :: 0 <= j < |sers| ==> sers[j].ratio >= 0
  }

  lemma {:induction false} SmallestIsListed(sers: seq<Serializer>) returns (j: nat)
    requires Smallest(sers) != 0
    ensures j < |sers| && sers[j].ratio == Smallest(sers)
  {
    var n := |sers| - 1;
    if sers[n].ratio == Smallest(sers) {
      j := n;
    } else {
      j := SmallestIsListed(sers[..n]);
    }
  }

  /** With positive ratios only, it is the smallest. */
  lemma {:induction false} SmallestIsLeast(sers: seq<Serializer>)
    requires forall s <- sers :: s.ratio > 0
    ensures forall s <- sers :: 0 < Smallest(sers) <= s.ratio
  {
    if sers != [] {
      var n := |sers| - 1;
      assert forall s <- sers[..n] :: s in sers;
      SmallestIsLeast(sers[..n]);
      assert sers == sers[..n] + [sers[n]];
      assert n > 0 ==> sers[..n][0] in sers[..n];
      assert sers[n].ratio > 0;
    }
  }

  /** No entry behind j has ratio 0. */
  predicate BehindZeros(sers: seq<Serializer>, j: nat) {
    j < |sers| && forall k :: j < k < |sers| ==> sers[k].ratio != 0
  }

  lemma BehindZerosFront(sers: seq<Serializer>, k: nat)
    requires sers != []
    ensures var n := |sers| - 1;
            k < n ==> (BehindZeros(sers, k) <==> BehindZeros(sers[..n], k) && sers[n].ratio != 0)
  {
    var n := |sers| - 1;
    if k < n && BehindZeros(sers[..n], k) && sers[n].ratio != 0 {
      forall l | k < l < |sers| ensures sers[l].ratio != 0 {
        assert l < n ==> sers[..n][l] == sers[l];
      }
    }
  }

  /** Without negative ratios the search finds the least ratio behind the last 0. */
  lemma {:induction false} SmallestBehindZeros(sers: seq<Serializer>) returns (j: nat)
    requires NoneNegative(sers)
    ensures forall k: nat :: BehindZeros(sers, k) && sers[k].ratio > 0 ==> 0 < Smallest(sers) <= sers[k].ratio
    ensures Smallest(sers) > 0 ==> BehindZeros(sers, j) && sers[j].ratio == Smallest(sers)
  {
    j := 0;
    if sers != [] {
      var n := |sers| - 1;
      var front := sers[..n];
      assert forall k :: 0 <= k < n ==> front[k] == sers[k];
      SmallestIsPositive(front);
      var i := SmallestBehindZeros(front);
      assert NoneNegative(front);
      BehindZerosFront(sers, i);
      forall k: nat | BehindZeros(sers, k) && sers[k].ratio > 0 ensures 0 < Smallest(sers) <= sers[k].ratio {
        BehindZerosFront(sers, k);
        assert k < n ==> front[k] == sers[k];
      }
      j := if sers[n].ratio == Smallest(sers) then n else i;
    }
  }

  predicate IsLeastPositive(sers: seq<Serializer>, m: int) {
    && m > 0
    && (exists j :: 0 <= j < |sers| && sers[j].ratio == m)
    && forall j :: 0 <= j < |sers| && sers[j].ratio > 0 ==> m <= sers[j].ratio
  }

  /** The search finds the smallest usable ratio exactly when no ratio is negative and that ratio is
      listed behind the last 0. */
  lemma SmallestIsLeastIff(sers: seq<Serializer>, m: int)
    requires IsLeastPositive(sers, m)
    ensures Smallest(sers) == m <==> NoneNegative(sers) && exists j: nat :: BehindZeros(sers, j) && sers[j].ratio == m
  {
    SmallestIsPositive(sers);
    if NoneNegative(sers) {
      var j := SmallestBehindZeros(sers);
    }
  }

  /** A trailing ratio of 0 hides every serializer. */
  lemma TrailingZeroHides(s: Serializer, zero: Serializer)
    requires s.ratio == 4 && zero.ratio == 0
    ensures Smallest([s, zero]) == 0 && Best([s, zero], 4) == Some(0)
  {
    assert [s, zero][..1] == [s];
    assert [s][..0] == [];
    assert Smallest([s]) == 4;
  }

  /** Asking again for the ratio that was chosen chooses the same entry: the back ends look the template up
      by the lowered ratio, the semantic pass looks the clocks up by the data width. */
  lemma BestIsStable(sers: seq<Serializer>, width: int)
    requires Best(sers, width).Some?
    ensures Best(sers, RatioOf(sers, Best(sers, width))) == Best(sers, width)
  {
    var k := Best(sers, width).value;
    BestIsFirstLeast(sers, width);
    BestIsFirstLeast(sers, sers[k].ratio);
    assert IsFirstLeast(sers, width, k);
    assert IsFirstLeast(sers, sers[k].ratio, k);
  }

  // ---- The design ----

  datatype PinKind = PinIn | PinOut | PinInout

  datatype PinMode = Single | Differential

  datatype Mapping = Mapping(logicalName: Option<string>, boardPinN: Option<string>)

  datatype Signal = Signal(id: int, width: int)

  datatype TopBinding = TopBinding(pinId: int, pinBit: int, signalId: int)

  /** The project: its mappings and bindings, the signals of the top module if that resolves, and the chip
      data if they could be loaded. */
  datatype Project = Project(
    mappings: seq<Mapping>, bindings: seq<TopBinding>, top: Option<seq<Signal>>, chip: Option<Chip>)

  /** IR_Pin, with the four fields the pass writes. */
  class Pin {
    const name: Option<string>
    const kind: PinKind
    const width: int
    const mode: PinMode
    const fclk: Option<string>
    const pclk: Option<string>
    const serWidth: int
    var usesSerializer: bool
    var dataWidth: int
    var ratio: int
    var surplus: int

    constructor (name: Option<string>, kind: PinKind, width: int, mode: PinMode, fclk: Option<string>,
                 pclk: Option<string>, serWidth: int)
      ensures this.name == name && this.kind == kind && this.width == width && this.mode == mode
      ensures this.fclk == fclk && this.pclk == pclk && this.serWidth == serWidth
    {
      this.name, this.kind, this.width, this.mode := name, kind, width, mode;
      this.fclk, this.pclk, this.serWidth := fclk, pclk, serWidth;
      usesSerializer, dataWidth, ratio, surplus := false, 0, 0, 0;
    }
  }

  datatype Finding =
    | WidthExceedsRatio(dataWidth: int, maxRatio: int)
    | SerializerCascade(ratio: int, dataWidth: int)

  datatype Report = Report(pin: nat, bit: nat, finding: Finding)

  class Reports {
    var list: seq<Report>

    constructor ()
      ensures list == []
    {
      list := [];
    }

    method Add(r: Report)
      modifies this
      ensures list == old(list) + [r]
    {
      list := list + [r];
    }
  }

  predicate NonEmpty(s: Option<string>) { s.Some? && s.value != "" }

  predicate MapsNegative(m: Mapping, name: Option<string>) {
    m.logicalName.Some? && m.logicalName == name && NonEmpty(m.boardPinN)
  }

  predicate HasDiffMapping(project: Project, pin: Pin) {
    pin.mode.Differential? && exists m <- project.mappings :: MapsNegative(m, pin.name)
  }

  /** pin_has_diff_mapping. */
  method TestDiffMapping(project: Project, pin: Pin) returns (r: bool)
    ensures r == HasDiffMapping(project, pin)
  {
    if !pin.mode.Differential? {
      return false;
    }
    for i := 0 to |project.mappings|
      invariant forall j :: 0 <= j < i ==> !MapsNegative(project.mappings[j], pin.name)
    {
      var m := project.mappings[i];
      if m.logicalName.Some? && pin.name.Some? && m.logicalName.value == pin.name.value && NonEmpty(m.boardPinN) {
        assert MapsNegative(m, pin.name);
        return true;
      }
    }
    return false;
  }

  /** pin_needs_output_serializer. */
  predicate NeedsSerializer(pin: Pin) {
    pin.kind.PinOut? && (NonEmpty(pin.fclk) || NonEmpty(pin.pclk))
  }

  function SignalWidth(signals: seq<Signal>, id: int): Option<int> {
    if signals == [] then None
    else if signals[0].id == id then Some(signals[0].width)
    else SignalWidth(signals[1..], id)
  }

  /** The width of the signal of the first binding of a pin bit that leads to a signal. */
  function BoundWidth(bindings: seq<TopBinding>, signals: seq<Signal>, pin: int, bit: int): Option<int> {
    if bindings == [] then None
    else
      var b := bindings[0];
      var width := SignalWidth(signals, b.signalId);
      if b.pinId == pin && b.pinBit == bit && width.Some? then width
      else BoundWidth(bindings[1..], signals, pin, bit)
  }

  /** A binding of the bit itself comes before a binding of the whole pin; without either the width is 0. */
  function WidthForPin(project: Project, pin: int, bit: int): int {
    if project.top.None? then 0
    else match BoundWidth(project.bindings, project.top.value, pin, bit)
      case Some(w) => w
      case None =>
        match BoundWidth(project.bindings, project.top.value, pin, -1)
        case Some(w) => w
        case None => 0
  }

  /** One of the two passes over the bindings. */
  method ScanBindings(bindings: seq<TopBinding>, signals: seq<Signal>, pin: int, bit: int) returns (r: Option<int>)
    ensures r == BoundWidth(bindings, signals, pin, bit)
  {
    assert bindings[0..] == bindings && signals[0..] == signals;
    for t := 0 to |bindings|
      invariant BoundWidth(bindings, signals, pin, bit) == BoundWidth(bindings[t..], signals, pin, bit)
    {
      var tb := bindings[t];
      assert bindings[t..][1..] == bindings[t + 1..];
      if tb.pinId == pin && tb.pinBit == bit {
        for s := 0 to |signals|
          invariant SignalWidth(signals, tb.signalId) == SignalWidth(signals[s..], tb.signalId)
        {
          assert signals[s..][1..] == signals[s + 1..];
          if signals[s].id == tb.signalId {
            return Some(signals[s].width);
          }
        }
      }
    }
    return None;
  }

  /** find_signal_width_for_pin. */
  method FindSignalWidth(project: Project, pin: int, bit: int) returns (width: int)
    ensures width == WidthForPin(project, pin, bit)
  {
    if project.top.None? {
      return 0;
    }
    var exact := ScanBindings(project.bindings, project.top.value, pin, bit);
    if exact.Some? {
      return exact.value;
    }
    var whole := ScanBindings(project.bindings, project.top.value, pin, -1);
    return if whole.Some? then whole.value else 0;
  }

  // ---- What the pass decides for a pin ----

  datatype Lowering = Plain | Serialized(width: int, ratio: int) | TooWide(width: int)

  function SmallestOf(project: Project): int {
    if project.chip.Some? && project.chip.value.hasOutput then Smallest(project.chip.value.serializers) else 0
  }

  /** The pin is a mapped differential output with serializer clocks on a chip with serializers. */
  predicate Serializes(project: Project, pin: Pin) {
    HasDiffMapping(project, pin) && NeedsSerializer(pin) && SmallestOf(project) > 0
  }

  /** The declared width, else the width of the bound signal, else the smallest ratio. */
  function DataWidth(project: Project, pin: Pin, i: nat): int {
    var width := if pin.serWidth > 0 then pin.serWidth else WidthForPin(project, i, 0);
    if width <= 0 then SmallestOf(project) else width
  }

  function Plan(project: Project, pin: Pin, i: nat): Lowering {
    if !Serializes(project, pin) then Plain
    else
      var sers, width := project.chip.value.serializers, DataWidth(project, pin, i);
      var best := Best(sers, width);
      if best.None? then TooWide(width) else Serialized(width, sers[best.value].ratio)
  }

  /** All four fields zero, or ratio = data width + surplus. */
  ghost predicate Carries(pin: Pin, plan: Lowering)
    reads pin
  {
    match plan
    case Serialized(width, ratio) =>
      pin.usesSerializer && pin.dataWidth == width && pin.ratio == ratio && pin.surplus == ratio - width
    case _ =>
      !pin.usesSerializer && pin.dataWidth == 0 && pin.ratio == 0 && pin.surplus == 0
  }

  /** One report per bit of the pin. */
  function PerBit(i: nat, width: int, finding: Finding): seq<Report> {
    if width <= 0 then [] else PerBit(i, width - 1, finding) + [Report(i, width - 1, finding)]
  }

  lemma {:induction false} PerBitIs(i: nat, width: int, finding: Finding)
    ensures |PerBit(i, width, finding)| == if width > 0 then width else 0
    ensures forall b :: 0 <= b < width ==> PerBit(i, width, finding)[b] == Report(i, b, finding)
  {
    if width > 0 {
      PerBitIs(i, width - 1, finding);
    }
  }

  /** An error for every bit that cannot be serialized, a note for every bit with surplus lanes. */
  function PlanReports(project: Project, pin: Pin, i: nat): seq<Report> {
    match Plan(project, pin, i)
    case Plain => []
    case TooWide(width) => PerBit(i, pin.width, WidthExceedsRatio(width, Largest(project.chip.value.serializers)))
    case Serialized(width, ratio) =>
      if ratio == width then [] else PerBit(i, pin.width, SerializerCascade(ratio, width))
  }

  function AllReports(project: Project, pins: seq<Pin>): seq<Report> {
    if pins == [] then []
    else
      var n := |pins| - 1;
      AllReports(project, pins[..n]) + PlanReports(project, pins[n], n)
  }

  // ---- The decision in terms of the fields ----

  /** Binding t is the first of the pin bit whose signal the top module has, and that signal, the first of
      its number, is w bits wide. */
  predicate LeadsTo(bindings: seq<TopBinding>, signals: seq<Signal>, t: nat, pin: int, bit: int, w: int)
    requires t < |bindings|
  {
    && bindings[t].pinId == pin && bindings[t].pinBit == bit
    && IsSignalWidth(signals, bindings[t].signalId, w)
    && forall u :: 0 <= u < t && bindings[u].pinId == pin && bindings[u].pinBit == bit ==>
                     forall k :: 0 <= k < |signals| ==> signals[k].id != bindings[u].signalId
  }

  predicate IsSignalWidth(signals: seq<Signal>, id: int, w: int) {
    exists k :: 0 <= k < |signals| && signals[k].id == id && signals[k].width == w
                && forall l :: 0 <= l < k ==> signals[l].id != id
  }

  predicate IsBound(project: Project, pin: int, bit: int, w: int) {
    project.top.Some? && exists t :: 0 <= t < |project.bindings|
                                     && LeadsTo(project.bindings, project.top.value, t, pin, bit, w)
  }

  predicate IsUnbound(project: Project, pin: int, bit: int) {
    project.top.Some? ==>
      forall b <- project.bindings :: b.pinId == pin && b.pinBit == bit ==>
                                        forall g <- project.top.value :: g.id != b.signalId
  }

  /** w is the width of the signal bound to bit 0, else of the one bound to the whole pin, else 0. */
  predicate IsBoundWidth(project: Project, pin: int, w: int) {
    || IsBound(project, pin, 0, w)
    || (IsUnbound(project, pin, 0) && IsBound(project, pin, -1, w))
    || (IsUnbound(project, pin, 0) && IsUnbound(project, pin, -1) && w == 0)
  }

  lemma {:induction false} SignalWidthIs(signals: seq<Signal>, id: int)
    ensures match SignalWidth(signals, id)
            case Some(w) => IsSignalWidth(signals, id, w)
            case None => forall k :: 0 <= k < |signals| ==> signals[k].id != id
  {
    if signals != [] && signals[0].id != id {
      var rest := signals[1..];
      SignalWidthIs(rest, id);
      assert forall k :: 0 <= k < |rest| ==> rest[k] == signals[k + 1];
      if SignalWidth(rest, id).Some? {
        var k :| 0 <= k < |rest| && rest[k].id == id && rest[k].width == SignalWidth(rest, id).value
                 && forall l :: 0 <= l < k ==> rest[l].id != id;
        forall l | 0 <= l < k + 1 ensures signals[l].id != id {
          assert l > 0 ==> signals[l] == rest[l - 1];
        }
        assert signals[k + 1] == rest[k];
      }
    }
  }

  lemma {:induction false} BoundWidthIs(bindings: seq<TopBinding>, signals: seq<Signal>, pin: int, bit: int)
    ensures match BoundWidth(bindings, signals, pin, bit)
            case Some(w) => exists t :: 0 <= t < |bindings| && LeadsTo(bindings, signals, t, pin, bit, w)
            case None =>
              forall t :: 0 <= t < |bindings| && bindings[t].pinId == pin && bindings[t].pinBit == bit ==>
                            forall k :: 0 <= k < |signals| ==> signals[k].id != bindings[t].signalId
  {
    hide SignalWidth, IsSignalWidth;
    if bindings != [] {
      var b := bindings[0];
      SignalWidthIs(signals, b.signalId);
      if b.pinId == pin && b.pinBit == bit && SignalWidth(signals, b.signalId).Some? {
        var first, w := 0, SignalWidth(signals, b.signalId).value;
        assert first < |bindings| && LeadsTo(bindings, signals, first, pin, bit, w);
        assert BoundWidth(bindings, signals, pin, bit) == Some(w);
      } else {
        var rest := bindings[1..];
        BoundWidthIs(rest, signals, pin, bit);
        assert forall t :: 0 <= t < |rest| ==> rest[t] == bindings[t + 1];
        if BoundWidth(rest, signals, pin, bit).Some? {
          var w := BoundWidth(rest, signals, pin, bit).value;
          var t :| 0 <= t < |rest| && LeadsTo(rest, signals, t, pin, bit, w);
          LeadsFurther(bindings, signals, t, pin, bit, w);
          var next := t + 1;
          assert next < |bindings| && LeadsTo(bindings, signals, next, pin, bit, w);
          assert BoundWidth(bindings, signals, pin, bit) == Some(w);
        }
      }
    }
  }

  lemma LeadsFurther(bindings: seq<TopBinding>, signals: seq<Signal>, t: nat, pin: int, bit: int, w: int)
    requires t + 1 < |bindings| && LeadsTo(bindings[1..], signals, t, pin, bit, w)
    requires bindings[0].pinId == pin && bindings[0].pinBit == bit ==>
               forall k :: 0 <= k < |signals| ==> signals[k].id != bindings[0].signalId
    ensures LeadsTo(bindings, signals, t + 1, pin, bit, w)
  {
    hide IsSignalWidth;
    var rest := bindings[1..];
    assert bindings[t + 1] == rest[t];
    forall u | 0 <= u < t + 1 && bindings[u].pinId == pin && bindings[u].pinBit == bit
      ensures forall k :: 0 <= k < |signals| ==> signals[k].id != bindings[u].signalId
    {
      assert u > 0 ==> bindings[u] == rest[u - 1];
    }
  }

  lemma WidthForPinIs(project: Project, pin: int)
    ensures IsBoundWidth(project, pin, WidthForPin(project, pin, 0))
  {
    hide LeadsTo;
    if project.top.Some? {
      BoundWidthIs(project.bindings, project.top.value, pin, 0);
      BoundWidthIs(project.bindings, project.top.value, pin, -1);
    }
  }

  lemma SignalWidthUnique(signals: seq<Signal>, id: int, v: int, w: int)
    requires IsSignalWidth(signals, id, v) && IsSignalWidth(signals, id, w)
    ensures v == w
  {
    var k :| 0 <= k < |signals| && signals[k].id == id && signals[k].width == v
             && forall l :: 0 <= l < k ==> signals[l].id != id;
    var j :| 0 <= j < |signals| && signals[j].id == id && signals[j].width == w
             && forall l :: 0 <= l < j ==> signals[l].id != id;
    assert !(k < j) && !(j < k);
  }

  lemma SignalWidthSeen(signals: seq<Signal>, id: int, w: int)
    requires IsSignalWidth(signals, id, w)
    ensures exists k :: 0 <= k < |signals| && signals[k].id == id
  {
  }

  lemma BoundUnique(project: Project, pin: int, bit: int, v: int, w: int)
    requires IsBound(project, pin, bit, v)
    ensures IsBound(project, pin, bit, w) ==> v == w
    ensures !IsUnbound(project, pin, bit)
  {
    hide IsSignalWidth;
    var bindings, signals := project.bindings, project.top.value;
    var t :| 0 <= t < |bindings| && LeadsTo(bindings, signals, t, pin, bit, v);
    SignalWidthSeen(signals, bindings[t].signalId, v);
    if IsBound(project, pin, bit, w) {
      var u :| 0 <= u < |bindings| && LeadsTo(bindings, signals, u, pin, bit, w);
      SignalWidthSeen(signals, bindings[u].signalId, w);
      assert !(t < u) && !(u < t);
      SignalWidthUnique(signals, bindings[t].signalId, v, w);
    }
  }

  lemma BoundWidthUnique(project: Project, pin: int, v: int, w: int)
    requires IsBoundWidth(project, pin, v) && IsBoundWidth(project, pin, w)
    ensures v == w
  {
    hide IsBound, IsUnbound;
    if IsBound(project, pin, 0, v) {
      BoundUnique(project, pin, 0, v, w);
    } else if IsBound(project, pin, 0, w) {
      BoundUnique(project, pin, 0, w, v);
    } else if IsBound(project, pin, -1, v) {
      BoundUnique(project, pin, -1, v, w);
    } else if IsBound(project, pin, -1, w) {
      BoundUnique(project, pin, -1, w, v);
    }
  }

  /** The declared width if that is positive, else the bound width if that is, else the smallest ratio. */
  ghost predicate IsDataWidth(project: Project, pin: Pin, i: nat, w: int) {
    if pin.serWidth > 0 then w == pin.serWidth
    else
      || (w > 0 && IsBoundWidth(project, i, w))
      || (project.chip.Some? && w == Smallest(project.chip.value.serializers)
          && exists v :: v <= 0 && IsBoundWidth(project, i, v))
  }

  /** A differential output with a serializer clock and a mapped negative side, on a loaded chip with output
      serializers and a positive smallest ratio. */
  predicate WantsSerializer(project: Project, pin: Pin) {
    && pin.mode.Differential?
    && pin.kind.PinOut?
    && ((pin.fclk.Some? && pin.fclk.value != "") || (pin.pclk.Some? && pin.pclk.value != ""))
    && pin.name.Some?
    && (exists m <- project.mappings ::
          m.logicalName == pin.name && m.boardPinN.Some? && m.boardPinN.value != "")
    && project.chip.Some? && project.chip.value.hasOutput && Smallest(project.chip.value.serializers) > 0
  }

  lemma SerializesIff(project: Project, pin: Pin)
    ensures Serializes(project, pin) <==> WantsSerializer(project, pin)
  {
    hide Smallest;
    if WantsSerializer(project, pin) {
      var m :| m in project.mappings && m.logicalName == pin.name && m.boardPinN.Some? && m.boardPinN.value != "";
      assert MapsNegative(m, pin.name);
    }
  }

  lemma DataWidthIs(project: Project, pin: Pin, i: nat)
    requires Serializes(project, pin)
    ensures IsDataWidth(project, pin, i, DataWidth(project, pin, i))
  {
    hide IsBoundWidth, Smallest, WidthForPin, HasDiffMapping, NeedsSerializer;
    WidthForPinIs(project, i);
  }

  /** What the pass leaves in a pin, from the fields of pin, project and chip: it uses a serializer exactly
      when it wants one and some ratio is at least its data width; it then has that width and the least such
      ratio, and otherwise nothing. */
  ghost predicate LoweredRight(project: Project, pin: Pin, i: nat)
    reads pin
  {
    && (pin.usesSerializer <==>
          WantsSerializer(project, pin)
          && exists w, s <- project.chip.value.serializers :: IsDataWidth(project, pin, i, w) && s.ratio >= w)
    && (pin.usesSerializer ==>
          && IsDataWidth(project, pin, i, pin.dataWidth)
          && pin.dataWidth <= pin.ratio == pin.dataWidth + pin.surplus
          && (exists s <- project.chip.value.serializers :: s.ratio == pin.ratio)
          && forall s <- project.chip.value.serializers :: s.ratio >= pin.dataWidth ==> s.ratio >= pin.ratio)
    && (!pin.usesSerializer ==> pin.dataWidth == 0 && pin.ratio == 0 && pin.surplus == 0)
  }

  lemma DataWidthUnique(project: Project, pin: Pin, i: nat, v: int, w: int)
    requires IsDataWidth(project, pin, i, v) && IsDataWidth(project, pin, i, w)
    ensures v == w
  {
    hide IsBoundWidth, Smallest;
    if pin.serWidth <= 0 {
      var b := BoundOf(project, pin, i, v);
      var c := BoundOf(project, pin, i, w);
      BoundWidthUnique(project, i, b, c);
    }
  }

  lemma BoundOf(project: Project, pin: Pin, i: nat, v: int) returns (b: int)
    requires IsDataWidth(project, pin, i, v) && pin.serWidth <= 0
    ensures IsBoundWidth(project, i, b)
    ensures if b > 0 then v == b else project.chip.Some? && v == Smallest(project.chip.value.serializers)
  {
    hide IsBoundWidth, Smallest;
    if v > 0 && IsBoundWidth(project, i, v) {
      b := v;
    } else {
      b :| b <= 0 && IsBoundWidth(project, i, b);
    }
  }

  lemma PlanIsRight(project: Project, pin: Pin, i: nat)
    requires Carries(pin, Plan(project, pin, i))
    ensures LoweredRight(project, pin, i)
    ensures Plan(project, pin, i).TooWide? <==> WantsSerializer(project, pin) && !pin.usesSerializer
  {
    SerializesIff(project, pin);
    hide Smallest, IsDataWidth, WantsSerializer, Serializes, DataWidth, Largest;
    if Serializes(project, pin) {
      ChipIsThere(project, pin);
      var width, sers := DataWidth(project, pin, i), project.chip.value.serializers;
      DataWidthIs(project, pin, i);
      BestIsFirstLeast(sers, width);
      if Best(sers, width).Some? {
        var k := Best(sers, width).value;
        assert IsFirstLeast(sers, width, k);
        assert sers[k] in sers;
        forall s <- sers | s.ratio >= width ensures s.ratio >= sers[k].ratio {
          var j :| 0 <= j < |sers| && sers[j] == s;
          assert Suffices(sers[j], width);
        }
      } else {
        forall w, s <- sers | IsDataWidth(project, pin, i, w) ensures s.ratio < w {
          DataWidthUnique(project, pin, i, width, w);
          var j :| 0 <= j < |sers| && sers[j] == s;
          assert !Suffices(sers[j], width);
        }
      }
    }
  }

  /** What is found about every bit of a lowered pin: surplus lanes of a serializer, or that the data width
      exceeds the largest ratio of the chip. */
  ghost predicate IsFinding(project: Project, pin: Pin, i: nat, f: Finding)
    reads pin
  {
    match f
    case SerializerCascade(ratio, width) =>
      pin.usesSerializer && pin.surplus != 0 && ratio == pin.ratio && width == pin.dataWidth
    case WidthExceedsRatio(width, max) =>
      && WantsSerializer(project, pin) && !pin.usesSerializer && IsDataWidth(project, pin, i, width)
      && (forall s <- project.chip.value.serializers :: s.ratio <= max)
      && exists s <- project.chip.value.serializers :: s.ratio == max
  }

  /** The list holds the findings about the bits of the pins, by rising pin and bit. */
  ghost predicate ReportsFindings(project: Project, pins: seq<Pin>, list: seq<Report>)
    reads pins
  {
    && (forall r :: r in list <==> r.pin < |pins| && r.bit < pins[r.pin].width
                                   && IsFinding(project, pins[r.pin], r.pin, r.finding))
    && Rising(list)
  }

  predicate Rising(list: seq<Report>) {
    forall k, l :: 0 <= k < l < |list| ==>
                     list[k].pin < list[l].pin || (list[k].pin == list[l].pin && list[k].bit < list[l].bit)
  }

  lemma RisingOn(before: seq<Report>, list: seq<Report>, n: nat)
    requires Rising(before) && BitsRise(list)
    requires (forall r <- before :: r.pin < n) && (forall r <- list :: r.pin == n)
    ensures Rising(before + list)
  {
    forall k | 0 <= k < |before| ensures before[k].pin < n { assert before[k] in before; }
    forall k | 0 <= k < |list| ensures list[k].pin == n { assert list[k] in list; }
  }

  predicate BitsRise(list: seq<Report>) {
    forall k, l :: 0 <= k < l < |list| ==> list[k].bit < list[l].bit
  }

  lemma PlanFindings(project: Project, pin: Pin, i: nat)
    requires Carries(pin, Plan(project, pin, i))
    ensures forall r :: r in PlanReports(project, pin, i) <==>
                          r.pin == i && r.bit < pin.width && IsFinding(project, pin, i, r.finding)
    ensures BitsRise(PlanReports(project, pin, i))
  {
    PlanIsRight(project, pin, i);
    match Plan(project, pin, i) {
      case Plain =>
      case TooWide(width) => TooWideFinding(project, pin, i, width);
      case Serialized(width, ratio) => BitReports(i, pin.width, SerializerCascade(ratio, width));
    }
  }

  lemma BitReports(i: nat, width: int, finding: Finding)
    ensures forall r :: r in PerBit(i, width, finding) <==> r.pin == i && r.bit < width && r.finding == finding
    ensures BitsRise(PerBit(i, width, finding))
  {
    PerBitIs(i, width, finding);
    forall r ensures r in PerBit(i, width, finding) <==> r.pin == i && r.bit < width && r.finding == finding {
      if r.pin == i && r.bit < width && r.finding == finding {
        assert PerBit(i, width, finding)[r.bit] == r;
      }
    }
  }

  lemma TooWideFinding(project: Project, pin: Pin, i: nat, width: int)
    requires Plan(project, pin, i) == TooWide(width) && WantsSerializer(project, pin) && !pin.usesSerializer
    ensures var list := PlanReports(project, pin, i);
            && (forall r :: r in list <==> r.pin == i && r.bit < pin.width && IsFinding(project, pin, i, r.finding))
            && BitsRise(list)
  {
    var sers := project.chip.value.serializers;
    BitReports(i, pin.width, WidthExceedsRatio(width, Largest(sers)));
    hide WantsSerializer, IsDataWidth, Smallest, Largest;
    DataWidthIs(project, pin, i);
    SmallestIsRatio(project);
    forall f ensures IsFinding(project, pin, i, f) <==> f == WidthExceedsRatio(width, Largest(sers)) {
      if IsFinding(project, pin, i, f) {
        DataWidthUnique(project, pin, i, width, f.dataWidth);
      }
    }
  }

  lemma SmallestIsRatio(project: Project)
    requires project.chip.Some? && Smallest(project.chip.value.serializers) > 0
    ensures exists s <- project.chip.value.serializers :: s.ratio == Largest(project.chip.value.serializers)
  {
    var j := SmallestIsListed(project.chip.value.serializers);
    assert project.chip.value.serializers[j] in project.chip.value.serializers;
  }

  lemma NothingRises()
    ensures Rising([])
  {
  }

  lemma {:induction false} AllFindings(project: Project, pins: seq<Pin>)
    requires forall i :: 0 <= i < |pins| ==> Carries(pins[i], Plan(project, pins[i], i))
    ensures ReportsFindings(project, pins, AllReports(project, pins))
  {
    hide Plan, PlanReports, Carries, IsFinding, Rising, BitsRise;
    if pins == [] {
      NothingRises();
    } else {
      var n := |pins| - 1;
      var front := pins[..n];
      AllFindings(project, front);
      PlanFindings(project, pins[n], n);
      RisingOn(AllReports(project, front), PlanReports(project, pins[n], n), n);
      forall r: Report | r.pin < n ensures pins[r.pin] == front[r.pin] {}
    }
  }

  lemma ChipIsThere(project: Project, pin: Pin)
    requires Serializes(project, pin)
    ensures project.chip.Some?
  {
  }

  // ---- The pass ----

  method ReportBits(log: Reports?, i: nat, width: int, finding: Finding)
    modifies log
    ensures log != null ==> log.list == old(log.list) + PerBit(i, width, finding)
  {
    var bit := 0;
    while bit < width
      invariant 0 <= bit && (bit <= width || bit == 0)
      invariant log != null ==> log.list == old(log.list) + PerBit(i, bit, finding)
    {
      if log != null {
        log.Add(Report(i, bit, finding));
      }
      bit := bit + 1;
    }
  }

  /** One round of the loop over the pins. */
  method LowerPin(project: Project, pin: Pin, i: nat, hasAny: bool, log: Reports?) returns (failed: bool)
    requires hasAny == (SmallestOf(project) > 0)
    modifies pin, log
    ensures Carries(pin, Plan(project, pin, i)) && failed == Plan(project, pin, i).TooWide?
    ensures log != null ==> log.list == old(log.list) + PlanReports(project, pin, i)
  {
    pin.usesSerializer, pin.dataWidth, pin.ratio, pin.surplus := false, 0, 0, 0;
    var mapped := TestDiffMapping(project, pin);
    if !mapped {
      return false;
    }
    if !NeedsSerializer(pin) || !hasAny {
      return false;
    }
    var chip := project.chip.value;
    var width := pin.serWidth;
    if width <= 0 {
      width := FindSignalWidth(project, i, 0);
    }
    if width <= 0 {
      width := SmallestRatio(chip);
    }
    var ratio := BestRatio(chip, width);
    BestIsFirstLeast(chip.serializers, width);
    if ratio <= 0 {
      var max := MaxRatio(chip);
      ReportBits(log, i, pin.width, WidthExceedsRatio(width, max));
      return true;
    }
    pin.usesSerializer, pin.dataWidth, pin.ratio, pin.surplus := true, width, ratio, ratio - width;
    if ratio != width {
      ReportBits(log, i, pin.width, SerializerCascade(ratio, width));
    }
    return false;
  }

  lemma NoReports(project: Project)
    ensures AllReports(project, []) == []
  {
  }

  lemma NextReports(project: Project, pins: seq<Pin>, i: nat)
    requires i < |pins|
    ensures AllReports(project, pins[..i + 1]) == AllReports(project, pins[..i]) + PlanReports(project, pins[i], i)
  {
    hide PlanReports;
    assert pins[..i + 1][..i] == pins[..i];
  }

  /** jz_ir_differential_lowering: every pin carries what was planned for it, and the result is non-zero
      exactly when some pin is too wide. */
  method Lower(project: Project, pins: seq<Pin>, log: Reports?) returns (rc: int)
    requires forall i, j :: 0 <= i < j < |pins| ==> pins[i] != pins[j]
    modifies pins, log
    ensures forall i :: 0 <= i < |pins| ==> Carries(pins[i], Plan(project, pins[i], i))
    ensures forall i :: 0 <= i < |pins| ==> LoweredRight(project, pins[i], i)
    ensures rc == 0 || rc == 1
    ensures rc == 1 <==> exists i :: 0 <= i < |pins| && Plan(project, pins[i], i).TooWide?
    ensures rc == 1 <==> exists i :: 0 <= i < |pins| && WantsSerializer(project, pins[i]) && !pins[i].usesSerializer
    ensures log != null ==> log.list == old(log.list) + AllReports(project, pins)
    ensures log != null ==> old(log.list) <= log.list
                            && ReportsFindings(project, pins, log.list[|old(log.list)|..])
  {
    hide ReportsFindings;
    hide Plan, PlanReports, Carries, AllReports, LoweredRight, WantsSerializer;
    NoReports(project);
    rc := 0;
    var hasAny := false;
    if project.chip.Some? {
      var smallest := SmallestRatio(project.chip.value);
      hasAny := smallest > 0;
    }
    assert pins[..0] == [];
    for i := 0 to |pins|
      invariant forall j :: 0 <= j < i ==> Carries(pins[j], Plan(project, pins[j], j))
      invariant rc == 0 || rc == 1
      invariant rc == 1 <==> exists j :: 0 <= j < i && Plan(project, pins[j], j).TooWide?
      invariant log != null ==> log.list == old(log.list) + AllReports(project, pins[..i])
    {
      var failed := LowerPin(project, pins[i], i, hasAny, log);
      NextReports(project, pins, i);
      if failed {
        rc := 1;
      }
    }
    assert pins[..|pins|] == pins;
    AllFindings(project, pins);
    forall i | 0 <= i < |pins|
      ensures LoweredRight(project, pins[i], i)
      ensures Plan(project, pins[i], i).TooWide? <==> WantsSerializer(project, pins[i]) && !pins[i].usesSerializer
    {
      PlanIsRight(project, pins[i], i);
    }
  }

  // ---- What a plan means ----

  /** A serialized pin uses the least ratio of the chip that is at least its data width, which the template
      query by ratio and the clock query by data width both settle on. */
  lemma SerializedPin(project: Project, pin: Pin, i: nat)
    requires Plan(project, pin, i).Serialized?
    ensures Serializes(project, pin)
    ensures var Serialized(width, ratio), chip := Plan(project, pin, i), project.chip.value;
            && 0 < width == DataWidth(project, pin, i) <= ratio
            && (forall s <- chip.serializers :: s.ratio >= width ==> ratio <= s.ratio)
            && Chosen(chip, width).Some?
            && Chosen(chip, ratio) == Chosen(chip, width)
            && chip.serializers[Chosen(chip, width).value].ratio == ratio
  {
    var sers, width := project.chip.value.serializers, DataWidth(project, pin, i);
    BestIsFirstLeast(sers, width);
    assert IsFirstLeast(sers, width, Best(sers, width).value);
    BestIsStable(sers, width);
    forall s <- sers | s.ratio >= width ensures sers[Best(sers, width).value].ratio <= s.ratio {
      var j :| 0 <= j < |sers| && sers[j] == s;
      assert Suffices(sers[j], width);
    }
  }

  /** A pin is too wide exactly when it serializes and its data width exceeds every ratio, hence also the
      maximum its errors name. */
  lemma TooWidePin(project: Project, pin: Pin, i: nat)
    ensures Plan(project, pin, i).TooWide? <==>
              Serializes(project, pin) && Largest(project.chip.value.serializers) < DataWidth(project, pin, i)
  {
    if Serializes(project, pin) {
      var sers, width := project.chip.value.serializers, DataWidth(project, pin, i);
      BestIsFirstLeast(sers, width);
      if Largest(sers) < width {
        forall j | 0 <= j < |sers| ensures !Suffices(sers[j], width) {
          assert sers[j] in sers;
        }
      } else {
        var s :| s in sers && s.ratio == Largest(sers);
        var j :| 0 <= j < |sers| && sers[j] == s;
        assert Suffices(sers[j], width);
      }
    }
  }

  /** A pin without a width of its own takes a ratio that exists: no surplus and no error. */
  lemma UnboundPinFits(project: Project, pin: Pin, i: nat)
    requires Serializes(project, pin) && pin.serWidth <= 0 && WidthForPin(project, i, 0) <= 0
    ensures Plan(project, pin, i) == Serialized(SmallestOf(project), SmallestOf(project))
  {
    var sers := project.chip.value.serializers;
    var j := SmallestIsListed(sers);
    var ratio := sers[j].ratio;
    BestIsFirstLeast(sers, ratio);
    assert Suffices(sers[j], ratio);
    assert IsFirstLeast(sers, ratio, Best(sers, ratio).value);
  }
}
