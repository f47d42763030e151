// compiler/src/chip_data.c, clock-generator variants: the axes their facts span, the coverage check
// that walks the product of the axes, and the dispatch on a caller's facts.
module ClockVariants {
  import opened Text
  import opened CheckedSize

  /** One fact of a `when` clause. */
  datatype Fact = InputSource(inputName: string, sourceValue: string) | OutputCount(intValue: int)

  /** What a fact is about, and what it requires of it. */
  datatype FactKey = SourceOf(inputName: string) | CountOfOutputs
  datatype FactValue = Source(text: string) | Count(n: int)

  function Key(f: Fact): FactKey {
    match f
    case InputSource(name, _) => SourceOf(name)
    case OutputCount(_) => CountOfOutputs
  }

  function Value(f: Fact): FactValue {
    match f
    case InputSource(_, text) => Source(text)
    case OutputCount(n) => Count(n)
  }

  datatype MapEntry = MapEntry(backend: string, template: string)

  datatype Variant = Variant(facts: seq<Fact>, maps: seq<MapEntry>)

  // ---- Axes ----

  /** One key with the values the variants mention for it, in order of first appearance. */
  datatype Axis = Axis(key: FactKey, values: seq<FactValue>)

  /** The position of the axis for a key, or the number of axes. */
  function AxisIndex(axes: seq<Axis>, key: FactKey): (i: nat)
    ensures i <= |axes|
    ensures i < |axes| ==> axes[i].key == key
    ensures forall j :: 0 <= j < i ==> axes[j].key != key
  {
    if axes == [] then 0
    else if axes[0].key == key then 0
    else
      var i := AxisIndex(axes[1..], key);
      assert forall j :: 1 <= j < i + 1 ==> axes[j] == axes[1..][j - 1];
      i + 1
  }

  function AddValue(axis: Axis, v: FactValue): Axis {
    if v in axis.values then axis else axis.(values := axis.values + [v])
  }

  /** The axes after one more fact. */
  function RecordFact(axes: seq<Axis>, f: Fact): seq<Axis> {
    var i := AxisIndex(axes, Key(f));
    if i == |axes| then axes + [Axis(Key(f), [Value(f)])] else axes[i := AddValue(axes[i], Value(f))]
  }

  function Record(facts: seq<Fact>): seq<Axis> {
    if facts == [] then [] else RecordFact(Record(facts[..|facts| - 1]), facts[|facts| - 1])
  }

  function AllFacts(vs: seq<Variant>): seq<Fact> {
    if vs == [] then [] else AllFacts(vs[..|vs| - 1]) + vs[|vs| - 1].facts
  }

  function AxesOf(vs: seq<Variant>): seq<Axis> { Record(AllFacts(vs)) }

  /** No key and no value of a key twice, and every key with some value. */
  predicate WellFormed(axes: seq<Axis>) {
    && (forall i, j :: 0 <= i < j < |axes| ==> axes[i].key != axes[j].key)
    && (forall i :: 0 <= i < |axes| ==> axes[i].values != [])
    && (forall i :: 0 <= i < |axes| ==> Distinct(axes[i].values))
  }

  predicate Distinct(values: seq<FactValue>) {
    forall j, k :: 0 <= j < k < |values| ==> values[j] != values[k]
  }

  /** The axes have a value for a key. */
  predicate OnAxis(axes: seq<Axis>, key: FactKey, v: FactValue) {
    var i := AxisIndex(axes, key);
    i < |axes| && v in axes[i].values
  }

  lemma AxisIndexUnique(axes: seq<Axis>, i: nat)
    requires WellFormed(axes) && i < |axes|
    ensures AxisIndex(axes, axes[i].key) == i
  {
  }

  lemma RecordFactWellFormed(axes: seq<Axis>, f: Fact)
    requires WellFormed(axes)
    ensures WellFormed(RecordFact(axes, f))
  {
    var i := AxisIndex(axes, Key(f));
    if i < |axes| {
      assert Distinct(axes[i].values);
      assert Distinct(AddValue(axes[i], Value(f)).values);
    }
  }

  /** Recording a fact moves no axis, and adds at most one behind them. */
  lemma RecordFactIndex(axes: seq<Axis>, f: Fact, key: FactKey)
    requires WellFormed(axes)
    ensures var k, axes' := AxisIndex(axes, key), RecordFact(axes, f);
            && |axes'| >= |axes|
            && AxisIndex(axes', key) == if k < |axes| || key == Key(f) then k else |axes'|
  {
    var axes', k := RecordFact(axes, f), AxisIndex(axes, key);
    RecordFactWellFormed(axes, f);
    hide WellFormed, AxisIndex;
    if k < |axes| || key == Key(f) {
      assert axes'[k].key == key;
      AxisIndexUnique(axes', k);
    } else {
      assert forall j :: 0 <= j < |axes'| ==> axes'[j].key != key;
    }
  }

  lemma RecordFactOnAxis(axes: seq<Axis>, f: Fact, key: FactKey, v: FactValue)
    requires WellFormed(axes)
    ensures OnAxis(RecordFact(axes, f), key, v) <==> OnAxis(axes, key, v) || (key == Key(f) && v == Value(f))
  {
    RecordFactIndex(axes, f, key);
    hide WellFormed, AxisIndex;
  }

  /** The axes hold exactly the keys and values of the facts. */
  lemma {:induction false} RecordOnAxis(facts: seq<Fact>, key: FactKey, v: FactValue)
    ensures WellFormed(Record(facts))
    ensures OnAxis(Record(facts), key, v) <==> exists f <- facts :: Key(f) == key && Value(f) == v
  {
    if facts != [] {
      var init, last := facts[..|facts| - 1], facts[|facts| - 1];
      RecordOnAxis(init, key, v);
      RecordFactWellFormed(Record(init), last);
      RecordFactOnAxis(Record(init), last, key, v);
      assert facts == init + [last];
    }
  }

  lemma {:induction false} AllFactsHas(vs: seq<Variant>, f: Fact)
    ensures f in AllFacts(vs) <==> exists i :: 0 <= i < |vs| && f in vs[i].facts
  {
    if vs != [] {
      var init, last := vs[..|vs| - 1], vs[|vs| - 1];
      AllFactsHas(init, f);
      assert forall i :: 0 <= i < |init| ==> init[i] == vs[i];
    }
  }

  /** Find or create the axis of a fact, then record its value there. */
  method AddFact(axes: seq<Axis>, f: Fact) returns (axes': seq<Axis>)
    ensures axes' == RecordFact(axes, f)
  {
    axes' := axes;
    var ai := FindAxis(axes, Key(f));
    if ai == |axes| {
      axes' := axes' + [Axis(Key(f), [])];
      assert [] + [Value(f)] == [Value(f)];
      assert axes'[ai := Axis(Key(f), [Value(f)])] == axes + [Axis(Key(f), [Value(f)])];
    }
    axes' := axes'[ai := AddValue(axes'[ai], Value(f))];
  }

  lemma RecordOneMore(facts: seq<Fact>, f: Fact)
    ensures Record(facts + [f]) == RecordFact(Record(facts), f)
  {
    assert (facts + [f])[..|facts|] == facts;
  }

  /** variant_build_axes. */
  method BuildAxes(vs: seq<Variant>) returns (axes: seq<Axis>)
    ensures axes == AxesOf(vs)
  {
    hide RecordFact;
    axes := [];
    for vi := 0 to |vs|
      invariant axes == AxesOf(vs[..vi])
    {
      var fs := vs[vi].facts;
      assert AllFacts(vs[..vi]) + fs[..0] == AllFacts(vs[..vi]);
      for fi := 0 to |fs|
        invariant axes == Record(AllFacts(vs[..vi]) + fs[..fi])
      {
        assert AllFacts(vs[..vi]) + fs[..fi + 1] == (AllFacts(vs[..vi]) + fs[..fi]) + [fs[fi]];
        RecordOneMore(AllFacts(vs[..vi]) + fs[..fi], fs[fi]);
        axes := AddFact(axes, fs[fi]);
      }
      assert fs[..|fs|] == fs;
      assert vs[..vi + 1][..vi] == vs[..vi];
    }
    assert vs[..|vs|] == vs;
  }

  /** The linear search both the builder and the matcher do. */
  method FindAxis(axes: seq<Axis>, key: FactKey) returns (ai: nat)
    ensures ai == AxisIndex(axes, key)
  {
    ai := 0;
    while ai < |axes| && axes[ai].key != key
      invariant ai <= |axes|
      invariant forall j :: 0 <= j < ai ==> axes[j].key != key
    {
      ai := ai + 1;
    }
  }

  // ---- Tuples ----

  /** A choice of one value on every axis, by position. */
  predicate IsTuple(axes: seq<Axis>, t: seq<nat>) {
    |t| == |axes| && forall i :: 0 <= i < |t| ==> t[i] < |axes[i].values|
  }

  predicate MeetsFact(axes: seq<Axis>, t: seq<nat>, f: Fact)
    requires IsTuple(axes, t)
  {
    var ai := AxisIndex(axes, Key(f));
    ai < |axes| && axes[ai].values[t[ai]] == Value(f)
  }

  predicate MatchesTuple(v: Variant, axes: seq<Axis>, t: seq<nat>)
    requires IsTuple(axes, t)
  {
    forall i :: 0 <= i < |v.facts| ==> MeetsFact(axes, t, v.facts[i])
  }

  /** How many variants match a tuple. */
  function CountMatching(vs: seq<Variant>, axes: seq<Axis>, t: seq<nat>): (n: nat)
    requires IsTuple(axes, t)
  {
    if vs == [] then 0
    else CountMatching(vs[..|vs| - 1], axes, t) + if MatchesTuple(vs[|vs| - 1], axes, t) then 1 else 0
  }

  /** Exhaustive and disjoint: every tuple of the product of the axes is matched by exactly one variant. */
  ghost predicate Covered(vs: seq<Variant>) {
    forall t :: IsTuple(AxesOf(vs), t) ==> CountMatching(vs, AxesOf(vs), t) == 1
  }

  /** variant_matches_tuple. */
  method CheckTuple(v: Variant, axes: seq<Axis>, idx: array<nat>) returns (ok: bool)
    requires IsTuple(axes, idx[..])
    ensures ok == MatchesTuple(v, axes, idx[..])
  {
    for fi := 0 to |v.facts|
      invariant forall i :: 0 <= i < fi ==> MeetsFact(axes, idx[..], v.facts[i])
    {
      var f := v.facts[fi];
      var ai := FindAxis(axes, Key(f));
      if ai == |axes| || axes[ai].values[idx[ai]] != Value(f) {
        assert !MeetsFact(axes, idx[..], f);
        return false;
      }
    }
    return true;
  }

  // ---- The odometer ----

  /** The size of the product of the axes. */
  function TupleCount(axes: seq<Axis>): nat {
    if axes == [] then 1 else |axes[0].values| * TupleCount(axes[1..])
  }

  /** The mixed-radix number a tuple spells, least significant digit first. */
  function TupleValue(axes: seq<Axis>, t: seq<nat>): nat
    requires |t| == |axes|
  {
    if axes == [] then 0 else t[0] + |axes[0].values| * TupleValue(axes[1..], t[1..])
  }

  /** The tuple after t, or nothing after the last one. */
  function NextTuple(axes: seq<Axis>, t: seq<nat>): (r: Option<seq<nat>>)
    requires |t| == |axes|
    ensures r.Some? ==> |r.value| == |axes|
  {
    if axes == [] then None
    else if t[0] + 1 < |axes[0].values| then Some([t[0] + 1] + t[1..])
    else
      match NextTuple(axes[1..], t[1..])
      case None => None
      case Some(rest) => Some([0] + rest)
  }

  lemma {:induction false} NextTupleIsTuple(axes: seq<Axis>, t: seq<nat>)
    requires IsTuple(axes, t)
    ensures NextTuple(axes, t).Some? ==> IsTuple(axes, NextTuple(axes, t).value)
  {
    if axes != [] {
      NextTupleIsTuple(axes[1..], t[1..]);
    }
  }

  lemma {:induction false} TupleValueBound(axes: seq<Axis>, t: seq<nat>)
    requires IsTuple(axes, t)
    ensures TupleValue(axes, t) < TupleCount(axes)
  {
    if axes != [] {
      TupleValueBound(axes[1..], t[1..]);
      var c, u, n := |axes[0].values|, TupleValue(axes[1..], t[1..]), TupleCount(axes[1..]);
      MulMonotone(c, u + 1, n);
      assert c * (u + 1) == c * u + c;
    }
  }

  /** Each advance adds one, and there is no next tuple exactly at the greatest number. */
  lemma {:induction false} NextTupleValue(axes: seq<Axis>, t: seq<nat>)
    requires IsTuple(axes, t)
    ensures match NextTuple(axes, t)
            case Some(t') => TupleValue(axes, t') == TupleValue(axes, t) + 1
            case None => TupleValue(axes, t) + 1 == TupleCount(axes)
  {
    if axes != [] {
      var c := |axes[0].values|;
      var rest := t[1..];
      NextTupleValue(axes[1..], rest);
      if t[0] + 1 < c {
        assert ([t[0] + 1] + rest)[1..] == rest;
      } else {
        var u := TupleValue(axes[1..], rest);
        assert c * (u + 1) == c * u + c;
        var next := NextTuple(axes[1..], rest);
        if next.Some? {
          assert ([0] + next.value)[1..] == next.value;
        }
      }
    }
  }

  /** Different tuples spell different numbers. */
  lemma {:induction false} TupleValueInjective(axes: seq<Axis>, t: seq<nat>, u: seq<nat>)
    requires IsTuple(axes, t) && IsTuple(axes, u) && TupleValue(axes, t) == TupleValue(axes, u)
    ensures t == u
  {
    if axes != [] {
      var c := |axes[0].values|;
      var a, b := TupleValue(axes[1..], t[1..]), TupleValue(axes[1..], u[1..]);
      assert t[0] + c * a == u[0] + c * b;
      DigitsUnique(c, t[0], a, u[0], b);
      TupleValueInjective(axes[1..], t[1..], u[1..]);
      assert t == [t[0]] + t[1..] && u == [u[0]] + u[1..];
    }
  }

  lemma DigitsUnique(c: nat, x: nat, a: nat, y: nat, b: nat)
    requires x < c && y < c && x + c * a == y + c * b
    ensures x == y && a == b
  {
    MulGap(c, a, b);
    MulGap(c, b, a);
  }

  /** The k-th tuple of the walk from all zeros. */
  function Walk(axes: seq<Axis>, k: nat): (r: Option<seq<nat>>)
    ensures r.Some? ==> |r.value| == |axes|
  {
    if k == 0 then Some(seq(|axes|, i => 0))
    else
      match Walk(axes, k - 1)
      case None => None
      case Some(t) => NextTuple(axes, t)
  }

  lemma {:induction false} ZeroTuple(axes: seq<Axis>)
    requires WellFormed(axes)
    ensures IsTuple(axes, seq(|axes|, i => 0)) && TupleValue(axes, seq(|axes|, i => 0)) == 0
  {
    var zeros := seq(|axes|, i => 0);
    if axes != [] {
      ZeroTuple(axes[1..]);
      assert zeros[1..] == seq(|axes[1..]|, i => 0);
      assert |axes[0].values| * TupleValue(axes[1..], zeros[1..]) == 0;
    }
  }

  lemma {:induction false} WalkValue(axes: seq<Axis>, k: nat)
    requires WellFormed(axes) && k < TupleCount(axes)
    ensures var r := Walk(axes, k); r.Some? && IsTuple(axes, r.value) && TupleValue(axes, r.value) == k
  {
    if k == 0 {
      ZeroTuple(axes);
    } else {
      WalkValue(axes, k - 1);
      var t := Walk(axes, k - 1).value;
      NextTupleValue(axes, t);
      NextTupleIsTuple(axes, t);
    }
  }

  /** The odometer shows every tuple once, at the step its number says... */
  lemma WalkVisitsOnce(axes: seq<Axis>, t: seq<nat>, k: nat)
    requires WellFormed(axes) && IsTuple(axes, t) && k < TupleCount(axes)
    ensures Walk(axes, k) == Some(t) <==> k == TupleValue(axes, t)
    ensures TupleValue(axes, t) < TupleCount(axes)
  {
    TupleValueBound(axes, t);
    WalkValue(axes, k);
    if k == TupleValue(axes, t) {
      TupleValueInjective(axes, t, Walk(axes, k).value);
    }
  }

  /** ... and wraps after the last of them. */
  lemma WalkWraps(axes: seq<Axis>)
    requires WellFormed(axes)
    ensures Walk(axes, TupleCount(axes)) == None
  {
    TupleCountPositive(axes);
    var last := TupleCount(axes) - 1;
    WalkValue(axes, last);
    var t := Walk(axes, last).value;
    NextTupleValue(axes, t);
    NextTupleIsTuple(axes, t);
    if NextTuple(axes, t).Some? {
      TupleValueBound(axes, NextTuple(axes, t).value);
    }
  }

  // ---- Validation ----

  const MAX_TUPLES: nat := 1024 * 1024

  /** What variant_validate_coverage accepts. A generator whose variants mention no fact at all is
      accepted with at most one variant. */
  ghost predicate Accepts(vs: seq<Variant>) {
    if AxesOf(vs) == [] then |vs| <= 1 else TupleCount(AxesOf(vs)) <= MAX_TUPLES && Covered(vs)
  }

  lemma {:induction false} NoFactsMatchAlways(vs: seq<Variant>, t: seq<nat>)
    requires AllFacts(vs) == [] && t == []
    ensures CountMatching(vs, [], t) == |vs|
  {
    if vs != [] {
      NoFactsMatchAlways(vs[..|vs| - 1], t);
    }
  }

  lemma {:induction false} RecordEmpty(facts: seq<Fact>)
    ensures Record(facts) == [] <==> facts == []
  {
  }

  /** Acceptance is exhaustive and disjoint coverage within the tuple limit, except that a generator
      without any variant is accepted as well. */
  lemma AcceptsIsCovered(vs: seq<Variant>)
    ensures Accepts(vs) <==> vs == [] || (TupleCount(AxesOf(vs)) <= MAX_TUPLES && Covered(vs))
  {
    RecordEmpty(AllFacts(vs));
    if AxesOf(vs) == [] {
      NoFactsMatchAlways(vs, []);
      assert IsTuple(AxesOf(vs), []);
      assert forall t :: IsTuple(AxesOf(vs), t) ==> t == [];
    }
  }

  /** The limit check multiplies as it goes and stops at the first product that is too large; no axis
      is empty, so it stops exactly when the whole product is. */
  method TuplesWithinLimit(axes: seq<Axis>) returns (ok: bool)
    requires WellFormed(axes)
    ensures ok <==> TupleCount(axes) <= MAX_TUPLES
  {
    var count: Size := 1;
    assert axes[0..] == axes;
    for ai := 0 to |axes|
      invariant 1 <= count <= MAX_TUPLES
      invariant TupleCount(axes) == count * TupleCount(axes[ai..])
    {
      ghost var rest := TupleCount(axes[ai + 1..]);
      assert axes[ai..][1..] == axes[ai + 1..];
      TupleCountPositive(axes[ai + 1..]);
      ghost var product := count * |axes[ai].values|;
      assert count * (|axes[ai].values| * rest) == product * rest;
      MulMonotone(product, 1, rest);
      if |axes[ai].values| > SIZE_MAX {
        MulMonotone(|axes[ai].values|, 1, count);
        return false;
      }
      var next := MulChecked(count, |axes[ai].values|);
      if next.None? || next.value > MAX_TUPLES {
        return false;
      }
      MulMonotone(count, 1, |axes[ai].values|);
      count := next.value;
    }
    return true;
  }

  lemma {:induction false} TupleCountPositive(axes: seq<Axis>)
    requires forall i :: 0 <= i < |axes| ==> axes[i].values != []
    ensures TupleCount(axes) >= 1
  {
    if axes != [] {
      TupleCountPositive(axes[1..]);
      MulMonotone(|axes[0].values|, 1, TupleCount(axes[1..]));
    }
  }

  /** The advance loop: digits that overflow go back to zero and carry. */
  method Advance(axes: seq<Axis>, idx: array<nat>) returns (wrapped: bool)
    requires IsTuple(axes, idx[..])
    modifies idx
    ensures match NextTuple(axes, old(idx[..]))
            case Some(t) => !wrapped && idx[..] == t
            case None => wrapped
  {
    ghost var t := idx[..];
    var k := 0;
    CarryNone(axes, t);
    while k < |axes|
      invariant k <= |axes|
      invariant forall j :: 0 <= j < |axes| ==> idx[j] == if j < k then 0 else t[j]
      invariant NextTuple(axes, t) == Carry(k, NextTuple(axes[k..], t[k..]))
      decreases |axes| - k
    {
      CarryStep(axes, t, k);
      idx[k] := idx[k] + 1;
      if idx[k] < |axes[k].values| {
        CarriedDigits(idx[..], t, k);
        return false;
      }
      idx[k] := 0;
      k := k + 1;
    }
    return true;
  }

  function Zeros(k: nat): seq<nat> { seq(k, i => 0) }

  /** A successor of the digits from position k on, behind k zeros. */
  function Carry(k: nat, r: Option<seq<nat>>): Option<seq<nat>> {
    match r
    case None => None
    case Some(rest) => Some(Zeros(k) + rest)
  }

  lemma CarriedDigits(u: seq<nat>, t: seq<nat>, k: nat)
    requires |u| == |t| && k < |t|
    requires forall j :: 0 <= j < |t| ==> u[j] == if j < k then 0 else if j == k then t[k] + 1 else t[j]
    ensures u == Zeros(k) + ([t[k] + 1] + t[k + 1..])
  {
  }

  lemma CarryNone(axes: seq<Axis>, t: seq<nat>)
    requires |t| == |axes|
    ensures NextTuple(axes, t) == Carry(0, NextTuple(axes[0..], t[0..]))
  {
    assert axes[0..] == axes && t[0..] == t;
    if NextTuple(axes, t).Some? {
      assert Zeros(0) + NextTuple(axes, t).value == NextTuple(axes, t).value;
    }
  }

  lemma CarryStep(axes: seq<Axis>, t: seq<nat>, k: nat)
    requires |t| == |axes| && k < |axes|
    ensures Carry(k, NextTuple(axes[k..], t[k..]))
         == if t[k] + 1 < |axes[k].values| then Some(Zeros(k) + ([t[k] + 1] + t[k + 1..]))
            else Carry(k + 1, NextTuple(axes[k + 1..], t[k + 1..]))
  {
    assert axes[k..][1..] == axes[k + 1..] && t[k..][1..] == t[k + 1..];
    var next := NextTuple(axes[k + 1..], t[k + 1..]);
    if next.Some? {
      assert Zeros(k) + ([0] + next.value) == Zeros(k + 1) + next.value;
    }
  }

  /** variant_validate_coverage. */
  method ValidateCoverage(vs: seq<Variant>) returns (ok: bool)
    ensures ok <==> Accepts(vs)
    ensures vs != [] && TupleCount(AxesOf(vs)) <= MAX_TUPLES ==> (ok <==> OneAlwaysMet(vs))
  {
    AcceptsIsOneMet(vs);
    hide OneAlwaysMet;
    var axes := BuildAxes(vs);
    if |axes| == 0 {
      return |vs| <= 1;
    }
    RecordOnAxis(AllFacts(vs), CountOfOutputs, Count(0));
    var within := TuplesWithinLimit(axes);
    if !within {
      return false;
    }
    var idx := new nat[|axes|](i => 0);
    ZeroTuple(axes);
    assert idx[..] == seq(|axes|, i => 0);
    while true
      invariant IsTuple(axes, idx[..]) && idx.Length == |axes| && fresh(idx)
      invariant forall t :: IsTuple(axes, t) && TupleValue(axes, t) < TupleValue(axes, idx[..]) ==>
                              CountMatching(vs, axes, t) == 1
      decreases TupleCount(axes) - TupleValue(axes, idx[..])
    {
      ghost var now := idx[..];
      var matches := CountVariants(vs, axes, idx);
      if matches != 1 {
        return false;
      }
      NextTupleValue(axes, now);
      NextTupleIsTuple(axes, now);
      forall t | IsTuple(axes, t) && TupleValue(axes, t) <= TupleValue(axes, now)
        ensures CountMatching(vs, axes, t) == 1
      {
        if TupleValue(axes, t) == TupleValue(axes, now) {
          TupleValueInjective(axes, t, now);
        }
      }
      var wrapped := Advance(axes, idx);
      if wrapped {
        forall t | IsTuple(axes, t) ensures CountMatching(vs, axes, t) == 1 {
          TupleValueBound(axes, t);
        }
        return true;
      }
      TupleValueBound(axes, idx[..]);
    }
  }

  method CountVariants(vs: seq<Variant>, axes: seq<Axis>, idx: array<nat>) returns (matches: nat)
    requires IsTuple(axes, idx[..])
    ensures matches == CountMatching(vs, axes, idx[..])
  {
    matches := 0;
    for vi := 0 to |vs|
      invariant matches == CountMatching(vs[..vi], axes, idx[..])
    {
      assert vs[..vi + 1][..vi] == vs[..vi];
      var ok := CheckTuple(vs[vi], axes, idx);
      if ok {
        matches := matches + 1;
      }
    }
    assert vs[..|vs|] == vs;
  }

  // ---- Dispatch ----

  /** What a caller computed for one instantiation. Names and sources may be absent. */
  datatype InputFact = InputFact(inputName: Option<string>, source: Option<string>)
  datatype CallerFacts = CallerFacts(inputs: seq<InputFact>, outputCount: int)

  /** The source of the first input of that name; "" when there is none. */
  function SourceFor(inputs: seq<InputFact>, name: string): string {
    if inputs == [] then ""
    else if inputs[0].inputName == Some(name) then
      match inputs[0].source
      case None => ""
      case Some(text) => text
    else SourceFor(inputs[1..], name)
  }

  /** The caller's value for a key; a caller without facts has "" and 0. */
  function Got(facts: Option<CallerFacts>, key: FactKey): FactValue {
    match key
    case SourceOf(name) => Source(if facts.None? then "" else SourceFor(facts.value.inputs, name))
    case CountOfOutputs => Count(if facts.None? then 0 else facts.value.outputCount)
  }

  predicate Dispatches(v: Variant, facts: Option<CallerFacts>) {
    forall i :: 0 <= i < |v.facts| ==> Got(facts, Key(v.facts[i])) == Value(v.facts[i])
  }

  function CountDispatching(vs: seq<Variant>, facts: Option<CallerFacts>): nat {
    if vs == [] then 0
    else CountDispatching(vs[..|vs| - 1], facts) + if Dispatches(vs[|vs| - 1], facts) then 1 else 0
  }

  /** The tuple a caller stands at: on every axis the position of the caller's value, or 0 if the axis
      does not list it. */
  function Induced(axes: seq<Axis>, facts: Option<CallerFacts>): (t: seq<nat>)
    ensures |t| == |axes|
    ensures forall i :: 0 <= i < |axes| ==> t[i] == Position(axes[i].values, Got(facts, axes[i].key))
  {
    seq(|axes|, i requires 0 <= i < |axes| => Position(axes[i].values, Got(facts, axes[i].key)))
  }

  function Position(values: seq<FactValue>, v: FactValue): (i: nat)
    ensures v in values ==> i < |values| && values[i] == v
    ensures v !in values ==> i == 0
  {
    if v !in values then 0 else if values[0] == v then 0 else 1 + Position(values[1..], v)
  }

  lemma InducedIsTuple(axes: seq<Axis>, facts: Option<CallerFacts>)
    requires WellFormed(axes)
    ensures IsTuple(axes, Induced(axes, facts))
  {
    forall i | 0 <= i < |axes| ensures Induced(axes, facts)[i] < |axes[i].values| {
      assert axes[i].values != [];
    }
  }

  /** Every value the caller has for a referenced key is listed on that key's axis. */
  predicate Listed(axes: seq<Axis>, facts: Option<CallerFacts>) {
    forall i :: 0 <= i < |axes| ==> Got(facts, axes[i].key) in axes[i].values
  }

  /** Dispatching on the caller's facts implies matching the induced tuple; for listed facts the two
      agree. */
  lemma DispatchMatchesInduced(vs: seq<Variant>, k: nat, facts: Option<CallerFacts>)
    requires k < |vs|
    ensures WellFormed(AxesOf(vs)) && IsTuple(AxesOf(vs), Induced(AxesOf(vs), facts))
    ensures Dispatches(vs[k], facts) ==> MatchesTuple(vs[k], AxesOf(vs), Induced(AxesOf(vs), facts))
    ensures Listed(AxesOf(vs), facts) ==>
              (MatchesTuple(vs[k], AxesOf(vs), Induced(AxesOf(vs), facts)) ==> Dispatches(vs[k], facts))
  {
    var axes := AxesOf(vs);
    var t := Induced(axes, facts);
    RecordOnAxis(AllFacts(vs), CountOfOutputs, Count(0));
    InducedIsTuple(axes, facts);
    forall i | 0 <= i < |vs[k].facts|
      ensures var f := vs[k].facts[i];
              && (Got(facts, Key(f)) == Value(f) ==> MeetsFact(axes, t, f))
              && (Listed(axes, facts) && MeetsFact(axes, t, f) ==> Got(facts, Key(f)) == Value(f))
    {
      var f := vs[k].facts[i];
      AllFactsHas(vs, f);
      RecordOnAxis(AllFacts(vs), Key(f), Value(f));
      assert OnAxis(axes, Key(f), Value(f));
    }
  }

  lemma {:induction false} CountsCompare(vs: seq<Variant>, axes: seq<Axis>, t: seq<nat>, facts: Option<CallerFacts>)
    requires IsTuple(axes, t)
    requires forall i :: 0 <= i < |vs| && Dispatches(vs[i], facts) ==> MatchesTuple(vs[i], axes, t)
    ensures CountDispatching(vs, facts) <= CountMatching(vs, axes, t)
    ensures (forall i :: 0 <= i < |vs| && MatchesTuple(vs[i], axes, t) ==> Dispatches(vs[i], facts)) ==>
              CountDispatching(vs, facts) == CountMatching(vs, axes, t)
  {
    if vs != [] {
      var init := vs[..|vs| - 1];
      assert forall i :: 0 <= i < |init| ==> init[i] == vs[i];
      CountsCompare(init, axes, t, facts);
    }
  }

  /** An accepted generator is never ambiguous, whatever a caller's facts, listed or not; and facts
      whose values are all listed select exactly one variant. */
  lemma DispatchUnambiguous(vs: seq<Variant>, facts: Option<CallerFacts>)
    requires Accepts(vs)
    ensures CountDispatching(vs, facts) <= 1
    ensures vs != [] && Listed(AxesOf(vs), facts) ==> CountDispatching(vs, facts) == 1
  {
    AcceptsIsCovered(vs);
    if vs != [] {
      var t := Induced(AxesOf(vs), facts);
      forall k | 0 <= k < |vs|
        ensures IsTuple(AxesOf(vs), t)
        ensures Dispatches(vs[k], facts) ==> MatchesTuple(vs[k], AxesOf(vs), t)
        ensures Listed(AxesOf(vs), facts) ==> (MatchesTuple(vs[k], AxesOf(vs), t) ==> Dispatches(vs[k], facts))
      {
        DispatchMatchesInduced(vs, k, facts);
      }
      assert IsTuple(AxesOf(vs), t) by { DispatchMatchesInduced(vs, 0, facts); }
      CountsCompare(vs, AxesOf(vs), t, facts);
    }
  }

  // ---- What dispatch asks of a caller ----

  /** The first input of that name has the source text, an absent source being ""; without such an input
      the text is "". */
  predicate SourceIs(inputs: seq<InputFact>, name: string, text: string) {
    || (exists i :: 0 <= i < |inputs| && FirstNamed(inputs, name, i)
                    && text == (if inputs[i].source.Some? then inputs[i].source.value else ""))
    || ((forall j :: 0 <= j < |inputs| ==> inputs[j].inputName != Some(name)) && text == "")
  }

  predicate FirstNamed(inputs: seq<InputFact>, name: string, i: nat)
    requires i < |inputs|
  {
    inputs[i].inputName == Some(name) && forall j :: 0 <= j < i ==> inputs[j].inputName != Some(name)
  }

  /** The caller meets a fact: its output count is the number, or the source of the named input is the
      text. A caller without facts counts no outputs and has no inputs. */
  predicate Grants(facts: Option<CallerFacts>, f: Fact) {
    match (f, facts)
    case (OutputCount(n), None) => n == 0
    case (OutputCount(n), Some(c)) => c.outputCount == n
    case (InputSource(_, text), None) => text == ""
    case (InputSource(name, text), Some(c)) => SourceIs(c.inputs, name, text)
  }

  predicate Meets(facts: Option<CallerFacts>, v: Variant) {
    forall i :: 0 <= i < |v.facts| ==> Grants(facts, v.facts[i])
  }

  /** The variants whose facts the caller meets. */
  function Meeting(vs: seq<Variant>, facts: Option<CallerFacts>): set<nat> {
    set i: nat | i < |vs| && Meets(facts, vs[i])
  }

  lemma {:induction false} SourceForIs(inputs: seq<InputFact>, name: string, text: string)
    ensures SourceFor(inputs, name) == text <==> SourceIs(inputs, name, text)
  {
    if inputs != [] {
      if inputs[0].inputName == Some(name) {
        assert FirstNamed(inputs, name, 0);
      } else {
        var rest := inputs[1..];
        SourceForIs(rest, name, text);
        assert forall j :: 0 <= j < |rest| ==> rest[j] == inputs[j + 1];
        forall i: nat | i < |rest| ensures FirstNamed(rest, name, i) <==> FirstNamed(inputs, name, i + 1) {
          assert FirstNamed(rest, name, i) ==> forall j :: 0 < j < i + 1 ==> inputs[j] == rest[j - 1];
          assert FirstNamed(inputs, name, i + 1) ==> forall j :: 0 <= j < i ==> rest[j] == inputs[j + 1];
        }
        assert forall i: nat :: i < |inputs| && FirstNamed(inputs, name, i) ==> i > 0 && FirstNamed(rest, name, i - 1);
      }
    }
  }

  lemma GrantsIff(facts: Option<CallerFacts>, f: Fact)
    ensures Got(facts, Key(f)) == Value(f) <==> Grants(facts, f)
  {
    if f.InputSource? && facts.Some? {
      SourceForIs(facts.value.inputs, f.inputName, f.sourceValue);
    }
  }

  /** A variant dispatches exactly when the caller meets each of its facts. */
  lemma DispatchesIff(v: Variant, facts: Option<CallerFacts>)
    ensures Dispatches(v, facts) <==> Meets(facts, v)
  {
    hide Got, Key, Value, Grants;
    forall i | 0 <= i < |v.facts|
      ensures Got(facts, Key(v.facts[i])) == Value(v.facts[i]) <==> Grants(facts, v.facts[i])
    {
      GrantsIff(facts, v.facts[i]);
    }
  }

  lemma {:induction false} CountIsSize(vs: seq<Variant>, facts: Option<CallerFacts>)
    ensures CountDispatching(vs, facts) == |Meeting(vs, facts)|
  {
    hide Dispatches, Meets;
    if vs == [] {
      assert Meeting(vs, facts) == {};
    } else {
      var last := |vs| - 1;
      CountIsSize(vs[..last], facts);
      DispatchesIff(vs[last], facts);
      var met := if Meets(facts, vs[last]) then {last} else {};
      assert Meeting(vs, facts) == Meeting(vs[..last], facts) + met;
    }
  }

  // ---- Coverage is what dispatch needs ----

  /** The inputs of a caller that stands at a tuple. */
  function InputsAt(axes: seq<Axis>, t: seq<nat>): seq<InputFact>
    requires IsTuple(axes, t)
  {
    if axes == [] then []
    else
      match (axes[0].key, axes[0].values[t[0]])
      case (SourceOf(name), Source(text)) => [InputFact(Some(name), Some(text))] + InputsAt(axes[1..], t[1..])
      case _ => InputsAt(axes[1..], t[1..])
  }

  function FactsAt(axes: seq<Axis>, t: seq<nat>): CallerFacts
    requires IsTuple(axes, t)
  {
    var i := AxisIndex(axes, CountOfOutputs);
    CallerFacts(InputsAt(axes, t), if i < |axes| && axes[i].values[t[i]].Count? then axes[i].values[t[i]].n else 0)
  }

  predicate Fits(key: FactKey, v: FactValue) { key.SourceOf? <==> v.Source? }

  lemma {:induction false} InputsAtTuple(axes: seq<Axis>, t: seq<nat>, i: nat)
    requires WellFormed(axes) && IsTuple(axes, t) && i < |axes| && axes[i].key.SourceOf?
    requires axes[i].values[t[i]].Source?
    ensures SourceFor(InputsAt(axes, t), axes[i].key.inputName) == axes[i].values[t[i]].text
    decreases i
  {
    if i > 0 {
      assert axes[0].key != axes[i].key;
      var rest := axes[1..];
      assert forall j :: 0 <= j < |rest| ==> rest[j] == axes[j + 1] && t[1..][j] == t[j + 1];
      InputsAtTuple(rest, t[1..], i - 1);
      var inputs := InputsAt(rest, t[1..]);
      assert forall x: InputFact :: ([x] + inputs)[1..] == inputs;
    }
  }

  lemma PositionOf(values: seq<FactValue>, k: nat)
    requires Distinct(values) && k < |values|
    ensures Position(values, values[k]) == k
  {
  }

  /** Every tuple is where some caller stands. */
  lemma TupleIsInduced(axes: seq<Axis>, t: seq<nat>)
    requires WellFormed(axes) && IsTuple(axes, t)
    requires forall i :: 0 <= i < |axes| ==> Fits(axes[i].key, axes[i].values[t[i]])
    ensures Listed(axes, Some(FactsAt(axes, t))) && Induced(axes, Some(FactsAt(axes, t))) == t
  {
    var facts := Some(FactsAt(axes, t));
    forall i | 0 <= i < |axes|
      ensures Got(facts, axes[i].key) == axes[i].values[t[i]] && Induced(axes, facts)[i] == t[i]
    {
      assert Fits(axes[i].key, axes[i].values[t[i]]);
      if axes[i].key.SourceOf? {
        InputsAtTuple(axes, t, i);
      } else {
        AxisIndexUnique(axes, i);
      }
      PositionOf(axes[i].values, t[i]);
    }
  }

  lemma AxisValueFits(vs: seq<Variant>, i: nat, k: nat)
    requires WellFormed(AxesOf(vs)) && i < |AxesOf(vs)| && k < |AxesOf(vs)[i].values|
    ensures Fits(AxesOf(vs)[i].key, AxesOf(vs)[i].values[k])
  {
    var axis := AxesOf(vs)[i];
    AxisIndexUnique(AxesOf(vs), i);
    assert OnAxis(AxesOf(vs), axis.key, axis.values[k]);
    RecordOnAxis(AllFacts(vs), axis.key, axis.values[k]);
  }

  lemma CountAtTuple(vs: seq<Variant>, t: seq<nat>)
    requires WellFormed(AxesOf(vs)) && IsTuple(AxesOf(vs), t)
    ensures Listed(AxesOf(vs), Some(FactsAt(AxesOf(vs), t)))
    ensures CountDispatching(vs, Some(FactsAt(AxesOf(vs), t))) == CountMatching(vs, AxesOf(vs), t)
  {
    var axes := AxesOf(vs);
    var facts := Some(FactsAt(axes, t));
    forall i | 0 <= i < |axes| ensures Fits(axes[i].key, axes[i].values[t[i]]) {
      AxisValueFits(vs, i, t[i]);
    }
    TupleIsInduced(axes, t);
    hide AxesOf, Listed, Induced, FactsAt, Dispatches, MatchesTuple, WellFormed;
    forall k | 0 <= k < |vs| ensures Dispatches(vs[k], facts) <==> MatchesTuple(vs[k], axes, t) {
      DispatchMatchesInduced(vs, k, facts);
    }
    CountsCompare(vs, axes, t, facts);
  }

  /** Below the tuple limit the check asks for neither too much nor too little: it accepts exactly the
      generators for which every caller whose values are listed selects exactly one variant. */
  lemma AcceptsIsUniqueDispatch(vs: seq<Variant>)
    requires vs != [] && TupleCount(AxesOf(vs)) <= MAX_TUPLES
    ensures Accepts(vs) <==> forall facts :: Listed(AxesOf(vs), facts) ==> CountDispatching(vs, facts) == 1
  {
    AcceptsIsCovered(vs);
    RecordOnAxis(AllFacts(vs), CountOfOutputs, Count(0));
    if Accepts(vs) {
      forall facts | Listed(AxesOf(vs), facts) ensures CountDispatching(vs, facts) == 1 {
        DispatchUnambiguous(vs, facts);
      }
    }
    if forall facts :: Listed(AxesOf(vs), facts) ==> CountDispatching(vs, facts) == 1 {
      forall t | IsTuple(AxesOf(vs), t) ensures CountMatching(vs, AxesOf(vs), t) == 1 {
        CountAtTuple(vs, t);
      }
    }
  }

  /** Two facts ask about the same input, or both about the output count. */
  predicate SameSubject(f: Fact, g: Fact) {
    match (f, g)
    case (OutputCount(_), OutputCount(_)) => true
    case (InputSource(a, _), InputSource(b, _)) => a == b
    case _ => false
  }

  predicate Mentions(vs: seq<Variant>, f: Fact) {
    exists i :: 0 <= i < |vs| && f in vs[i].facts
  }

  /** Of everything the variants ask about, the caller meets some fact that they mention. */
  ghost predicate Foreseen(vs: seq<Variant>, facts: Option<CallerFacts>) {
    forall f :: Mentions(vs, f) ==> exists g :: Mentions(vs, g) && SameSubject(f, g) && Grants(facts, g)
  }

  /** Every foreseen caller meets exactly one variant. */
  ghost predicate OneAlwaysMet(vs: seq<Variant>) {
    forall facts :: Foreseen(vs, facts) ==> |Meeting(vs, facts)| == 1
  }

  lemma MentionedOnAxis(vs: seq<Variant>, f: Fact)
    requires Mentions(vs, f)
    ensures WellFormed(AxesOf(vs)) && AxisIndex(AxesOf(vs), Key(f)) < |AxesOf(vs)|
    ensures Value(f) in AxesOf(vs)[AxisIndex(AxesOf(vs), Key(f))].values
  {
    AllFactsHas(vs, f);
    RecordOnAxis(AllFacts(vs), Key(f), Value(f));
    assert OnAxis(AxesOf(vs), Key(f), Value(f));
  }

  lemma AxisMentions(vs: seq<Variant>, i: nat, v: FactValue) returns (f: Fact)
    requires WellFormed(AxesOf(vs)) && i < |AxesOf(vs)| && v in AxesOf(vs)[i].values
    ensures Mentions(vs, f) && Key(f) == AxesOf(vs)[i].key && Value(f) == v
  {
    var key := AxesOf(vs)[i].key;
    AxisIndexUnique(AxesOf(vs), i);
    assert OnAxis(AxesOf(vs), key, v);
    RecordOnAxis(AllFacts(vs), key, v);
    f :| f in AllFacts(vs) && Key(f) == key && Value(f) == v;
    AllFactsHas(vs, f);
  }

  lemma SameKey(f: Fact, g: Fact)
    ensures SameSubject(f, g) <==> Key(f) == Key(g)
  {
  }

  lemma ListedIsForeseen(vs: seq<Variant>, facts: Option<CallerFacts>)
    requires Listed(AxesOf(vs), facts)
    ensures Foreseen(vs, facts)
  {
    hide AxesOf, Got, Grants, Mentions, SameSubject, Key, Value;
    forall f | Mentions(vs, f) ensures exists g :: Mentions(vs, g) && SameSubject(f, g) && Grants(facts, g) {
      MentionedOnAxis(vs, f);
      var i := AxisIndex(AxesOf(vs), Key(f));
      var g := AxisMentions(vs, i, Got(facts, AxesOf(vs)[i].key));
      SameKey(f, g);
      GrantsIff(facts, g);
    }
  }

  lemma ForeseenIsListed(vs: seq<Variant>, facts: Option<CallerFacts>)
    requires Foreseen(vs, facts)
    ensures Listed(AxesOf(vs), facts)
  {
    RecordOnAxis(AllFacts(vs), CountOfOutputs, Count(0));
    hide Got, Grants, Mentions, SameSubject, Key, Value;
    var axes := AxesOf(vs);
    forall i | 0 <= i < |axes| ensures Got(facts, axes[i].key) in axes[i].values {
      assert axes[i].values != [];
      var f := AxisMentions(vs, i, axes[i].values[0]);
      var g :| Mentions(vs, g) && SameSubject(f, g) && Grants(facts, g);
      SameKey(f, g);
      GrantsIff(facts, g);
      MentionedOnAxis(vs, g);
      AxisIndexUnique(axes, i);
    }
  }

  /** The coverage check in terms of callers alone: below the tuple limit it accepts exactly the
      generators of which every foreseen caller meets exactly one variant. */
  lemma AcceptsIsOneMet(vs: seq<Variant>)
    ensures vs != [] && TupleCount(AxesOf(vs)) <= MAX_TUPLES ==> (Accepts(vs) <==> OneAlwaysMet(vs))
  {
    if vs != [] && TupleCount(AxesOf(vs)) <= MAX_TUPLES {
      AcceptsIsOneMetWithin(vs);
    }
  }

  lemma AcceptsIsOneMetWithin(vs: seq<Variant>)
    requires vs != [] && TupleCount(AxesOf(vs)) <= MAX_TUPLES
    ensures Accepts(vs) <==> OneAlwaysMet(vs)
  {
    hide AxesOf, Listed, Foreseen, CountDispatching, Meeting, Accepts, TupleCount;
    AcceptsIsUniqueDispatch(vs);
    forall facts
      ensures Listed(AxesOf(vs), facts) <==> Foreseen(vs, facts)
      ensures CountDispatching(vs, facts) == |Meeting(vs, facts)|
    {
      if Listed(AxesOf(vs), facts) {
        ListedIsForeseen(vs, facts);
      }
      if Foreseen(vs, facts) {
        ForeseenIsListed(vs, facts);
      }
      CountIsSize(vs, facts);
    }
  }

  /** ASCII case folding, as strcasecmp compares. */
  function ToLower(c: char): char {
    if 'A' <= c <= 'Z' then (c as int + 32) as char else c
  }

  predicate SameIgnoringCase(a: string, b: string) {
    |a| == |b| && forall i :: 0 <= i < |a| ==> ToLower(a[i]) == ToLower(b[i])
  }

  /** The template of the first entry for a backend. */
  function FindTemplate(maps: seq<MapEntry>, backend: string): Option<string> {
    if maps == [] then None
    else if SameIgnoringCase(maps[0].backend, backend) then Some(maps[0].template)
    else FindTemplate(maps[1..], backend)
  }

  /** The same letter in either case, or the same character. */
  predicate SameLetter(c: char, d: char) {
    c == d || ('A' <= c <= 'Z' && d as int == c as int + 32) || ('A' <= d <= 'Z' && c as int == d as int + 32)
  }

  predicate NamesBackend(m: MapEntry, backend: string) {
    |m.backend| == |backend| && forall i :: 0 <= i < |backend| ==> SameLetter(m.backend[i], backend[i])
  }

  /** r is the template of the first entry that names the back end, None without one. */
  predicate IsTemplateFor(maps: seq<MapEntry>, backend: string, r: Option<string>) {
    match r
    case None => forall j :: 0 <= j < |maps| ==> !NamesBackend(maps[j], backend)
    case Some(text) =>
      exists i :: 0 <= i < |maps| && NamesBackend(maps[i], backend) && maps[i].template == text
                  && forall j :: 0 <= j < i ==> !NamesBackend(maps[j], backend)
  }

  lemma {:induction false} FoundTemplate(maps: seq<MapEntry>, backend: string)
    ensures IsTemplateFor(maps, backend, FindTemplate(maps, backend))
  {
    if maps != [] {
      assert SameIgnoringCase(maps[0].backend, backend) <==> NamesBackend(maps[0], backend);
      var rest := maps[1..];
      FoundTemplate(rest, backend);
      hide SameIgnoringCase, NamesBackend;
      assert forall j :: 0 <= j < |rest| ==> rest[j] == maps[j + 1];
      if !SameIgnoringCase(maps[0].backend, backend) && FindTemplate(rest, backend).Some? {
        var i :| 0 <= i < |rest| && NamesBackend(rest[i], backend)
                 && rest[i].template == FindTemplate(rest, backend).value
                 && forall j :: 0 <= j < i ==> !NamesBackend(rest[j], backend);
        assert NamesBackend(maps[i + 1], backend);
        forall j | 0 <= j < i + 1 ensures !NamesBackend(maps[j], backend) {
          assert j > 0 ==> maps[j] == rest[j - 1];
        }
      }
    }
  }

  method LookupTemplate(maps: seq<MapEntry>, backend: string) returns (r: Option<string>)
    ensures r == FindTemplate(maps, backend) && IsTemplateFor(maps, backend, r)
  {
    FoundTemplate(maps, backend);
    hide IsTemplateFor;
    assert maps[0..] == maps;
    for j := 0 to |maps|
      invariant FindTemplate(maps, backend) == FindTemplate(maps[j..], backend)
    {
      assert maps[j..][1..] == maps[j + 1..];
      if SameIgnoringCase(maps[j].backend, backend) {
        return Some(maps[j].template);
      }
    }
    return None;
  }

  /** jz_chip_clock_gen_map_for_facts, for a generator that was found: the template of the one variant
      that dispatches, and how many did. A generator with a flat map has that map instead. */
  method MapForFacts(vs: seq<Variant>, flat: seq<MapEntry>, backend: string, facts: Option<CallerFacts>)
    returns (template: Option<string>, matches: nat)
    ensures vs == [] ==> template == FindTemplate(flat, backend) && matches == if template.Some? then 1 else 0
    ensures vs != [] ==> matches == CountDispatching(vs, facts)
    ensures vs != [] && matches != 1 ==> template == None
    ensures vs != [] && matches == 1 ==>
              exists i :: 0 <= i < |vs| && Dispatches(vs[i], facts) && template == FindTemplate(vs[i].maps, backend)
    ensures vs == [] ==> IsTemplateFor(flat, backend, template)
    ensures vs != [] ==> matches == |Meeting(vs, facts)|
    ensures vs != [] && matches == 1 ==>
              exists i :: 0 <= i < |vs| && Meets(facts, vs[i]) && IsTemplateFor(vs[i].maps, backend, template)
  {
    hide Dispatches, Meets, FindTemplate, IsTemplateFor, Meeting;
    CountIsSize(vs, facts);
    if |vs| == 0 {
      template := LookupTemplate(flat, backend);
      return template, if template.Some? then 1 else 0;
    }
    var chosen := 0;
    matches := 0;
    for vi := 0 to |vs|
      invariant matches == CountDispatching(vs[..vi], facts)
      invariant matches > 0 ==> chosen < vi && Dispatches(vs[chosen], facts)
    {
      assert vs[..vi + 1][..vi] == vs[..vi];
      var ok := DispatchesOn(vs[vi], facts);
      if ok {
        if matches == 0 {
          chosen := vi;
        }
        matches := matches + 1;
      }
    }
    assert vs[..|vs|] == vs;
    if matches != 1 {
      return None, matches;
    }
    template := LookupTemplate(vs[chosen].maps, backend);
    DispatchesIff(vs[chosen], facts);
  }

  method DispatchesOn(v: Variant, facts: Option<CallerFacts>) returns (ok: bool)
    ensures ok == Dispatches(v, facts) == Meets(facts, v)
  {
    DispatchesIff(v, facts);
    for fi := 0 to |v.facts|
      invariant forall i :: 0 <= i < fi ==> Got(facts, Key(v.facts[i])) == Value(v.facts[i])
    {
      var got: FactValue;
      match v.facts[fi] {
        case InputSource(name, _) =>
          var text := "";
          if facts.Some? {
            text := LookupSource(facts.value.inputs, name);
          }
          got := Source(text);
        case OutputCount(_) =>
          got := Count(if facts.Some? then facts.value.outputCount else 0);
      }
      if got != Value(v.facts[fi]) {
        return false;
      }
    }
    return true;
  }

  method LookupSource(inputs: seq<InputFact>, name: string) returns (text: string)
    ensures text == SourceFor(inputs, name) && SourceIs(inputs, name, text)
  {
    SourceForIs(inputs, name, SourceFor(inputs, name));
    hide SourceIs;
    assert inputs[0..] == inputs;
    for ii := 0 to |inputs|
      invariant SourceFor(inputs, name) == SourceFor(inputs[ii..], name)
    {
      assert inputs[ii..][1..] == inputs[ii + 1..];
      if inputs[ii].inputName == Some(name) {
        return if inputs[ii].source.Some? then inputs[ii].source.value else "";
      }
    }
    return "";
  }

  /** The one variant an accepted generator has for listed facts: any two that dispatch are the same. */
  lemma {:induction false} SingleDispatch(vs: seq<Variant>, facts: Option<CallerFacts>, i: nat, j: nat)
    requires CountDispatching(vs, facts) <= 1
    requires i < |vs| && j < |vs| && Dispatches(vs[i], facts) && Dispatches(vs[j], facts)
    ensures i == j
  {
    var last := |vs| - 1;
    if i < last && j < last {
      SingleDispatch(vs[..last], facts, i, j);
    } else if i < last {
      DispatchCounted(vs[..last], facts, i);
    } else if j < last {
      DispatchCounted(vs[..last], facts, j);
    }
  }

  lemma {:induction false} DispatchCounted(vs: seq<Variant>, facts: Option<CallerFacts>, i: nat)
    requires i < |vs| && Dispatches(vs[i], facts)
    ensures CountDispatching(vs, facts) >= 1
  {
    if i < |vs| - 1 {
      DispatchCounted(vs[..|vs| - 1], facts, i);
    }
  }
}
