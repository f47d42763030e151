// compiler/src/diagnostic.c: ordering, per-line selection and duplicate removal of diagnostics.
module Diagnostics {
  import opened Text

  const NOTE := 0
  const WARNING := 1
  const ERROR := 2

  datatype Diagnostic = Diagnostic(
    filename: Option<string>, line: int, column: int, severity: int, code: Option<string>, message: string)

  /** What the rule table knows about a code. */
  datatype Rule = Rule(isInfo: bool, group: Option<string>, priority: int)
  type Rules = map<string, Rule>

  // ---- strcmp ----

  /** Negative, zero or positive as a sorts before, equals or sorts behind b. */
  function StrCompare(a: string, b: string): int {
    if a == [] && b == [] then 0
    else if a == [] then -1
    else if b == [] then 1
    else if a[0] != b[0] then (if a[0] < b[0] then -1 else 1)
    else StrCompare(a[1..], b[1..])
  }

  lemma {:induction false} StrCompareEqual(a: string, b: string)
    ensures StrCompare(a, b) == 0 <==> a == b
    ensures StrCompare(b, a) == -StrCompare(a, b)
  {
    if a != [] && b != [] {
      StrCompareEqual(a[1..], b[1..]);
      assert a == [a[0]] + a[1..] && b == [b[0]] + b[1..];
    }
  }

  lemma {:induction false} StrCompareTransitive(a: string, b: string, c: string)
    requires StrCompare(a, b) <= 0 && StrCompare(b, c) <= 0
    ensures StrCompare(a, c) <= 0
    ensures StrCompare(a, c) == 0 ==> a == b == c
  {
    if a != [] && b != [] && c != [] {
      if a[0] == b[0] == c[0] {
        StrCompareTransitive(a[1..], b[1..], c[1..]);
        assert a == [a[0]] + a[1..] && b == [b[0]] + b[1..] && c == [c[0]] + c[1..];
      }
    }
  }

  // ---- The order of rendering ----

  function FileOf(d: Diagnostic): string {
    if d.filename.Some? then d.filename.value else "<input>"
  }

  function PriorityOf(d: Diagnostic, rules: Rules): int {
    if d.code.Some? && d.code.value in rules then rules[d.code.value].priority else 0
  }

  function RankOf(d: Diagnostic): int {
    if d.severity < NOTE then NOTE else if d.severity > ERROR then ERROR else d.severity
  }

  /** The diagnostic's rule is informational. */
  predicate IsInfo(d: Diagnostic, rules: Rules) {
    d.code.Some? && d.code.value in rules && rules[d.code.value].isInfo
  }

  /** compare_diag_location. */
  function CompareLocation(a: Diagnostic, b: Diagnostic): int {
    var c := StrCompare(FileOf(a), FileOf(b));
    if c != 0 then c
    else if a.line != b.line then (if a.line < b.line then -1 else 1)
    else if a.column != b.column then (if a.column < b.column then -1 else 1)
    else 0
  }

  /** compare_diag_ptrs, on positions in report order: location, then higher priority first, then
      report order. */
  predicate Before(ds: seq<Diagnostic>, rules: Rules, i: nat, j: nat)
    requires i < |ds| && j < |ds|
  {
    var c := CompareLocation(ds[i], ds[j]);
    if c != 0 then c < 0
    else
      var p, q := PriorityOf(ds[i], rules), PriorityOf(ds[j], rules);
      if p != q then p > q else i < j
  }

  predicate SameLine(a: Diagnostic, b: Diagnostic) {
    FileOf(a) == FileOf(b) && a.line == b.line
  }

  lemma CompareLocationTransitive(a: Diagnostic, b: Diagnostic, c: Diagnostic)
    requires CompareLocation(a, b) <= 0 && CompareLocation(b, c) <= 0
    ensures CompareLocation(a, c) <= 0
    ensures CompareLocation(a, c) == 0 ==> CompareLocation(a, b) == 0 && CompareLocation(b, c) == 0
    ensures SameLine(a, c) ==> SameLine(a, b)
  {
    StrCompareEqual(FileOf(a), FileOf(b));
    StrCompareEqual(FileOf(b), FileOf(c));
    StrCompareEqual(FileOf(a), FileOf(c));
    StrCompareTransitive(FileOf(a), FileOf(b), FileOf(c));
  }

  lemma CompareLocationSymmetric(a: Diagnostic, b: Diagnostic)
    ensures CompareLocation(b, a) == -CompareLocation(a, b)
  {
    StrCompareEqual(FileOf(a), FileOf(b));
  }

  /** The comparator is a strict total order, so every correct sort gives the same result. */
  lemma BeforeIsTotal(ds: seq<Diagnostic>, rules: Rules, i: nat, j: nat)
    requires i < |ds| && j < |ds|
    ensures i != j ==> (Before(ds, rules, i, j) <==> !Before(ds, rules, j, i))
    ensures !Before(ds, rules, i, i)
  {
    CompareLocationSymmetric(ds[i], ds[j]);
    CompareLocationSymmetric(ds[i], ds[i]);
  }

  lemma BeforeIsTransitive(ds: seq<Diagnostic>, rules: Rules, i: nat, j: nat, k: nat)
    requires i < |ds| && j < |ds| && k < |ds|
    requires Before(ds, rules, i, j) && Before(ds, rules, j, k)
    ensures Before(ds, rules, i, k)
  {
    hide CompareLocation;
    CompareLocationTransitive(ds[i], ds[j], ds[k]);
  }

  /** The positions of all diagnostics, each once, in rendering order. */
  predicate IsOrder(ds: seq<Diagnostic>, rules: Rules, order: seq<nat>) {
    && (forall k :: 0 <= k < |order| ==> order[k] < |ds|)
    && (forall i :: 0 <= i < |ds| ==> i in order)
    && (forall k, l :: 0 <= k < l < |order| ==> Before(ds, rules, order[k], order[l]))
  }

  /** Sorted prefixes: of two orders over the same positions neither can start differently. */
  lemma {:induction false} SortedUnique(ds: seq<Diagnostic>, rules: Rules, a: seq<nat>, b: seq<nat>)
    requires forall k :: 0 <= k < |a| ==> a[k] < |ds|
    requires forall k :: 0 <= k < |b| ==> b[k] < |ds|
    requires forall k, l :: 0 <= k < l < |a| ==> Before(ds, rules, a[k], a[l])
    requires forall k, l :: 0 <= k < l < |b| ==> Before(ds, rules, b[k], b[l])
    requires forall i :: i in a <==> i in b
    ensures a == b
  {
    hide Before;
    assert a != [] ==> a[0] in a;
    assert b != [] ==> b[0] in b;
    if a != [] && b != [] {
      if a[0] != b[0] {
        var k :| 0 <= k < |b| && b[k] == a[0];
        var l :| 0 <= l < |a| && a[l] == b[0];
        BeforeIsTotal(ds, rules, a[0], b[0]);
      }
      forall i ensures i in a[1..] <==> i in b[1..] {
        SortedTail(ds, rules, a, i);
        SortedTail(ds, rules, b, i);
      }
      SortedUnique(ds, rules, a[1..], b[1..]);
      assert a == [a[0]] + a[1..] && b == [b[0]] + b[1..];
    }
  }

  lemma SortedTail(ds: seq<Diagnostic>, rules: Rules, a: seq<nat>, i: nat)
    requires a != [] && forall k :: 0 <= k < |a| ==> a[k] < |ds|
    requires forall k, l :: 0 <= k < l < |a| ==> Before(ds, rules, a[k], a[l])
    ensures i in a[1..] <==> i in a && i != a[0]
  {
    hide Before;
    BeforeIsTotal(ds, rules, a[0], a[0]);
    if i in a && i != a[0] {
      var k :| 0 <= k < |a| && a[k] == i;
      assert a[1..][k - 1] == i;
    }
    if i in a[1..] {
      var k :| 0 <= k < |a| - 1 && a[1..][k] == i;
      assert Before(ds, rules, a[0], a[k + 1]);
    }
  }

  /** Rendering order does not depend on the sort: any two orders are the same. */
  lemma OrderUnique(ds: seq<Diagnostic>, rules: Rules, a: seq<nat>, b: seq<nat>)
    requires IsOrder(ds, rules, a) && IsOrder(ds, rules, b)
    ensures a == b
  {
    hide Before;
    forall i ensures i in a <==> i in b {
    }
    SortedUnique(ds, rules, a, b);
  }

  // ---- The order in plain terms ----

  /** One text comes first in the dictionary order of its characters, or they are the same. */
  predicate TextAtMost(a: string, b: string) {
    a <= b || exists k :: 0 <= k < |a| && k < |b| && a[..k] == b[..k] && a[k] < b[k]
  }

  /** Diagnostic i is rendered ahead of diagnostic j: by file name, line, column, falling priority, which is
      0 without a code or a rule for it, and report order. */
  predicate RendersAhead(ds: seq<Diagnostic>, rules: Rules, i: nat, j: nat)
    requires i < |ds| && j < |ds|
  {
    var a, b := ds[i], ds[j];
    var f := if a.filename.Some? then a.filename.value else "<input>";
    var g := if b.filename.Some? then b.filename.value else "<input>";
    var p := if a.code.Some? && a.code.value in rules then rules[a.code.value].priority else 0;
    var q := if b.code.Some? && b.code.value in rules then rules[b.code.value].priority else 0;
    && TextAtMost(f, g)
    && (f == g ==> a.line <= b.line)
    && (f == g && a.line == b.line ==> a.column <= b.column)
    && (f == g && a.line == b.line && a.column == b.column ==> p >= q)
    && (f == g && a.line == b.line && a.column == b.column && p == q ==> i < j)
  }

  /** Every position of the list is rendered ahead of all later ones. */
  predicate Renders(ds: seq<Diagnostic>, rules: Rules, order: seq<nat>) {
    && (forall k :: 0 <= k < |order| ==> order[k] < |ds|)
    && forall k, l :: 0 <= k < l < |order| ==> RendersAhead(ds, rules, order[k], order[l])
  }

  lemma {:induction false} StrCompareIsTextOrder(a: string, b: string)
    requires StrCompare(a, b) <= 0
    ensures TextAtMost(a, b)
  {
    if a != [] && b != [] && a[0] == b[0] {
      StrCompareIsTextOrder(a[1..], b[1..]);
      assert a == [a[0]] + a[1..] && b == [b[0]] + b[1..];
      if !(a[1..] <= b[1..]) {
        var k :| 0 <= k < |a[1..]| && k < |b[1..]| && a[1..][..k] == b[1..][..k] && a[1..][k] < b[1..][k];
        assert a[..k + 1] == [a[0]] + a[1..][..k] && b[..k + 1] == [b[0]] + b[1..][..k];
        assert a[k + 1] < b[k + 1];
      }
    } else if a != [] {
      assert a[..0] == b[..0];
    }
  }

  lemma BeforeRendersAhead(ds: seq<Diagnostic>, rules: Rules, i: nat, j: nat)
    requires i < |ds| && j < |ds| && Before(ds, rules, i, j)
    ensures RendersAhead(ds, rules, i, j)
  {
    var f, g := FileOf(ds[i]), FileOf(ds[j]);
    StrCompareEqual(f, g);
    StrCompareIsTextOrder(f, g);
    hide TextAtMost, StrCompare;
  }

  lemma OrderRenders(ds: seq<Diagnostic>, rules: Rules, order: seq<nat>)
    requires IsOrder(ds, rules, order)
    ensures Renders(ds, rules, order)
  {
    hide RendersAhead, Before;
    forall k, l | 0 <= k < l < |order| ensures RendersAhead(ds, rules, order[k], order[l]) {
      BeforeRendersAhead(ds, rules, order[k], order[l]);
    }
  }

  /** What is printed keeps the order. */
  lemma {:induction false} PrintedRenders(ds: seq<Diagnostic>, rules: Rules, showInfo: bool, order: seq<nat>)
    requires Renders(ds, rules, order)
    ensures Renders(ds, rules, Printed(ds, rules, showInfo, order))
  {
    hide RendersAhead, Shown;
    if order != [] {
      var init, last := order[..|order| - 1], order[|order| - 1];
      PrintedRenders(ds, rules, showInfo, init);
      var out := Printed(ds, rules, showInfo, init);
      forall k | 0 <= k < |out| ensures RendersAhead(ds, rules, out[k], last) {
        PrintedHas(ds, rules, showInfo, init, out[k]);
        var l :| 0 <= l < |init| && init[l] == out[k];
        assert order[l] == init[l];
      }
    }
  }

  /** The call of qsort with compare_diag_ptrs, by insertion. */
  method Sort(ds: seq<Diagnostic>, rules: Rules) returns (order: seq<nat>)
    ensures IsOrder(ds, rules, order) && |order| == |ds|
    ensures Renders(ds, rules, order)
  {
    hide Before, Renders;
    order := [];
    for i := 0 to |ds|
      invariant |order| == i && forall k :: 0 <= k < i ==> order[k] < i
      invariant forall j :: 0 <= j < i ==> j in order
      invariant forall k, l :: 0 <= k < l < i ==> Before(ds, rules, order[k], order[l])
    {
      var k := 0;
      while k < i && Before(ds, rules, order[k], i)
        invariant k <= i
        invariant forall l :: 0 <= l < k ==> Before(ds, rules, order[l], i)
      {
        k := k + 1;
      }
      forall l | k <= l < i ensures Before(ds, rules, i, order[l]) {
        BeforeIsTotal(ds, rules, i, order[k]);
        if l > k { BeforeIsTransitive(ds, rules, i, order[k], order[l]); }
      }
      ghost var before := order;
      order := order[..k] + [i] + order[k..];
      InsertedSorted(ds, rules, before, k, i);
    }
    OrderRenders(ds, rules, order);
  }

  lemma InsertedSorted(ds: seq<Diagnostic>, rules: Rules, order: seq<nat>, k: nat, i: nat)
    requires k <= |order| && i < |ds| && forall l :: 0 <= l < |order| ==> order[l] < |ds|
    requires forall l, m :: 0 <= l < m < |order| ==> Before(ds, rules, order[l], order[m])
    requires forall l :: 0 <= l < k ==> Before(ds, rules, order[l], i)
    requires forall l :: k <= l < |order| ==> Before(ds, rules, i, order[l])
    ensures var now := order[..k] + [i] + order[k..];
            && (forall l :: 0 <= l < |now| ==> now[l] < |ds|)
            && (forall l, m :: 0 <= l < m < |now| ==> Before(ds, rules, now[l], now[m]))
            && (forall j :: j in order ==> j in now) && i in now
  {
    hide Before;
    var now := order[..k] + [i] + order[k..];
    assert forall l :: 0 <= l < |now| ==> now[l] == if l < k then order[l] else if l == k then i else order[l - 1];
    forall j | j in order ensures j in now {
      var l :| 0 <= l < |order| && order[l] == j;
      assert now[if l < k then l else l + 1] == j;
    }
  }

  // ---- What a line shows ----

  /** The highest priority of its line, which is never below 0. */
  predicate TopOfLine(ds: seq<Diagnostic>, rules: Rules, i: nat)
    requires i < |ds|
  {
    && PriorityOf(ds[i], rules) >= 0
    && forall j :: 0 <= j < |ds| && SameLine(ds[i], ds[j]) ==> PriorityOf(ds[j], rules) <= PriorityOf(ds[i], rules)
  }

  predicate IsErrorRank(d: Diagnostic) { d.severity >= ERROR }

  /** An error with the highest priority of the errors of its line, which is never below -1. */
  predicate TopError(ds: seq<Diagnostic>, rules: Rules, i: nat)
    requires i < |ds|
  {
    && IsErrorRank(ds[i])
    && PriorityOf(ds[i], rules) >= -1
    && forall j :: 0 <= j < |ds| && SameLine(ds[i], ds[j]) && IsErrorRank(ds[j]) ==>
                     PriorityOf(ds[j], rules) <= PriorityOf(ds[i], rules)
  }

  predicate Selected(ds: seq<Diagnostic>, rules: Rules, i: nat)
    requires i < |ds|
  {
    TopOfLine(ds, rules, i) || TopError(ds, rules, i)
  }

  /** Same line, column, code and message. */
  predicate SameClass(a: Diagnostic, b: Diagnostic) {
    SameLine(a, b) && a.column == b.column && a.code == b.code && a.message == b.message
  }

  /** A selected diagnostic of the same class is rendered earlier. */
  predicate Repeats(ds: seq<Diagnostic>, rules: Rules, i: nat)
    requires i < |ds|
  {
    exists j :: 0 <= j < |ds| && Before(ds, rules, j, i) && SameClass(ds[j], ds[i]) && Selected(ds, rules, j)
  }

  /** What is printed: the selected diagnostics without repetitions, less informational rules when those
      are hidden. */
  predicate Shown(ds: seq<Diagnostic>, rules: Rules, showInfo: bool, i: nat)
    requires i < |ds|
  {
    Selected(ds, rules, i) && !Repeats(ds, rules, i) && (showInfo || !IsInfo(ds[i], rules))
  }

  /** The part of an order that is printed. */
  function Printed(ds: seq<Diagnostic>, rules: Rules, showInfo: bool, order: seq<nat>): seq<nat>
    requires forall k :: 0 <= k < |order| ==> order[k] < |ds|
  {
    if order == [] then []
    else
      var last := |order| - 1;
      Printed(ds, rules, showInfo, order[..last])
      + if Shown(ds, rules, showInfo, order[last]) then [order[last]] else []
  }

  lemma {:induction false} PrintedHas(ds: seq<Diagnostic>, rules: Rules, showInfo: bool, order: seq<nat>, i: nat)
    requires forall k :: 0 <= k < |order| ==> order[k] < |ds|
    ensures i in Printed(ds, rules, showInfo, order) <==> i in order && i < |ds| && Shown(ds, rules, showInfo, i)
  {
    hide Shown;
    if order != [] {
      PrintedHas(ds, rules, showInfo, order[..|order| - 1], i);
      assert order == order[..|order| - 1] + [order[|order| - 1]];
    }
  }

  /** Every selected class of a line has a first member, and that one does not repeat. */
  lemma {:induction false} FirstOfClass(ds: seq<Diagnostic>, rules: Rules, order: seq<nat>, k: nat) returns (j: nat)
    requires IsOrder(ds, rules, order) && k < |order| && Selected(ds, rules, order[k])
    ensures j < |ds| && SameClass(ds[j], ds[order[k]]) && Selected(ds, rules, j) && !Repeats(ds, rules, j)
  {
    hide Before, Selected, CompareLocation;
    if Repeats(ds, rules, order[k]) {
      var i :| 0 <= i < |ds| && Before(ds, rules, i, order[k]) && SameClass(ds[i], ds[order[k]])
               && Selected(ds, rules, i);
      assert i in order;
      var l :| 0 <= l < |order| && order[l] == i;
      BeforeIsTotal(ds, rules, i, order[k]);
      BeforeIsTotal(ds, rules, i, i);
      assert l < k;
      j := FirstOfClass(ds, rules, order, l);
    } else {
      j := order[k];
    }
  }

  /** A class of which some diagnostic is selected is printed by exactly one of its members, unless its
      rule is informational and those are hidden; then by none. */
  lemma OnePerClass(ds: seq<Diagnostic>, rules: Rules, showInfo: bool, order: seq<nat>, i: nat)
    requires IsOrder(ds, rules, order) && i < |ds| && Selected(ds, rules, i)
    ensures (exists j :: 0 <= j < |ds| && SameClass(ds[j], ds[i]) && Shown(ds, rules, showInfo, j))
       <==> showInfo || !IsInfo(ds[i], rules)
    ensures forall j, k | 0 <= j < |ds| && 0 <= k < |ds| && SameClass(ds[j], ds[i]) && SameClass(ds[k], ds[i]) ::
              Shown(ds, rules, showInfo, j) && Shown(ds, rules, showInfo, k) ==> j == k
  {
    hide Before, Selected;
    assert i in order;
    var at :| 0 <= at < |order| && order[at] == i;
    var first := FirstOfClass(ds, rules, order, at);
    if showInfo || !IsInfo(ds[i], rules) {
      assert Shown(ds, rules, showInfo, first);
    }
    forall j, k | 0 <= j < |ds| && 0 <= k < |ds| && SameClass(ds[j], ds[i]) && SameClass(ds[k], ds[i])
                  && Shown(ds, rules, showInfo, j) && Shown(ds, rules, showInfo, k)
      ensures j == k
    {
      BeforeIsTotal(ds, rules, j, k);
    }
  }

  /** A line with an error has an error of highest priority, when no priority is below -1. */
  lemma {:induction false} TopErrorExists(ds: seq<Diagnostic>, rules: Rules, i: nat, n: nat) returns (top: nat)
    requires i < |ds| && n <= |ds| && IsErrorRank(ds[i])
    ensures top < |ds| && SameLine(ds[i], ds[top]) && IsErrorRank(ds[top])
    ensures PriorityOf(ds[i], rules) <= PriorityOf(ds[top], rules)
    ensures forall j :: 0 <= j < n && SameLine(ds[i], ds[j]) && IsErrorRank(ds[j]) ==>
                          PriorityOf(ds[j], rules) <= PriorityOf(ds[top], rules)
  {
    if n == 0 {
      top := i;
    } else {
      top := TopErrorExists(ds, rules, i, n - 1);
      var d := ds[n - 1];
      if SameLine(ds[i], d) && IsErrorRank(d) && PriorityOf(d, rules) > PriorityOf(ds[top], rules) {
        top := n - 1;
      }
    }
  }

  /** Hidden are the informational rules, unless they are asked for. */
  predicate IsHidden(d: Diagnostic, rules: Rules, showInfo: bool) { !showInfo && IsInfo(d, rules) }

  // ---- Which errors are printed as errors ----

  /** The class of diagnostic i is printed by an error. */
  predicate PrintsError(ds: seq<Diagnostic>, rules: Rules, showInfo: bool, i: nat)
    requires i < |ds|
  {
    exists k :: 0 <= k < |ds| && SameClass(ds[k], ds[i]) && IsErrorRank(ds[k]) && Shown(ds, rules, showInfo, k)
  }

  /** No diagnostic of the class of i that is not an error was reported before all errors of the class. */
  predicate ErrorReportedFirst(ds: seq<Diagnostic>, i: nat)
    requires i < |ds|
  {
    forall k :: 0 <= k < |ds| && SameClass(ds[k], ds[i]) && !IsErrorRank(ds[k]) ==>
                  exists e :: 0 <= e < k && SameClass(ds[e], ds[i]) && IsErrorRank(ds[e])
  }

  /** Diagnostics of one class render in report order, and are tops of their line together. */
  lemma WithinClass(ds: seq<Diagnostic>, rules: Rules, j: nat, k: nat)
    requires j < |ds| && k < |ds| && SameClass(ds[j], ds[k])
    ensures Before(ds, rules, j, k) <==> j < k
    ensures TopOfLine(ds, rules, j) <==> TopOfLine(ds, rules, k)
    ensures IsErrorRank(ds[j]) && IsErrorRank(ds[k]) ==> (TopError(ds, rules, j) <==> TopError(ds, rules, k))
    ensures IsHidden(ds[j], rules, false) <==> IsHidden(ds[k], rules, false)
  {
    StrCompareEqual(FileOf(ds[j]), FileOf(ds[k]));
    assert PriorityOf(ds[j], rules) == PriorityOf(ds[k], rules);
    hide PriorityOf, IsErrorRank;
  }

  /** A selected error whose class is printed by an error: that one, or one reported before it, comes
      first of the selected members. */
  lemma ErrorFirstSuffices(ds: seq<Diagnostic>, rules: Rules, showInfo: bool, order: seq<nat>, i: nat)
    requires IsOrder(ds, rules, order) && i < |ds| && TopError(ds, rules, i)
    requires !IsHidden(ds[i], rules, showInfo)
    requires TopOfLine(ds, rules, i) ==> ErrorReportedFirst(ds, i)
    ensures PrintsError(ds, rules, showInfo, i)
  {
    hide Before, TopOfLine, TopError, IsErrorRank;
    assert i in order;
    var at :| 0 <= at < |order| && order[at] == i;
    var first := FirstOfClass(ds, rules, order, at);
    WithinClass(ds, rules, first, i);
    if !IsErrorRank(ds[first]) {
      TopErrorIsError(ds, rules, first);
      var e :| 0 <= e < first && SameClass(ds[e], ds[i]) && IsErrorRank(ds[e]);
      WithinClass(ds, rules, e, first);
      assert false;
    }
    assert Shown(ds, rules, showInfo, first);
  }

  lemma TopErrorIsError(ds: seq<Diagnostic>, rules: Rules, i: nat)
    requires i < |ds|
    ensures TopError(ds, rules, i) ==> IsErrorRank(ds[i])
  {
  }

  lemma ErrorFirstNeeded(ds: seq<Diagnostic>, rules: Rules, showInfo: bool, i: nat)
    requires i < |ds| && TopError(ds, rules, i) && PrintsError(ds, rules, showInfo, i)
    ensures !IsHidden(ds[i], rules, showInfo)
    ensures TopOfLine(ds, rules, i) ==> ErrorReportedFirst(ds, i)
  {
    hide Before, TopOfLine, TopError, IsErrorRank;
    var e :| 0 <= e < |ds| && SameClass(ds[e], ds[i]) && IsErrorRank(ds[e]) && Shown(ds, rules, showInfo, e);
    WithinClass(ds, rules, e, i);
    if TopOfLine(ds, rules, i) {
      forall k | 0 <= k < |ds| && SameClass(ds[k], ds[i]) && !IsErrorRank(ds[k]) ensures e < k {
        WithinClass(ds, rules, k, i);
        WithinClass(ds, rules, k, e);
      }
    }
  }

  /** Exactly when a highest-priority error of its line is printed as an error: it is not hidden, and if
      its priority is also the highest of the whole line, nothing of its class but errors was reported
      before it. */
  lemma ErrorPrintedIff(ds: seq<Diagnostic>, rules: Rules, showInfo: bool, order: seq<nat>, i: nat)
    requires IsOrder(ds, rules, order) && i < |ds| && TopError(ds, rules, i)
    ensures PrintsError(ds, rules, showInfo, i)
       <==> !IsHidden(ds[i], rules, showInfo) && (TopOfLine(ds, rules, i) ==> ErrorReportedFirst(ds, i))
  {
    hide IsOrder, TopError, TopOfLine, PrintsError, ErrorReportedFirst, IsHidden;
    if PrintsError(ds, rules, showInfo, i) {
      ErrorFirstNeeded(ds, rules, showInfo, i);
    } else if !IsHidden(ds[i], rules, showInfo) && (TopOfLine(ds, rules, i) ==> ErrorReportedFirst(ds, i)) {
      ErrorFirstSuffices(ds, rules, showInfo, order, i);
      assert false;
    }
  }

  /** A class does not mix errors with others; severities that follow from the code give this. */
  predicate OneSeverityPerClass(ds: seq<Diagnostic>) {
    forall j, k :: 0 <= j < |ds| && 0 <= k < |ds| && SameClass(ds[j], ds[k]) ==>
                     IsErrorRank(ds[j]) == IsErrorRank(ds[k])
  }

  lemma SeverityByCode(ds: seq<Diagnostic>)
    requires forall j, k :: 0 <= j < |ds| && 0 <= k < |ds| && ds[j].code == ds[k].code ==>
                              ds[j].severity == ds[k].severity
    ensures OneSeverityPerClass(ds)
  {
  }

  /** No line with an error loses its errors of highest priority: there is one, and each of them that is
      not hidden is printed by an error of its class. */
  lemma ErrorsAreShown(ds: seq<Diagnostic>, rules: Rules, showInfo: bool, order: seq<nat>, i: nat) returns (top: nat)
    requires IsOrder(ds, rules, order) && i < |ds| && IsErrorRank(ds[i])
    requires PriorityOf(ds[i], rules) >= -1 && OneSeverityPerClass(ds)
    ensures top < |ds| && SameLine(ds[i], ds[top]) && TopError(ds, rules, top)
    ensures forall j :: 0 <= j < |ds| && TopError(ds, rules, j) && !IsHidden(ds[j], rules, showInfo) ==>
              PrintsError(ds, rules, showInfo, j)
  {
    top := TopErrorExists(ds, rules, i, |ds|);
    hide Before, TopOfLine, PrintsError, IsErrorRank, PriorityOf, IsHidden, SameClass, IsOrder;
    forall j | 0 <= j < |ds| && TopError(ds, rules, j) && !IsHidden(ds[j], rules, showInfo)
      ensures PrintsError(ds, rules, showInfo, j)
    {
      SameClassBack(ds[j]);
      assert forall k :: 0 <= k < |ds| && SameClass(ds[k], ds[j]) ==> IsErrorRank(ds[k]) by {
        forall k | 0 <= k < |ds| && SameClass(ds[k], ds[j]) ensures IsErrorRank(ds[k]) {
          assert SameClass(ds[j], ds[k]);
        }
      }
      ErrorPrintedIff(ds, rules, showInfo, order, j);
    }
  }

  lemma SameClassBack(d: Diagnostic)
    ensures forall x: Diagnostic :: SameClass(x, d) ==> SameClass(d, x)
  {
  }

  /** The condition of ErrorPrintedIff can fail: a code reported as a warning, then as an error with the
      same message at the same place, is printed as the warning only. */
  lemma MixedClassLosesError()
    ensures var rules := map["C" := Rule(false, None, 1)];
            var ds := [Diagnostic(None, 1, 1, WARNING, Some("C"), "m"), Diagnostic(None, 1, 1, ERROR, Some("C"), "m")];
            TopError(ds, rules, 1) && !PrintsError(ds, rules, false, 1)
  {
    var rules := map["C" := Rule(false, None, 1)];
    var ds := [Diagnostic(None, 1, 1, WARNING, Some("C"), "m"), Diagnostic(None, 1, 1, ERROR, Some("C"), "m")];
    assert SameClass(ds[0], ds[1]) && TopOfLine(ds, rules, 0);
    WithinClass(ds, rules, 0, 1);
    assert Repeats(ds, rules, 1);
  }

  // ---- Which lines are silent ----

  /** Something is printed for the line of diagnostic i. */
  predicate LineSpeaks(ds: seq<Diagnostic>, rules: Rules, showInfo: bool, i: nat)
    requires i < |ds|
  {
    exists k :: 0 <= k < |ds| && SameLine(ds[k], ds[i]) && Shown(ds, rules, showInfo, k)
  }

  /** Diagnostic j is visible, and no hidden one of its line outranks it: of all there, or, if j is an
      error, of the errors there. */
  predicate NotOutranked(ds: seq<Diagnostic>, rules: Rules, showInfo: bool, j: nat)
    requires j < |ds|
  {
    !IsHidden(ds[j], rules, showInfo) && (HoldsLine(ds, rules, showInfo, j) || HoldsErrors(ds, rules, showInfo, j))
  }

  predicate HoldsLine(ds: seq<Diagnostic>, rules: Rules, showInfo: bool, j: nat)
    requires j < |ds|
  {
    && PriorityOf(ds[j], rules) >= 0
    && forall k :: 0 <= k < |ds| && SameLine(ds[k], ds[j]) && IsHidden(ds[k], rules, showInfo) ==>
                     PriorityOf(ds[k], rules) <= PriorityOf(ds[j], rules)
  }

  predicate HoldsErrors(ds: seq<Diagnostic>, rules: Rules, showInfo: bool, j: nat)
    requires j < |ds|
  {
    && IsErrorRank(ds[j]) && PriorityOf(ds[j], rules) >= -1
    && forall k :: 0 <= k < |ds| && SameLine(ds[k], ds[j]) && IsHidden(ds[k], rules, showInfo) && IsErrorRank(ds[k]) ==>
                     PriorityOf(ds[k], rules) <= PriorityOf(ds[j], rules)
  }

  /** A visible diagnostic, and an error if only those count. */
  predicate Counts(d: Diagnostic, rules: Rules, showInfo: bool, errors: bool) {
    !IsHidden(d, rules, showInfo) && (errors ==> IsErrorRank(d))
  }

  /** None of the first n diagnostics that counts on the line of j has a higher priority than the result. */
  lemma {:induction false} VisibleMaximum(ds: seq<Diagnostic>, rules: Rules, showInfo: bool, j: nat, errors: bool,
                                          n: nat)
    returns (m: nat)
    requires j < |ds| && n <= |ds| && Counts(ds[j], rules, showInfo, errors)
    ensures m < |ds| && SameLine(ds[m], ds[j]) && Counts(ds[m], rules, showInfo, errors)
    ensures PriorityOf(ds[m], rules) >= PriorityOf(ds[j], rules)
    ensures forall k :: 0 <= k < n && SameLine(ds[k], ds[j]) && Counts(ds[k], rules, showInfo, errors) ==>
                          PriorityOf(ds[k], rules) <= PriorityOf(ds[m], rules)
  {
    hide PriorityOf, Counts;
    if n == 0 {
      m := j;
    } else {
      m := VisibleMaximum(ds, rules, showInfo, j, errors, n - 1);
      var d := ds[n - 1];
      if SameLine(d, ds[j]) && Counts(d, rules, showInfo, errors) && PriorityOf(d, rules) > PriorityOf(ds[m], rules) {
        m := n - 1;
      }
    }
  }

  /** The strongest visible diagnostic, or error, of the line is selected when some such diagnostic is not
      outranked. */
  lemma HolderIsSelected(ds: seq<Diagnostic>, rules: Rules, showInfo: bool, j: nat) returns (m: nat)
    requires j < |ds| && NotOutranked(ds, rules, showInfo, j)
    ensures m < |ds| && SameLine(ds[m], ds[j]) && !IsHidden(ds[m], rules, showInfo) && Selected(ds, rules, m)
  {
    hide PriorityOf, IsHidden, IsErrorRank;
    m := VisibleMaximum(ds, rules, showInfo, j, !HoldsLine(ds, rules, showInfo, j), |ds|);
  }

  lemma ShownIsNotOutranked(ds: seq<Diagnostic>, rules: Rules, showInfo: bool, k: nat)
    requires k < |ds| && Shown(ds, rules, showInfo, k)
    ensures NotOutranked(ds, rules, showInfo, k)
  {
    hide PriorityOf, IsErrorRank, Repeats, IsInfo;
    SameLineBack(ds[k]);
  }

  lemma SameLineBack(d: Diagnostic)
    ensures forall x: Diagnostic :: SameLine(x, d) ==> SameLine(d, x)
  {
  }

  lemma NotOutrankedSpeaks(ds: seq<Diagnostic>, rules: Rules, showInfo: bool, order: seq<nat>, j: nat)
    requires IsOrder(ds, rules, order) && j < |ds| && NotOutranked(ds, rules, showInfo, j)
    ensures LineSpeaks(ds, rules, showInfo, j)
  {
    hide Shown, Selected, NotOutranked, IsOrder;
    var m := HolderIsSelected(ds, rules, showInfo, j);
    OnePerClass(ds, rules, showInfo, order, m);
  }

  /** Exactly when a line prints anything: some visible diagnostic on it has a priority of at least 0 and
      at least that of every hidden one there, or is an error with a priority of at least -1 and at least
      that of every hidden error there. */
  lemma LineSpeaksIff(ds: seq<Diagnostic>, rules: Rules, showInfo: bool, order: seq<nat>, i: nat)
    requires IsOrder(ds, rules, order) && i < |ds|
    ensures LineSpeaks(ds, rules, showInfo, i)
       <==> exists j :: 0 <= j < |ds| && SameLine(ds[j], ds[i]) && NotOutranked(ds, rules, showInfo, j)
  {
    hide Shown, NotOutranked, IsOrder;
    if exists j :: 0 <= j < |ds| && SameLine(ds[j], ds[i]) && NotOutranked(ds, rules, showInfo, j) {
      var j :| 0 <= j < |ds| && SameLine(ds[j], ds[i]) && NotOutranked(ds, rules, showInfo, j);
      NotOutrankedSpeaks(ds, rules, showInfo, order, j);
    }
    if LineSpeaks(ds, rules, showInfo, i) {
      var k :| 0 <= k < |ds| && SameLine(ds[k], ds[i]) && Shown(ds, rules, showInfo, k);
      ShownIsNotOutranked(ds, rules, showInfo, k);
    }
  }

  /** With a rule table that has no negative priority and gives its informational rules priority 0, a line
      with a diagnostic of any other kind is never silent. */
  lemma NoLineIsSilent(ds: seq<Diagnostic>, rules: Rules, showInfo: bool, order: seq<nat>, i: nat)
    requires IsOrder(ds, rules, order) && i < |ds| && !IsInfo(ds[i], rules)
    requires forall code <- rules :: rules[code].priority >= 0 && (rules[code].isInfo ==> rules[code].priority == 0)
    ensures LineSpeaks(ds, rules, showInfo, i)
  {
    assert HoldsLine(ds, rules, showInfo, i);
    assert NotOutranked(ds, rules, showInfo, i);
    LineSpeaksIff(ds, rules, showInfo, order, i);
  }

  /** Without that, an informational rule above a warning silences the warning, and with it the line. */
  lemma WarningsCanVanish(rules: Rules, w: Diagnostic, n: Diagnostic)
    requires SameLine(w, n) && w.severity == WARNING && !IsInfo(w, rules)
    requires IsInfo(n, rules) && n.severity == NOTE && PriorityOf(n, rules) > PriorityOf(w, rules)
    ensures !LineSpeaks([w, n], rules, false, 0)
  {
    hide PriorityOf;
    var ds := [w, n];
    assert ds[0] == w && ds[1] == n;
    assert SameLine(ds[0], ds[1]);
    assert !Selected(ds, rules, 0) && !Shown(ds, rules, false, 1);
  }

  // ---- Rendering ----

  /** order[i..j] are exactly the diagnostics of one line. */
  predicate IsGroup(ds: seq<Diagnostic>, order: seq<nat>, i: nat, j: nat)
    requires forall k :: 0 <= k < |order| ==> order[k] < |ds|
  {
    && i < j <= |order|
    && forall k :: 0 <= k < |order| ==> (SameLine(ds[order[i]], ds[order[k]]) <==> i <= k < j)
  }

  /** In rendering order the diagnostics of a line are adjacent. */
  lemma Adjacent(ds: seq<Diagnostic>, rules: Rules, order: seq<nat>, a: nat, b: nat, c: nat)
    requires IsOrder(ds, rules, order) && a <= b <= c < |order| && SameLine(ds[order[a]], ds[order[c]])
    ensures SameLine(ds[order[a]], ds[order[b]])
  {
    if a < b < c {
      assert Before(ds, rules, order[a], order[b]) && Before(ds, rules, order[b], order[c]);
      hide CompareLocation;
      CompareLocationTransitive(ds[order[a]], ds[order[b]], ds[order[c]]);
    }
  }

  /** The end of the group that starts at i. */
  method GroupEnd(ds: seq<Diagnostic>, rules: Rules, order: seq<nat>, i: nat) returns (j: nat)
    requires IsOrder(ds, rules, order) && i < |order|
    requires forall a, b :: 0 <= a < i <= b < |order| ==> !SameLine(ds[order[a]], ds[order[b]])
    ensures IsGroup(ds, order, i, j)
    ensures forall a, b :: 0 <= a < j <= b < |order| ==> !SameLine(ds[order[a]], ds[order[b]])
  {
    hide Before;
    var base := ds[order[i]];
    j := i + 1;
    while j < |order| && SameLine(base, ds[order[j]])
      invariant i < j <= |order|
      invariant forall k :: i <= k < j ==> SameLine(base, ds[order[k]])
    {
      j := j + 1;
    }
    forall k | j <= k < |order| ensures !SameLine(base, ds[order[k]]) {
      if SameLine(base, ds[order[k]]) { Adjacent(ds, rules, order, i, j, k); }
    }
  }

  /** The two maxima of a group, from their floors 0 and -1. */
  method GroupMaxima(ds: seq<Diagnostic>, rules: Rules, order: seq<nat>, i: nat, j: nat)
    returns (maxPriority: int, maxErrorPriority: int)
    requires (forall k :: 0 <= k < |order| ==> order[k] < |ds|) && i < j <= |order|
    ensures IsMaximum(ds, rules, order[i..j], maxPriority) && IsErrorMaximum(ds, rules, order[i..j], maxErrorPriority)
  {
    maxPriority, maxErrorPriority := 0, -1;
    for k := i to j
      invariant IsMaximum(ds, rules, order[i..k], maxPriority)
      invariant IsErrorMaximum(ds, rules, order[i..k], maxErrorPriority)
    {
      var d := ds[order[k]];
      var p := PriorityOf(d, rules);
      assert order[i..k + 1] == order[i..k] + [order[k]];
      MaximaGrow(ds, rules, order[i..k], order[k], maxPriority, maxErrorPriority);
      if p > maxPriority {
        maxPriority := p;
      }
      if IsErrorRank(d) && p > maxErrorPriority {
        maxErrorPriority := p;
      }
    }
  }

  lemma MaximaGrow(ds: seq<Diagnostic>, rules: Rules, group: seq<nat>, x: nat, m: int, e: int)
    requires x < |ds| && forall k :: 0 <= k < |group| ==> group[k] < |ds|
    requires IsMaximum(ds, rules, group, m) && IsErrorMaximum(ds, rules, group, e)
    ensures var p := PriorityOf(ds[x], rules);
            && IsMaximum(ds, rules, group + [x], if p > m then p else m)
            && IsErrorMaximum(ds, rules, group + [x], if IsErrorRank(ds[x]) && p > e then p else e)
  {
    hide PriorityOf, IsErrorRank;
    var n := |group|;
    var now := group + [x];
    assert now[n] == x;
    assert forall k :: 0 <= k < n ==> now[k] == group[k];
    if m != 0 {
      var k :| 0 <= k < n && PriorityOf(ds[group[k]], rules) == m;
      assert PriorityOf(ds[now[k]], rules) == m;
    }
    if e != -1 {
      var k :| 0 <= k < n && IsErrorRank(ds[group[k]]) && PriorityOf(ds[group[k]], rules) == e;
      assert IsErrorRank(ds[now[k]]) && PriorityOf(ds[now[k]], rules) == e;
    }
  }

  predicate IsMaximum(ds: seq<Diagnostic>, rules: Rules, group: seq<nat>, m: int)
    requires forall k :: 0 <= k < |group| ==> group[k] < |ds|
  {
    && (m == 0 || exists k :: 0 <= k < |group| && PriorityOf(ds[group[k]], rules) == m)
    && m >= 0
    && forall k :: 0 <= k < |group| ==> PriorityOf(ds[group[k]], rules) <= m
  }

  predicate IsErrorMaximum(ds: seq<Diagnostic>, rules: Rules, group: seq<nat>, m: int)
    requires forall k :: 0 <= k < |group| ==> group[k] < |ds|
  {
    && (m == -1 || exists k :: 0 <= k < |group| && IsErrorRank(ds[group[k]]) && PriorityOf(ds[group[k]], rules) == m)
    && m >= -1
    && forall k :: 0 <= k < |group| && IsErrorRank(ds[group[k]]) ==> PriorityOf(ds[group[k]], rules) <= m
  }

  /** A group member's line is the group. */
  lemma LineIsGroup(ds: seq<Diagnostic>, rules: Rules, order: seq<nat>, i: nat, j: nat, k: nat)
    requires IsOrder(ds, rules, order) && IsGroup(ds, order, i, j) && i <= k < j
    ensures forall x :: 0 <= x < |ds| && SameLine(ds[order[k]], ds[x]) ==> x in order[i..j]
    ensures forall x <- order[i..j] :: x < |ds| && SameLine(ds[order[k]], ds[x])
  {
    hide Before;
    assert SameLine(ds[order[i]], ds[order[k]]);
    forall x | 0 <= x < |ds| && SameLine(ds[order[k]], ds[x]) ensures x in order[i..j] {
      assert x in order;
      var l :| 0 <= l < |order| && order[l] == x;
      assert SameLine(ds[order[i]], ds[order[l]]);
      assert order[i..j][l - i] == x;
    }
    forall x | x in order[i..j] ensures x < |ds| && SameLine(ds[order[k]], ds[x]) {
      var l :| 0 <= l < |order[i..j]| && order[i..j][l] == x;
      assert SameLine(ds[order[i]], ds[order[i + l]]);
    }
  }

  /** Within a group, the loop's test by the maxima is selection. */
  lemma GroupSelects(ds: seq<Diagnostic>, rules: Rules, order: seq<nat>, i: nat, j: nat, m: int, e: int, k: nat)
    requires IsOrder(ds, rules, order) && IsGroup(ds, order, i, j) && i <= k < j
    requires IsMaximum(ds, rules, order[i..j], m) && IsErrorMaximum(ds, rules, order[i..j], e)
    ensures var d := ds[order[k]];
            (PriorityOf(d, rules) == m || (IsErrorRank(d) && PriorityOf(d, rules) == e))
            <==> Selected(ds, rules, order[k])
  {
    LineIsGroup(ds, rules, order, i, j, k);
    hide PriorityOf, IsErrorRank, IsOrder, IsGroup, SameLine;
    var group := order[i..j];
    assert group[k - i] == order[k];
    assert forall l :: 0 <= l < |group| ==> group[l] in group;
  }

  /** The search for an earlier duplicate in the group finds a repetition. */
  lemma RepeatsInGroup(ds: seq<Diagnostic>, rules: Rules, order: seq<nat>, i: nat, j: nat, k: nat)
    requires IsOrder(ds, rules, order) && IsGroup(ds, order, i, j) && i <= k < j
    ensures Repeats(ds, rules, order[k])
       <==> exists l :: i <= l < k && SameClass(ds[order[l]], ds[order[k]]) && Selected(ds, rules, order[l])
  {
    hide Before, Selected;
    if Repeats(ds, rules, order[k]) {
      var x :| 0 <= x < |ds| && Before(ds, rules, x, order[k]) && SameClass(ds[x], ds[order[k]])
               && Selected(ds, rules, x);
      assert x in order;
      var l :| 0 <= l < |order| && order[l] == x;
      BeforeIsTotal(ds, rules, x, order[k]);
      BeforeIsTotal(ds, rules, x, x);
      assert SameLine(ds[order[i]], ds[order[k]]);
      assert SameLine(ds[order[i]], ds[order[l]]);
    }
  }

  /** The inner loop for a selected diagnostic at position k of the group that starts at i. */
  method IsDuplicate(ds: seq<Diagnostic>, rules: Rules, order: seq<nat>, i: nat, k: nat, maxPriority: int,
                     maxErrorPriority: int)
    returns (found: bool)
    requires (forall l :: 0 <= l < |order| ==> order[l] < |ds|) && i <= k < |order|
    requires forall l :: i <= l <= k ==> SameLine(ds[order[l]], ds[order[k]])
    requires forall l :: i <= l <= k ==>
               (IsTop(ds[order[l]], rules, maxPriority, maxErrorPriority) <==> Selected(ds, rules, order[l]))
    ensures found <==> exists l :: i <= l < k && SameClass(ds[order[l]], ds[order[k]]) && Selected(ds, rules, order[l])
  {
    hide Selected, IsTop;
    var d := ds[order[k]];
    for m := i to k
      invariant forall l :: i <= l < m ==> !(SameClass(ds[order[l]], d) && Selected(ds, rules, order[l]))
    {
      var prev := ds[order[m]];
      assert SameLine(prev, d);
      if IsTop(prev, rules, maxPriority, maxErrorPriority)
         && prev.column == d.column && prev.code == d.code && prev.message == d.message {
        return true;
      }
    }
    return false;
  }

  /** The loop's own test of a diagnostic against the maxima of its line. */
  predicate IsTop(d: Diagnostic, rules: Rules, maxPriority: int, maxErrorPriority: int) {
    PriorityOf(d, rules) == maxPriority || (IsErrorRank(d) && PriorityOf(d, rules) == maxErrorPriority)
  }

  /** One line: its printed diagnostics are appended. */
  method PrintGroup(ds: seq<Diagnostic>, rules: Rules, showInfo: bool, order: seq<nat>, i: nat, j: nat, out: seq<nat>)
    returns (out': seq<nat>)
    requires IsOrder(ds, rules, order) && IsGroup(ds, order, i, j)
    requires out == Printed(ds, rules, showInfo, order[..i])
    ensures out' == Printed(ds, rules, showInfo, order[..j])
  {
    hide Before, Selected, Repeats, IsTop, IsMaximum, IsErrorMaximum, SameLine, SameClass;
    out' := out;
    var m, e := GroupMaxima(ds, rules, order, i, j);
    forall l | i <= l < j ensures IsTop(ds[order[l]], rules, m, e) <==> Selected(ds, rules, order[l]) {
      TopIsSelected(ds, rules, order, i, j, m, e, l);
    }
    for k := i to j
      invariant out' == Printed(ds, rules, showInfo, order[..k])
    {
      var d := ds[order[k]];
      PrintedStep(ds, rules, showInfo, order, k);
      if IsTop(d, rules, m, e) {
        LineOfGroup(ds, order, i, j, k);
        RepeatsInGroup(ds, rules, order, i, j, k);
        var duplicate := IsDuplicate(ds, rules, order, i, k, m, e);
        if !duplicate && (showInfo || !IsInfo(d, rules)) {
          out' := out' + [order[k]];
        }
      }
    }
  }

  lemma TopIsSelected(ds: seq<Diagnostic>, rules: Rules, order: seq<nat>, i: nat, j: nat, m: int, e: int, k: nat)
    requires IsOrder(ds, rules, order) && IsGroup(ds, order, i, j) && i <= k < j
    requires IsMaximum(ds, rules, order[i..j], m) && IsErrorMaximum(ds, rules, order[i..j], e)
    ensures IsTop(ds[order[k]], rules, m, e) <==> Selected(ds, rules, order[k])
  {
    hide Before, Selected, IsMaximum, IsErrorMaximum, IsGroup;
    GroupSelects(ds, rules, order, i, j, m, e, k);
  }

  lemma LineOfGroup(ds: seq<Diagnostic>, order: seq<nat>, i: nat, j: nat, k: nat)
    requires (forall l :: 0 <= l < |order| ==> order[l] < |ds|) && IsGroup(ds, order, i, j) && i <= k < j
    ensures forall l :: i <= l <= k ==> SameLine(ds[order[l]], ds[order[k]])
  {
    assert SameLine(ds[order[i]], ds[order[k]]);
    forall l | i <= l <= k ensures SameLine(ds[order[l]], ds[order[k]]) {
      assert SameLine(ds[order[i]], ds[order[l]]);
    }
  }

  lemma PrintedStep(ds: seq<Diagnostic>, rules: Rules, showInfo: bool, order: seq<nat>, k: nat)
    requires (forall l :: 0 <= l < |order| ==> order[l] < |ds|) && k < |order|
    ensures Printed(ds, rules, showInfo, order[..k + 1])
         == Printed(ds, rules, showInfo, order[..k]) + if Shown(ds, rules, showInfo, order[k]) then [order[k]] else []
  {
    hide Shown;
    assert order[..k + 1][..k] == order[..k];
  }

  /** jz_diagnostic_print_all: the positions of the diagnostics in the order they are printed. */
  method PrintAll(ds: seq<Diagnostic>, rules: Rules, showInfo: bool) returns (out: seq<nat>, order: seq<nat>)
    ensures IsOrder(ds, rules, order) && out == Printed(ds, rules, showInfo, order)
    ensures Renders(ds, rules, out) && forall i :: i in out <==> 0 <= i < |ds| && Shown(ds, rules, showInfo, i)
  {
    hide Before, SameLine, Shown, Renders;
    out := [];
    order := Sort(ds, rules);
    PrintedRenders(ds, rules, showInfo, order);
    var i := 0;
    while i < |order|
      invariant i <= |order| && out == Printed(ds, rules, showInfo, order[..i])
      invariant forall a, b :: 0 <= a < i <= b < |order| ==> !SameLine(ds[order[a]], ds[order[b]])
      decreases |order| - i
    {
      var j := GroupEnd(ds, rules, order, i);
      out := PrintGroup(ds, rules, showInfo, order, i, j, out);
      i := j;
    }
    assert order[..|order|] == order;
    forall k: nat ensures k in out <==> k < |ds| && Shown(ds, rules, showInfo, k) {
      PrintedHas(ds, rules, showInfo, order, k);
    }
  }

  // ---- The warning policy ----

  datatype GroupOverride = GroupOverride(group: Option<string>, enabled: bool, severity: int)

  datatype WarningPolicy = WarningPolicy(warnAsError: bool, groups: seq<GroupOverride>)

  /** The override that decides for a group: the first that names it, whatever its severity. */
  function Deciding(groups: seq<GroupOverride>, group: string): Option<GroupOverride> {
    if groups == [] then None
    else if groups[0].group == Some(group) then Some(groups[0])
    else Deciding(groups[1..], group)
  }

  predicate Suppressed(d: Diagnostic, rules: Rules, groups: seq<GroupOverride>) {
    && d.code.Some? && d.code.value in rules && rules[d.code.value].group.Some?
    && var o := Deciding(groups, rules[d.code.value].group.value);
       o.Some? && o.value.severity == d.severity && !o.value.enabled
  }

  function Promote(d: Diagnostic, policy: WarningPolicy): Diagnostic {
    if policy.warnAsError && d.severity == WARNING then d.(severity := ERROR) else d
  }

  /** The diagnostics a policy leaves, in report order, warnings promoted if it says so. */
  function Remaining(ds: seq<Diagnostic>, rules: Rules, policy: WarningPolicy): seq<Diagnostic> {
    if ds == [] then []
    else
      var last := |ds| - 1;
      Remaining(ds[..last], rules, policy)
      + if Suppressed(ds[last], rules, policy.groups) then [] else [Promote(ds[last], policy)]
  }

  /** The first override that names the group of the diagnostic's rule disables the diagnostic's severity. */
  predicate DisabledBy(d: Diagnostic, rules: Rules, groups: seq<GroupOverride>) {
    && d.code.Some? && d.code.value in rules && rules[d.code.value].group.Some?
    && exists k :: 0 <= k < |groups| && groups[k].group == rules[d.code.value].group
                   && (forall l :: 0 <= l < k ==> groups[l].group != rules[d.code.value].group)
                   && groups[k].severity == d.severity && !groups[k].enabled
  }

  lemma {:induction false} DecidingIsFirst(groups: seq<GroupOverride>, group: string)
    ensures Deciding(groups, group).None? <==> forall k :: 0 <= k < |groups| ==> groups[k].group != Some(group)
    ensures Deciding(groups, group).Some? ==>
              exists k :: 0 <= k < |groups| && groups[k] == Deciding(groups, group).value
                          && groups[k].group == Some(group) && forall l :: 0 <= l < k ==> groups[l].group != Some(group)
  {
    if groups != [] && groups[0].group != Some(group) {
      var rest := groups[1..];
      DecidingIsFirst(rest, group);
      assert forall k :: 0 <= k < |rest| ==> rest[k] == groups[k + 1];
      if Deciding(rest, group).Some? {
        var k :| 0 <= k < |rest| && rest[k] == Deciding(rest, group).value
                 && rest[k].group == Some(group) && forall l :: 0 <= l < k ==> rest[l].group != Some(group);
        assert groups[k + 1] == rest[k];
        forall l | 0 <= l < k + 1 ensures groups[l].group != Some(group) {
          assert l > 0 ==> groups[l] == rest[l - 1];
        }
      }
    }
  }

  lemma SuppressedIff(d: Diagnostic, rules: Rules, groups: seq<GroupOverride>)
    ensures Suppressed(d, rules, groups) <==> DisabledBy(d, rules, groups)
  {
    if d.code.Some? && d.code.value in rules && rules[d.code.value].group.Some? {
      var group := rules[d.code.value].group.value;
      DecidingIsFirst(groups, group);
      hide Deciding;
      if DisabledBy(d, rules, groups) {
        var k :| 0 <= k < |groups| && groups[k].group == Some(group)
                 && (forall l :: 0 <= l < k ==> groups[l].group != Some(group))
                 && groups[k].severity == d.severity && !groups[k].enabled;
      }
    }
  }

  /** The loop over the overrides. */
  method TestSuppressed(d: Diagnostic, rules: Rules, groups: seq<GroupOverride>) returns (suppress: bool)
    ensures suppress == Suppressed(d, rules, groups) == DisabledBy(d, rules, groups)
  {
    SuppressedIff(d, rules, groups);
    hide DisabledBy;
    if d.code.None? || d.code.value !in rules || rules[d.code.value].group.None? {
      return false;
    }
    var group := rules[d.code.value].group.value;
    assert groups[0..] == groups;
    for g := 0 to |groups|
      invariant Deciding(groups, group) == Deciding(groups[g..], group)
    {
      assert groups[g..][1..] == groups[g + 1..];
      if groups[g].group == Some(group) {
        return groups[g].severity == d.severity && !groups[g].enabled;
      }
    }
    return false;
  }

  /** out is what the policy leaves of ds: those at the rising positions `at`, which are the ones that no
      override disables, with warnings turned into errors if the policy says so. */
  ghost predicate LeftAt(ds: seq<Diagnostic>, rules: Rules, policy: WarningPolicy, out: seq<Diagnostic>, at: seq<nat>) {
    && |at| == |out|
    && (forall k, l :: 0 <= k < l < |at| ==> at[k] < at[l])
    && (forall i :: i in at <==> 0 <= i < |ds| && !DisabledBy(ds[i], rules, policy.groups))
    && (forall k :: 0 <= k < |at| ==> at[k] < |ds|)
    && forall k :: 0 <= k < |out| ==>
                     var d := ds[at[k]];
                     out[k] == if policy.warnAsError && d.severity == WARNING then d.(severity := ERROR) else d
  }

  lemma {:induction false} RemainingIsLeft(ds: seq<Diagnostic>, rules: Rules, policy: WarningPolicy)
    returns (at: seq<nat>)
    ensures LeftAt(ds, rules, policy, Remaining(ds, rules, policy), at)
  {
    hide DisabledBy, Suppressed;
    at := [];
    if ds != [] {
      var last := |ds| - 1;
      var front := RemainingIsLeft(ds[..last], rules, policy);
      SuppressedIff(ds[last], rules, policy.groups);
      at := front + if Suppressed(ds[last], rules, policy.groups) then [] else [last];
    }
  }

  class DiagnosticList {
    var buffer: seq<Diagnostic>

    constructor ()
      ensures buffer == []
    {
      buffer := [];
    }

    /** jz_diagnostic_report. */
    method Report(d: Diagnostic)
      modifies this
      ensures buffer == old(buffer) + [d]
    {
      buffer := buffer + [d];
    }

    /** jz_diagnostic_apply_warning_policy: a filtering pass, then a promoting pass. */
    method ApplyWarningPolicy(rules: Rules, policy: WarningPolicy)
      modifies this
      ensures buffer == Remaining(old(buffer), rules, policy)
      ensures exists at :: LeftAt(old(buffer), rules, policy, buffer, at)
    {
      ghost var at := RemainingIsLeft(buffer, rules, policy);
      hide LeftAt;
      var keep := policy.(warnAsError := false);
      var filtered: seq<Diagnostic> := [];
      for i := 0 to |buffer|
        invariant buffer == old(buffer) && filtered == Remaining(buffer[..i], rules, keep)
      {
        assert buffer[..i + 1][..i] == buffer[..i];
        var suppress := TestSuppressed(buffer[i], rules, policy.groups);
        if !suppress {
          filtered := filtered + [buffer[i]];
        }
      }
      assert buffer[..|buffer|] == buffer;
      PromoteAfter(buffer, rules, policy);
      buffer := filtered;
      if policy.warnAsError {
        for i := 0 to |buffer|
          invariant |buffer| == |filtered|
          invariant forall k :: 0 <= k < |buffer| ==>
                                  buffer[k] == if k < i then Promote(filtered[k], policy) else filtered[k]
        {
          if buffer[i].severity == WARNING {
            buffer := buffer[i := buffer[i].(severity := ERROR)];
          }
        }
      }
      assert buffer == PromoteAll(filtered, policy);
    }
  }

  function PromoteAll(ds: seq<Diagnostic>, policy: WarningPolicy): (r: seq<Diagnostic>)
    ensures |r| == |ds| && forall i :: 0 <= i < |ds| ==> r[i] == Promote(ds[i], policy)
  {
    seq(|ds|, i requires 0 <= i < |ds| => Promote(ds[i], policy))
  }

  /** Filtering and then promoting is one pass that does both. */
  lemma {:induction false} PromoteAfter(ds: seq<Diagnostic>, rules: Rules, policy: WarningPolicy)
    ensures PromoteAll(Remaining(ds, rules, policy.(warnAsError := false)), policy) == Remaining(ds, rules, policy)
  {
    if ds != [] {
      var last := |ds| - 1;
      PromoteAfter(ds[..last], rules, policy);
    }
  }

  /** Without promotion errors there is an error after the policy exactly when one was reported and not
      suppressed; with it, exactly when an error or a warning was. */
  lemma {:induction false} ErrorsAfterPolicy(ds: seq<Diagnostic>, rules: Rules, policy: WarningPolicy)
    ensures (exists d <- Remaining(ds, rules, policy) :: d.severity == ERROR)
       <==> exists d <- ds :: !Suppressed(d, rules, policy.groups)
                              && (d.severity == ERROR || (policy.warnAsError && d.severity == WARNING))
  {
    hide Suppressed;
    if ds != [] {
      var init, last := ds[..|ds| - 1], ds[|ds| - 1];
      ErrorsAfterPolicy(init, rules, policy);
      assert ds == init + [last];
    }
  }
}
