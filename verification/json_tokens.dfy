// compiler/src/chip_data.c, the walkers over a flat JSON token array: the iterative nesting limit and
// the recursive skip it protects.
module JsonTokens {

  datatype Kind = Object | Array | Text | Primitive

  /** A token covers the half-open range [start, end) of the JSON text. */
  datatype Token = Token(kind: Kind, start: int, end: int)

  predicate IsContainer(t: Token) { t.kind == Object || t.kind == Array }

  /** A preorder array of a tree of tokens: of two tokens the earlier does not start later, and either
      ends before the other starts or is a container around it; a container is not empty text. */
  predicate WellNested(toks: seq<Token>) {
    && (forall i, j :: 0 <= i < j < |toks| ==> InOrder(toks[i], toks[j]))
    && (forall i :: 0 <= i < |toks| && IsContainer(toks[i]) ==> toks[i].start < toks[i].end)
  }

  predicate InOrder(a: Token, b: Token) {
    a.start <= b.start && (a.end <= b.start || (IsContainer(a) && b.end <= a.end))
  }

  /** Token i, starting at or before x, is a container that is open there. */
  predicate StaysOpen(toks: seq<Token>, x: int, i: nat)
    requires i < |toks|
  {
    IsContainer(toks[i]) && toks[i].end > x
  }

  /** The containers among the first k tokens that are still open at text position x, outermost first. */
  function Open(toks: seq<Token>, x: int, k: nat): seq<nat>
    requires k <= |toks|
  {
    if k == 0 then []
    else Open(toks, x, k - 1) + if StaysOpen(toks, x, k - 1) then [k - 1] else []
  }

  lemma OpenStep(toks: seq<Token>, x: int, k: nat)
    requires k <= |toks|
    ensures k == 0 ==> Open(toks, x, k) == []
    ensures k > 0 ==>
              Open(toks, x, k)
              == if StaysOpen(toks, x, k - 1) then Open(toks, x, k - 1) + [k - 1] else Open(toks, x, k - 1)
  {
  }

  /** They are among the first k, are open, and come in rising order. */
  lemma {:induction false} OpenAre(toks: seq<Token>, x: int, k: nat)
    requires k <= |toks|
    ensures var open := Open(toks, x, k);
            && (forall j :: 0 <= j < |open| ==> open[j] < k && StaysOpen(toks, x, open[j]))
            && forall j, l :: 0 <= j < l < |open| ==> open[j] < open[l]
  {
    hide Open;
    OpenStep(toks, x, k);
    if k > 0 {
      OpenAre(toks, x, k - 1);
      var init, open := Open(toks, x, k - 1), Open(toks, x, k);
      forall j | 0 <= j < |open| ensures open[j] < k && StaysOpen(toks, x, open[j]) {
        assert j < |init| ==> open[j] == init[j];
      }
    }
  }

  /** The containers around token i. */
  function Ancestors(toks: seq<Token>, i: nat): seq<nat>
    requires i < |toks|
  {
    Open(toks, toks[i].start, i)
  }

  /** The containers around a token are the objects and arrays before it that end behind its start. */
  lemma AncestorsAre(toks: seq<Token>, i: nat, j: nat)
    requires i < |toks|
    ensures j in Ancestors(toks, i) <==>
              j < i && (toks[j].kind == Object || toks[j].kind == Array) && toks[j].end > toks[i].start
    ensures forall k, l :: 0 <= k < l < |Ancestors(toks, i)| ==> Ancestors(toks, i)[k] != Ancestors(toks, i)[l]
  {
    hide Open;
    OpenHas(toks, toks[i].start, i, j);
    OpenAre(toks, toks[i].start, i);
  }

  lemma {:induction false} OpenHas(toks: seq<Token>, x: int, k: nat, j: nat)
    requires k <= |toks|
    ensures j in Open(toks, x, k) <==>
              j < k && (toks[j].kind == Object || toks[j].kind == Array) && toks[j].end > x
  {
    hide Open;
    OpenStep(toks, x, k);
    if k > 0 {
      OpenHas(toks, x, k - 1, j);
    }
  }

  /** Every container has fewer than maxDepth containers around it. */
  predicate NestedWithin(toks: seq<Token>, maxDepth: nat) {
    forall i :: 0 <= i < |toks| && IsContainer(toks[i]) ==> |Ancestors(toks, i)| < maxDepth
  }

  // ---- The nesting limit ----

  const MAX_DEPTH: nat := 128

  /** The first d of the containers end behind x, the others do not. */
  predicate CutsAt(toks: seq<Token>, open: seq<nat>, x: int, d: nat) {
    && d <= |open|
    && (forall j :: 0 <= j < |open| ==> open[j] < |toks|)
    && (forall j :: 0 <= j < d ==> toks[open[j]].end > x)
    && (forall j :: d <= j < |open| ==> toks[open[j]].end <= x)
  }

  lemma CutsFront(toks: seq<Token>, init: seq<nat>, i: nat, x: int, d: nat)
    requires CutsAt(toks, init + [i], x, d)
    ensures i < |toks| && (toks[i].end > x <==> d == |init| + 1)
    ensures CutsAt(toks, init, x, if d == |init| + 1 then d - 1 else d)
    ensures (init + [i])[..d] == if d == |init| + 1 then init[..d - 1] + [i] else init[..d]
  {
    var open := init + [i];
    assert open[|init|] == i;
    assert forall j :: 0 <= j < |init| ==> open[j] == init[j];
  }

  /** Moving right to x' closes the containers that end at or before it; if those are the ones from
      position d on, the first d stay. */
  lemma {:induction false} CloseFrom(toks: seq<Token>, x: int, x': int, k: nat, d: nat)
    requires k <= |toks| && x <= x' && CutsAt(toks, Open(toks, x, k), x', d)
    ensures Open(toks, x', k) == Open(toks, x, k)[..d]
  {
    hide Open, StaysOpen, CutsAt;
    OpenStep(toks, x, k);
    OpenStep(toks, x', k);
    if k == 0 {
      CutsNothing(toks, x', d);
    } else {
      StaysLess(toks, x, x', k - 1);
      var init := Open(toks, x, k - 1);
      if !StaysOpen(toks, x, k - 1) {
        CloseFrom(toks, x, x', k - 1, d);
      } else {
        CutsFront(toks, init, k - 1, x', d);
        if d == |init| + 1 {
          CloseFrom(toks, x, x', k - 1, d - 1);
        } else {
          CloseFrom(toks, x, x', k - 1, d);
        }
      }
    }
  }

  lemma StaysLess(toks: seq<Token>, x: int, x': int, i: nat)
    requires i < |toks| && x <= x'
    ensures StaysOpen(toks, x', i) <==> StaysOpen(toks, x, i) && toks[i].end > x'
  {
  }

  lemma CutsNothing(toks: seq<Token>, x: int, d: nat)
    requires CutsAt(toks, [], x, d)
    ensures d == 0
  {
  }

  /** Open containers end in the opposite order. */
  lemma EndsDescend(toks: seq<Token>, x: int, k: nat, a: nat, b: nat)
    requires WellNested(toks) && k <= |toks| && (forall i :: 0 <= i < k ==> toks[i].start <= x)
    requires a < b < |toks| && a in Open(toks, x, k) && b in Open(toks, x, k)
    ensures toks[b].end <= toks[a].end
  {
    OpenAre(toks, x, k);
    assert InOrder(toks[a], toks[b]);
  }

  /** The stack holds the ends of the open containers. */
  predicate HoldsEnds(endStack: seq<int>, toks: seq<Token>, open: seq<nat>) {
    && |open| <= |endStack|
    && forall j :: 0 <= j < |open| ==> open[j] < |toks| && endStack[j] == toks[open[j]].end
  }

  /** Between token i - 1 and token i only containers that end at or before token i are popped. */
  method PopClosed(toks: seq<Token>, i: nat, endStack: array<int>, depth0: nat, ghost x: int) returns (depth: nat)
    requires WellNested(toks) && i < |toks| && x <= toks[i].start
    requires forall j :: 0 <= j < i ==> toks[j].start <= x
    requires depth0 == |Open(toks, x, i)| && HoldsEnds(endStack[..], toks, Open(toks, x, i))
    ensures depth == |Ancestors(toks, i)| <= depth0 && HoldsEnds(endStack[..], toks, Ancestors(toks, i))
  {
    hide Open, WellNested;
    ghost var open := Open(toks, x, i);
    OpenAre(toks, x, i);
    depth := depth0;
    while depth > 0 && toks[i].start >= endStack[depth - 1]
      invariant depth <= |open|
      invariant forall j :: depth <= j < |open| ==> toks[open[j]].end <= toks[i].start
    {
      depth := depth - 1;
    }
    forall j | 0 <= j < depth ensures toks[open[j]].end > toks[i].start {
      if j < depth - 1 {
        EndsDescend(toks, x, i, open[j], open[depth - 1]);
      }
    }
    CloseFrom(toks, x, toks[i].start, i, depth);
  }

  /** Past token i, what is open is what was open before it, and the token itself if a container. */
  lemma OpenPast(toks: seq<Token>, i: nat)
    requires WellNested(toks) && i < |toks|
    ensures Open(toks, toks[i].start, i + 1) == Ancestors(toks, i) + if IsContainer(toks[i]) then [i] else []
    ensures forall j :: 0 <= j <= i ==> toks[j].start <= toks[i].start
    ensures i + 1 < |toks| ==> toks[i].start <= toks[i + 1].start
  {
    assert forall j :: 0 <= j < i ==> InOrder(toks[j], toks[i]);
    assert i + 1 < |toks| ==> InOrder(toks[i], toks[i + 1]);
  }

  lemma OpenNone(toks: seq<Token>)
    ensures forall x :: Open(toks, x, 0) == []
  {
  }

  lemma NoEnds(toks: seq<Token>)
    ensures forall ends :: HoldsEnds(ends, toks, [])
  {
  }

  lemma EndsPushed(ends: seq<int>, toks: seq<Token>, open: seq<nat>, i: nat)
    requires HoldsEnds(ends, toks, open) && |open| < |ends| && i < |toks|
    ensures HoldsEnds(ends[|open| := toks[i].end], toks, open + [i])
  {
  }

  /** jz_json_check_nesting_limit: accepts exactly the arrays in which no container has maxDepth or more
      containers around it. */
  method CheckNestingLimit(toks: seq<Token>, maxDepth: nat) returns (ok: bool)
    requires WellNested(toks)
    ensures ok <==> NestedWithin(toks, if 1 <= maxDepth <= 128 then maxDepth else 128)
  {
    var limit := if maxDepth == 0 || maxDepth > MAX_DEPTH then MAX_DEPTH else maxDepth;
    OpenNone(toks);
    NoEnds(toks);
    hide Open, WellNested, HoldsEnds, Ancestors;
    var endStack := new int[MAX_DEPTH](i => 0);
    var depth := 0;
    ghost var x := if |toks| > 0 then toks[0].start else 0;
    for i := 0 to |toks|
      invariant depth == |Open(toks, x, i)| <= limit && HoldsEnds(endStack[..], toks, Open(toks, x, i))
      invariant i < |toks| ==> x <= toks[i].start
      invariant forall j :: 0 <= j < i ==> toks[j].start <= x
      invariant forall j :: 0 <= j < i && IsContainer(toks[j]) ==> |Ancestors(toks, j)| < limit
    {
      depth := PopClosed(toks, i, endStack, depth, x);
      OpenPast(toks, i);
      assert Ancestors(toks, i) + [] == Ancestors(toks, i);
      if IsContainer(toks[i]) {
        if depth >= limit {
          return false;
        }
        EndsPushed(endStack[..], toks, Ancestors(toks, i), i);
        ghost var ends := endStack[..];
        endStack[depth] := toks[i].end;
        assert endStack[..] == ends[depth := toks[i].end];
        depth := depth + 1;
      }
      x := toks[i].start;
    }
    return true;
  }

  // ---- Skipping a value ----

  /** next is the least index behind `index` that starts at or past the end of the token there. */
  predicate SkipsTo(toks: seq<Token>, index: nat, next: nat)
    requires index < |toks|
  {
    && index < next <= |toks|
    && (next < |toks| ==> toks[next].start >= toks[index].end)
    && (forall k :: index < k < next ==> toks[k].start < toks[index].end)
  }

  lemma Nesting(toks: seq<Token>, i: nat, j: nat)
    requires WellNested(toks) && i < j < |toks|
    ensures InOrder(toks[i], toks[j])
  {
  }

  /** A token inside container p, with no container between them, has p and p's ancestors around it. */
  lemma {:induction false} OpenInside(toks: seq<Token>, p: nat, c: nat, k: nat)
    requires WellNested(toks) && p < c < |toks| && k <= p && toks[c].start < toks[p].end
    ensures Open(toks, toks[c].start, k) == Open(toks, toks[p].start, k)
  {
    if k > 0 {
      OpenInside(toks, p, c, k - 1);
      assert InOrder(toks[k - 1], toks[p]) && InOrder(toks[p], toks[c]);
    }
  }

  lemma {:induction false} OpenGrows(toks: seq<Token>, x: int, k: nat, l: nat)
    requires k <= l <= |toks|
    ensures |Open(toks, x, k)| <= |Open(toks, x, l)|
  {
    if k < l { OpenGrows(toks, x, k, l - 1); }
  }

  /** Inside a container there is at least one container more. */
  lemma ChildIsDeeper(toks: seq<Token>, p: nat, c: nat)
    requires WellNested(toks) && p < c < |toks| && IsContainer(toks[p]) && toks[c].start < toks[p].end
    ensures |Ancestors(toks, c)| > |Ancestors(toks, p)|
  {
    OpenInside(toks, p, c, p);
    OpenGrows(toks, toks[c].start, p + 1, c);
  }

  /** The innermost container among the first k that is open at x, if any, is the last of Open. */
  lemma {:induction false} InnermostOpen(toks: seq<Token>, x: int, k: nat)
    requires k <= |toks| && Open(toks, x, k) != []
    ensures var p := Open(toks, x, k)[|Open(toks, x, k)| - 1];
            p < k && Open(toks, x, k) == Open(toks, x, p) + [p]
  {
    hide Open;
    OpenStep(toks, x, k);
    if !StaysOpen(toks, x, k - 1) {
      InnermostOpen(toks, x, k - 1);
    }
  }

  /** Within the limit even leaves have at most maxDepth containers around them. */
  lemma DepthBound(toks: seq<Token>, c: nat, maxDepth: nat)
    requires WellNested(toks) && NestedWithin(toks, maxDepth) && c < |toks|
    ensures |Ancestors(toks, c)| <= maxDepth
  {
    hide Open, WellNested;
    var open := Ancestors(toks, c);
    OpenAre(toks, toks[c].start, c);
    if open != [] {
      InnermostOpen(toks, toks[c].start, c);
      var p := open[|open| - 1];
      OpenInside(toks, p, c, p);
      assert |Ancestors(toks, p)| < maxDepth;
    }
  }

  /** jz_json_skip on an array that passed the limit. `levels` counts the nested calls, this one
      included: they are no more than the containers the limit still allows below this token, and one
      level for a leaf. */
  method JsonSkip(toks: seq<Token>, index: nat, ghost maxDepth: nat) returns (next: nat, ghost levels: nat)
    requires WellNested(toks) && NestedWithin(toks, maxDepth)
    ensures index >= |toks| ==> next == index
    ensures index < |toks| ==> SkipsTo(toks, index, next)
    ensures index < |toks| ==> levels + |Ancestors(toks, index)| <= maxDepth + 1
    decreases if index < |toks| then maxDepth + 1 - |Ancestors(toks, index)| else 0
  {
    hide WellNested, NestedWithin, Ancestors;
    levels := 1;
    if index >= |toks| {
      return index, levels;
    }
    DepthBound(toks, index, maxDepth);
    next := index + 1;
    if IsContainer(toks[index]) {
      var end := toks[index].end;
      while next < |toks| && toks[next].start < end
        invariant index < next <= |toks| && 1 <= levels <= maxDepth + 1 - |Ancestors(toks, index)|
        invariant forall k :: index < k < next ==> toks[k].start < end
        decreases |toks| - next
      {
        var child := next;
        DepthBound(toks, child, maxDepth);
        ChildIsDeeper(toks, index, child);
        Nesting(toks, index, child);
        ghost var below;
        next, below := JsonSkip(toks, child, maxDepth);
        levels := if below + 1 > levels then below + 1 else levels;
      }
    } else {
      if next < |toks| { Nesting(toks, index, next); }
    }
  }
}
