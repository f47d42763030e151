// Properties of @repeat expansion: the exact result refines the recursive definition, matching does
// not depend on where the region ends, and inert text expands to itself.
module RepeatTheorems {
  import opened Text
  import opened CheckedSize
  import opened RepeatSpec

  // ---- The byte limits only decide whether the recursive definition is delivered ----

  lemma {:induction false} SubstSkips(body: string, from: nat, k: nat, text: string)
    requires from <= k <= |body|
    requires forall j :: from <= j < k ==> !StandaloneIdx(body, j)
    ensures Subst(body, from, text) == body[from..k] + Subst(body, k, text)
    decreases k - from
  {
    if from == k {
      assert body[from..k] == [];
    } else {
      var rest := Subst(body, k, text);
      SubstSkips(body, from + 1, k, text);
      assert body[from..k] == [body[from]] + body[from + 1..k];
      assert [body[from]] + (body[from + 1..k] + rest) == ([body[from]] + body[from + 1..k]) + rest;
    }
  }

  /** r is acc followed by t if that fits, and a size failure if not. */
  predicate Appends(r: Outcome, acc: string, t: string, lim: Limits) {
    && (r.Done? <==> |acc| + |t| <= MaxLength(lim))
    && (r.Done? ==> r.text == acc + t)
    && (r.Failed? ==> IsSizeFailure(r))
  }

  predicate IsSizeFailure(r: Outcome) {
    r.Failed? && (r.code == SizeLimitExceeded || r.code == InternalError)
  }

  lemma AppendAppends(acc: string, t: string, lim: Limits, at: nat)
    requires |acc| <= MaxLength(lim)
    ensures Appends(Append(acc, t, lim, at), acc, t, lim)
  {
    if |t| == 0 { assert acc + t == acc; }
  }

  /** Appending t and then u is appending t + u. */
  lemma AppendsAfter(acc: string, t: string, u: string, first: Outcome, r: Outcome, lim: Limits)
    requires Appends(first, acc, t, lim)
    requires if first.Failed? then r == first else Appends(r, first.text, u, lim)
    ensures Appends(r, acc, t + u, lim)
  {
    if first.Done? { assert acc + t + u == acc + (t + u); }
  }

  lemma {:induction false} SubstIntoMeaning(acc: string, body: string, from: nat, text: string, lim: Limits, at: nat)
    requires from <= |body| && |acc| <= MaxLength(lim)
    ensures Appends(SubstInto(acc, body, from, text, lim, at), acc, Subst(body, from, text), lim)
    decreases |body| - from
  {
    if from < |body| {
      var k := NextIdx(body, from);
      SubstSkips(body, from, k, text);
      var t := body[from..k];
      AppendAppends(acc, t, lim, at);
      if k == |body| {
        assert t == body[from..] == t + "";
      } else {
        var r := SubstInto(acc, body, from, text, lim, at);
        var before := Append(acc, t, lim, at);
        if before.Done? {
          AppendAppends(before.text, text, lim, at);
          var index := Append(before.text, text, lim, at);
          if index.Done? {
            SubstIntoMeaning(index.text, body, k + 3, text, lim, at);
          }
          AppendsAfter(before.text, text, Subst(body, k + 3, text), index, r, lim);
        }
        AppendsAfter(acc, t, text + Subst(body, k + 3, text), before, r, lim);
      }
    } else {
      assert acc + "" == acc;
    }
  }

  lemma {:induction false} IterateIntoMeaning(acc: string, body: string, i: nat, n: nat, lim: Limits, at: nat)
    requires i <= n && |acc| <= MaxLength(lim)
    ensures Appends(IterateInto(acc, body, i, n, lim, at), acc, Iterations(body, i, n), lim)
    decreases n - i
  {
    if i < n {
      SubstIntoMeaning(acc, body, 0, IdxText(i), lim, at);
      var one := SubstInto(acc, body, 0, IdxText(i), lim, at);
      if one.Done? {
        IterateIntoMeaning(one.text, body, i + 1, n, lim, at);
      }
      AppendsAfter(acc, Subst(body, 0, IdxText(i)), Iterations(body, i + 1, n), one,
                   IterateInto(acc, body, i, n, lim, at), lim);
    } else {
      assert acc + "" == acc;
    }
  }

  /** The expansion of every repeat body of the region, at every nesting level, fits a buffer. */
  predicate BodiesFit(s: string, p: nat, e: nat, lim: Limits)
    requires p <= e <= |s|
    decreases e - p, 1
  {
    if p == e then true
    else
      match ElementAt(s, p, e)
      case Verbatim(q) => BodiesFit(s, q, e, lim)
      case CloseRepeat => BodiesFit(s, p + 1, e, lim)
      case OpenRepeat => BlockFits(s, p, ParseHeader(s, p, e, lim), e, lim)
  }

  predicate BlockFits(s: string, p: nat, h: Header, e: nat, lim: Limits)
    requires HeaderFor(h, p, e, |s|)
    decreases e - p, 0
  {
    match h
    case BadHeader(_) => false
    case Header(_, bodyStart) =>
      match FindEnd(s, bodyStart, e, 1)
      case None => false
      case Some(endAt) =>
        var body := Expand(s, bodyStart, endAt, lim);
        && body.Done?
        && |body.text| <= MaxLength(lim)
        && BodiesFit(s, bodyStart, endAt, lim)
        && BodiesFit(s, SkipLineTail(s, endAt + 4, e), e, lim)
  }

  /** What `into` (the limited result on top of acc) owes to `pure` (the recursive definition). */
  predicate Delivers(into: Outcome, pure: Outcome, fit: bool, acc: string, lim: Limits) {
    && (into.Done? <==> pure.Done? && fit && |acc| + |pure.text| <= MaxLength(lim))
    && (into.Done? ==> into.text == acc + pure.text)
    && (into.Failed? && !IsSizeFailure(into) ==> pure == into)
  }

  /** Text t, of which an append brought acc to `grown`, followed by a rest that is delivered. */
  lemma DeliversAfter(acc: string, t: string, grown: Outcome, into: Outcome, rest: Outcome, fit: bool, lim: Limits)
    requires |acc| <= MaxLength(lim) && Appends(grown, acc, t, lim)
    requires if grown.Failed? then into == grown else Delivers(into, rest, fit, grown.text, lim)
    ensures Delivers(into, Prepend(t, rest), fit, acc, lim)
  {
    if grown.Done? && rest.Done? {
      assert acc + t + rest.text == acc + (t + rest.text);
    }
  }

  /** The accumulated result is the recursive definition, delivered exactly when every nested body
      and the whole text fit; a failure that is not about size is the definition's own failure. */
  lemma {:induction false} ExpandIntoMeaning(s: string, p: nat, e: nat, lim: Limits, acc: string)
    requires p <= e <= |s| && |acc| <= MaxLength(lim)
    ensures Delivers(ExpandInto(s, p, e, lim, acc), Expand(s, p, e, lim), BodiesFit(s, p, e, lim), acc, lim)
    decreases e - p, 1
  {
    if p < e {
      match ElementAt(s, p, e)
      case Verbatim(q) => CopyMeaning(s, p, q, e, lim, acc);
      case CloseRepeat => CopyMeaning(s, p, p + 1, e, lim, acc);
      case OpenRepeat => BlockMeaning(s, p, ParseHeader(s, p, e, lim), e, lim, acc);
    }
  }

  lemma {:induction false} CopyMeaning(s: string, p: nat, q: nat, e: nat, lim: Limits, acc: string)
    requires p < q <= e <= |s| && |acc| <= MaxLength(lim)
    ensures Delivers(CopyInto(s, p, q, e, lim, acc), Prepend(s[p..q], Expand(s, q, e, lim)), BodiesFit(s, q, e, lim),
                     acc, lim)
    decreases e - p, 0
  {
    var r := Append(acc, s[p..q], lim, p);
    AppendAppends(acc, s[p..q], lim, p);
    if r.Done? {
      ExpandIntoMeaning(s, q, e, lim, r.text);
    }
    DeliversAfter(acc, s[p..q], r, CopyInto(s, p, q, e, lim, acc), Expand(s, q, e, lim), BodiesFit(s, q, e, lim), lim);
  }

  lemma {:induction false} BlockMeaning(s: string, p: nat, h: Header, e: nat, lim: Limits, acc: string)
    requires HeaderFor(h, p, e, |s|) && |acc| <= MaxLength(lim)
    ensures Delivers(BlockInto(s, p, h, e, lim, acc), ExpandBlock(s, p, h, e, lim), BlockFits(s, p, h, e, lim), acc,
                     lim)
    decreases e - p, 0
  {
    if h.Header? && FindEnd(s, h.bodyStart, e, 1).Some? {
      var endAt := FindEnd(s, h.bodyStart, e, 1).value;
      ExpandIntoMeaning(s, h.bodyStart, endAt, lim, "");
      var body := ExpandInto(s, h.bodyStart, endAt, lim, "");
      var pure := Expand(s, h.bodyStart, endAt, lim);
      if body.Done? {
        assert body.text == "" + pure.text == pure.text;
        var after := SkipLineTail(s, endAt + 4, e);
        IterateIntoMeaning(acc, body.text, 0, h.count, lim, p);
        var r := IterateInto(acc, body.text, 0, h.count, lim, p);
        if r.Done? {
          ExpandIntoMeaning(s, after, e, lim, r.text);
        }
        DeliversAfter(acc, Iterations(body.text, 0, h.count), r,
                      if r.Failed? then r else ExpandInto(s, after, e, lim, r.text),
                      Expand(s, after, e, lim), BodiesFit(s, after, e, lim), lim);
      }
    }
  }

  // ---- Matching does not depend on the region end ----

  /** A character that neither starts a comment, a literal or a directive. */
  predicate Ordinary(c: char) { c != '/' && c != '"' && c != '@' }

  lemma {:induction false} FindEndSkips(s: string, p: nat, q: nat, e: nat, depth: nat)
    requires p <= q <= e <= |s| && depth > 0
    requires forall k :: p <= k < q ==> Ordinary(s[k])
    ensures FindEnd(s, p, e, depth) == FindEnd(s, q, e, depth)
    decreases q - p
  {
    if p < q {
      assert Ordinary(s[p]);
      FindEndSkips(s, p + 1, q, e, depth);
    }
  }

  lemma {:induction false} LineEndCut(s: string, p: nat, e: nat, e1: nat)
    requires p <= e1 <= e <= |s| && LineEnd(s, p, e) <= e1
    ensures LineEnd(s, p, e1) == LineEnd(s, p, e)
    decreases e1 - p
  {
    if p < e1 && s[p] != '\n' { LineEndCut(s, p + 1, e, e1); }
  }

  lemma {:induction false} StringStopCut(s: string, p: nat, e: nat, e1: nat)
    requires p <= e1 <= e <= |s| && (StringStop(s, p, e) < e1 || e == e1)
    ensures StringStop(s, p, e1) == StringStop(s, p, e)
    decreases e1 - p
  {
    if p < e1 && s[p] != '"' && s[p] != '\n' {
      if s[p] == '\\' && p + 1 < e { StringStopCut(s, p + 2, e, e1); } else { StringStopCut(s, p + 1, e, e1); }
    }
  }

  lemma DirectiveCut(s: string, p: nat, e: nat, e1: nat, directive: string)
    requires p < e1 <= e <= |s| && (e1 < e ==> s[e1] == '@')
    requires forall k :: 1 <= k < |directive| ==> directive[k] != '@'
    ensures DirectiveAt(s, p, e, directive) <==> DirectiveAt(s, p, e1, directive)
  {
    DirectiveChar(s, p, e, directive, e1 - p);
  }

  lemma DirectiveChar(s: string, p: nat, e: nat, directive: string, k: nat)
    requires p <= e <= |s|
    ensures DirectiveAt(s, p, e, directive) && k < |directive| ==> s[p + k] == directive[k]
  {
  }

  /** An element that ends at or before e1 is the same element in a region cut at e1, provided the
      cut falls on an '@'; a directive that starts before the cut also ends before it. */
  lemma ElementCut(s: string, p: nat, e: nat, e1: nat)
    requires p < e1 <= e <= |s| && (e1 < e ==> s[e1] == '@')
    requires ElementAt(s, p, e).Verbatim? ==> ElementAt(s, p, e).next <= e1
    ensures ElementAt(s, p, e1) == ElementAt(s, p, e)
  {
    DirectiveCut(s, p, e, e1, REPEAT);
    DirectiveCut(s, p, e, e1, END);
    if CommentAt(s, p, e) {
      LineEndCut(s, p, e, e1);
    } else if s[p] == '"' {
      StringStopCut(s, p + 1, e, e1);
    }
  }

  /** A match found at q with the region ending at e is found with the region ending at any e1
      between them, provided the cut falls on an '@'. */
  lemma {:induction false} FindEndCut(s: string, p: nat, e: nat, e1: nat, depth: nat)
    requires p <= e1 <= e <= |s| && depth > 0 && (e1 < e ==> s[e1] == '@')
    requires FindEnd(s, p, e, depth).Some? && FindEnd(s, p, e, depth).value < e1
    ensures FindEnd(s, p, e1, depth) == FindEnd(s, p, e, depth)
    decreases e - p
  {
    ElementCut(s, p, e, e1);
    match ElementAt(s, p, e)
    case Verbatim(q) => FindEndCut(s, q, e, e1, depth);
    case OpenRepeat => FindEndCut(s, p + 7, e, e1, depth + 1);
    case CloseRepeat => if depth > 1 { FindEndCut(s, p + 4, e, e1, depth - 1); }
  }

  /** Closing depth + extra repeats at q first closes `extra` of them, at an earlier @end. */
  lemma {:induction false} FindEndNested(s: string, p: nat, e: nat, depth: nat, extra: nat, q: nat) returns (inner: nat)
    requires p <= e <= |s| && depth > 0 && extra > 0
    requires FindEnd(s, p, e, depth + extra) == Some(q)
    ensures inner + 4 <= e && FindEnd(s, p, e, extra) == Some(inner)
    ensures FindEnd(s, inner + 4, e, depth) == Some(q)
    decreases e - p
  {
    hide ElementAt;
    match ElementAt(s, p, e)
    case Verbatim(next) =>
      inner := FindEndNested(s, next, e, depth, extra, q);
      assert FindEnd(s, p, e, extra) == FindEnd(s, next, e, extra);
    case OpenRepeat =>
      inner := FindEndNested(s, p + 7, e, depth, extra + 1, q);
      assert FindEnd(s, p, e, extra) == FindEnd(s, p + 7, e, extra + 1);
    case CloseRepeat =>
      if extra > 1 {
        inner := FindEndNested(s, p + 4, e, depth, extra - 1, q);
        assert FindEnd(s, p, e, extra) == FindEnd(s, p + 4, e, extra - 1);
      } else {
        inner := p;
        assert FindEnd(s, p, e, extra) == Some(inner);
      }
  }

  /** The count line of a repeat is transparent to a matcher scanning past it. */
  lemma HeaderIsOrdinary(s: string, p: nat, e: nat, lim: Limits, depth: nat)
    requires p + 7 <= e <= |s| && depth > 0
    requires ParseHeader(s, p, e, lim).Header?
    ensures FindEnd(s, p + 7, e, depth) == FindEnd(s, ParseHeader(s, p, e, lim).bodyStart, e, depth)
  {
    HeaderCharacters(s, p, e, lim);
    FindEndSkips(s, p + 7, ParseHeader(s, p, e, lim).bodyStart, e, depth);
  }

  lemma HeaderCharacters(s: string, p: nat, e: nat, lim: Limits)
    requires p + 7 <= e <= |s|
    requires ParseHeader(s, p, e, lim).Header?
    ensures forall k :: p + 7 <= k < ParseHeader(s, p, e, lim).bodyStart ==> Ordinary(s[k])
  {
    var a := SkipHSpace(s, p + 7, e);
    var b := DigitsEnd(s, a, e);
    assert ParseHeader(s, p, e, lim).bodyStart == SkipLineTail(s, b, e);
    forall k | p + 7 <= k < SkipLineTail(s, b, e) ensures Ordinary(s[k]) {
      if a <= k < b { assert IsDigit(s[k]); }
    }
  }

  lemma LineTailIsOrdinary(s: string, p: nat, e: nat, depth: nat)
    requires p <= e <= |s| && depth > 0
    ensures FindEnd(s, p, e, depth) == FindEnd(s, SkipLineTail(s, p, e), e, depth)
  {
    var c := SkipHSpace(s, p, e);
    FindEndSkips(s, p, c, e, depth);
    FindEndSkips(s, c, SkipNewline(s, c, e), e, depth);
  }

  /** A repeat opened inside a body that is closed at endAt is itself closed before endAt, and at the
      same @end whether the search may look as far as endAt or as far as e; the outer match goes on
      after it. */
  lemma NestedRepeatMatches(s: string, p: nat, h: Header, e: nat, endAt: nat, lim: Limits)
    requires p < e <= |s| && ElementAt(s, p, e).OpenRepeat?
    requires FindEnd(s, p, e, 1) == Some(endAt)
    requires h == ParseHeader(s, p, e, lim) && h.Header?
    ensures MatchesInside(s, h.bodyStart, e, endAt)
  {
    HeaderIsOrdinary(s, p, e, lim, 2);
    InnerMatch(s, h.bodyStart, e, endAt);
  }

  /** From body start b: the repeat's own @end lies before endAt and is found whether the region is
      taken to end at endAt or at e; after it, the search for endAt goes on. */
  predicate MatchesInside(s: string, b: nat, e: nat, endAt: nat)
    requires b <= e <= |s|
  {
    var inner := FindEnd(s, b, e, 1);
    && inner.Some? && inner.value + 4 <= endAt <= e
    && FindEnd(s, b, endAt, 1) == inner
    && FindEnd(s, SkipLineTail(s, inner.value + 4, endAt), e, 1) == Some(endAt)
  }

  lemma InnerMatch(s: string, b: nat, e: nat, endAt: nat)
    requires b <= e <= |s| && FindEnd(s, b, e, 2) == Some(endAt)
    ensures MatchesInside(s, b, e, endAt)
  {
    hide ElementAt, FindEnd, SkipLineTail;
    var inner := FindEndNested(s, b, e, 1, 1, endAt);
    assert inner + 4 <= endAt;
    LineTailIsOrdinary(s, inner + 4, e, 1);
    LineTailCut(s, inner + 4, e, endAt);
    assert FindEnd(s, SkipLineTail(s, inner + 4, endAt), e, 1) == Some(endAt);
    FindEndCut(s, b, e, endAt, 1);
  }

  lemma SkipHSpaceCut(s: string, p: nat, e: nat, e1: nat)
    requires p <= e1 <= e <= |s| && (e1 < e ==> s[e1] == '@')
    ensures SkipHSpace(s, p, e1) == SkipHSpace(s, p, e)
    decreases e1 - p
  {
  }

  lemma DigitsEndCut(s: string, p: nat, e: nat, e1: nat)
    requires p <= e1 <= e <= |s| && (e1 < e ==> s[e1] == '@')
    ensures DigitsEnd(s, p, e1) == DigitsEnd(s, p, e)
    decreases e1 - p
  {
  }

  lemma LineTailCut(s: string, p: nat, e: nat, e1: nat)
    requires p <= e1 <= e <= |s| && (e1 < e ==> s[e1] == '@')
    ensures SkipLineTail(s, p, e1) == SkipLineTail(s, p, e)
  {
    SkipHSpaceCut(s, p, e, e1);
  }

  /** Headers, too, read the same with the region cut at an '@'. */
  lemma HeaderCut(s: string, p: nat, e: nat, e1: nat, lim: Limits)
    requires p + 7 <= e1 <= e <= |s| && (e1 < e ==> s[e1] == '@')
    ensures ParseHeader(s, p, e1, lim) == ParseHeader(s, p, e, lim)
  {
    SkipHSpaceCut(s, p + 7, e, e1);
    var a := SkipHSpace(s, p + 7, e);
    if a < e1 && IsDigit(s[a]) {
      DigitsEndCut(s, a, e, e1);
      CountHeaderCut(s, a, DigitsEnd(s, a, e1), e, e1, lim);
    }
  }

  lemma CountHeaderCut(s: string, a: nat, b: nat, e: nat, e1: nat, lim: Limits)
    requires a < b <= e1 <= e <= |s| && (e1 < e ==> s[e1] == '@') && AllDigits(s[a..b])
    ensures CountHeader(s, a, b, e1, lim) == CountHeader(s, a, b, e, lim)
  {
    LineTailCut(s, b, e, e1);
  }

  /** Inside a matched body an expansion never reports a missing @end: only the outermost region can. */
  lemma {:induction false} BodyNeverUnmatched(s: string, p: nat, e: nat, endAt: nat, lim: Limits)
    requires p <= e <= |s| && FindEnd(s, p, e, 1) == Some(endAt)
    ensures NotUnmatched(Expand(s, p, endAt, lim))
    decreases endAt - p, 1
  {
    if p < endAt {
      ElementCut(s, p, e, endAt);
      match ElementAt(s, p, e)
      case Verbatim(q) => BodyNeverUnmatched(s, q, e, endAt, lim);
      case OpenRepeat =>
        var h := ParseHeader(s, p, e, lim);
        HeaderCut(s, p, e, endAt, lim);
        if h.Header? {
          NestedRepeatMatches(s, p, h, e, endAt, lim);
        }
        NestedNeverUnmatched(s, p, h, e, endAt, lim);
    }
  }

  predicate NotUnmatched(r: Outcome) { r.Failed? ==> r.code != NoMatchingEnd }

  lemma {:induction false} NestedNeverUnmatched(s: string, p: nat, h: Header, e: nat, endAt: nat, lim: Limits)
    requires HeaderFor(h, p, endAt, |s|) && endAt + 4 <= e <= |s| && s[endAt] == '@'
    requires h.Header? ==> MatchesInside(s, h.bodyStart, e, endAt)
    requires h.BadHeader? ==> h.code != NoMatchingEnd
    ensures NotUnmatched(ExpandBlock(s, p, h, endAt, lim))
    decreases endAt - p, 0
  {
    if h.Header? {
      var inner := FindEnd(s, h.bodyStart, endAt, 1).value;
      var after := SkipLineTail(s, inner + 4, endAt);
      BodyNeverUnmatched(s, h.bodyStart, endAt, inner, lim);
      BodyNeverUnmatched(s, after, e, endAt, lim);
      BlockNotUnmatched(s, p, h, endAt, inner, lim);
    }
  }

  lemma BlockNotUnmatched(s: string, p: nat, h: Header, e: nat, inner: nat, lim: Limits)
    requires HeaderFor(h, p, e, |s|) && h.Header? && FindEnd(s, h.bodyStart, e, 1) == Some(inner)
    requires NotUnmatched(Expand(s, h.bodyStart, inner, lim))
    requires NotUnmatched(Expand(s, SkipLineTail(s, inner + 4, e), e, lim))
    ensures NotUnmatched(ExpandBlock(s, p, h, e, lim))
  {
  }

  // ---- Inert text ----

  /** No @repeat of the region is active: each lies in a comment or a string, or is part of a word. */
  predicate Inert(s: string, p: nat, e: nat)
    requires p <= e <= |s|
    decreases e - p
  {
    if p == e then true
    else
      match ElementAt(s, p, e)
      case Verbatim(q) => Inert(s, q, e)
      case OpenRepeat => false
      case CloseRepeat => Inert(s, p + 1, e)
  }

  lemma {:induction false} InertExpandsToItself(s: string, p: nat, e: nat, lim: Limits)
    requires p <= e <= |s| && Inert(s, p, e)
    ensures Expand(s, p, e, lim) == Done(s[p..e]) && BodiesFit(s, p, e, lim)
    decreases e - p
  {
    if p < e {
      var q := if ElementAt(s, p, e).Verbatim? then ElementAt(s, p, e).next else p + 1;
      InertExpandsToItself(s, q, e, lim);
      assert s[p..e] == s[p..q] + s[q..e];
    }
  }

  /** "@repeat" occurs at p, whatever follows it. */
  predicate RepeatTextAt(s: string, p: nat) {
    p + 7 <= |s| && s[p..p + 7] == REPEAT
  }

  lemma OpenRepeatText(s: string, p: nat, e: nat)
    requires p < e <= |s|
    ensures ElementAt(s, p, e).OpenRepeat? ==> RepeatTextAt(s, p)
  {
  }

  lemma {:induction false} LackingIsInert(s: string, p: nat)
    requires p <= |s| && forall k :: !RepeatTextAt(s, k)
    ensures Inert(s, p, |s|)
    decreases |s| - p
  {
    if p < |s| {
      OpenRepeatText(s, p, |s|);
      LackingIsInert(s, if ElementAt(s, p, |s|).Verbatim? then ElementAt(s, p, |s|).next else p + 1);
    }
  }

  // ---- Whole sources ----

  /** A source expands without error exactly when the recursive definition does and everything fits;
      the text is then the definition's. */
  lemma SourceExpansion(s: string, lim: Limits)
    ensures var r, t := ExpandInto(s, 0, |s|, lim, ""), Expand(s, 0, |s|, lim);
            && (r.Done? <==> t.Done? && BodiesFit(s, 0, |s|, lim) && |t.text| <= MaxLength(lim))
            && (r.Done? ==> r == t)
            && (r.Failed? && !IsSizeFailure(r) ==> t == r)
  {
    ExpandIntoMeaning(s, 0, |s|, lim, "");
    assert forall t: string :: "" + t == t;
  }

  /** An inert source expands to itself exactly when it fits. */
  lemma InertSource(s: string, lim: Limits)
    requires Inert(s, 0, |s|)
    ensures var r := ExpandInto(s, 0, |s|, lim, "");
            && (r.Done? <==> |s| <= MaxLength(lim))
            && (r.Done? ==> r.text == s)
  {
    InertExpandsToItself(s, 0, |s|, lim);
    SourceExpansion(s, lim);
    assert s[0..|s|] == s;
  }

  /** Text without "@repeat", which the fast path copies, comes out of the full machine unchanged too,
      exactly when it fits. */
  lemma FastPathAgrees(s: string, lim: Limits)
    requires forall k :: !RepeatTextAt(s, k)
    ensures ExpandInto(s, 0, |s|, lim, "") == Done(s) <==> |s| <= MaxLength(lim)
    ensures ExpandInto(s, 0, |s|, lim, "").Done? ==> |s| <= MaxLength(lim)
  {
    LackingIsInert(s, 0);
    InertSource(s, lim);
  }

  /** The index text is the index exactly below 10^15; beyond, snprintf drops the last digits. */
  lemma IndexTextExact(i: nat)
    ensures IdxText(i) == Decimal(i) <==> i < 1_000_000_000_000_000
    ensures i < 1_000_000_000_000_000 ==> DecimalValue(IdxText(i)) == i
  {
    DecimalLength(i, 15);
    DecimalRoundTrip(i);
    assert Pow10(15) == 1_000_000_000_000_000 by {
      assert Pow10(5) == 100_000;
      assert Pow10(10) == 10_000_000_000;
    }
  }
}
