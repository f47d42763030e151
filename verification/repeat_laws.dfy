// compiler/src/repeat_expand.c on texts that are written out: an expansion does not depend on what stands
// before it, IDX is replaced where it stands alone, and whole sources come out as their documents mean.
module RepeatLaws {
  import opened Text
  import opened CheckedSize
  import opened RepeatSpec
  import opened RepeatTheorems
  import opened RepeatDocuments

  // ---- An expansion does not look before its start ----

  /** rest is what s holds from n on, and p..e lies in it. */
  predicate Within(s: string, n: nat, rest: string, p: nat, e: nat) {
    n <= |s| && rest == s[n..] && p <= e <= |rest|
  }

  lemma {:induction false} LineEndShift(s: string, n: nat, rest: string, p: nat, e: nat)
    requires Within(s, n, rest, p, e)
    ensures LineEnd(s, n + p, n + e) == n + LineEnd(rest, p, e)
    decreases e - p
  {
    if p < e && rest[p] != '\n' { LineEndShift(s, n, rest, p + 1, e); }
  }

  lemma {:induction false} StringStopShift(s: string, n: nat, rest: string, p: nat, e: nat)
    requires Within(s, n, rest, p, e)
    ensures StringStop(s, n + p, n + e) == n + StringStop(rest, p, e)
    decreases e - p
  {
    if p < e && rest[p] != '"' && rest[p] != '\n' {
      StringStopShift(s, n, rest, if rest[p] == '\\' && p + 1 < e then p + 2 else p + 1, e);
    }
  }

  lemma DirectiveShift(s: string, n: nat, rest: string, p: nat, e: nat, directive: string)
    requires Within(s, n, rest, p, e)
    ensures DirectiveAt(s, n + p, n + e, directive) <==> DirectiveAt(rest, p, e, directive)
  {
    if p + |directive| <= e {
      assert forall k :: 0 <= k < |directive| ==> (s[n + p + k] == directive[k] <==> rest[p + k] == directive[k]);
    }
  }

  function Moved(x: Element, n: nat): Element {
    if x.Verbatim? then Verbatim(n + x.next) else x
  }

  lemma ElementShift(s: string, n: nat, rest: string, p: nat, e: nat)
    requires Within(s, n, rest, p, e) && p < e
    ensures ElementAt(s, n + p, n + e) == Moved(ElementAt(rest, p, e), n)
  {
    hide LineEnd, StringStop, DirectiveAt;
    LineEndShift(s, n, rest, p, e);
    StringStopShift(s, n, rest, p + 1, e);
    DirectiveShift(s, n, rest, p, e, REPEAT);
    DirectiveShift(s, n, rest, p, e, END);
  }

  lemma {:induction false} SkipHSpaceShift(s: string, n: nat, rest: string, p: nat, e: nat)
    requires Within(s, n, rest, p, e)
    ensures SkipHSpace(s, n + p, n + e) == n + SkipHSpace(rest, p, e)
    decreases e - p
  {
    if p < e && (rest[p] == ' ' || rest[p] == '\t') { SkipHSpaceShift(s, n, rest, p + 1, e); }
  }

  lemma {:induction false} DigitsEndShift(s: string, n: nat, rest: string, p: nat, e: nat)
    requires Within(s, n, rest, p, e)
    ensures DigitsEnd(s, n + p, n + e) == n + DigitsEnd(rest, p, e)
    decreases e - p
  {
    if p < e && IsDigit(rest[p]) { DigitsEndShift(s, n, rest, p + 1, e); }
  }

  lemma LineTailShift(s: string, n: nat, rest: string, p: nat, e: nat)
    requires Within(s, n, rest, p, e)
    ensures SkipLineTail(s, n + p, n + e) == n + SkipLineTail(rest, p, e)
  {
    SkipHSpaceShift(s, n, rest, p, e);
  }

  function HeaderMoved(h: Header, n: nat): Header {
    if h.Header? then Header(h.count, n + h.bodyStart) else h
  }

  lemma HeaderShift(s: string, n: nat, rest: string, p: nat, e: nat, lim: Limits)
    requires Within(s, n, rest, p, e) && p + 7 <= e
    ensures ParseHeader(s, n + p, n + e, lim) == HeaderMoved(ParseHeader(rest, p, e, lim), n)
  {
    hide SkipHSpace, DigitsEnd, SkipLineTail, DecimalValue;
    SkipHSpaceShift(s, n, rest, p + 7, e);
    var a := SkipHSpace(rest, p + 7, e);
    if a < e && IsDigit(rest[a]) {
      DigitsEndShift(s, n, rest, a, e);
      var b := DigitsEnd(rest, a, e);
      assert s[n + a..n + b] == rest[a..b];
      LineTailShift(s, n, rest, b, e);
    }
  }

  function EndMoved(r: Option<nat>, n: nat): Option<nat> {
    if r.Some? then Some(n + r.value) else None
  }

  lemma {:induction false} FindEndShift(s: string, n: nat, rest: string, p: nat, e: nat, depth: nat)
    requires Within(s, n, rest, p, e) && depth > 0
    ensures FindEnd(s, n + p, n + e, depth) == EndMoved(FindEnd(rest, p, e, depth), n)
    decreases e - p
  {
    hide ElementAt;
    if p < e {
      ElementShift(s, n, rest, p, e);
      match ElementAt(rest, p, e)
      case Verbatim(q) => FindEndShift(s, n, rest, q, e, depth);
      case OpenRepeat => FindEndShift(s, n, rest, p + 7, e, depth + 1);
      case CloseRepeat => if depth > 1 { FindEndShift(s, n, rest, p + 4, e, depth - 1); }
    }
  }

  /** The outcome with its offset counted from n characters further in front. */
  function Shifted(r: Outcome, n: nat): Outcome {
    if r.Failed? then Failed(r.code, n + r.at) else r
  }

  lemma {:induction false} ExpandShift(s: string, n: nat, rest: string, p: nat, e: nat, lim: Limits)
    requires Within(s, n, rest, p, e)
    ensures Expand(s, n + p, n + e, lim) == Shifted(Expand(rest, p, e, lim), n)
    decreases e - p, 1
  {
    hide ElementAt, ParseHeader;
    if p < e {
      ElementShift(s, n, rest, p, e);
      match ElementAt(rest, p, e)
      case Verbatim(q) =>
        ExpandShift(s, n, rest, q, e, lim);
        assert s[n + p..n + q] == rest[p..q];
      case CloseRepeat =>
        ExpandShift(s, n, rest, p + 1, e, lim);
        assert s[n + p..n + (p + 1)] == rest[p..p + 1];
      case OpenRepeat =>
        HeaderShift(s, n, rest, p, e, lim);
        BlockShift(s, n, rest, p, ParseHeader(rest, p, e, lim), e, lim);
    }
  }

  lemma {:induction false} BlockShift(s: string, n: nat, rest: string, p: nat, h: Header, e: nat, lim: Limits)
    requires Within(s, n, rest, p, e) && HeaderFor(h, p, e, |rest|)
    ensures ExpandBlock(s, n + p, HeaderMoved(h, n), n + e, lim) == Shifted(ExpandBlock(rest, p, h, e, lim), n)
    decreases e - p, 0
  {
    hide Expand, FindEnd, SkipLineTail;
    if h.Header? {
      FindEndShift(s, n, rest, h.bodyStart, e, 1);
      var r := FindEnd(rest, h.bodyStart, e, 1);
      if r.Some? {
        ExpandShift(s, n, rest, h.bodyStart, r.value, lim);
        LineTailShift(s, n, rest, r.value + 4, e);
        ExpandShift(s, n, rest, SkipLineTail(rest, r.value + 4, e), e, lim);
      }
    }
  }

  /** What a whole source expands to. */
  function Expansion(s: string, lim: Limits): Outcome { Expand(s, 0, |s|, lim) }

  /** The items stand next to each other as the source tells them apart, and the counts are within the limit. */
  predicate IsDocument(doc: seq<Item>, next: Option<char>, lim: Limits) {
    DocFits(doc, next) && AllCountDigits(doc) && AllCountsWithin(doc, lim)
  }

  /** A document in front of any text it fits: what it means, then what the text expands to. */
  lemma DocThen(doc: seq<Item>, rest: string, lim: Limits)
    requires IsDocument(doc, First(rest, None), lim)
    ensures Expansion(DocText(doc) + rest, lim)
            == Prepend(DocMeaning(doc), Shifted(Expansion(rest, lim), |DocText(doc)|))
  {
    hide Expand, DocText, DocMeaning, DocFits;
    var n, s := |DocText(doc)|, DocText(doc) + rest;
    assert s[..n] == DocText(doc) && s[n..] == rest;
    DocPasses(s, 0, |s|, doc, lim);
    ExpandShift(s, n, rest, 0, |rest|, lim);
  }

  lemma DocExpansion(doc: seq<Item>, lim: Limits)
    requires IsDocument(doc, None, lim)
    ensures var s := DocText(doc);
            Expansion(s, lim) == Done(DocMeaning(doc)) && (BodiesFit(s, 0, |s|, lim) <==> AllBodiesRoom(doc, lim))
  {
    hide DocText, DocMeaning, DocFits, ElementAt;
    var s, t := DocText(doc), DocMeaning(doc);
    StandsWhole(s);
    DocPasses(s, 0, |s|, doc, lim);
    assert Expand(s, |s|, |s|, lim) == Done("") && t + "" == t;
  }

  /** A document by itself: it is expanded to what it means exactly when that and every body fit, and
      nothing else is ever reported. */
  lemma DocExpands(doc: seq<Item>, lim: Limits)
    requires IsDocument(doc, None, lim)
    ensures var s := DocText(doc); var r := ExpandInto(s, 0, |s|, lim, "");
            && (r.Done? <==> AllBodiesRoom(doc, lim) && FitsBuffer(DocMeaning(doc), lim))
            && (r.Done? ==> r.text == DocMeaning(doc))
            && (r.Failed? ==> r.code == SizeLimitExceeded || r.code == InternalError)
  {
    hide ExpandInto, DocText, DocMeaning, DocFits, ElementAt;
    DocExpansion(doc, lim);
    SourceExpansion(DocText(doc), lim);
  }

  /** r is what comes back for a source: for a document, its meaning if that and the bodies fit or the
      source holds no "@repeat", and a size failure otherwise. */
  ghost predicate AsDocument(source: string, lim: Limits, r: Outcome) {
    forall doc :: DocText(doc) == source && IsDocument(doc, None, lim) ==>
      && (r.Done? <==> (forall k :: !RepeatTextAt(source, k))
                       || (AllBodiesRoom(doc, lim) && FitsBuffer(DocMeaning(doc), lim)))
      && (r.Done? ==> r.text == DocMeaning(doc))
      && (r.Failed? ==> r.code == SizeLimitExceeded || r.code == InternalError)
  }

  lemma ExpandedAsDocument(source: string, lim: Limits, r: Outcome)
    requires r == if exists k :: RepeatTextAt(source, k) then ExpandInto(source, 0, |source|, lim, "") else Done(source)
    ensures AsDocument(source, lim, r)
  {
    hide ExpandInto, DocText, DocMeaning, DocFits, RepeatTextAt, Expand, Inert, AllCountsWithin;
    forall doc | DocText(doc) == source && IsDocument(doc, None, lim)
      ensures Expansion(source, lim) == Done(DocMeaning(doc))
    {
      DocExpansion(doc, lim);
      DocExpands(doc, lim);
    }
    if forall k :: !RepeatTextAt(source, k) {
      LackingIsInert(source, 0);
      InertExpandsToItself(source, 0, |source|, lim);
      assert source[0..|source|] == source;
    }
    forall doc | DocText(doc) == source && IsDocument(doc, None, lim) {
      DocExpands(doc, lim);
    }
  }

  // ---- IDX where it stands alone ----

  predicate NameChar(c: char) { 'a' <= c <= 'z' || 'A' <= c <= 'Z' || '0' <= c <= '9' || c == '_' }

  /** IDX with no letter, digit or underscore on either side of it. */
  predicate IdxAlone(t: string, k: nat) {
    && k + 3 <= |t| && t[k..k + 3] == "IDX"
    && (k == 0 || !NameChar(t[k - 1])) && (k + 3 == |t| || !NameChar(t[k + 3]))
  }

  /** A piece of a body between two IDX: none stands alone inside it, and no name runs into the ones beside it. */
  predicate PieceFits(t: string, first: bool, last: bool) {
    && (forall k :: 0 <= k < |t| ==> !IdxAlone(t, k))
    && (t == "" ==> first || last)
    && (t != "" && !first ==> !NameChar(t[0]))
    && (t != "" && !last ==> !NameChar(t[|t| - 1]))
  }

  predicate IsSplit(pieces: seq<string>, first: bool) {
    pieces != [] && forall i :: 0 <= i < |pieces| ==> PieceFits(pieces[i], first && i == 0, i == |pieces| - 1)
  }

  /** The pieces with text between any two neighbours. */
  function Joined(pieces: seq<string>, text: string): string
    requires pieces != []
  {
    if |pieces| == 1 then pieces[0] else pieces[0] + text + Joined(pieces[1..], text)
  }

  /** The index in at most 15 digits. */
  function IndexDigits(i: nat): string {
    Decimal(i)[..if |Decimal(i)| < 15 then |Decimal(i)| else 15]
  }

  /** The pieces joined by 0, then by 1, and so on up to n - 1. */
  function Copies(pieces: seq<string>, n: nat): string
    requires pieces != []
  {
    if n == 0 then "" else Copies(pieces, n - 1) + Joined(pieces, IndexDigits(n - 1))
  }

  lemma StandsAlone(b: string, k: nat)
    ensures StandaloneIdx(b, k) <==> IdxAlone(b, k)
  {
    if k + 3 <= |b| {
      assert b[k..k + 3] == [b[k], b[k + 1], b[k + 2]];
    }
  }

  lemma SliceOfSlice(b: string, from: nat, k: nat, i: nat, j: nat)
    requires from <= i <= j <= k <= |b|
    ensures b[from..k][i - from..j - from] == b[i..j]
  {
    var t := b[from..k][i - from..j - from];
    assert forall x :: 0 <= x < |t| ==> t[x] == b[i + x] == b[i..j][x];
  }

  /** The IDX that follows a piece stands alone, and none before it does. */
  lemma PieceEnds(b: string, from: nat, k: nat, next: string)
    requires from <= k <= |b| && PieceFits(b[from..k], from == 0, k == |b|)
    requires from > 0 ==> NameChar(b[from - 1])
    requires k < |b| ==> b[k..] == "IDX" + next && (next == "" || !NameChar(next[0]))
    ensures forall j :: from <= j < k ==> !StandaloneIdx(b, j)
    ensures k < |b| ==> StandaloneIdx(b, k)
  {
    var piece := b[from..k];
    forall j | from <= j < k ensures !StandaloneIdx(b, j) {
      assert !IdxAlone(piece, j - from);
      if j + 3 <= k { SliceOfSlice(b, from, k, j, j + 3); }
      StandsAlone(b, j);
    }
    if k < |b| {
      assert b[k] == b[k..][0] && b[k + 1] == b[k..][1] && b[k + 2] == b[k..][2];
      assert next != "" ==> b[k + 3] == b[k..][3];
      assert k > from ==> piece[|piece| - 1] == b[k - 1];
    }
  }

  /** A body split at its standalone IDX is substituted by joining the pieces with the index. */
  lemma {:induction false} SubstJoins(b: string, from: nat, pieces: seq<string>, text: string)
    requires from <= |b| && IsSplit(pieces, from == 0) && b[from..] == Joined(pieces, "IDX")
    requires from > 0 ==> NameChar(b[from - 1])
    ensures Subst(b, from, text) == Joined(pieces, text)
    decreases |pieces|
  {
    hide Subst, StandaloneIdx, PieceFits, Joined;
    var k := from + |pieces[0]|;
    JoinedParts(b, from, pieces);
    if |pieces| == 1 {
      PieceEnds(b, from, k, "");
      SubstSkips(b, from, k, text);
      SubstEnd(b, text);
    } else {
      PieceEnds(b, from, k, Joined(pieces[1..], "IDX"));
      SubstSkips(b, from, k, text);
      SubstHere(b, k, text);
      SubstJoins(b, k + 3, pieces[1..], text);
    }
    JoinedFirst(pieces, text);
  }

  lemma JoinedFirst(pieces: seq<string>, text: string)
    requires pieces != []
    ensures Joined(pieces, text)
            == if |pieces| == 1 then pieces[0] else pieces[0] + (text + Joined(pieces[1..], text))
  {
    if |pieces| > 1 {
      assert pieces[0] + text + Joined(pieces[1..], text) == pieces[0] + (text + Joined(pieces[1..], text));
    }
  }

  /** The first piece of a split, and what stands behind it. */
  lemma JoinedParts(b: string, from: nat, pieces: seq<string>)
    requires from <= |b| && IsSplit(pieces, from == 0) && b[from..] == Joined(pieces, "IDX")
    ensures var k := from + |pieces[0]|;
            && k <= |b| && b[from..k] == pieces[0] && (|pieces| == 1 <==> k == |b|)
            && (|pieces| > 1 ==>
                  var rest := Joined(pieces[1..], "IDX");
                  && b[k..] == "IDX" + rest && (rest == "" || !NameChar(rest[0]))
                  && k + 3 <= |b| && b[k + 3..] == rest && b[k + 2] == 'X' && IsSplit(pieces[1..], false))
  {
    hide PieceFits, Joined, NameChar;
    JoinedFirst(pieces, "IDX");
    var k := from + |pieces[0]|;
    assert b[from..k] == b[from..][..|pieces[0]|] == pieces[0];
    if |pieces| > 1 {
      var rest := Joined(pieces[1..], "IDX");
      assert b[k..] == b[from..][|pieces[0]|..] == "IDX" + rest;
      assert b[k + 3..] == b[k..][3..] == rest;
      assert b[k + 2] == b[k..][2] == 'X';
      assert forall i :: 0 <= i < |pieces[1..]| ==> pieces[1..][i] == pieces[i + 1];
      JoinedStarts(pieces[1..]);
    }
  }

  lemma SubstEnd(b: string, text: string)
    ensures Subst(b, |b|, text) == ""
  {
  }

  lemma SubstHere(b: string, k: nat, text: string)
    requires k < |b| && StandaloneIdx(b, k)
    ensures Subst(b, k, text) == text + Subst(b, k + 3, text)
  {
  }

  lemma JoinedStarts(pieces: seq<string>)
    requires IsSplit(pieces, false)
    ensures var t := Joined(pieces, "IDX"); t == "" || !NameChar(t[0])
  {
    assert PieceFits(pieces[0], false, |pieces| == 1);
  }

  /** Every body has such a split. */
  lemma {:induction false} SplitExists(b: string, from: nat) returns (pieces: seq<string>)
    requires from <= |b|
    requires from > 0 ==> NameChar(b[from - 1]) && (from == |b| || !NameChar(b[from]))
    ensures IsSplit(pieces, from == 0) && Joined(pieces, "IDX") == b[from..]
    decreases |b| - from
  {
    hide StandaloneIdx, NextIdx, PieceFits;
    var k := NextIdx(b, from);
    PieceBefore(b, from, k);
    if k == |b| {
      pieces := [b[from..k]];
    } else {
      StandsAlone(b, k);
      assert b[k + 2] == b[k..k + 3][2] == 'X';
      var rest := SplitExists(b, k + 3);
      pieces := [b[from..k]] + rest;
      assert pieces[1..] == rest;
      assert b[from..] == b[from..k] + b[k..k + 3] + b[k + 3..];
    }
  }

  lemma PieceBefore(b: string, from: nat, k: nat)
    requires from <= k <= |b|
    requires from > 0 ==> NameChar(b[from - 1]) && (from == |b| || !NameChar(b[from]))
    requires k < |b| ==> StandaloneIdx(b, k)
    requires forall j :: from <= j < k ==> !StandaloneIdx(b, j)
    ensures PieceFits(b[from..k], from == 0, k == |b|)
  {
    var t := b[from..k];
    forall j | 0 <= j < |t| ensures !IdxAlone(t, j) {
      StandsAlone(b, from + j);
      if j + 3 <= |t| { SliceOfSlice(b, from, k, from + j, from + j + 3); }
    }
  }

  lemma {:induction false} IterationsGrow(b: string, i: nat, n: nat)
    requires i <= n
    ensures Iterations(b, i, n + 1) == Iterations(b, i, n) + Subst(b, 0, IdxText(n))
    decreases n - i
  {
    if i < n {
      IterationsGrow(b, i + 1, n);
      var one := Subst(b, 0, IdxText(i));
      assert one + (Iterations(b, i + 1, n) + Subst(b, 0, IdxText(n)))
          == (one + Iterations(b, i + 1, n)) + Subst(b, 0, IdxText(n));
    } else {
      assert Iterations(b, n + 1, n + 1) == "";
    }
  }

  lemma IndexIs(i: nat)
    ensures IdxText(i) == IndexDigits(i)
  {
    assert Decimal(i)[..|Decimal(i)|] == Decimal(i);
  }

  /** A body is repeated by writing 0, 1, ... in place of its standalone IDX. */
  lemma {:induction false} IterationsCopy(b: string, pieces: seq<string>, n: nat)
    requires IsSplit(pieces, true) && b == Joined(pieces, "IDX")
    ensures Iterations(b, 0, n) == Copies(pieces, n)
  {
    hide Subst, Joined, IsSplit, IdxText, IndexDigits;
    if n > 0 {
      IterationsCopy(b, pieces, n - 1);
      IterationsGrow(b, 0, n - 1);
      assert b[0..] == b;
      SubstJoins(b, 0, pieces, IdxText(n - 1));
      IndexIs(n - 1);
    }
  }

  // ---- Repeats and comments written out ----

  /** b is the body that falls into these pieces, and holds no comment, literal or directive. */
  predicate PlainBody(b: string, pieces: seq<string>) {
    IsSplit(pieces, true) && b == Joined(pieces, "IDX") && '/' !in b && '"' !in b && '@' !in b
  }

  lemma RepeatIs(gap: string, n: nat, head: Tail, b: string, pieces: seq<string>, tail: Tail, rest: string, lim: Limits)
    requires 1 <= n <= lim.maxCount && PlainBody(b, pieces) && gap != "" && Blanks(gap)
    requires TailFits(head, First(b, Some('@'))) && NoDigit(First(TailText(head), First(b, Some('@'))))
    requires TailFits(tail, First(rest, None)) && EndsWord(First(TailText(tail), First(rest, None)))
    ensures var front := "@repeat" + gap + Decimal(n) + TailText(head) + b + "@end" + TailText(tail);
            Expansion(front + rest, lim) == Prepend(Copies(pieces, n), Shifted(Expansion(rest, lim), |front|))
  {
    hide Expand, Decimal, DecimalValue, Copies, Iterations, TailFits, TailText, PlainBody, DocText, DocMeaning, DocFits;
    hide AllCountDigits, AllCountsWithin;
    var body, x := Plain(b), Repeat(gap, Decimal(n), head, [Plain(b)], tail);
    DecimalRoundTrip(n);
    BodyPlain(b, pieces);
    OneItem(body, Some('@'), lim);
    OneItem(x, First(rest, None), lim);
    DocThen([x], rest, lim);
    IterationsCopy(b, pieces, n);
  }

  lemma BodyPlain(b: string, pieces: seq<string>)
    requires PlainBody(b, pieces)
    ensures ItemFits(Plain(b), Some('@')) && IsSplit(pieces, true) && b == Joined(pieces, "IDX")
  {
  }

  /** A document of one item. */
  lemma OneItem(x: Item, next: Option<char>, lim: Limits)
    ensures DocText([x]) == ItemText(x) && (DocFits([x], next) <==> ItemFits(x, next))
    ensures AllCountDigits([x]) <==> CountsDigits(x)
    ensures CountsDigits(x) ==> DocMeaning([x]) == ItemMeaning(x)
    ensures CountsDigits(x) ==> (AllCountsWithin([x], lim) <==> CountsWithin(x, lim))
  {
    hide ItemText, ItemMeaning, ItemFits, CountsDigits, CountsWithin;
    assert [x][1..] == [] && DocText([]) == "" && AllCountDigits([]) && DocMeaning([]) == "";
    assert AllCountsWithin([], lim) && DocFits([], next);
    assert ItemText(x) + "" == ItemText(x);
    if CountsDigits(x) { assert ItemMeaning(x) + "" == ItemMeaning(x); }
  }

  /** A repeat with its directives on lines of their own. */
  lemma RepeatLines(n: nat, b: string, pieces: seq<string>, rest: string, lim: Limits)
    requires 1 <= n <= lim.maxCount && PlainBody(b, pieces)
    ensures var front := "@repeat " + Decimal(n) + "\n" + b + "@end\n";
            Expansion(front + rest, lim) == Prepend(Copies(pieces, n), Shifted(Expansion(rest, lim), |front|))
  {
    hide Expand, Decimal, Copies, PlainBody;
    RepeatBlanks(n, "", b, pieces, "", rest, lim);
    var d := Decimal(n);
    assert "@end" + "\n" == "@end\n";
    assert "@repeat " + d + "" + "\n" + b + "@end" + "" + "\n" == "@repeat " + d + "\n" + b + "@end\n";
  }

  /** The same with blanks before the newlines. */
  lemma RepeatBlanks(n: nat, before: string, b: string, pieces: seq<string>, after: string, rest: string, lim: Limits)
    requires 1 <= n <= lim.maxCount && PlainBody(b, pieces) && Blanks(before) && Blanks(after)
    ensures var front := "@repeat " + Decimal(n) + before + "\n" + b + "@end" + after + "\n";
            Expansion(front + rest, lim) == Prepend(Copies(pieces, n), Shifted(Expansion(rest, lim), |front|))
  {
    hide Expand, Decimal, Copies, PlainBody;
    RepeatIs(" ", n, Tail(before, true), b, pieces, Tail(after, true), rest, lim);
    var d := Decimal(n);
    assert "@repeat" + " " == "@repeat ";
    assert "@repeat" + " " + d + (before + "\n") + b + "@end" + (after + "\n")
        == "@repeat " + d + before + "\n" + b + "@end" + after + "\n";
  }

  /** The same on one line: the blanks behind the count and behind @end are dropped all the same. */
  lemma RepeatInline(n: nat, before: string, b: string, pieces: seq<string>, after: string, rest: string, lim: Limits)
    requires 1 <= n <= lim.maxCount && PlainBody(b, pieces) && Blanks(before) && Blanks(after)
    requires b != "" ==> b[0] !in " \t\n" && (before == "" ==> b[0] !in "0123456789")
    requires rest != "" ==> rest[0] !in " \t\n" && (after == "" ==> !NameChar(rest[0]))
    ensures var front := "@repeat " + Decimal(n) + before + b + "@end" + after;
            Expansion(front + rest, lim) == Prepend(Copies(pieces, n), Shifted(Expansion(rest, lim), |front|))
  {
    hide Expand, Decimal, Copies, PlainBody;
    var head, tail := Tail(before, false), Tail(after, false);
    DigitIs(First(b, Some('@')).value);
    assert before + "" == before && after + "" == after;
    RepeatIs(" ", n, head, b, pieces, tail, rest, lim);
    var d := Decimal(n);
    assert "@repeat" + " " == "@repeat ";
    assert "@repeat" + " " + d + (before + "") + b + "@end" + (after + "")
        == "@repeat " + d + before + b + "@end" + after;
  }

  lemma DigitIs(c: char)
    ensures IsDigit(c) <==> c in "0123456789"
  {
    if IsDigit(c) { assert "0123456789"[c as int - '0' as int] == c; }
  }

  /** A comment is copied to the end of its line, whatever it holds. */
  lemma CommentLine(c: string, rest: string, lim: Limits)
    requires '\n' !in c
    ensures var front := "//" + c + "\n";
            Expansion(front + rest, lim) == Prepend(front, Shifted(Expansion(rest, lim), |front|))
  {
    hide Expand, DocText, DocMeaning, DocFits, AllCountDigits, AllCountsWithin;
    var first, second := Comment(c), Plain("\n");
    var doc := [first, second];
    OneItem(second, First(rest, None), lim);
    MoreItems(first, [second], First(rest, None), lim);
    assert [first] + [second] == doc;
    assert ItemText(first) + "\n" == "//" + c + "\n";
    DocThen(doc, rest, lim);
  }

  /** A document with one item more in front. */
  lemma MoreItems(x: Item, doc: seq<Item>, next: Option<char>, lim: Limits)
    ensures DocText([x] + doc) == ItemText(x) + DocText(doc)
    ensures DocFits([x] + doc, next) <==> ItemFits(x, First(DocText(doc), next)) && DocFits(doc, next)
    ensures AllCountDigits([x] + doc) <==> CountsDigits(x) && AllCountDigits(doc)
    ensures AllCountDigits([x] + doc) ==>
              && DocMeaning([x] + doc) == ItemMeaning(x) + DocMeaning(doc)
              && (AllCountsWithin([x] + doc, lim) <==> CountsWithin(x, lim) && AllCountsWithin(doc, lim))
  {
    hide ItemText, ItemMeaning, ItemFits, CountsDigits, CountsWithin;
    assert ([x] + doc)[1..] == doc;
  }

  // ---- What is refused ----

  lemma HeaderRefused(s: string, code: ErrorCode, lim: Limits)
    requires |s| >= 7 && ElementAt(s, 0, |s|) == OpenRepeat && ParseHeader(s, 0, |s|, lim) == BadHeader(code)
    ensures Expansion(s, lim) == Failed(code, 0)
  {
    hide ElementAt, ParseHeader;
    assert Expand(s, 0, |s|, lim) == ExpandBlock(s, 0, BadHeader(code), |s|, lim);
  }

  lemma BlockRefused(s: string, count: Size, b: nat, lim: Limits)
    requires 7 <= b <= |s| && ElementAt(s, 0, |s|) == OpenRepeat && ParseHeader(s, 0, |s|, lim) == Header(count, b)
    requires FindEnd(s, b, |s|, 1) == None
    ensures Expansion(s, lim) == Failed(NoMatchingEnd, 0)
  {
    hide ElementAt, ParseHeader, FindEnd;
    assert Expand(s, 0, |s|, lim) == ExpandBlock(s, 0, Header(count, b), |s|, lim);
  }

  lemma HeadRefused(gap: string, digits: string, rest: string, lim: Limits)
    requires gap != "" && Blanks(gap) && digits != "" && AllDigits(digits) && NoDigit(First(rest, None))
    requires DecimalValue(digits) == 0 || DecimalValue(digits) > lim.maxCount
    ensures Expansion("@repeat" + gap + digits + rest, lim)
            == Failed(if DecimalValue(digits) == 0 then CountInvalid else CountLimitExceeded, 0)
  {
    hide ElementAt, ParseHeader, DecimalValue, SkipLineTail, Expansion, Blanks, Stands;
    var s := "@repeat" + gap + digits + rest;
    assert s == "@repeat" + (gap + (digits + rest));
    StandsWhole(s);
    StandsBoth(s, 0, |s|, "@repeat", gap + (digits + rest));
    StandsBoth(s, 7, |s|, gap, digits + rest);
    StandsBoth(s, 7 + |gap|, |s|, digits, rest);
    CountRead(s, 0, |s|, gap, digits, lim);
    HeaderRefused(s, if DecimalValue(digits) == 0 then CountInvalid else CountLimitExceeded, lim);
  }

  lemma GapRefused(gap: string, rest: string, lim: Limits)
    requires Blanks(gap) && EndsWord(First(gap, First(rest, None)))
    requires rest != "" ==> rest[0] !in " \t0123456789"
    ensures Expansion("@repeat" + gap + rest, lim) == Failed(CountInvalid, 0)
  {
    hide ElementAt, SkipHSpace, Expansion, Stands, ParseHeader, Blanks, EndsWord;
    var s := "@repeat" + gap + rest;
    assert s == "@repeat" + (gap + rest);
    StandsWhole(s);
    StandsBoth(s, 0, |s|, "@repeat", gap + rest);
    StandsBoth(s, 7, |s|, gap, rest);
    assert "@repeat" == "@" + "repeat";
    assert forall k :: 0 <= k < 6 ==> IsWordChar("repeat"[k]);
    assert NextAt(s, 7, |s|) == First(gap, First(rest, None));
    DirectiveHere(s, 0, |s|, "repeat");
    if rest != "" { DigitIs(rest[0]); }
    BlanksSkipped(s, 7, |s|, gap);
    NoCount(s, 7 + |gap|, lim);
    HeaderRefused(s, CountInvalid, lim);
  }

  lemma NoCount(s: string, a: nat, lim: Limits)
    requires 7 <= |s| && SkipHSpace(s, 7, |s|) == a && (a == |s| || !IsDigit(s[a]))
    ensures ParseHeader(s, 0, |s|, lim) == BadHeader(CountInvalid)
  {
    hide SkipHSpace;
  }

  lemma BodyUnmatched(gap: string, digits: string, head: Tail, body: seq<Item>, lim: Limits)
    requires gap != "" && Blanks(gap) && digits != "" && AllDigits(digits) && 1 <= DecimalValue(digits) <= lim.maxCount
    requires var next := First(DocText(body), None); NoDigit(First(TailText(head), next)) && TailFits(head, next)
    requires IsDocument(body, None, lim)
    ensures Expansion(HeadText(gap, digits, head) + DocText(body), lim) == Failed(NoMatchingEnd, 0)
  {
    hide ElementAt, ParseHeader, DecimalValue, HeadText, DocText, DocFits, TailFits, TailText;
    var front, text := HeadText(gap, digits, head), DocText(body);
    var s := front + text;
    StandsBoth(s, 0, |s|, front, text);
    HeadRead(s, 0, |s|, gap, digits, head, lim);
    DocPasses(s, |front|, |s|, body, lim);
    assert FindEnd(s, |front|, |s|, 1) == FindEnd(s, |s|, |s|, 1) == None;
    BlockRefused(s, DecimalValue(digits), |front|, lim);
  }

  /** A count of 0 or above the limit is reported at its @repeat, whatever follows the blanks behind it. */
  lemma CountRefused(doc: seq<Item>, gap: string, digits: string, rest: string, lim: Limits)
    requires IsDocument(doc, Some('@'), lim)
    requires gap != "" && Blanks(gap) && digits != "" && AllDigits(digits) && NoDigit(First(rest, None))
    requires DecimalValue(digits) == 0 || DecimalValue(digits) > lim.maxCount
    ensures Expansion(DocText(doc) + ("@repeat" + gap + digits + rest), lim)
            == Failed(if DecimalValue(digits) == 0 then CountInvalid else CountLimitExceeded, |DocText(doc)|)
  {
    hide Expand, DocText, DocMeaning, DocFits, DecimalValue;
    var text := "@repeat" + gap + digits + rest;
    HeadRefused(gap, digits, rest, lim);
    DocThen(doc, text, lim);
  }

  /** Blanks that are followed by no digit make the count invalid. */
  lemma CountMissing(doc: seq<Item>, gap: string, rest: string, lim: Limits)
    requires IsDocument(doc, Some('@'), lim)
    requires Blanks(gap) && EndsWord(First(gap, First(rest, None)))
    requires rest != "" ==> rest[0] !in " \t0123456789"
    ensures Expansion(DocText(doc) + ("@repeat" + gap + rest), lim) == Failed(CountInvalid, |DocText(doc)|)
  {
    hide Expand, DocText, DocMeaning, DocFits;
    var text := "@repeat" + gap + rest;
    GapRefused(gap, rest, lim);
    DocThen(doc, text, lim);
  }

  /** A repeat behind whose count no @end follows, but a document, is reported where it stands. */
  lemma EndMissing(doc: seq<Item>, gap: string, digits: string, head: Tail, body: seq<Item>, lim: Limits)
    requires IsDocument(doc, Some('@'), lim)
    requires gap != "" && Blanks(gap) && digits != "" && AllDigits(digits) && 1 <= DecimalValue(digits) <= lim.maxCount
    requires var next := First(DocText(body), None); NoDigit(First(TailText(head), next)) && TailFits(head, next)
    requires IsDocument(body, None, lim)
    ensures Expansion(DocText(doc) + (HeadText(gap, digits, head) + DocText(body)), lim)
            == Failed(NoMatchingEnd, |DocText(doc)|)
  {
    hide Expand, DocText, DocMeaning, DocFits, DecimalValue;
    var text := HeadText(gap, digits, head) + DocText(body);
    BodyUnmatched(gap, digits, head, body, lim);
    DocThen(doc, text, lim);
  }

  // ---- Where a size failure is reported ----

  /** Text that holds nothing special is copied a character at a time: the first one too many is reported. */
  lemma {:induction false} PlainTooLong(s: string, p: nat, lim: Limits)
    requires p <= |s| && '/' !in s && '"' !in s && '@' !in s
    requires p <= lim.maxBytes < |s| && lim.maxBytes < SIZE_MAX
    ensures ExpandInto(s, p, |s|, lim, s[..p]) == Failed(SizeLimitExceeded, lim.maxBytes)
    decreases |s| - p
  {
    assert s[p] in s && s[p..p + 1] == [s[p]];
    assert ElementAt(s, p, |s|) == Verbatim(p + 1);
    if p < lim.maxBytes {
      assert s[..p] + s[p..p + 1] == s[..p + 1];
      PlainTooLong(s, p + 1, lim);
    }
  }

  lemma {:induction false} IterateFailsAt(acc: string, b: string, i: nat, n: nat, lim: Limits, at: nat)
    requires i <= n
    ensures IterateInto(acc, b, i, n, lim, at).Failed? ==> IterateInto(acc, b, i, n, lim, at).at == at
    decreases n - i
  {
    hide SubstInto;
    if i < n {
      SubstFailsAt(acc, b, 0, IdxText(i), lim, at);
      var one := SubstInto(acc, b, 0, IdxText(i), lim, at);
      if one.Done? { IterateFailsAt(one.text, b, i + 1, n, lim, at); }
    }
  }

  lemma {:induction false} SubstFailsAt(acc: string, b: string, from: nat, text: string, lim: Limits, at: nat)
    requires from <= |b|
    ensures SubstInto(acc, b, from, text, lim, at).Failed? ==> SubstInto(acc, b, from, text, lim, at).at == at
    decreases |b| - from
  {
    var k := NextIdx(b, from);
    if k < |b| {
      var before := Append(acc, b[from..k], lim, at);
      if before.Done? {
        var index := Append(before.text, text, lim, at);
        if index.Done? { SubstFailsAt(index.text, b, k + 3, text, lim, at); }
      }
    }
  }

  /** A repeat whose body fits and whose copies do not is reported where it stands. */
  lemma RepeatTooLong(x: Item, lim: Limits)
    requires x.Repeat? && ItemFits(x, None) && CountsDigits(x) && CountsWithin(x, lim)
    requires BodiesRoom(x, lim) && !FitsBuffer(ItemMeaning(x), lim)
    ensures var s := ItemText(x); var r := ExpandInto(s, 0, |s|, lim, "");
            IsSizeFailure(r) && r.at == 0
  {
    hide ElementAt, ParseHeader, FindEnd, ExpandInto, DocText, DocMeaning, Iterations, SkipLineTail;
    var s := ItemText(x);
    OneItem(x, None, lim);
    DocExpands([x], lim);
    RepeatFound(s, x, lim);
    var body, count := DocMeaning(x.body), DecimalValue(x.digits);
    IterateIntoMeaning("", body, 0, count, lim, 0);
    IterateFailsAt("", body, 0, count, lim, 0);
  }

  lemma RepeatFound(s: string, x: Item, lim: Limits)
    requires x.Repeat? && ItemFits(x, None) && CountsDigits(x) && CountsWithin(x, lim) && BodiesRoom(x, lim)
    requires s == ItemText(x)
    ensures var r := ExpandInto(s, 0, |s|, lim, "");
            var t := IterateInto("", DocMeaning(x.body), 0, DecimalValue(x.digits), lim, 0);
            t.Failed? ==> r == t
  {
    hide ElementAt, ParseHeader, FindEnd, DocText, DocMeaning, IterateInto, SkipLineTail, DocFits, DecimalValue;
    hide TailFits, TailText, HeadText, Expand, BodiesFit, Stands, Matches;
    var b := |HeadText(x.gap, x.digits, x.head)|;
    var endAt, count := b + |DocText(x.body)|, DecimalValue(x.digits);
    StandsWhole(s);
    RepeatStands(s, 0, |s|, x);
    DocPasses(s, b, |s|, x.body, lim);
    RepeatLocated(s, 0, |s|, x, lim);
    BodyExpands(s, b, endAt, |s|, x, lim);
    BodyInto(s, b, endAt, DocMeaning(x.body), lim);
    assert ExpandInto(s, 0, |s|, lim, "") == BlockInto(s, 0, Header(count, b), |s|, lim, "");
  }

  lemma BodyInto(s: string, b: nat, endAt: nat, body: string, lim: Limits)
    requires b <= endAt <= |s| && FitsBuffer(body, lim)
    requires Expand(s, b, endAt, lim) == Done(body) && BodiesFit(s, b, endAt, lim)
    ensures ExpandInto(s, b, endAt, lim, "") == Done(body)
  {
    hide Expand, BodiesFit, ExpandInto;
    ExpandIntoMeaning(s, b, endAt, lim, "");
    assert "" + body == body;
  }
}
