// compiler/src/repeat_expand.c in terms of whole texts: documents are put together from comments,
// literals, words and repeats, and a document expands to what it means.
module RepeatDocuments {
  import opened Text
  import opened CheckedSize
  import opened RepeatSpec
  import opened RepeatTheorems

  // ---- Documents ----

  datatype Unit = Char(c: char) | Escaped(c: char)

  /** What ends a directive: blanks, and a newline or none. */
  datatype Tail = Tail(blanks: string, newline: bool)

  datatype Item =
    | Plain(text: string)
    | Slash
    | Comment(text: string)
    | Literal(units: seq<Unit>, closed: bool)
    | Word(name: string)
    | Repeat(gap: string, digits: string, head: Tail, body: seq<Item>, tail: Tail)

  function TailText(t: Tail): string { t.blanks + if t.newline then "\n" else "" }

  function UnitText(u: Unit): string {
    match u
    case Char(c) => [c]
    case Escaped(c) => ['\\', c]
  }

  function UnitsText(units: seq<Unit>): string {
    if units == [] then "" else UnitText(units[0]) + UnitsText(units[1..])
  }

  function CloseText(closed: bool): string { if closed then "\"" else "" }

  function HeadText(gap: string, digits: string, head: Tail): string {
    "@repeat" + gap + digits + TailText(head)
  }

  /** The source text of an item. */
  function ItemText(x: Item): string
    decreases x
  {
    match x
    case Plain(text) => text
    case Slash => "/"
    case Comment(text) => "//" + text
    case Literal(units, closed) => "\"" + UnitsText(units) + CloseText(closed)
    case Word(name) => "@" + name
    case Repeat(gap, digits, head, body, tail) =>
      HeadText(gap, digits, head) + DocText(body) + "@end" + TailText(tail)
  }

  function DocText(doc: seq<Item>): string
    decreases doc
  {
    if doc == [] then "" else ItemText(doc[0]) + DocText(doc[1..])
  }

  /** What an item means: itself, or for a repeat the meaning of its body once for every index. */
  function ItemMeaning(x: Item): string
    requires CountsDigits(x)
    decreases x
  {
    match x
    case Repeat(_, digits, _, body, _) => Iterations(DocMeaning(body), 0, DecimalValue(digits))
    case _ => ItemText(x)
  }

  function DocMeaning(doc: seq<Item>): string
    requires AllCountDigits(doc)
    decreases doc
  {
    if doc == [] then "" else ItemMeaning(doc[0]) + DocMeaning(doc[1..])
  }

  predicate CountsDigits(x: Item)
    decreases x
  {
    x.Repeat? ==> AllDigits(x.digits) && AllCountDigits(x.body)
  }

  predicate AllCountDigits(doc: seq<Item>)
    decreases doc
  {
    doc == [] || (CountsDigits(doc[0]) && AllCountDigits(doc[1..]))
  }

  /** Every count is between 1 and the limit. */
  predicate CountsWithin(x: Item, lim: Limits)
    requires CountsDigits(x)
    decreases x
  {
    x.Repeat? ==> 1 <= DecimalValue(x.digits) <= lim.maxCount && AllCountsWithin(x.body, lim)
  }

  predicate AllCountsWithin(doc: seq<Item>, lim: Limits)
    requires AllCountDigits(doc)
    decreases doc
  {
    doc == [] || (CountsWithin(doc[0], lim) && AllCountsWithin(doc[1..], lim))
  }

  /** The text fits a buffer: it is within the limit and leaves a size_t for the terminator. */
  predicate FitsBuffer(t: string, lim: Limits) { |t| <= lim.maxBytes && |t| < SIZE_MAX }

  /** What every repeat body means, at every nesting level, fits a buffer. */
  predicate BodiesRoom(x: Item, lim: Limits)
    requires CountsDigits(x)
    decreases x
  {
    x.Repeat? ==> FitsBuffer(DocMeaning(x.body), lim) && AllBodiesRoom(x.body, lim)
  }

  predicate AllBodiesRoom(doc: seq<Item>, lim: Limits)
    requires AllCountDigits(doc)
    decreases doc
  {
    doc == [] || (BodiesRoom(doc[0], lim) && AllBodiesRoom(doc[1..], lim))
  }

  // ---- What may stand next to what ----

  function First(t: string, next: Option<char>): Option<char> {
    if t == "" then next else Some(t[0])
  }

  predicate IsBlank(c: char) { c == ' ' || c == '\t' }

  predicate Blanks(t: string) { forall k :: 0 <= k < |t| ==> IsBlank(t[k]) }

  predicate EndsWord(next: Option<char>) { next.None? || !IsWordChar(next.value) }

  predicate EndsLine(next: Option<char>) { next.None? || next.value == '\n' }

  predicate NoDigit(next: Option<char>) { next.None? || !IsDigit(next.value) }

  predicate TailFits(t: Tail, next: Option<char>) {
    Blanks(t.blanks) && (t.newline || next.None? || (!IsBlank(next.value) && next.value != '\n'))
  }

  predicate UnitFits(u: Unit) { u.Char? ==> u.c != '"' && u.c != '\n' && u.c != '\\' }

  /** The item can be followed by a text that starts with next. */
  predicate ItemFits(x: Item, next: Option<char>)
    decreases x
  {
    match x
    case Plain(text) => forall k :: 0 <= k < |text| ==> text[k] != '/' && text[k] != '"' && text[k] != '@'
    case Slash => next != Some('/')
    case Comment(text) => '\n' !in text && EndsLine(next)
    case Literal(units, closed) => (forall k :: 0 <= k < |units| ==> UnitFits(units[k])) && (closed || EndsLine(next))
    case Word(name) =>
      (forall k :: 0 <= k < |name| ==> IsWordChar(name[k])) && name != "repeat" && name != "end" && EndsWord(next)
    case Repeat(gap, digits, head, body, tail) =>
      && gap != "" && Blanks(gap)
      && digits != "" && AllDigits(digits) && NoDigit(First(TailText(head), First(DocText(body), Some('@'))))
      && TailFits(head, First(DocText(body), Some('@')))
      && DocFits(body, Some('@'))
      && TailFits(tail, next) && EndsWord(First(TailText(tail), next))
  }

  predicate DocFits(doc: seq<Item>, next: Option<char>)
    decreases doc
  {
    doc == [] || (ItemFits(doc[0], First(DocText(doc[1..]), next)) && DocFits(doc[1..], next))
  }

  lemma {:induction false} FitsCountDigits(x: Item, next: Option<char>)
    requires ItemFits(x, next)
    ensures CountsDigits(x)
    decreases x
  {
    if x.Repeat? {
      DocFitsCountDigits(x.body, Some('@'));
    }
  }

  lemma {:induction false} DocFitsCountDigits(doc: seq<Item>, next: Option<char>)
    requires DocFits(doc, next)
    ensures AllCountDigits(doc)
    decreases doc
  {
    if doc != [] {
      FitsCountDigits(doc[0], First(DocText(doc[1..]), next));
      DocFitsCountDigits(doc[1..], next);
    }
  }

  /** What fits in front of a text fits in front of nothing. */
  lemma {:induction false} DocFitsNothing(doc: seq<Item>, next: Option<char>)
    requires DocFits(doc, next)
    ensures DocFits(doc, None)
    decreases doc
  {
    if doc != [] {
      DocFitsNothing(doc[1..], next);
      if DocText(doc[1..]) == "" {
        ItemFitsNothing(doc[0], next);
      }
    }
  }

  lemma ItemFitsNothing(x: Item, next: Option<char>)
    requires ItemFits(x, next)
    ensures ItemFits(x, None)
  {
  }

  // ---- Texts in a region ----

  /** text stands at p in the region that ends at e. */
  predicate Stands(s: string, p: nat, e: nat, text: string) {
    p + |text| <= e <= |s| && s[p..p + |text|] == text
  }

  function NextAt(s: string, p: nat, e: nat): Option<char>
    requires p <= e <= |s|
  {
    if p < e then Some(s[p]) else None
  }

  lemma StandsWhole(s: string)
    ensures Stands(s, 0, |s|, s)
  {
    assert s[0..|s|] == s;
  }

  lemma StandsBoth(s: string, p: nat, e: nat, a: string, b: string)
    requires Stands(s, p, e, a + b)
    ensures Stands(s, p, e, a) && Stands(s, p + |a|, e, b)
    ensures NextAt(s, p + |a|, e) == First(b, NextAt(s, p + |a| + |b|, e))
  {
    var t := s[p..p + |a| + |b|];
    assert s[p..p + |a|] == t[..|a|] && s[p + |a|..p + |a| + |b|] == t[|a|..];
  }

  lemma StandsChar(s: string, p: nat, e: nat, text: string, k: nat)
    requires Stands(s, p, e, text) && k < |text|
    ensures s[p + k] == text[k]
  {
    assert s[p..p + |text|][k] == s[p + k];
  }

  // ---- Expansion and matching step over one text ----

  /** From p to q the expander emits t, the matcher keeps its depth, and the bodies fit if there is room. */
  ghost predicate Passes(s: string, p: nat, q: nat, e: nat, t: string, room: bool, lim: Limits)
  {
    && p <= q <= e <= |s|
    && Expand(s, p, e, lim) == Prepend(t, Expand(s, q, e, lim))
    && (BodiesFit(s, p, e, lim) <==> room && BodiesFit(s, q, e, lim))
    && Matches(s, p, q, e)
  }

  /** No search for an @end stops between p and q. */
  ghost predicate Matches(s: string, p: nat, q: nat, e: nat)
    requires p <= q <= e <= |s|
  {
    forall depth: nat :: depth > 0 ==> FindEnd(s, p, e, depth) == FindEnd(s, q, e, depth)
  }

  lemma PassesNothing(s: string, p: nat, e: nat, lim: Limits)
    requires p <= e <= |s|
    ensures Passes(s, p, p, e, "", true, lim)
  {
    hide Expand, FindEnd, BodiesFit;
    var r := Expand(s, p, e, lim);
    assert r.Done? ==> "" + r.text == r.text;
  }

  lemma PassesThen(s: string, p: nat, q: nat, r: nat, e: nat, t: string, u: string, tr: bool, ur: bool, lim: Limits)
    requires Passes(s, p, q, e, t, tr, lim) && Passes(s, q, r, e, u, ur, lim)
    ensures Passes(s, p, r, e, t + u, tr && ur, lim)
  {
    hide Expand, FindEnd, BodiesFit;
    var x := Expand(s, r, e, lim);
    assert x.Done? ==> t + (u + x.text) == (t + u) + x.text;
  }

  lemma PassesVerbatim(s: string, p: nat, q: nat, e: nat, text: string, lim: Limits)
    requires p < e <= |s| && ElementAt(s, p, e) == Verbatim(q) && Stands(s, p, e, text) && q == p + |text|
    ensures Passes(s, p, q, e, text, true, lim)
  {
    hide ElementAt;
  }

  lemma {:induction false} PlainPasses(s: string, p: nat, e: nat, text: string, lim: Limits)
    requires Stands(s, p, e, text) && ItemFits(Plain(text), None)
    ensures Passes(s, p, p + |text|, e, text, true, lim)
    decreases |text|
  {
    if text == "" {
      PassesNothing(s, p, e, lim);
    } else {
      var head, tail := text[..1], text[1..];
      assert text == head + tail;
      StandsBoth(s, p, e, head, tail);
      StandsChar(s, p, e, text, 0);
      PassesVerbatim(s, p, p + 1, e, head, lim);
      PlainPasses(s, p + 1, e, tail, lim);
      PassesThen(s, p, p + 1, p + |text|, e, head, tail, true, true, lim);
    }
  }

  lemma SlashPasses(s: string, p: nat, e: nat, lim: Limits)
    requires Stands(s, p, e, "/") && NextAt(s, p + 1, e) != Some('/')
    ensures Passes(s, p, p + 1, e, "/", true, lim)
  {
    StandsChar(s, p, e, "/", 0);
    PassesVerbatim(s, p, p + 1, e, "/", lim);
  }

  lemma CommentPasses(s: string, p: nat, e: nat, text: string, lim: Limits)
    requires Stands(s, p, e, "//" + text) && '\n' !in text && EndsLine(NextAt(s, p + 2 + |text|, e))
    ensures Passes(s, p, p + 2 + |text|, e, "//" + text, true, lim)
  {
    var t := "//" + text;
    forall k | p <= k < p + |t| ensures s[k] == t[k - p] && t[k - p] != '\n' { StandsChar(s, p, e, t, k - p); }
    PassesVerbatim(s, p, LineEnd(s, p, e), e, t, lim);
  }

  lemma {:induction false} UnitsStop(s: string, p: nat, e: nat, units: seq<Unit>)
    requires Stands(s, p, e, UnitsText(units)) && forall k :: 0 <= k < |units| ==> UnitFits(units[k])
    ensures StringStop(s, p, e) == StringStop(s, p + |UnitsText(units)|, e)
    decreases |units|
  {
    if units != [] {
      var head, tail := UnitText(units[0]), UnitsText(units[1..]);
      StandsBoth(s, p, e, head, tail);
      StandsChar(s, p, e, head, 0);
      assert UnitFits(units[0]);
      UnitsStop(s, p + |head|, e, units[1..]);
    }
  }

  lemma LiteralStops(s: string, p: nat, e: nat, units: seq<Unit>, closed: bool)
    requires Stands(s, p, e, UnitsText(units) + CloseText(closed))
    requires forall k :: 0 <= k < |units| ==> UnitFits(units[k])
    requires closed || EndsLine(NextAt(s, p + |UnitsText(units)|, e))
    ensures StringStop(s, p, e) == p + |UnitsText(units)|
    ensures closed ==> s[p + |UnitsText(units)|] == '"'
  {
    StandsBoth(s, p, e, UnitsText(units), CloseText(closed));
    UnitsStop(s, p, e, units);
    if closed { StandsChar(s, p + |UnitsText(units)|, e, CloseText(closed), 0); }
  }

  lemma LiteralPasses(s: string, p: nat, e: nat, units: seq<Unit>, closed: bool, lim: Limits)
    requires var x := Literal(units, closed);
             Stands(s, p, e, ItemText(x)) && ItemFits(x, NextAt(s, p + |ItemText(x)|, e))
    ensures var t := ItemText(Literal(units, closed)); Passes(s, p, p + |t|, e, t, true, lim)
  {
    hide UnitsText, StringStop, Passes;
    var text := UnitsText(units) + CloseText(closed);
    var t := "\"" + text;
    assert t == ItemText(Literal(units, closed));
    StandsBoth(s, p, e, "\"", text);
    StandsChar(s, p, e, "\"", 0);
    LiteralStops(s, p + 1, e, units, closed);
    assert ElementAt(s, p, e) == Verbatim(p + |t|);
    PassesVerbatim(s, p, p + |t|, e, t, lim);
  }

  /** A directive that stands at p is the whole word there. */
  lemma DirectiveIsWord(s: string, p: nat, e: nat, name: string, directive: string)
    requires Stands(s, p, e, "@" + name) && EndsWord(NextAt(s, p + 1 + |name|, e))
    requires forall k :: 0 <= k < |name| ==> IsWordChar(name[k])
    requires forall k :: 0 <= k < |directive| ==> IsWordChar(directive[k])
    ensures DirectiveAt(s, p, e, "@" + directive) <==> name == directive
  {
    var t, d := "@" + name, "@" + directive;
    forall k | p <= k < p + |t| ensures s[k] == t[k - p] && (k > p ==> IsWordChar(s[k])) {
      StandsChar(s, p, e, t, k - p);
    }
    if DirectiveAt(s, p, e, d) {
      forall k | p < k < p + |d| ensures IsWordChar(s[k]) { assert s[p + (k - p)] == d[k - p]; }
      assert |name| == |directive|;
      forall k | 0 <= k < |name| ensures name[k] == directive[k] {
        assert t[k + 1] == s[p + (k + 1)] == d[k + 1];
      }
    }
  }

  lemma DirectiveHere(s: string, p: nat, e: nat, name: string)
    requires Stands(s, p, e, "@" + name) && EndsWord(NextAt(s, p + 1 + |name|, e))
    requires forall k :: 0 <= k < |name| ==> IsWordChar(name[k])
    ensures ElementAt(s, p, e) == if name == "repeat" then OpenRepeat else if name == "end" then CloseRepeat
                                  else Verbatim(p + 1)
  {
    StandsChar(s, p, e, "@" + name, 0);
    assert REPEAT == "@" + "repeat" && END == "@" + "end";
    DirectiveIsWord(s, p, e, name, "repeat");
    DirectiveIsWord(s, p, e, name, "end");
  }

  lemma WordPasses(s: string, p: nat, e: nat, name: string, lim: Limits)
    requires Stands(s, p, e, "@" + name) && ItemFits(Word(name), NextAt(s, p + 1 + |name|, e))
    ensures Passes(s, p, p + 1 + |name|, e, "@" + name, true, lim)
  {
    DirectiveHere(s, p, e, name);
    StandsBoth(s, p, e, "@", name);
    PassesVerbatim(s, p, p + 1, e, "@", lim);
    PlainPasses(s, p + 1, e, name, lim);
    PassesThen(s, p, p + 1, p + 1 + |name|, e, "@", name, true, true, lim);
  }

  // ---- A repeat ----

  /** What a header with this count says, its body starting at bodyStart. */
  function HeadMeaning(count: nat, bodyStart: nat, lim: Limits): Header {
    if count == 0 then BadHeader(CountInvalid)
    else if count > lim.maxCount then BadHeader(CountLimitExceeded)
    else Header(count, bodyStart)
  }

  /** Blanks are skipped to what follows them. */
  lemma BlanksSkipped(s: string, p: nat, e: nat, blanks: string)
    requires Stands(s, p, e, blanks) && Blanks(blanks)
    requires NextAt(s, p + |blanks|, e).None? || !IsBlank(s[p + |blanks|])
    ensures SkipHSpace(s, p, e) == p + |blanks|
  {
    forall k | p <= k < p + |blanks| ensures IsBlank(s[k]) { StandsChar(s, p, e, blanks, k - p); }
  }

  lemma TailSkipped(s: string, p: nat, e: nat, t: Tail)
    requires Stands(s, p, e, TailText(t)) && TailFits(t, NextAt(s, p + |TailText(t)|, e))
    ensures SkipLineTail(s, p, e) == p + |TailText(t)|
  {
    var line := if t.newline then "\n" else "";
    StandsBoth(s, p, e, t.blanks, line);
    if t.newline { StandsChar(s, p + |t.blanks|, e, line, 0); }
    BlanksSkipped(s, p, e, t.blanks);
  }

  lemma DigitsRead(s: string, p: nat, e: nat, digits: string)
    requires Stands(s, p, e, digits) && AllDigits(digits) && NoDigit(NextAt(s, p + |digits|, e))
    ensures DigitsEnd(s, p, e) == p + |digits|
  {
    forall k | p <= k < p + |digits| ensures IsDigit(s[k]) { StandsChar(s, p, e, digits, k - p); }
  }

  lemma HeadStands(s: string, p: nat, e: nat, gap: string, digits: string, head: Tail)
    requires Stands(s, p, e, HeadText(gap, digits, head))
    ensures var a, tail := p + 7 + |gap|, TailText(head);
            && Stands(s, p, e, "@repeat") && Stands(s, p + 7, e, gap)
            && Stands(s, a, e, digits) && Stands(s, a + |digits|, e, tail)
            && NextAt(s, a + |digits|, e) == First(tail, NextAt(s, a + |digits| + |tail|, e))
  {
    hide TailText, First, Stands, NextAt;
    var tail := TailText(head);
    assert HeadText(gap, digits, head) == "@repeat" + (gap + (digits + tail));
    StandsBoth(s, p, e, "@repeat", gap + (digits + tail));
    StandsBoth(s, p + 7, e, gap, digits + tail);
    StandsBoth(s, p + 7 + |gap|, e, digits, tail);
  }

  /** The count that is read behind "@repeat" and its blanks. */
  lemma CountRead(s: string, p: nat, e: nat, gap: string, digits: string, lim: Limits)
    requires Stands(s, p, e, "@repeat") && Stands(s, p + 7, e, gap) && Stands(s, p + 7 + |gap|, e, digits)
    requires gap != "" && Blanks(gap) && digits != "" && AllDigits(digits)
    requires NoDigit(NextAt(s, p + 7 + |gap| + |digits|, e))
    ensures ElementAt(s, p, e) == OpenRepeat
    ensures var b := p + 7 + |gap| + |digits|;
            ParseHeader(s, p, e, lim) == HeadMeaning(DecimalValue(digits), SkipLineTail(s, b, e), lim)
  {
    hide DecimalValue, SkipHSpace, DigitsEnd, SkipLineTail, ElementAt, ParseHeader, HeadMeaning, Blanks, Stands;
    var a := p + 7 + |gap|;
    StandsChar(s, a, e, digits, 0);
    RepeatHere(s, p, e, gap);
    BlanksSkipped(s, p + 7, e, gap);
    DigitsRead(s, a, e, digits);
    HeaderParsed(s, p, a, e, digits, lim);
  }

  lemma HeaderParsed(s: string, p: nat, a: nat, e: nat, digits: string, lim: Limits)
    requires p + 7 <= a && Stands(s, a, e, digits) && digits != "" && AllDigits(digits)
    requires SkipHSpace(s, p + 7, e) == a && DigitsEnd(s, a, e) == a + |digits|
    ensures var b := a + |digits|;
            ParseHeader(s, p, e, lim) == HeadMeaning(DecimalValue(digits), SkipLineTail(s, b, e), lim)
  {
    hide DecimalValue, SkipHSpace, DigitsEnd, SkipLineTail;
    assert s[a..a + |digits|] == digits;
    StandsChar(s, a, e, digits, 0);
  }

  lemma RepeatHere(s: string, p: nat, e: nat, gap: string)
    requires Stands(s, p, e, "@repeat") && Stands(s, p + 7, e, gap) && gap != "" && Blanks(gap)
    ensures ElementAt(s, p, e) == OpenRepeat
  {
    hide ElementAt;
    StandsChar(s, p + 7, e, gap, 0);
    assert "@repeat" == "@" + "repeat";
    DirectiveHere(s, p, e, "repeat");
  }

  lemma HeadRead(s: string, p: nat, e: nat, gap: string, digits: string, head: Tail, lim: Limits)
    requires Stands(s, p, e, HeadText(gap, digits, head))
    requires gap != "" && Blanks(gap) && digits != "" && AllDigits(digits)
    requires var next := NextAt(s, p + |HeadText(gap, digits, head)|, e);
             NoDigit(First(TailText(head), next)) && TailFits(head, next)
    ensures ElementAt(s, p, e) == OpenRepeat
    ensures ParseHeader(s, p, e, lim) == HeadMeaning(DecimalValue(digits), p + |HeadText(gap, digits, head)|, lim)
  {
    hide DecimalValue, SkipLineTail, TailText, First, TailFits, ElementAt, ParseHeader, HeadMeaning, Blanks;
    HeadStands(s, p, e, gap, digits, head);
    CountRead(s, p, e, gap, digits, lim);
    TailSkipped(s, p + 7 + |gap| + |digits|, e, head);
  }

  // ---- Items and documents ----

  /** The parts of a repeat that stands at p, and what follows each of them. */
  lemma RepeatStands(s: string, p: nat, e: nat, x: Item)
    requires x.Repeat? && Stands(s, p, e, ItemText(x)) && ItemFits(x, NextAt(s, p + |ItemText(x)|, e))
    ensures var b := p + |HeadText(x.gap, x.digits, x.head)|;
            var endAt := b + |DocText(x.body)|;
            var q := endAt + 4 + |TailText(x.tail)|;
            && q == p + |ItemText(x)|
            && Stands(s, p, e, HeadText(x.gap, x.digits, x.head))
            && Stands(s, b, e, DocText(x.body)) && Stands(s, endAt, e, "@end")
            && Stands(s, endAt + 4, e, TailText(x.tail))
            && NextAt(s, b, e) == First(DocText(x.body), Some('@')) && NextAt(s, endAt, e) == Some('@')
            && NextAt(s, endAt + 4, e) == First(TailText(x.tail), NextAt(s, q, e))
  {
    hide HeadText, TailText, DocText, Stands;
    var head, body, tail := HeadText(x.gap, x.digits, x.head), DocText(x.body), TailText(x.tail);
    assert ItemText(x) == head + (body + ("@end" + tail));
    StandsBoth(s, p, e, head, body + ("@end" + tail));
    StandsBoth(s, p + |head|, e, body, "@end" + tail);
    StandsBoth(s, p + |head| + |body|, e, "@end", tail);
    StandsChar(s, p + |head| + |body|, e, "@end", 0);
  }

  /** Between the parts of a repeat the matcher goes one level down and comes back. */
  lemma RepeatMatches(s: string, p: nat, b: nat, endAt: nat, q: nat, e: nat, count: Size, lim: Limits)
    requires p < b <= endAt && endAt + 4 <= q <= e <= |s|
    requires ElementAt(s, p, e) == OpenRepeat && ParseHeader(s, p, e, lim) == Header(count, b)
    requires Matches(s, b, endAt, e) && ElementAt(s, endAt, e) == CloseRepeat
    requires SkipLineTail(s, endAt + 4, e) == q
    ensures Matches(s, p, q, e) && FindEnd(s, b, e, 1) == Some(endAt)
  {
    hide ElementAt, ParseHeader, SkipLineTail;
    forall depth: nat | depth > 0 ensures FindEnd(s, p, e, depth) == FindEnd(s, q, e, depth) {
      HeaderIsOrdinary(s, p, e, lim, depth + 1);
      assert FindEnd(s, b, e, depth + 1) == FindEnd(s, endAt, e, depth + 1);
      LineTailIsOrdinary(s, endAt + 4, e, depth);
    }
  }

  lemma {:induction false} RepeatPasses(s: string, p: nat, e: nat, x: Item, lim: Limits)
    requires x.Repeat? && Stands(s, p, e, ItemText(x)) && ItemFits(x, NextAt(s, p + |ItemText(x)|, e))
    requires CountsDigits(x) && CountsWithin(x, lim)
    ensures Passes(s, p, p + |ItemText(x)|, e, ItemMeaning(x), BodiesRoom(x, lim), lim)
    decreases x, 0
  {
    hide ElementAt, ParseHeader, SkipLineTail, FindEnd, TailFits, TailText, Stands;
    var b := p + |HeadText(x.gap, x.digits, x.head)|;
    var endAt, q := b + |DocText(x.body)|, p + |ItemText(x)|;
    RepeatStands(s, p, e, x);
    DocPasses(s, b, e, x.body, lim);
    RepeatLocated(s, p, e, x, lim);
    BodyExpands(s, b, endAt, e, x, lim);
    RepeatExpands(s, p, b, endAt, q, e, DecimalValue(x.digits), DocMeaning(x.body), AllBodiesRoom(x.body, lim), lim);
  }

  /** A repeat that stands at p is read as its header, its body and the @end behind it. */
  lemma RepeatLocated(s: string, p: nat, e: nat, x: Item, lim: Limits)
    requires x.Repeat? && Stands(s, p, e, ItemText(x)) && ItemFits(x, NextAt(s, p + |ItemText(x)|, e))
    requires CountsDigits(x) && CountsWithin(x, lim)
    requires var b := p + |HeadText(x.gap, x.digits, x.head)|;
             b + |DocText(x.body)| <= e && Matches(s, b, b + |DocText(x.body)|, e)
    ensures var b, q := p + |HeadText(x.gap, x.digits, x.head)|, p + |ItemText(x)|;
            var endAt := b + |DocText(x.body)|;
            && ElementAt(s, p, e) == OpenRepeat && ParseHeader(s, p, e, lim) == Header(DecimalValue(x.digits), b)
            && FindEnd(s, b, e, 1) == Some(endAt) && endAt + 4 <= q && SkipLineTail(s, endAt + 4, e) == q
            && Matches(s, p, q, e)
  {
    hide ElementAt, ParseHeader, SkipLineTail, FindEnd, TailFits, TailText, Stands, Matches;
    var b := p + |HeadText(x.gap, x.digits, x.head)|;
    var endAt := b + |DocText(x.body)|;
    RepeatStands(s, p, e, x);
    HeadRead(s, p, e, x.gap, x.digits, x.head, lim);
    assert "@end" == "@" + "end";
    DirectiveHere(s, endAt, e, "end");
    TailSkipped(s, endAt + 4, e, x.tail);
    RepeatMatches(s, p, b, endAt, p + |ItemText(x)|, e, DecimalValue(x.digits), lim);
  }

  /** The body of a repeat expands to what it means in the region that ends at its @end. */
  lemma {:induction false} BodyExpands(s: string, b: nat, endAt: nat, e: nat, x: Item, lim: Limits)
    requires x.Repeat? && Stands(s, b, e, DocText(x.body)) && endAt == b + |DocText(x.body)|
    requires DocFits(x.body, Some('@')) && AllCountDigits(x.body) && AllCountsWithin(x.body, lim)
    ensures endAt <= |s|
    ensures Expand(s, b, endAt, lim) == Done(DocMeaning(x.body))
    ensures BodiesFit(s, b, endAt, lim) <==> AllBodiesRoom(x.body, lim)
    decreases x.body, 2
  {
    hide ElementAt, FindEnd, DocText, ParseHeader, DocFits, ExpandBlock, Matches;
    DocFitsNothing(x.body, Some('@'));
    DocPasses(s, b, endAt, x.body, lim);
    assert Expand(s, endAt, endAt, lim) == Done("");
    assert DocMeaning(x.body) + "" == DocMeaning(x.body);
  }

  lemma RepeatExpands(s: string, p: nat, b: nat, endAt: nat, q: nat, e: nat, count: Size, body: string, room: bool,
                      lim: Limits)
    requires p < b <= endAt && endAt + 4 <= q <= e <= |s|
    requires ElementAt(s, p, e) == OpenRepeat && ParseHeader(s, p, e, lim) == Header(count, b)
    requires FindEnd(s, b, e, 1) == Some(endAt) && SkipLineTail(s, endAt + 4, e) == q && Matches(s, p, q, e)
    requires Expand(s, b, endAt, lim) == Done(body) && (BodiesFit(s, b, endAt, lim) <==> room)
    ensures Passes(s, p, q, e, Iterations(body, 0, count), FitsBuffer(body, lim) && room, lim)
  {
    hide ElementAt, ParseHeader, SkipLineTail, FindEnd, Iterations;
    var h := Header(count, b);
    assert Expand(s, p, e, lim) == ExpandBlock(s, p, h, e, lim);
    assert BodiesFit(s, p, e, lim) == BlockFits(s, p, h, e, lim);
    assert ExpandBlock(s, p, h, e, lim) == Prepend(Iterations(body, 0, count), Expand(s, q, e, lim));
    assert FitsBuffer(body, lim) <==> |body| <= MaxLength(lim);
  }

  lemma {:induction false} ItemPasses(s: string, p: nat, e: nat, x: Item, lim: Limits)
    requires Stands(s, p, e, ItemText(x)) && ItemFits(x, NextAt(s, p + |ItemText(x)|, e))
    requires CountsDigits(x) && CountsWithin(x, lim)
    ensures Passes(s, p, p + |ItemText(x)|, e, ItemMeaning(x), BodiesRoom(x, lim), lim)
    decreases x, 1
  {
    hide Stands, Passes;
    match x
    case Plain(text) => PlainPasses(s, p, e, text, lim);
    case Slash => SlashPasses(s, p, e, lim);
    case Comment(text) => CommentPasses(s, p, e, text, lim);
    case Literal(units, closed) => LiteralPasses(s, p, e, units, closed, lim);
    case Word(name) => WordPasses(s, p, e, name, lim);
    case Repeat(_, _, _, _, _) => RepeatPasses(s, p, e, x, lim);
  }

  /** A document that stands at p emits what it means and is passed over by every search for an @end. */
  lemma {:induction false} DocPasses(s: string, p: nat, e: nat, doc: seq<Item>, lim: Limits)
    requires Stands(s, p, e, DocText(doc)) && DocFits(doc, NextAt(s, p + |DocText(doc)|, e))
    requires AllCountDigits(doc) && AllCountsWithin(doc, lim)
    ensures Passes(s, p, p + |DocText(doc)|, e, DocMeaning(doc), AllBodiesRoom(doc, lim), lim)
    decreases doc, 1
  {
    hide Passes, ItemText, ItemMeaning, ItemFits;
    if doc == [] {
      PassesNothing(s, p, e, lim);
    } else {
      var head, tail := ItemText(doc[0]), DocText(doc[1..]);
      StandsBoth(s, p, e, head, tail);
      ItemPasses(s, p, e, doc[0], lim);
      DocPasses(s, p + |head|, e, doc[1..], lim);
      PassesThen(s, p, p + |head|, p + |head| + |tail|, e, ItemMeaning(doc[0]), DocMeaning(doc[1..]),
                 BodiesRoom(doc[0], lim), AllBodiesRoom(doc[1..], lim), lim);
    }
  }
}
