// compiler/src/repeat_expand.c, what it computes: the scanning vocabulary shared by the bracket
// matcher and the expander, the exact result of an expansion (errors and size limits included) and
// the short recursive definition it stands for.
module RepeatSpec {
  import opened Text
  import opened CheckedSize

  /** The two limits that bound a @repeat expansion. */
  datatype Limits = Limits(maxCount: Size, maxBytes: Size)

  datatype ErrorCode = CountInvalid | CountLimitExceeded | NoMatchingEnd | SizeLimitExceeded | InternalError

  /** Expanded text, or the first rule violated and the offset it is reported at. */
  datatype Outcome = Done(text: string) | Failed(code: ErrorCode, at: nat)

  // ---- Scanning. A region is s[p..e]; no function looks at or beyond e. ----

  predicate CommentAt(s: string, p: nat, e: nat)
    requires p < e <= |s|
  {
    s[p] == '/' && p + 1 < e && s[p + 1] == '/'
  }

  function LineEnd(s: string, p: nat, e: nat): (q: nat)
    requires p <= e <= |s|
    ensures p <= q <= e
    ensures q < e ==> s[q] == '\n'
    ensures forall k :: p <= k < q ==> s[k] != '\n'
    decreases e - p
  {
    if p == e || s[p] == '\n' then p else LineEnd(s, p + 1, e)
  }

  /** Where the contents of a string literal that start at p stop: at a quote, a newline or e. */
  function StringStop(s: string, p: nat, e: nat): (q: nat)
    requires p <= e <= |s|
    ensures p <= q <= e
    ensures q < e ==> s[q] == '"' || s[q] == '\n'
    decreases e - p
  {
    if p == e || s[p] == '"' || s[p] == '\n' then p
    else if s[p] == '\\' && p + 1 < e then StringStop(s, p + 2, e)
    else StringStop(s, p + 1, e)
  }

  /** The expander's end of the literal opened at p: past a closing quote, but before a newline. */
  function AfterString(s: string, p: nat, e: nat): (q: nat)
    requires p < e <= |s|
    ensures p < q <= e
  {
    var q := StringStop(s, p + 1, e);
    if q < e && s[q] == '"' then q + 1 else q
  }

  const REPEAT := "@repeat"
  const END := "@end"

  /** The directive stands at p and is not the prefix of a longer word. */
  predicate DirectiveAt(s: string, p: nat, e: nat, directive: string)
    requires p <= e <= |s|
  {
    && p + |directive| <= e
    && (forall k :: 0 <= k < |directive| ==> s[p + k] == directive[k])
    && (p + |directive| == e || !IsWordChar(s[p + |directive|]))
  }

  /** What stands at an offset: text taken as it is up to `next` (a comment, a string literal or one
      character), or a directive that is not part of a longer word. */
  datatype Element = Verbatim(next: nat) | OpenRepeat | CloseRepeat

  function ElementAt(s: string, p: nat, e: nat): (x: Element)
    requires p < e <= |s|
    ensures x.Verbatim? ==> p < x.next <= e
    ensures x.OpenRepeat? ==> p + 7 <= e
    ensures x.CloseRepeat? ==> p + 4 <= e
    ensures !x.Verbatim? ==> s[p] == '@'
  {
    if CommentAt(s, p, e) then Verbatim(LineEnd(s, p, e))
    else if s[p] == '"' then Verbatim(AfterString(s, p, e))
    else if s[p] == '@' && DirectiveAt(s, p, e, REPEAT) then OpenRepeat
    else if s[p] == '@' && DirectiveAt(s, p, e, END) then CloseRepeat
    else Verbatim(p + 1)
  }

  function SkipHSpace(s: string, p: nat, e: nat): (q: nat)
    requires p <= e <= |s|
    ensures p <= q <= e
    ensures forall k :: p <= k < q ==> s[k] == ' ' || s[k] == '\t'
    ensures q < e ==> s[q] != ' ' && s[q] != '\t'
    decreases e - p
  {
    if p < e && (s[p] == ' ' || s[p] == '\t') then SkipHSpace(s, p + 1, e) else p
  }

  function DigitsEnd(s: string, p: nat, e: nat): (q: nat)
    requires p <= e <= |s|
    ensures p <= q <= e
    ensures AllDigits(s[p..q])
    ensures forall k :: p <= k < q ==> IsDigit(s[k])
    ensures q < e ==> !IsDigit(s[q])
    decreases e - p
  {
    if p < e && IsDigit(s[p]) then
      var q := DigitsEnd(s, p + 1, e);
      assert forall k :: p <= k < q ==> IsDigit(s[k]);
      q
    else p
  }

  function SkipNewline(s: string, p: nat, e: nat): (q: nat)
    requires p <= e <= |s|
    ensures p <= q <= e
  {
    if p < e && s[p] == '\n' then p + 1 else p
  }

  /** The rest of a directive line: blanks and one newline. */
  function SkipLineTail(s: string, p: nat, e: nat): (q: nat)
    requires p <= e <= |s|
    ensures p <= q <= e
  {
    SkipNewline(s, SkipHSpace(s, p, e), e)
  }

  /** What follows an active @repeat: its count and where its body starts, or the rule it breaks. */
  datatype Header = Header(count: Size, bodyStart: nat) | BadHeader(code: ErrorCode)

  /** h can be the header of a repeat at p in a region that ends at e. */
  predicate HeaderFor(h: Header, p: nat, e: nat, length: nat) {
    p < e <= length && (h.Header? ==> p + 7 < h.bodyStart <= e)
  }

  function ParseHeader(s: string, p: nat, e: nat, lim: Limits): (h: Header)
    requires p + 7 <= e <= |s|
    ensures HeaderFor(h, p, e, |s|)
    ensures h.Header? ==> 1 <= h.count <= lim.maxCount
    ensures h.BadHeader? ==> h.code == CountInvalid || h.code == CountLimitExceeded
  {
    var a := SkipHSpace(s, p + 7, e);
    if a == e || !IsDigit(s[a]) then BadHeader(CountInvalid) else CountHeader(s, a, DigitsEnd(s, a, e), e, lim)
  }

  /** The header whose count is the numeral s[a..b]. */
  function CountHeader(s: string, a: nat, b: nat, e: nat, lim: Limits): (h: Header)
    requires a < b <= e <= |s| && AllDigits(s[a..b])
    ensures h.Header? <==> 1 <= DecimalValue(s[a..b]) <= lim.maxCount
    ensures h.Header? ==> h.count == DecimalValue(s[a..b]) && b <= h.bodyStart <= e
    ensures h.BadHeader? ==> h.code == CountInvalid || h.code == CountLimitExceeded
  {
    var count := DecimalValue(s[a..b]);
    if count == 0 then BadHeader(CountInvalid)
    else if count > lim.maxCount then BadHeader(CountLimitExceeded)
    else Header(count, SkipLineTail(s, b, e))
  }

  /** The bracket matcher: the @end that closes `depth` open repeats, scanning from p. */
  function FindEnd(s: string, p: nat, e: nat, depth: nat): (r: Option<nat>)
    requires p <= e <= |s| && depth > 0
    ensures r.Some? ==> p <= r.value && r.value + 4 <= e && s[r.value] == '@'
    decreases e - p
  {
    if p == e then None
    else
      match ElementAt(s, p, e)
      case Verbatim(q) => FindEnd(s, q, e, depth)
      case OpenRepeat => FindEnd(s, p + 7, e, depth + 1)
      case CloseRepeat => if depth == 1 then Some(p) else FindEnd(s, p + 4, e, depth - 1)
  }

  // ---- IDX substitution ----

  /** IDX stands at k with no word character on either side of it. */
  predicate StandaloneIdx(body: string, k: nat)
  {
    && k + 3 <= |body|
    && body[k] == 'I' && body[k + 1] == 'D' && body[k + 2] == 'X'
    && (k == 0 || !IsWordChar(body[k - 1]))
    && (k + 3 == |body| || !IsWordChar(body[k + 3]))
  }

  /** The index text: the numeral as snprintf leaves it in a 16-byte buffer. */
  function IdxText(i: nat): (t: string)
    ensures t != [] && AllDigits(t)
  {
    var d := Decimal(i);
    if |d| <= 15 then d else d[..15]
  }

  /** body[from..] with every standalone IDX replaced. */
  function Subst(body: string, from: nat, text: string): string
    requires from <= |body|
    decreases |body| - from
  {
    if from == |body| then ""
    else if StandaloneIdx(body, from) then text + Subst(body, from + 3, text)
    else [body[from]] + Subst(body, from + 1, text)
  }

  /** The bodies of iterations i, i+1, ..., n-1. */
  function Iterations(body: string, i: nat, n: nat): string
    requires i <= n
    decreases n - i
  {
    if i == n then "" else Subst(body, 0, IdxText(i)) + Iterations(body, i + 1, n)
  }

  // ---- The recursive definition, with no size limit ----

  function Expand(s: string, p: nat, e: nat, lim: Limits): Outcome
    requires p <= e <= |s|
    decreases e - p, 1
  {
    if p == e then Done("")
    else
      match ElementAt(s, p, e)
      case Verbatim(q) => Prepend(s[p..q], Expand(s, q, e, lim))
      case CloseRepeat => Prepend(s[p..p + 1], Expand(s, p + 1, e, lim))
      case OpenRepeat => ExpandBlock(s, p, ParseHeader(s, p, e, lim), e, lim)
  }

  /** The repeat at p: its body once for every index, then the text after its @end line. */
  function ExpandBlock(s: string, p: nat, h: Header, e: nat, lim: Limits): Outcome
    requires HeaderFor(h, p, e, |s|)
    decreases e - p, 0
  {
    match h
    case BadHeader(code) => Failed(code, p)
    case Header(count, bodyStart) =>
      match FindEnd(s, bodyStart, e, 1)
      case None => Failed(NoMatchingEnd, p)
      case Some(endAt) =>
        var body := Expand(s, bodyStart, endAt, lim);
        if body.Failed? then body
        else Prepend(Iterations(body.text, 0, count), Expand(s, SkipLineTail(s, endAt + 4, e), e, lim))
  }

  function Prepend(t: string, rest: Outcome): Outcome {
    if rest.Done? then Done(t + rest.text) else rest
  }

  // ---- The exact result: text is accumulated under the byte limit ----

  /** The longest text a buffer may hold: the limit, and always one byte short of SIZE_MAX. */
  function MaxLength(lim: Limits): nat {
    if lim.maxBytes < SIZE_MAX then lim.maxBytes else SIZE_MAX - 1
  }

  /** One limited append; an empty piece is never refused. */
  function Append(acc: string, t: string, lim: Limits, at: nat): Outcome {
    if |t| == 0 then Done(acc)
    else if |acc| + |t| > lim.maxBytes then Failed(SizeLimitExceeded, at)
    else if |acc| + |t| + 1 > SIZE_MAX then Failed(InternalError, at)
    else Done(acc + t)
  }

  /** The first standalone IDX at or after from, or the end of the body. */
  function NextIdx(body: string, from: nat): (k: nat)
    requires from <= |body|
    ensures from <= k <= |body|
    ensures forall j :: from <= j < k ==> !StandaloneIdx(body, j)
    ensures k < |body| ==> StandaloneIdx(body, k)
    decreases |body| - from
  {
    if from == |body| || StandaloneIdx(body, from) then from else NextIdx(body, from + 1)
  }

  function SubstInto(acc: string, body: string, from: nat, text: string, lim: Limits, at: nat): Outcome
    requires from <= |body|
    decreases |body| - from
  {
    if from == |body| then Done(acc)
    else
      var k := NextIdx(body, from);
      if k == |body| then Append(acc, body[from..], lim, at)
      else
        var before := Append(acc, body[from..k], lim, at);
        if before.Failed? then before
        else
          var index := Append(before.text, text, lim, at);
          if index.Failed? then index else SubstInto(index.text, body, k + 3, text, lim, at)
  }

  function IterateInto(acc: string, body: string, i: nat, n: nat, lim: Limits, at: nat): Outcome
    requires i <= n
    decreases n - i
  {
    if i == n then Done(acc)
    else
      var one := SubstInto(acc, body, 0, IdxText(i), lim, at);
      if one.Failed? then one else IterateInto(one.text, body, i + 1, n, lim, at)
  }

  /** Everything region s[p..e] adds to a buffer that already holds acc. */
  function ExpandInto(s: string, p: nat, e: nat, lim: Limits, acc: string): Outcome
    requires p <= e <= |s|
    decreases e - p, 1
  {
    if p == e then Done(acc)
    else
      match ElementAt(s, p, e)
      case Verbatim(q) => CopyInto(s, p, q, e, lim, acc)
      case CloseRepeat => CopyInto(s, p, p + 1, e, lim, acc)
      case OpenRepeat => BlockInto(s, p, ParseHeader(s, p, e, lim), e, lim, acc)
  }

  function BlockInto(s: string, p: nat, h: Header, e: nat, lim: Limits, acc: string): Outcome
    requires HeaderFor(h, p, e, |s|)
    decreases e - p, 0
  {
    match h
    case BadHeader(code) => Failed(code, p)
    case Header(count, bodyStart) =>
      match FindEnd(s, bodyStart, e, 1)
      case None => Failed(NoMatchingEnd, p)
      case Some(endAt) =>
        var body := ExpandInto(s, bodyStart, endAt, lim, "");
        if body.Failed? then body
        else
          var r := IterateInto(acc, body.text, 0, count, lim, p);
          if r.Failed? then r else ExpandInto(s, SkipLineTail(s, endAt + 4, e), e, lim, r.text)
  }

  /** Copy s[p..q], then go on with s[q..e]. */
  function CopyInto(s: string, p: nat, q: nat, e: nat, lim: Limits, acc: string): Outcome
    requires p < q <= e <= |s|
    decreases e - p, 0
  {
    var r := Append(acc, s[p..q], lim, p);
    if r.Failed? then r else ExpandInto(s, q, e, lim, r.text)
  }
}
