// Printing a token stream and lexing it again.
module LexerRoundTrip {
  import opened Text
  import opened LexerSpec
  import opened LexerTheorems

  // ---- Printing ----

  /** The text of a string literal's contents: backslashes doubled. */
  function Escape(text: string): string {
    if text == [] then []
    else if text[0] == '\\' then "\\\\" + Escape(text[1..])
    else [text[0]] + Escape(text[1..])
  }

  function Render(x: Lexed): string {
    if x.kind == StringLiteral then "\"" + Escape(x.text) + "\"" else x.text
  }

  /** One blank in front of every token. */
  function PrintRest(xs: seq<Lexed>): string {
    if xs == [] then "" else " " + Render(xs[0]) + PrintRest(xs[1..])
  }

  /** The tokens with one blank between any two. */
  function Print(xs: seq<Lexed>): string {
    if xs == [] then "" else Render(xs[0]) + PrintRest(xs[1..])
  }

  function Content(item: Item): Lexed {
    Lexed(item.token.kind, item.token.lexeme, item.token.num)
  }

  function Contents(items: seq<Item>): (xs: seq<Lexed>)
    ensures |xs| == |items| && forall i :: 0 <= i < |items| ==> xs[i] == Content(items[i])
  {
    seq(|items|, i requires 0 <= i < |items| => Content(items[i]))
  }

  // ---- Reading one printed token ----

  /** w stands at q in t, and behind it there is a blank or nothing. */
  predicate StandsAt(t: string, q: nat, w: string) {
    && q + |w| <= |t|
    && t[q..q + |w|] == w
    && (q + |w| == |t| || t[q + |w|] == ' ')
  }

  predicate Rereads(t: string, q: nat, x: Lexed)
  {
    && q < |t|
    && !IsBlank(t[q]) && !CommentAt(t, q)
    && ScanAt(t, q) == Scan(q + |Render(x)|, Some(x), Clean)
  }

  /** Wherever the token is printed it is read again. */
  ghost predicate Readable(x: Lexed) {
    forall t, q :: StandsAt(t, q, Render(x)) ==> Rereads(t, q, x)
  }

  /** s[p..e] stands at q in t. */
  predicate Copied(s: string, p: nat, e: nat, t: string, q: nat) {
    p <= e <= |s| && StandsAt(t, q, s[p..e])
  }

  lemma CopiedChar(s: string, p: nat, e: nat, t: string, q: nat, k: nat)
    requires Copied(s, p, e, t, q) && p <= k < e
    ensures q + (k - p) < |t| && t[q + (k - p)] == s[k]
  {
    assert t[q + (k - p)] == t[q..q + (e - p)][k - p] == s[p..e][k - p];
  }

  /** Runs of characters that stop within the copied text, or end with it, stop at the same place in
      the copy: a blank is in none of the classes. */
  lemma {:induction false} WordCopied(s: string, p: nat, e: nat, t: string, q: nat, a: nat)
    requires Copied(s, p, e, t, q) && p <= a <= |s| && WordEnd(s, a) <= e
    ensures WordEnd(t, q + (a - p)) == q + (WordEnd(s, a) - p)
    decreases e - a
  {
    if a < e {
      CopiedChar(s, p, e, t, q, a);
      if IsWordChar(s[a]) { WordCopied(s, p, e, t, q, a + 1); }
    }
  }

  lemma {:induction false} LiteralCopied(s: string, p: nat, e: nat, t: string, q: nat, a: nat)
    requires Copied(s, p, e, t, q) && p <= a <= |s| && LiteralEnd(s, a) <= e
    ensures LiteralEnd(t, q + (a - p)) == q + (LiteralEnd(s, a) - p)
    decreases e - a
  {
    if a < e {
      CopiedChar(s, p, e, t, q, a);
      if IsLiteralChar(s[a]) { LiteralCopied(s, p, e, t, q, a + 1); }
    }
  }

  lemma {:induction false} FractionCopied(s: string, p: nat, e: nat, t: string, q: nat, a: nat)
    requires Copied(s, p, e, t, q) && p <= a <= |s| && FractionEnd(s, a) <= e
    ensures FractionEnd(t, q + (a - p)) == q + (FractionEnd(s, a) - p)
    decreases e - a
  {
    if a < e {
      CopiedChar(s, p, e, t, q, a);
      if IsDigit(s[a]) { FractionCopied(s, p, e, t, q, a + 1); }
    }
  }

  lemma SliceCopied(s: string, p: nat, e: nat, t: string, q: nat, b: nat)
    requires Copied(s, p, e, t, q) && p <= b <= e
    ensures t[q..q + (b - p)] == s[p..b]
  {
    forall k | p <= k < b ensures t[q + (k - p)] == s[k] { CopiedChar(s, p, e, t, q, k); }
  }

  /** Behind the copied text there is no tick, no point and no other character an element could go on with. */
  lemma BehindCopied(s: string, p: nat, e: nat, t: string, q: nat)
    requires Copied(s, p, e, t, q)
    ensures q + (e - p) <= |t|
    ensures q + (e - p) < |t| ==> t[q + (e - p)] == ' '
  {
  }

  lemma NumericCopied(s: string, p: nat, e: nat, t: string, q: nat)
    requires Copied(s, p, e, t, q) && p < e
    ensures ScanNumeric(t, q, q + (e - p)) == ScanNumeric(s, p, e).(end := q + (e - p))
  {
    hide ParseNumeric;
    SliceCopied(s, p, e, t, q, e);
  }

  lemma WidthCopied(s: string, p: nat, e: nat, t: string, q: nat, w: nat)
    requires Copied(s, p, e, t, q) && p <= w <= e && WidthEnd(s, p, w) <= e
    requires WidthEnd(s, p, w) < e ==> IsTick(s, WidthEnd(s, p, w))
    requires WidthEnd(s, p, w) == e ==> w == e
    ensures WidthEnd(t, q, q + (w - p)) == q + (WidthEnd(s, p, w) - p)
  {
    SliceCopied(s, p, e, t, q, w);
    BehindCopied(s, p, e, t, q);
    if w < e {
      CopiedChar(s, p, e, t, q, w);
      if s[w] == '.' {
        WidthCopiedConfig(s, p, e, t, q, w);
      }
    }
  }

  lemma WidthCopiedConfig(s: string, p: nat, e: nat, t: string, q: nat, w: nat)
    requires Copied(s, p, e, t, q) && p <= w < e && WidthEnd(s, p, w) < e && IsTick(s, WidthEnd(s, p, w))
    requires s[w] == '.' && t[q..q + (w - p)] == s[p..w] && q + (w - p) < |t| && t[q + (w - p)] == '.'
    ensures WidthEnd(t, q, q + (w - p)) == q + (WidthEnd(s, p, w) - p)
  {
    var n := WordEnd(s, w + 1);
    assert WidthEnd(s, p, w) == n;
    WordCopied(s, p, e, t, q, w + 1);
    CopiedChar(s, p, e, t, q, n);
  }

  lemma WordReadable(s: string, p: nat, t: string, q: nat)
    requires p < |s| && IsWordStart(s[p])
    requires ScanWord(s, p).token.Some? && Copied(s, p, ScanWord(s, p).end, t, q)
    ensures q < |t| && t[q] == s[p]
    ensures ScanWord(t, q) == ScanWord(s, p).(end := q + (ScanWord(s, p).end - p))
  {
    hide IsKeyword, ParseNumeric, WordEnd, LiteralEnd, WidthEnd;
    var e := ScanWord(s, p).end;
    var w := WordEnd(s, p + 1);
    var width := WidthEnd(s, p, w);
    CopiedChar(s, p, e, t, q, p);
    BehindCopied(s, p, e, t, q);
    if IsTick(s, width) {
      var l := LiteralEnd(s, width + 1);
      assert e == l;
      WordCopied(s, p, e, t, q, p + 1);
      WidthCopied(s, p, e, t, q, w);
      CopiedChar(s, p, e, t, q, width);
      LiteralCopied(s, p, e, t, q, width + 1);
      NumericCopied(s, p, e, t, q);
    } else {
      assert e == w;
      WordCopied(s, p, e, t, q, p + 1);
      WidthAlone(t, q, q + (e - p));
      SliceCopied(s, p, e, t, q, e);
    }
  }

  /** A word with a blank or nothing behind it is no width of a literal. */
  lemma WidthAlone(t: string, q: nat, w: nat)
    requires q <= w <= |t| && (w < |t| ==> t[w] == ' ')
    ensures WidthEnd(t, q, w) == w && !IsTick(t, w)
  {
  }

  lemma NumberReadable(s: string, p: nat, t: string, q: nat)
    requires p < |s| && IsDigit(s[p])
    requires ScanNumber(s, p).token.Some? && Copied(s, p, ScanNumber(s, p).end, t, q)
    ensures q < |t| && t[q] == s[p]
    ensures ScanNumber(t, q) == ScanNumber(s, p).(end := q + (ScanNumber(s, p).end - p))
  {
    hide ParseNumeric, LiteralEnd, FractionEnd;
    var end := ScanNumber(s, p).end;
    var e := LiteralEnd(s, p + 1);
    CopiedChar(s, p, end, t, q, p);
    BehindCopied(s, p, end, t, q);
    LiteralCopied(s, p, end, t, q, p + 1);
    SliceCopied(s, p, end, t, q, e);
    if e + 1 < |s| && s[e] == '.' && IsDigit(s[e + 1]) && !HasTick(s[p..e]) {
      FractionLonger(s, e + 1);
      CopiedChar(s, p, end, t, q, e);
      CopiedChar(s, p, end, t, q, e + 1);
      FractionCopied(s, p, end, t, q, e + 1);
      SliceCopied(s, p, end, t, q, end);
    } else {
      NumericCopied(s, p, end, t, q);
    }
  }

  lemma FractionLonger(s: string, p: nat)
    requires p < |s| && IsDigit(s[p])
    ensures FractionEnd(s, p) > p
  {
  }

  lemma SymbolReadable(s: string, p: nat, t: string, q: nat)
    requires p < |s| && !CommentAt(s, p)
    requires Copied(s, p, p + SymbolLength(s, p), t, q)
    ensures q < |t| && t[q] == s[p]
    ensures SymbolLength(t, q) == SymbolLength(s, p) && !CommentAt(t, q)
  {
    var n := SymbolLength(s, p);
    CopiedChar(s, p, p + n, t, q, p);
    BehindCopied(s, p, p + n, t, q);
    if n > 1 { CopiedChar(s, p, p + n, t, q, p + 1); }
    if n > 2 { CopiedChar(s, p, p + n, t, q, p + 2); }
  }

  // ---- String literals ----

  predicate HasQuote(w: string) { '"' in w }

  lemma {:induction false} DecodeHasNoQuote(raw: string)
    requires !HasQuote(raw)
    ensures !HasQuote(Decode(raw))
  {
    if raw != [] {
      assert raw[0] != '"';
      if |raw| > 1 && raw[0] == '\\' && (raw[1] == '\\' || raw[1] == 'n') {
        DecodeHasNoQuote(raw[2..]);
      } else {
        assert !(|raw| > 1 && raw[1] == '"');
        DecodeHasNoQuote(raw[1..]);
      }
    }
  }

  lemma {:induction false} EscapeHasNoQuote(text: string)
    requires !HasQuote(text)
    ensures !HasQuote(Escape(text))
  {
    if text != [] {
      assert text[0] != '"';
      EscapeHasNoQuote(text[1..]);
    }
  }

  /** Decoding undoes escaping, for any text. */
  lemma {:induction false} DecodeEscape(text: string)
    ensures Decode(Escape(text)) == text
  {
    if text != [] {
      DecodeEscape(text[1..]);
      var rest := Escape(text[1..]);
      if text[0] == '\\' {
        assert ("\\\\" + rest)[2..] == rest;
      } else {
        assert ([text[0]] + rest)[1..] == rest;
      }
    }
  }

  lemma {:induction false} QuoteFound(t: string, p: nat, q: nat)
    requires p <= q < |t| && t[q] == '"' && forall k :: p <= k < q ==> t[k] != '"'
    ensures QuoteAt(t, p) == q
    decreases q - p
  {
    if p < q { QuoteFound(t, p + 1, q); }
  }

  /** A quoted text that stands at q, character by character. */
  lemma QuotedStands(t: string, q: nat, inner: string)
    requires StandsAt(t, q, "\"" + inner + "\"")
    ensures q + |inner| + 2 <= |t| && t[q] == '"' && t[q + 1 + |inner|] == '"'
    ensures t[q + 1..q + 1 + |inner|] == inner
  {
    var w, close := "\"" + inner + "\"", q + 1 + |inner|;
    var stands := t[q..q + |w|];
    assert t[q] == stands[0] == w[0];
    assert t[close] == stands[1 + |inner|] == w[1 + |inner|];
    forall k | 0 <= k < |inner| ensures t[q + 1 + k] == inner[k] {
      assert t[q + 1 + k] == stands[1 + k] == w[1 + k];
    }
    assert t[q + 1..close] == inner;
  }

  /** Between two quotes the scanner reads up to the second. */
  lemma QuotedScan(t: string, q: nat, inner: string)
    requires q + |inner| + 2 <= |t| && t[q] == '"' && t[q + 1 + |inner|] == '"'
    requires t[q + 1..q + 1 + |inner|] == inner && !HasQuote(inner)
    ensures ScanAt(t, q) == Scan(q + |inner| + 2, Some(Lexed(StringLiteral, Decode(inner), Plain)), Clean)
  {
    hide Decode, QuoteAt, ScanWord, ScanNumber, ScanSymbol;
    var close := q + 1 + |inner|;
    forall k | q + 1 <= k < close ensures t[k] != '"' {
      assert t[k] == inner[k - q - 1];
    }
    QuoteFound(t, q + 1, close);
  }

  lemma StringReadable(x: Lexed, t: string, q: nat)
    requires x.kind == StringLiteral && x.num == Plain && !HasQuote(x.text)
    requires StandsAt(t, q, Render(x))
    ensures Rereads(t, q, x)
  {
    hide Decode, Escape, ScanAt, StandsAt, HasQuote;
    var inner := Escape(x.text);
    EscapeHasNoQuote(x.text);
    DecodeEscape(x.text);
    QuotedStands(t, q, inner);
    QuotedScan(t, q, inner);
  }

  // ---- Every token of a clean run is readable ----

  lemma ScanReadable(s: string, p: nat)
    requires p < |s| && !IsBlank(s[p]) && !CommentAt(s, p)
    requires ScanAt(s, p).fault == Clean && ScanAt(s, p).token.Some?
    ensures Readable(ScanAt(s, p).token.value)
  {
    hide ScanAt;
    var x := ScanAt(s, p).token.value;
    forall t, q | StandsAt(t, q, Render(x)) ensures Rereads(t, q, x) {
      TokenReadable(s, p, t, q, x);
    }
  }

  lemma TokenReadable(s: string, p: nat, t: string, q: nat, x: Lexed)
    requires p < |s| && !IsBlank(s[p]) && !CommentAt(s, p)
    requires ScanAt(s, p).fault == Clean && ScanAt(s, p).token == Some(x)
    requires StandsAt(t, q, Render(x))
    ensures Rereads(t, q, x)
  {
    hide ScanWord, ScanNumber, SymbolLength, Decode, Escape, IsSymbolChar;
    if s[p] == '"' {
      var e := QuoteAt(s, p + 1);
      DecodeHasNoQuote(s[p + 1..e]);
      StringReadable(x, t, q);
    } else {
      CleanScan(s, p);
      ScanKinds(s, p);
      assert Copied(s, p, ScanAt(s, p).end, t, q);
      if IsWordStart(s[p]) {
        WordReadable(s, p, t, q);
      } else if IsDigit(s[p]) {
        NumberReadable(s, p, t, q);
      } else {
        SymbolReadable(s, p, t, q);
      }
    }
  }

  /** Only a quote starts a string literal; what starts neither that nor a word nor a number is an operator. */
  lemma ScanKinds(s: string, p: nat)
    requires p < |s| && ScanAt(s, p).token.Some? && ScanAt(s, p).fault == Clean && s[p] != '"'
    ensures ScanAt(s, p).token.value.kind != StringLiteral
    ensures !IsWordStart(s[p]) && !IsDigit(s[p]) ==>
              ScanAt(s, p) == ScanSymbol(s, p) && ScanAt(s, p).end == p + SymbolLength(s, p)
  {
    hide IsKeyword, ParseNumeric, SymbolLength, IsSymbolChar;
    HashLength(s, p);
  }

  lemma HashLength(s: string, p: nat)
    requires p < |s|
    ensures s[p] == '#' ==> SymbolLength(s, p) == 1
  {
  }

  lemma {:induction false} RunReadable(s: string, st: State, sink: bool, i: nat)
    requires st.pos <= |s| && !st.stop && sink && !Run(s, st, sink).hadError
    requires |st.items| <= i < |Run(s, st, sink).items| && |Run(s, st, sink).items| <= MAX_TOKENS
    requires Run(s, st, sink).items[i].token.kind != Eof
    ensures Readable(Content(Run(s, st, sink).items[i]))
    decreases |s| - st.pos
  {
    hide Step, Readable;
    var st' := Step(s, st, sink);
    StepProgress(s, st, sink);
    RunHadError(s, st, sink);
    StepReadable(s, st, sink);
    RunKeeps(s, st, sink);
    if !Finished(st') && i >= |st'.items| {
      RunReadable(s, st', sink, i);
    }
  }

  /** A clean step adds at most one token, and that one is readable. */
  lemma StepReadable(s: string, st: State, sink: bool)
    requires st.pos <= |s| && !st.stop && sink && !Step(s, st, sink).hadError
    ensures var st', n := Step(s, st, sink), |st.items|;
            && !st'.stop
            && n <= |st'.items| <= n + 1 && st'.items[..n] == st.items
            && (|st'.items| == n + 1 && st'.items[n].token.kind != Eof ==> Readable(Content(st'.items[n])))
  {
    hide ScanAt, TriviaFrom, Readable;
    var t := TriviaFrom(s, st.pos, st.lastEnd);
    if t.end < |s| && ScanAt(s, t.end).token.Some? {
      ScanReadable(s, t.end);
    }
  }

  /** A clean run keeps what it has emitted. */
  lemma {:induction false} RunKeeps(s: string, st: State, sink: bool)
    requires st.pos <= |s| && !st.stop && sink && !Run(s, st, sink).hadError
    ensures var r, st' := Run(s, st, sink), Step(s, st, sink);
            !r.stop && |st'.items| <= |r.items| && r.items[..|st'.items|] == st'.items
    decreases |s| - st.pos
  {
    hide Step, Readable;
    StepProgress(s, st, sink);
    RunHadError(s, st, sink);
    StepReadable(s, st, sink);
    var st' := Step(s, st, sink);
    if !Finished(st') {
      RunKeeps(s, st', sink);
      StepReadable(s, st', sink) by { RunHadError(s, st', sink); }
      var r, st'' := Run(s, st', sink), Step(s, st', sink);
      assert st'.items == st''.items[..|st'.items|] == r.items[..|st'.items|];
    }
  }

  // ---- Lexing printed text ----

  /** Step over one printed token. */
  lemma PrintedStep(t: string, st: State, x: Lexed, sink: bool, q: nat)
    requires st.pos <= q && !st.stop && |st.items| < MAX_TOKENS
    requires q == st.pos || (q == st.pos + 1 && q <= |t| && t[st.pos] == ' ')
    requires Rereads(t, q, x) && x.kind != Eof
    ensures var st' := Step(t, st, sink);
            && !Finished(st')
            && st'.pos == q + |Render(x)| && st'.hadError == st.hadError
            && |st'.items| == |st.items| + 1
            && st'.items[..|st.items|] == st.items && Content(st'.items[|st.items|]) == x
  {
    hide ScanAt, Render;
    assert TriviaFrom(t, q, st.lastEnd) == Trivia(q, true, false);
    assert TriviaFrom(t, st.pos, st.lastEnd) == Trivia(q, true, false);
  }

  /** The run from st ends with the tokens of st, those of xs, and Eof, without a new error. */
  ghost predicate RunAdds(t: string, st: State, xs: seq<Lexed>, sink: bool)
    requires st.pos <= |t| && !st.stop
  {
    var r, n := Run(t, st, sink), |st.items|;
    && r.hadError == st.hadError && !r.stop
    && |r.items| == n + |xs| + 1
    && r.items[..n] == st.items
    && Contents(r.items[n..n + |xs|]) == xs
    && r.items[n + |xs|].token.kind == Eof
  }

  lemma PrintedNothing(t: string, st: State, sink: bool)
    requires st.pos <= |t| && !st.stop && |st.items| < MAX_TOKENS
    requires t[st.pos..] == PrintRest([]) || t[st.pos..] == Print([])
    ensures RunAdds(t, st, [], sink)
  {
    hide Step, Run, Contents;
    var n := |st.items|;
    RunUnfolds(t, st, sink);
    PrintedEnd(t, st, sink);
    NoContents(Step(t, st, sink).items[n..n]);
  }

  /** The next step takes the first printed token and stands before the rest. */
  ghost predicate TakesFirst(t: string, st: State, xs: seq<Lexed>, sink: bool)
    requires st.pos <= |t| && xs != []
  {
    var st', n := Step(t, st, sink), |st.items|;
    && !Finished(st') && st'.hadError == st.hadError
    && |st'.items| == n + 1 && st'.items[..n] == st.items && Content(st'.items[n]) == xs[0]
    && t[st'.pos..] == PrintRest(xs[1..])
  }

  lemma PrintedFirst(t: string, st: State, xs: seq<Lexed>, sink: bool)
    requires st.pos <= |t| && !st.stop && |st.items| < MAX_TOKENS
    requires xs != [] && (t[st.pos..] == PrintRest(xs) || t[st.pos..] == Print(xs))
    requires Readable(xs[0]) && xs[0].kind != Eof
    ensures TakesFirst(t, st, xs, sink)
  {
    hide Step, Readable, Rereads, Print, PrintRest, Render, Run;
    var q := if t[st.pos..] == PrintRest(xs) then st.pos + 1 else st.pos;
    PrintedToken(t, st.pos, q, xs);
    PrintedStep(t, st, xs[0], sink, q);
  }

  lemma PrintedMore(t: string, st: State, xs: seq<Lexed>, sink: bool)
    requires st.pos <= |t| && !st.stop && xs != [] && TakesFirst(t, st, xs, sink)
    requires RunAdds(t, Step(t, st, sink), xs[1..], sink)
    ensures RunAdds(t, st, xs, sink)
  {
    hide Step, Run, Contents, PrintRest;
    var st' := Step(t, st, sink);
    RunUnfolds(t, st, sink);
    ContentsGrow(Run(t, st', sink).items, st.items, st'.items, xs);
  }

  /** Lexing the rest of a printed stream adds exactly its tokens, and Eof. */
  lemma {:induction false} PrintedRun(t: string, st: State, xs: seq<Lexed>, sink: bool)
    requires st.pos <= |t| && !st.stop && |st.items| + |xs| < MAX_TOKENS
    requires t[st.pos..] == PrintRest(xs) || t[st.pos..] == Print(xs)
    requires forall i :: 0 <= i < |xs| ==> Readable(xs[i]) && xs[i].kind != Eof
    ensures RunAdds(t, st, xs, sink)
    decreases |xs|
  {
    hide Step, Run, Readable, RunAdds, Print, PrintRest;
    if xs == [] {
      PrintedNothing(t, st, sink);
    } else {
      PrintedFirst(t, st, xs, sink);
      PrintedRun(t, Step(t, st, sink), xs[1..], sink);
      PrintedMore(t, st, xs, sink);
    }
  }

  lemma RunUnfolds(s: string, st: State, sink: bool)
    requires st.pos <= |s| && !st.stop
    ensures var st' := Step(s, st, sink);
            && (!Finished(st') ==> st'.pos > st.pos)
            && Run(s, st, sink) == if Finished(st') then st' else Run(s, st', sink)
  {
    hide Step;
    StepProgress(s, st, sink);
  }

  lemma NoContents(items: seq<Item>)
    requires items == []
    ensures Contents(items) == []
  {
  }

  lemma ContentsGrow(items: seq<Item>, before: seq<Item>, after: seq<Item>, xs: seq<Lexed>)
    requires xs != [] && |items| == |before| + |xs| + 1
    requires |after| == |before| + 1 && items[..|after|] == after && after[..|before|] == before
    requires Content(after[|before|]) == xs[0]
    requires Contents(items[|after|..|after| + |xs[1..]|]) == xs[1..]
    ensures items[..|before|] == before
    ensures Contents(items[|before|..|before| + |xs|]) == xs
  {
    var n := |before|;
    assert items[..n] == items[..n + 1][..n];
    var mine, rest := items[n..n + |xs|], items[n + 1..n + 1 + |xs[1..]|];
    assert mine[0] == items[..n + 1][n];
    forall i | 0 <= i < |xs| ensures Contents(mine)[i] == xs[i] {
      if i > 0 {
        assert mine[i] == rest[i - 1];
        assert Contents(rest)[i - 1] == xs[1..][i - 1];
      }
    }
  }

  /** At the end of the text the next step emits Eof. */
  lemma PrintedEnd(t: string, st: State, sink: bool)
    requires st.pos <= |t| && !st.stop && |st.items| < MAX_TOKENS
    requires t[st.pos..] == ""
    ensures var r := Step(t, st, sink);
            && IsEof(r) && !r.stop && r.hadError == st.hadError
            && |r.items| == |st.items| + 1 && r.items[..|st.items|] == st.items
  {
  }

  /** In printed text the first token stands at q with a blank or nothing behind it. */
  lemma PrintedToken(t: string, p: nat, q: nat, xs: seq<Lexed>)
    requires p <= |t| && xs != [] && Readable(xs[0])
    requires if q == p then t[p..] == Print(xs) else q == p + 1 && t[p..] == PrintRest(xs)
    ensures q <= |t| && Rereads(t, q, xs[0])
    ensures q == p || t[p] == ' '
    ensures q + |Render(xs[0])| <= |t| && t[q + |Render(xs[0])|..] == PrintRest(xs[1..])
  {
    hide Render, Rereads, Readable;
    var w, rest := Render(xs[0]), PrintRest(xs[1..]);
    assert rest != [] ==> rest[0] == ' ';
    if q == p + 1 {
      assert t[p..] == " " + (w + rest);
      assert t[p] == t[p..][0];
      assert t[p..][1..] == t[q..];
    }
    assert t[q..] == w + rest;
    TextStands(t, q, w, rest);
    ReadableStands(xs[0], t, q);
  }

  lemma TextStands(t: string, q: nat, w: string, rest: string)
    requires q <= |t| && t[q..] == w + rest && (rest != [] ==> rest[0] == ' ')
    ensures StandsAt(t, q, w) && t[q + |w|..] == rest
  {
    assert t[q..q + |w|] == t[q..][..|w|] == w;
    assert t[q + |w|..] == t[q..][|w|..] == rest;
  }

  lemma ReadableStands(x: Lexed, t: string, q: nat)
    requires Readable(x) && StandsAt(t, q, Render(x))
    ensures Rereads(t, q, x)
  {
  }

  /** Printing a successfully lexed stream and lexing it again gives the same types, texts and numeric
      data, with or without a diagnostic sink. */
  lemma RoundTrip(s: string, sink: bool)
    requires !Lex(s, true).hadError
    ensures var r := Lex(s, true);
            && r.items != []
            && var xs := Contents(r.items[..|r.items| - 1]);
               var again := Lex(Print(xs), sink);
               && !again.hadError && !again.stop
               && |again.items| == |r.items|
               && Contents(again.items[..|r.items| - 1]) == xs
               && IsEof(r) && IsEof(again)
  {
    hide Run;
    var r := Lex(s, true);
    LexEnds(s, true);
    LexNotStopped(s);
    var n := |r.items| - 1;
    var xs := Contents(r.items[..n]);
    forall i | 0 <= i < n ensures Readable(xs[i]) && xs[i].kind != Eof {
      assert r.items[..n][i] == r.items[i];
      RunReadable(s, Start(), true, i);
    }
    var t := Print(xs);
    assert t[0..] == t;
    PrintedRun(t, Start(), xs, sink);
    var again := Lex(t, sink);
    assert again.items[0..0 + n] == again.items[..n];
  }

  lemma LexNotStopped(s: string)
    requires !Lex(s, true).hadError
    ensures !Lex(s, true).stop
  {
    RunKeeps(s, Start(), true);
  }
}
