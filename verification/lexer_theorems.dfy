// Properties of the token stream: its end and its bound, the partition of the source into tokens and
// trivia, and the print / re-lex round trip.
module LexerTheorems {
  import opened Text
  import opened LexerSpec

  // ---- The end of the stream ----

  predicate NoEof(items: seq<Item>) {
    forall i :: 0 <= i < |items| ==> items[i].token.kind != Eof
  }

  /** The stream of a finished run: cut at the token limit, or closed by its only Eof token. */
  predicate WellEnded(st: State) {
    if st.stop then |st.items| == MAX_TOKENS && NoEof(st.items)
    else
      && 0 < |st.items| <= MAX_TOKENS
      && IsEof(st)
      && NoEof(st.items[..|st.items| - 1])
  }

  lemma ScanIsNotEof(s: string, p: nat)
    requires p < |s|
    ensures ScanAt(s, p).token.Some? ==> ScanAt(s, p).token.value.kind != Eof
  {
    hide IsKeyword, ParseNumeric;
  }

  lemma EmitEnds(s: string, st: State, x: Lexed, start: nat, sink: bool)
    requires start <= |s| && !st.stop && NoEof(st.items) && |st.items| <= MAX_TOKENS
    ensures var st' := Emit(s, st, x, start, sink);
            && |st'.items| <= MAX_TOKENS
            && (Finished(st') ==> WellEnded(st'))
            && (x.kind != Eof ==> NoEof(st'.items))
            && (x.kind == Eof ==> Finished(st'))
  {
    hide LineAt, ColumnAt;
    var st' := Emit(s, st, x, start, sink);
    assert !st'.stop ==> st'.items[..|st'.items| - 1] == st.items;
  }

  lemma StepEnds(s: string, st: State, sink: bool)
    requires st.pos <= |s| && !st.stop && NoEof(st.items) && |st.items| <= MAX_TOKENS
    ensures var st' := Step(s, st, sink);
            && |st'.items| <= MAX_TOKENS
            && (Finished(st') ==> WellEnded(st'))
            && (!Finished(st') ==> NoEof(st'.items))
  {
    hide ScanAt, TriviaFrom, Emit;
    var t := TriviaFrom(s, st.pos, st.lastEnd);
    var st1 := st.(pos := t.end, hadError := st.hadError || !t.clean);
    if !t.aborted && t.end < |s| {
      ScanIsNotEof(s, t.end);
      var x := ScanAt(s, t.end);
      if x.token.Some? {
        EmitEnds(s, st1.(pos := x.end, hadError := st1.hadError || IsError(x.fault, sink)), x.token.value, t.end, sink);
      }
    } else {
      EmitEnds(s, st1, Lexed(Eof, "", Plain), t.end, sink);
    }
  }

  /** The stream never exceeds the limit; unless the limit stopped it, it holds Eof exactly once, last. */
  lemma {:induction false} RunEnds(s: string, st: State, sink: bool)
    requires st.pos <= |s| && !st.stop && NoEof(st.items) && |st.items| <= MAX_TOKENS
    ensures WellEnded(Run(s, st, sink))
    decreases |s| - st.pos
  {
    hide Step;
    StepProgress(s, st, sink);
    StepEnds(s, st, sink);
    var st' := Step(s, st, sink);
    if !Finished(st') {
      RunEnds(s, st', sink);
    }
  }

  lemma LexEnds(s: string, sink: bool)
    ensures WellEnded(Lex(s, sink))
  {
    RunEnds(s, Start(), sink);
  }

  // ---- The partition ----

  /** s[a..b] is a run of blanks and closed comments. */
  predicate IsTrivia(s: string, a: nat, b: nat)
    requires a <= b <= |s|
    decreases b - a
  {
    || a == b
    || (IsBlank(s[a]) && IsTrivia(s, a + 1, b))
    || (CommentAt(s, a) && CommentFrom(s, a).Closed? && CommentFrom(s, a).end <= b
        && IsTrivia(s, CommentFrom(s, a).end, b))
  }

  /** A token stands at exactly its text; a string literal at its quoted and undecoded text. Its line and
      column are those of its first character. */
  predicate ReadsAs(s: string, x: Item) {
    && x.start < x.end <= |s|
    && x.token.line == LineAt(s, x.start)
    && x.token.column == ColumnAt(s, x.start)
    && if x.token.kind == StringLiteral then
         && x.start + 2 <= x.end
         && s[x.start] == '"' && s[x.end - 1] == '"'
         && (forall k :: x.start < k < x.end - 1 ==> s[k] != '"')
         && x.token.lexeme == Decode(s[x.start + 1..x.end - 1])
       else x.token.lexeme == s[x.start..x.end]
  }

  /** The source ends, from a on, with trivia and at most one unterminated string. */
  predicate IsTail(s: string, a: nat, c: nat) {
    && a <= c <= |s|
    && IsTrivia(s, a, c)
    && (c == |s| || (s[c] == '"' && forall k :: c < k < |s| ==> s[k] != '"'))
  }

  /** From a on the source is trivia, a token, trivia, a token, ... and a tail that Eof stands behind. */
  ghost predicate Partitions(s: string, a: nat, items: seq<Item>)
    decreases |items|
  {
    && items != []
    && var x := items[0];
       if x.token.kind == Eof then
         && |items| == 1
         && x == Item(Token(Eof, "", LineAt(s, |s|), ColumnAt(s, |s|), Plain), |s|, |s|)
         && exists c :: IsTail(s, a, c)
       else
         && a <= x.start < |s|
         && IsTrivia(s, a, x.start)
         && ReadsAs(s, x)
         && Partitions(s, x.end, items[1..])
  }

  lemma {:induction false} TriviaFromIsTrivia(s: string, p: nat, lastEnd: Option<nat>)
    requires p <= |s| && TriviaFrom(s, p, lastEnd).clean
    ensures IsTrivia(s, p, TriviaFrom(s, p, lastEnd).end)
    decreases |s| - p
  {
    hide CommentFrom;
    if p < |s| && IsBlank(s[p]) {
      TriviaFromIsTrivia(s, p + 1, lastEnd);
    } else if CommentAt(s, p) {
      TriviaFromIsTrivia(s, CommentFrom(s, p).end, lastEnd);
    }
  }

  /** What a clean element with a token looks like, and that only an unterminated string yields none. */
  lemma CleanScan(s: string, p: nat)
    requires p < |s| && ScanAt(s, p).fault == Clean
    ensures var x := ScanAt(s, p);
            match x.token
            case None => IsUnterminated(s, p) && x.end == |s|
            case Some(lexed) =>
              if lexed.kind == StringLiteral then
                && p + 2 <= x.end && s[p] == '"' && s[x.end - 1] == '"'
                && (forall k :: p < k < x.end - 1 ==> s[k] != '"')
                && lexed.text == Decode(s[p + 1..x.end - 1])
              else lexed.text == s[p..x.end]
  {
    hide IsKeyword, ParseNumeric, SymbolLength;
  }

  predicate IsUnterminated(s: string, p: nat) {
    p < |s| && s[p] == '"' && forall k :: p < k < |s| ==> s[k] != '"'
  }

  lemma ErrorsStay(s: string, st: State, sink: bool)
    requires st.pos <= |s| && !st.stop
    ensures st.hadError ==> Run(s, st, sink).hadError
    decreases |s| - st.pos
  {
    hide TriviaFrom, ScanAt;
    StepProgress(s, st, sink);
    var st' := Step(s, st, sink);
    if !Finished(st') {
      ErrorsStay(s, st', sink);
    }
  }

  /** A step without an error in a run without one: it emits Eof, reaches the end of the source through
      an unterminated string, or emits one token. */
  ghost predicate CleanStep(s: string, st: State, st': State) {
    var n := |st.items|;
    && st.pos <= st'.pos <= |s|
    && !st'.stop
    && (if |st'.items| == n then
          && st'.items == st.items
          && st'.pos == |s|
          && exists c :: IsTail(s, st.pos, c)
        else
          && |st'.items| == n + 1
          && st'.items[..n] == st.items
          && var x := st'.items[n];
             if x.token.kind == Eof then
               && x == Item(Token(Eof, "", LineAt(s, |s|), ColumnAt(s, |s|), Plain), |s|, |s|)
               && IsTail(s, st.pos, |s|)
             else
               && st.pos <= x.start < x.end == st'.pos
               && IsTrivia(s, st.pos, x.start)
               && ReadsAs(s, x))
  }

  lemma StepIsClean(s: string, st: State, sink: bool)
    requires st.pos <= |s| && !st.stop && sink && !Step(s, st, sink).hadError
    ensures CleanStep(s, st, Step(s, st, sink))
  {
    hide IsKeyword, ParseNumeric, ScanAt, TriviaFrom, IsTrivia, LineAt, ColumnAt, Decode;
    var t := TriviaFrom(s, st.pos, st.lastEnd);
    TriviaFromIsTrivia(s, st.pos, st.lastEnd);
    if t.end == |s| {
      assert IsTail(s, st.pos, |s|);
    } else {
      CleanScan(s, t.end);
      ScanIsNotEof(s, t.end);
      if ScanAt(s, t.end).token.None? {
        assert IsTail(s, st.pos, t.end);
      }
    }
  }

  /** The items that a run without errors adds partition what was left of the source. */
  lemma {:induction false} RunPartitions(s: string, st: State, sink: bool)
    requires st.pos <= |s| && !st.stop && NoEof(st.items) && |st.items| <= MAX_TOKENS && sink
    requires !Run(s, st, sink).hadError
    ensures var r, n := Run(s, st, sink), |st.items|;
            && |r.items| >= n && r.items[..n] == st.items
            && Partitions(s, st.pos, r.items[n..])
    decreases |s| - st.pos
  {
    hide Step, ReadsAs, IsTrivia, IsTail;
    var st' := Step(s, st, sink);
    StepProgress(s, st, sink);
    StepEnds(s, st, sink);
    RunHadError(s, st, sink);
    StepIsClean(s, st, sink);
    var n := |st.items|;
    if !Finished(st') {
      RunPartitions(s, st', sink);
      var r := Run(s, st', sink);
      if |st'.items| == n {
        TailOnly(s, st.pos, r.items[n..]);
      } else {
        assert r.items[n..][0] == st'.items[n];
        assert r.items[n..][1..] == r.items[n + 1..];
        assert r.items[..n] == st'.items[..n];
      }
    } else {
      assert st'.items[n..] == [st'.items[n]];
    }
  }

  lemma RunHadError(s: string, st: State, sink: bool)
    requires st.pos <= |s| && !st.stop && !Run(s, st, sink).hadError
    ensures !Step(s, st, sink).hadError
  {
    hide Step;
    var st' := Step(s, st, sink);
    StepProgress(s, st, sink);
    if !Finished(st') {
      ErrorsStay(s, st', sink);
    }
  }

  /** Behind the end of the source there is nothing but Eof. */
  lemma TailOnly(s: string, a: nat, items: seq<Item>)
    requires Partitions(s, |s|, items) && exists c :: IsTail(s, a, c)
    ensures Partitions(s, a, items)
  {
  }

  /** On success with a diagnostic sink the tokens, the trivia between them and at most one unterminated
      string at the end partition the source. */
  lemma LexPartitions(s: string)
    requires !Lex(s, true).hadError
    ensures Partitions(s, 0, Lex(s, true).items)
  {
    RunPartitions(s, Start(), true);
    assert Lex(s, true).items[0..] == Lex(s, true).items;
  }

  /** Spans are disjoint and in source order. */
  lemma {:induction false} SpansIncrease(s: string, a: nat, items: seq<Item>, i: nat, j: nat)
    requires Partitions(s, a, items) && i < j < |items|
    ensures a <= items[i].start <= items[i].end <= items[j].start <= |s|
    decreases i
  {
    hide IsTrivia, IsTail;
    var rest := items[1..];
    if i > 0 {
      SpansIncrease(s, items[0].end, rest, i - 1, j - 1);
    } else {
      StartsBehind(s, items[0].end, rest, j - 1);
    }
  }

  lemma {:induction false} StartsBehind(s: string, a: nat, items: seq<Item>, j: nat)
    requires a <= |s| && Partitions(s, a, items) && j < |items|
    ensures a <= items[j].start <= |s|
    decreases j
  {
    hide IsTrivia, IsTail;
    if j > 0 {
      StartsBehind(s, items[0].end, items[1..], j - 1);
    }
  }

  // ---- Operators ----

  predicate IsOperator(w: string) {
    w in {
      "{", "}", "(", ")", "[", "]", ";", ",", ".", "=", "==", "=>", "=>z", "=>s", "=z", "=s", "+", "-", "*", "%",
      "~", "^", "&", "&&", "|", "||", "!", "!=", "<", "<<", "<=", "<=z", "<=s", ">", ">>", ">>>", ">=", "?", ":", "/"
    }
  }

  /** The operator w can be read at p: it stands there, and if it drives z or s with `=` or `=>`, no word
      goes on behind it. */
  predicate OperatorAt(s: string, p: nat, w: string) {
    && IsOperator(w)
    && p + |w| <= |s| && s[p..p + |w|] == w
    && (w in {"=z", "=s", "=>z", "=>s"} ==> !WordFollows(s, p + |w|))
  }

  lemma OperatorChars(s: string, p: nat, w: string)
    requires OperatorAt(s, p, w)
    ensures 1 <= |w| <= 3 && s[p] == w[0] && (|w| > 1 ==> s[p + 1] == w[1]) && (|w| > 2 ==> s[p + 2] == w[2])
  {
    assert s[p..p + |w|][0] == s[p];
    if |w| > 1 { assert s[p..p + |w|][1] == s[p + 1]; }
    if |w| > 2 { assert s[p..p + |w|][2] == s[p + 2]; }
  }

  /** The lexer takes the longest operator that can be read. */
  lemma LongestOperator(s: string, p: nat, w: string)
    requires p < |s| && OperatorAt(s, p, w)
    ensures IsSymbolChar(s[p]) && |w| <= SymbolLength(s, p)
  {
    OperatorChars(s, p, w);
  }

  lemma SymbolIsOperator(s: string, p: nat)
    requires p < |s| && IsSymbolChar(s[p])
    ensures OperatorAt(s, p, s[p..p + SymbolLength(s, p)])
  {
    var n := SymbolLength(s, p);
    if n == 1 {
      SingleOperator(s[p]);
      assert s[p..p + n] == [s[p]];
    } else {
      LongOperator(s, p);
    }
  }

  lemma SingleOperator(c: char)
    requires IsSymbolChar(c)
    ensures IsOperator([c]) && [c] !in {"=z", "=s", "=>z", "=>s"}
  {
  }

  lemma LongOperator(s: string, p: nat)
    requires p < |s| && SymbolLength(s, p) > 1
    ensures OperatorAt(s, p, s[p..p + SymbolLength(s, p)])
  {
    var n := SymbolLength(s, p);
    var w := s[p..p + n];
    assert w == if n == 2 then [s[p], s[p + 1]] else [s[p], s[p + 1], s[p + 2]];
  }
}
