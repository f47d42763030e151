// compiler/src/lexer.c, how it computes: a mutable lexer state stepped over the source.
module LexerMachine {
  import opened Text
  import opened LexerSpec
  import opened LexerTheorems
  import opened LexerLaws

  /** The tokens of a run of items. */
  predicate Lists(tokens: seq<Token>, items: seq<Item>) {
    |tokens| == |items| && forall i :: 0 <= i < |items| ==> tokens[i] == items[i].token
  }

  /** parse_numeric_literal. */
  method ParseNumericLiteral(w: string) returns (r: NumericResult)
    ensures r == ParseNumeric(w)
  {
    var tick := 0;
    while tick < |w| && w[tick] != '\''
      invariant tick <= |w|
      invariant forall k :: 0 <= k < tick ==> w[k] != '\''
    {
      tick := tick + 1;
    }
    assert tick == TickAt(w);
    if tick == |w| {
      return PlainNumber;
    }
    if tick == 0 || tick + 1 >= |w| {
      return BadNumber(OtherCause);
    }
    var base := BaseOf(w[tick + 1]);
    if base.None? || tick + 2 >= |w| {
      return BadNumber(OtherCause);
    }
    var value := w[tick + 2..];
    if value[0] == '_' || value[|value| - 1] == '_' {
      return BadNumber(UnderscoreEdges);
    }
    assert value[0..] == value;
    for i := 0 to |value|
      invariant ValueFault(base.value, value) == ValueFault(base.value, value[i..])
    {
      assert value[i..][1..] == value[i + 1..];
      var fault := DigitFault(base.value, value[i]);
      if fault.Some? {
        return BadNumber(fault.value);
      }
    }
    return SizedLiteral(Sized(base.value, tick));
  }

  lemma DecodeStep(raw: string, i: nat)
    requires i < |raw|
    ensures Decode(raw[i..])
         == if raw[i] == '\\' && i + 1 < |raw| && (raw[i + 1] == '\\' || raw[i + 1] == '"' || raw[i + 1] == 'n') then
              [if raw[i + 1] == 'n' then '\n' else raw[i + 1]] + Decode(raw[i + 2..])
            else [raw[i]] + Decode(raw[i + 1..])
  {
    assert raw[i..][1..] == raw[i + 1..];
    if i + 1 < |raw| {
      assert raw[i..][2..] == raw[i + 2..];
    }
  }

  /** The escape decoding loop of string literals. */
  method DecodeString(raw: string) returns (text: string)
    ensures text == Decode(raw)
  {
    hide Decode;
    text := "";
    var i := 0;
    assert raw[0..] == raw;
    while i < |raw|
      invariant i <= |raw|
      invariant Decode(raw) == text + Decode(raw[i..])
    {
      DecodeStep(raw, i);
      if raw[i] == '\\' && i + 1 < |raw| && (raw[i + 1] == '\\' || raw[i + 1] == '"' || raw[i + 1] == 'n') {
        text := text + [if raw[i + 1] == 'n' then '\n' else raw[i + 1]];
        i := i + 2;
      } else {
        text := text + [raw[i]];
        i := i + 1;
      }
    }
    DecodeNothing(raw[i..]);
  }

  lemma DecodeNothing(raw: string)
    requires raw == ""
    ensures Decode(raw) == ""
  {
  }

  class LexerState {
    const src: string
    /** Whether there is a diagnostic sink. */
    const sink: bool
    var pos: nat
    var line: nat
    var column: nat
    var out: seq<Token>
    var hadError: bool
    var stopLexing: bool
    var lastTokenEnd: nat
    var lastTokenValid: bool
    /** The emitted tokens with their source ranges. */
    ghost var items: seq<Item>

    constructor (src: string, sink: bool)
      ensures this.src == src && this.sink == sink && Valid() && View() == Start()
    {
      this.src, this.sink := src, sink;
      pos, line, column := 0, 1, 1;
      out, items := [], [];
      hadError, stopLexing, lastTokenEnd, lastTokenValid := false, false, 0, false;
    }

    /** Line and column are those of the position. */
    ghost predicate Valid()
      reads this
    {
      && pos <= |src|
      && line == LineAt(src, pos)
      && column == ColumnAt(src, pos)
      && Lists(out, items)
    }

    ghost function View(): State
      reads this
    {
      State(pos, items, hadError, stopLexing, if lastTokenValid then Some(lastTokenEnd) else None)
    }

    /** Step over one character, which is not a newline. */
    method Bump()
      requires Valid() && pos < |src| && src[pos] != '\n'
      modifies `pos, `column
      ensures Valid() && pos == old(pos) + 1
    {
      pos := pos + 1;
      column := column + 1;
    }

    /** Step over one character, newline or not. */
    method BumpAny()
      requires Valid() && pos < |src|
      modifies `pos, `line, `column
      ensures Valid() && pos == old(pos) + 1
    {
      var c := src[pos];
      pos := pos + 1;
      if c == '\n' {
        line := line + 1;
        column := 1;
      } else {
        column := column + 1;
      }
    }

    /** Step over n characters that are not newlines. */
    method BumpBy(n: nat)
      requires Valid() && pos + n <= |src| && forall k :: pos <= k < pos + n ==> src[k] != '\n'
      modifies `pos, `column
      ensures Valid() && pos == old(pos) + n
    {
      for i := 0 to n
        invariant Valid() && pos == old(pos) + i
      {
        Bump();
      }
    }

    method SkipWord()
      requires Valid()
      modifies `pos, `column
      ensures Valid() && pos == WordEnd(src, old(pos))
    {
      while pos < |src| && IsWordChar(src[pos])
        invariant Valid() && WordEnd(src, old(pos)) == WordEnd(src, pos)
        decreases |src| - pos
      {
        Bump();
      }
    }

    method SkipLiteral()
      requires Valid()
      modifies `pos, `column
      ensures Valid() && pos == LiteralEnd(src, old(pos))
    {
      while pos < |src| && IsLiteralChar(src[pos])
        invariant Valid() && LiteralEnd(src, old(pos)) == LiteralEnd(src, pos)
        decreases |src| - pos
      {
        Bump();
      }
    }

    method SkipDigits()
      requires Valid()
      modifies `pos, `column
      ensures Valid() && pos == FractionEnd(src, old(pos))
    {
      while pos < |src| && IsDigit(src[pos])
        invariant Valid() && FractionEnd(src, old(pos)) == FractionEnd(src, pos)
        decreases |src| - pos
      {
        Bump();
      }
    }

    /** skip_line_comment: the newline included. */
    method SkipLineComment()
      requires Valid()
      modifies `pos, `line, `column
      ensures Valid() && pos == LineCommentEnd(src, old(pos))
    {
      while pos < |src|
        invariant Valid() && NewlineAt(src, old(pos)) == NewlineAt(src, pos)
        decreases |src| - pos
      {
        var c := src[pos];
        BumpAny();
        if c == '\n' {
          return;
        }
      }
    }

    /** skip_block_comment: broken by a nested opening or by the end of the source. */
    method SkipBlockComment() returns (closed: bool)
      requires Valid()
      modifies `pos, `line, `column, `hadError
      ensures Valid()
      ensures match BlockFrom(src, old(pos))
              case Closed(q) => closed && pos == q && hadError == old(hadError)
              case Broken(q) => !closed && pos == q && hadError
    {
      while pos < |src|
        invariant Valid() && BlockFrom(src, old(pos)) == BlockFrom(src, pos) && hadError == old(hadError)
        decreases |src| - pos
      {
        var c := src[pos];
        BumpAny();
        if c == '/' && pos < |src| && src[pos] == '*' {
          hadError := true;
          return false;
        }
        if c == '*' && pos < |src| && src[pos] == '/' {
          Bump();
          return true;
        }
      }
      hadError := true;
      return false;
    }

    /** emit_token, for a token that starts at `start`; sized literals then record their numeric data on
        the last token. */
    method EmitToken(x: Lexed, line0: nat, column0: nat, ghost start: nat)
      requires Valid() && start <= |src| && line0 == LineAt(src, start) && column0 == ColumnAt(src, start)
      modifies `out, `items, `hadError, `stopLexing, `lastTokenEnd, `lastTokenValid
      ensures Valid() && View() == Emit(src, old(View()), x, start, sink)
    {
      if |out| >= MAX_TOKENS {
        if sink {
          hadError := true;
        }
        stopLexing := true;
        if !x.num.Plain? {
          out := out[|out| - 1 := out[|out| - 1].(num := x.num)];
          items := SetNum(items, x.num);
        }
        return;
      }
      out := out + [Token(x.kind, x.text, line0, column0, x.num)];
      items := items + [Item(Token(x.kind, x.text, line0, column0, x.num), start, pos)];
      if x.kind != Eof {
        lastTokenEnd := pos;
        lastTokenValid := true;
      }
    }

    /** lexer_report_rule: an error only with a sink. */
    method ReportRule()
      modifies `hadError
      ensures hadError == (old(hadError) || sink)
    {
      if sink {
        hadError := true;
      }
    }

    /** Emit or report the literal src[start..pos], as both literal branches do. */
    method FinishNumeric(start: nat, line0: nat, column0: nat)
      requires Valid() && start < pos && line0 == LineAt(src, start) && column0 == ColumnAt(src, start)
      modifies this
      ensures Valid()
      ensures View() == TakeScan(src, old(View()).(pos := start), ScanNumeric(src, start, old(pos)), sink)
    {
      hide ParseNumeric, Emit;
      var lexeme := src[start..pos];
      var r := ParseNumericLiteral(lexeme);
      match r {
        case PlainNumber =>
          EmitToken(Lexed(Number, lexeme, Plain), line0, column0, start);
        case SizedLiteral(info) =>
          EmitToken(Lexed(SizedNumber, lexeme, info), line0, column0, start);
        case BadNumber(cause) =>
          if cause == OtherCause {
            hadError := true;
          } else {
            ReportRule();
          }
      }
    }

    method LexString()
      requires Valid() && pos < |src| && src[pos] == '"'
      modifies this
      ensures Valid() && View() == TakeScan(src, old(View()), ScanString(src, old(pos)), sink)
    {
      hide Emit, Decode;
      var start, line0, column0 := pos, line, column;
      Bump();
      while pos < |src| && src[pos] != '"'
        invariant Valid() && start < pos && View() == old(View()).(pos := pos)
        invariant QuoteAt(src, start + 1) == QuoteAt(src, pos)
        decreases |src| - pos
      {
        BumpAny();
      }
      if pos >= |src| {
        return;
      }
      var contentEnd := pos;
      Bump();
      var text := DecodeString(src[start + 1..contentEnd]);
      EmitToken(Lexed(StringLiteral, text, Plain), line0, column0, start);
    }

    /** Try CONFIG.name behind the word src[start..pos], and go back unless a tick follows it. */
    method TryConfigWidth(start: nat)
      requires Valid() && start <= pos
      modifies `pos, `column
      ensures Valid() && pos == WidthEnd(src, start, old(pos))
    {
      if pos < |src| && src[pos] == '.' && src[start..pos] == CONFIG {
        var dotPos, dotColumn := pos, column;
        Bump();
        var nameStart := pos;
        SkipWord();
        if !(pos > nameStart && pos < |src| && src[pos] == '\'') {
          pos, column := dotPos, dotColumn;
        }
      }
    }

    method LexWord()
      requires Valid() && pos < |src| && IsWordStart(src[pos])
      modifies this
      ensures Valid() && View() == TakeScan(src, old(View()), ScanWord(src, old(pos)), sink)
    {
      hide Emit, IsKeyword, ScanNumeric, WidthEnd, WordEnd, LiteralEnd;
      var start, line0, column0 := pos, line, column;
      Bump();
      SkipWord();
      var end := pos;
      var endColumn := column;
      TryConfigWidth(start);
      if pos < |src| && src[pos] == '\'' {
        Bump();
        SkipLiteral();
        FinishNumeric(start, line0, column0);
        return;
      }
      WidthBack(src, start, end);
      var word := src[start..end];
      var kind := if IsKeyword(word) then Keyword(word) else Identifier;
      EmitToken(Lexed(kind, word, Plain), line0, column0, start);
    }

    /** A stray tick is reported and dropped. */
    method LexTick()
      requires Valid() && pos < |src| && src[pos] == '\''
      modifies this
      ensures Valid() && View() == TakeScan(src, old(View()), Scan(old(pos) + 1, None, RuleViolation), sink)
    {
      ReportRule();
      Bump();
    }

    method LexNumber()
      requires Valid() && pos < |src| && IsDigit(src[pos])
      modifies this
      ensures Valid() && View() == TakeScan(src, old(View()), ScanNumber(src, old(pos)), sink)
    {
      hide Emit, ScanNumeric, LiteralEnd, FractionEnd, LineAt, ColumnAt;
      var start, line0, column0 := pos, line, column;
      Bump();
      SkipLiteral();
      if pos + 1 < |src| && src[pos] == '.' && IsDigit(src[pos + 1]) && !HasTick(src[start..pos]) {
        Bump();
        SkipDigits();
        EmitToken(Lexed(Number, src[start..pos], Plain), line0, column0, start);
        return;
      }
      FinishNumeric(start, line0, column0);
    }

    method LexSymbol()
      requires Valid() && pos < |src| && src[pos] != '\n'
      modifies this
      ensures Valid() && View() == TakeScan(src, old(View()), ScanSymbol(src, old(pos)), sink)
    {
      hide Emit, SymbolLength, IsSymbolChar;
      var start, line0, column0 := pos, line, column;
      var c := src[pos];
      if IsSymbolChar(c) {
        var n := SymbolLength(src, pos);
        SymbolOnOneLine(src, pos);
        BumpBy(n);
        EmitToken(Lexed(Symbol(src[start..pos]), src[start..pos], Plain), line0, column0, start);
      } else {
        if c != '#' {
          hadError := true;
        }
        Bump();
        EmitToken(Lexed(Other, [c], Plain), line0, column0, start);
      }
    }

    method SkipComment() returns (closed: bool)
      requires Valid() && CommentAt(src, pos)
      modifies `pos, `line, `column, `hadError
      ensures Valid()
      ensures match CommentFrom(src, old(pos))
              case Closed(q) => closed && pos == q && hadError == old(hadError)
              case Broken(q) => !closed && pos == q && hadError
    {
      hide BlockFrom, LineCommentEnd;
      var lineComment := src[pos + 1] == '/';
      Bump();
      Bump();
      if lineComment {
        SkipLineComment();
        return true;
      }
      closed := SkipBlockComment();
    }

    /** The blank and comment loop of lex_one_token. */
    method SkipTrivia() returns (aborted: bool)
      requires Valid()
      modifies `pos, `line, `column, `hadError
      ensures Valid()
      ensures var t := TriviaFrom(src, old(pos), old(View()).lastEnd);
              pos == t.end && aborted == t.aborted && hadError == (old(hadError) || !t.clean)
    {
      hide CommentFrom;
      ghost var last := View().lastEnd;
      while pos < |src|
        invariant Valid() && View() == old(View()).(pos := pos, hadError := hadError)
        invariant old(hadError) ==> hadError
        invariant var t, now := TriviaFrom(src, old(pos), last), TriviaFrom(src, pos, last);
                  && t.end == now.end && t.aborted == now.aborted
                  && (hadError || !now.clean) == (old(hadError) || !t.clean)
        decreases |src| - pos
      {
        var c := src[pos];
        if IsBlank(c) {
          BumpAny();
        } else if CommentAt(src, pos) {
          if lastTokenValid && lastTokenEnd == pos {
            hadError := true;
          }
          var closed := SkipComment();
          if !closed {
            return true;
          }
        } else {
          return false;
        }
      }
      return false;
    }

    /** lex_one_token. */
    method LexOneToken()
      requires Valid()
      modifies this
      ensures Valid() && View() == Step(src, old(View()), sink)
    {
      hide TriviaFrom, TakeScan, Emit, ScanString, ScanWord, ScanNumber, ScanSymbol;
      if stopLexing {
        return;
      }
      var aborted := SkipTrivia();
      if aborted {
        return;
      }
      if pos >= |src| {
        EmitToken(Lexed(Eof, "", Plain), line, column, pos);
        return;
      }
      var c := src[pos];
      assert !IsBlank(c);
      if c == '"' {
        LexString();
      } else if IsWordStart(c) {
        LexWord();
      } else if c == '\'' {
        LexTick();
      } else if IsDigit(c) {
        LexNumber();
      } else {
        LexSymbol();
      }
    }
  }

  lemma WidthBack(s: string, start: nat, end: nat)
    requires start <= end <= |s|
    ensures !IsTick(s, WidthEnd(s, start, end)) ==> WidthEnd(s, start, end) == end
  {
  }

  lemma SymbolOnOneLine(s: string, p: nat)
    requires p < |s| && s[p] != '\n'
    ensures forall k :: p <= k < p + SymbolLength(s, p) ==> s[k] != '\n'
  {
  }

  /** jz_lex_source. The Eof that the source appends behind its loop when the last token is none is
      never needed: a loop that was not stopped by the token limit ends with Eof. */
  method LexSource(source: string, sink: bool) returns (tokens: seq<Token>, ok: bool, ghost items: seq<Item>)
    ensures Lists(tokens, items) && items == Lex(source, sink).items
    ensures ok == !Lex(source, sink).hadError
    ensures forall i :: 0 <= i < |tokens| - 1 && tokens[i].kind == SizedNumber ==> ShowsBase(tokens[i])
  {
    hide Step, ShowsBase;
    var st := new LexerState(source, sink);
    ghost var target := Lex(source, sink);
    StepEnds(source, st.View(), sink);
    while true
      invariant st.Valid() && st.src == source && st.sink == sink && fresh(st)
      invariant !st.stopLexing && NoEof(st.items) && |st.items| <= MAX_TOKENS
      invariant Run(source, st.View(), sink) == target
      decreases |source| - st.pos
    {
      StepProgress(source, st.View(), sink);
      StepEnds(source, st.View(), sink);
      st.LexOneToken();
      if st.stopLexing {
        break;
      }
      if |st.out| > 0 && st.out[|st.out| - 1].kind == Eof {
        break;
      }
    }
    assert !((|st.out| == 0 || st.out[|st.out| - 1].kind != Eof) && |st.out| < MAX_TOKENS);
    tokens, ok, items := st.out, !st.hadError, st.items;
    forall i | 0 <= i < |tokens| - 1 && tokens[i].kind == SizedNumber ensures ShowsBase(tokens[i]) {
      SizedTokensShowBase(source, sink, i);
    }
  }
}
