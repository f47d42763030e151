// compiler/src/lexer.c, what it computes: the element at every offset, the blanks and comments between
// elements, and the token stream of a whole source.
module LexerSpec {
  import opened Text

  // ---- Tokens ----

  datatype NumericBase = Binary | DecimalBase | Hexadecimal

  /** JZNumericInfo; Plain is the all-zero value of tokens that are not sized literals. */
  datatype NumericInfo = Plain | Sized(base: NumericBase, widthChars: nat)

  /** Keywords and symbols have one token type for each text. */
  datatype TokenType =
    | Eof
    | Identifier
    | Number
    | SizedNumber
    | StringLiteral
    | Keyword(word: string)
    | Symbol(text: string)
    | Other

  datatype Token = Token(kind: TokenType, lexeme: string, line: nat, column: nat, num: NumericInfo)

  predicate IsKeyword(word: string) {
    word in {
      "@module", "@endmod", "@project", "@endproj", "@blackbox", "@new", "@top", "@import", "@global",
      "@endglob", "@feature", "@endfeat", "@else", "@check", "@template", "@endtemplate", "@apply", "@scratch",
      "@testbench", "@endtb", "@setup", "@update", "@clock", "@expect_equal", "@expect_not_equal",
      "@expect_tristate", "@simulation", "@endsim", "@run", "@run_until", "@run_while", "@print", "@print_if",
      "@trace", "@select", "@mark", "@mark_if", "@alert", "@alert_if", "CONST", "PORT", "WIRE", "REGISTER",
      "LATCH", "MEM", "MUX", "CDC", "ASYNCHRONOUS", "SYNCHRONOUS", "CONFIG", "CLOCKS", "IN_PINS", "OUT_PINS",
      "INOUT_PINS", "MAP", "CLOCK_GEN", "TAP", "IF", "ELIF", "ELSE", "SELECT", "CASE", "DEFAULT", "IN", "OUT",
      "INOUT", "OVERRIDE", "GND", "VCC"
    }
  }

  // ---- Positions ----

  /** The 1-based line of an offset: one more than the newlines before it. */
  function LineAt(s: string, p: nat): nat
    requires p <= |s|
  {
    if p == 0 then 1 else LineAt(s, p - 1) + if s[p - 1] == '\n' then 1 else 0
  }

  /** The 1-based column of an offset: its distance from the last newline before it. */
  function ColumnAt(s: string, p: nat): nat
    requires p <= |s|
  {
    if p == 0 || s[p - 1] == '\n' then 1 else ColumnAt(s, p - 1) + 1
  }

  // ---- Runs of characters ----

  function WordEnd(s: string, p: nat): (q: nat)
    requires p <= |s|
    ensures p <= q <= |s|
    decreases |s| - p
  {
    if p < |s| && IsWordChar(s[p]) then WordEnd(s, p + 1) else p
  }

  /** The characters of a numeric literal behind its first one. */
  predicate IsLiteralChar(c: char) { IsAlnum(c) || c == '\'' || c == '_' }

  function LiteralEnd(s: string, p: nat): (q: nat)
    requires p <= |s|
    ensures p <= q <= |s|
    decreases |s| - p
  {
    if p < |s| && IsLiteralChar(s[p]) then LiteralEnd(s, p + 1) else p
  }

  function FractionEnd(s: string, p: nat): (q: nat)
    requires p <= |s|
    ensures p <= q <= |s|
    decreases |s| - p
  {
    if p < |s| && IsDigit(s[p]) then FractionEnd(s, p + 1) else p
  }

  /** The first quote at or behind p, or the end of the source. */
  function QuoteAt(s: string, p: nat): (q: nat)
    requires p <= |s|
    ensures p <= q <= |s|
    ensures q < |s| ==> s[q] == '"'
    ensures forall k :: p <= k < q ==> s[k] != '"'
    decreases |s| - p
  {
    if p < |s| && s[p] != '"' then QuoteAt(s, p + 1) else p
  }

  function NewlineAt(s: string, p: nat): (q: nat)
    requires p <= |s|
    ensures p <= q <= |s|
    ensures q < |s| ==> s[q] == '\n'
    ensures forall k :: p <= k < q ==> s[k] != '\n'
    decreases |s| - p
  {
    if p < |s| && s[p] != '\n' then NewlineAt(s, p + 1) else p
  }

  // ---- Literals ----

  datatype NumericResult = PlainNumber | SizedLiteral(info: NumericInfo) | BadNumber(cause: NumericCause)
  datatype NumericCause = UnderscoreEdges | InvalidDigit | DecimalHasXz | OtherCause

  function BaseOf(c: char): Option<NumericBase> {
    if c == 'b' || c == 'B' then Some(Binary)
    else if c == 'd' || c == 'D' then Some(DecimalBase)
    else if c == 'h' || c == 'H' then Some(Hexadecimal)
    else None
  }

  predicate IsXz(c: char) { c == 'x' || c == 'X' || c == 'z' || c == 'Z' }

  /** What the first bad digit of a value is reported as. */
  function DigitFault(base: NumericBase, c: char): Option<NumericCause> {
    if c == '_' then None
    else
      match base
      case Binary => if c == '0' || c == '1' || IsXz(c) then None else Some(InvalidDigit)
      case DecimalBase => if IsXz(c) then Some(DecimalHasXz) else if IsDigit(c) then None else Some(InvalidDigit)
      case Hexadecimal =>
        if IsDigit(c) || 'a' <= c <= 'f' || 'A' <= c <= 'F' then None else Some(InvalidDigit)
  }

  function ValueFault(base: NumericBase, value: string): Option<NumericCause> {
    if value == [] then None
    else if DigitFault(base, value[0]).Some? then DigitFault(base, value[0])
    else ValueFault(base, value[1..])
  }

  function TickAt(w: string): (q: nat)
    ensures q <= |w|
    ensures q < |w| ==> w[q] == '\''
    ensures forall k :: 0 <= k < q ==> w[k] != '\''
  {
    if w == [] || w[0] == '\'' then 0
    else
      var q := TickAt(w[1..]);
      assert forall k :: 1 <= k < q + 1 ==> w[k] == w[1..][k - 1];
      q + 1
  }

  /** parse_numeric_literal. */
  function ParseNumeric(w: string): NumericResult {
    var tick := TickAt(w);
    if tick == |w| then PlainNumber
    else if tick == 0 || tick + 1 >= |w| then BadNumber(OtherCause)
    else
      match BaseOf(w[tick + 1])
      case None => BadNumber(OtherCause)
      case Some(base) =>
        var value := w[tick + 2..];
        if value == [] then BadNumber(OtherCause)
        else if value[0] == '_' || value[|value| - 1] == '_' then BadNumber(UnderscoreEdges)
        else
          match ValueFault(base, value)
          case Some(cause) => BadNumber(cause)
          case None => SizedLiteral(Sized(base, tick))
  }

  /** The contents of a string literal with its escapes replaced. */
  function Decode(raw: string): string {
    if raw == [] then []
    else if |raw| > 1 && raw[0] == '\\' && (raw[1] == '\\' || raw[1] == '"') then [raw[1]] + Decode(raw[2..])
    else if |raw| > 1 && raw[0] == '\\' && raw[1] == 'n' then ['\n'] + Decode(raw[2..])
    else [raw[0]] + Decode(raw[1..])
  }

  // ---- The element at an offset ----

  /** How an element is reported: not at all, as a rule violation (an error only when there is a
      diagnostic sink) or as a parse error. */
  datatype Fault = Clean | RuleViolation | ParseError

  datatype Lexed = Lexed(kind: TokenType, text: string, num: NumericInfo)

  /** The element at an offset: where it ends, the token it yields if any, and its fault. */
  datatype Scan = Scan(end: nat, token: Option<Lexed>, fault: Fault)

  function ScanString(s: string, p: nat): (r: Scan)
    requires p < |s|
    ensures p < r.end <= |s|
  {
    var q := QuoteAt(s, p + 1);
    if q == |s| then Scan(q, None, Clean)
    else Scan(q + 1, Some(Lexed(StringLiteral, Decode(s[p + 1..q]), Plain)), Clean)
  }

  /** The literal s[p..e]. */
  function ScanNumeric(s: string, p: nat, e: nat): (r: Scan)
    requires p < e <= |s|
    ensures r.end == e
  {
    match ParseNumeric(s[p..e])
    case PlainNumber => Scan(e, Some(Lexed(Number, s[p..e], Plain)), Clean)
    case SizedLiteral(info) => Scan(e, Some(Lexed(SizedNumber, s[p..e], info)), Clean)
    case BadNumber(cause) => Scan(e, None, if cause == OtherCause then ParseError else RuleViolation)
  }

  const CONFIG := "CONFIG"

  predicate IsTick(s: string, p: nat) { p < |s| && s[p] == '\'' }

  /** Where the width of a sized literal that starts with the word s[p..e] may end: behind the name of
      a CONFIG reference if a tick follows it, and otherwise behind the word. */
  function WidthEnd(s: string, p: nat, e: nat): (q: nat)
    requires p <= e <= |s|
    ensures e <= q <= |s|
  {
    if e < |s| && s[e] == '.' && s[p..e] == CONFIG then
      var nameEnd := WordEnd(s, e + 1);
      if nameEnd > e + 1 && IsTick(s, nameEnd) then nameEnd else e
    else e
  }

  function ScanWord(s: string, p: nat): (r: Scan)
    requires p < |s|
    ensures p < r.end <= |s|
  {
    var e := WordEnd(s, p + 1);
    var w := WidthEnd(s, p, e);
    if IsTick(s, w) then ScanNumeric(s, p, LiteralEnd(s, w + 1))
    else Scan(e, Some(Lexed(if IsKeyword(s[p..e]) then Keyword(s[p..e]) else Identifier, s[p..e], Plain)), Clean)
  }

  predicate HasTick(w: string) { '\'' in w }

  function ScanNumber(s: string, p: nat): (r: Scan)
    requires p < |s|
    ensures p < r.end <= |s|
  {
    var e := LiteralEnd(s, p + 1);
    if e + 1 < |s| && s[e] == '.' && IsDigit(s[e + 1]) && !HasTick(s[p..e]) then
      var f := FractionEnd(s, e + 1);
      Scan(f, Some(Lexed(Number, s[p..f], Plain)), Clean)
    else ScanNumeric(s, p, e)
  }

  predicate Follows(s: string, p: nat, c: char) { p < |s| && s[p] == c }

  predicate WordFollows(s: string, p: nat) { p < |s| && IsWordChar(s[p]) }

  predicate DriveFollows(s: string, p: nat) { Follows(s, p, 'z') || Follows(s, p, 's') }

  /** The length of the operator at p: the longest that fits, where a z or s belongs to `=` and `=>` only
      if no word goes on behind it, and to `<=` always. */
  function SymbolLength(s: string, p: nat): (n: nat)
    requires p < |s|
    ensures 1 <= n <= 3 && p + n <= |s|
  {
    match s[p]
    case '=' =>
      if Follows(s, p + 1, '=') then 2
      else if Follows(s, p + 1, '>') then
        if DriveFollows(s, p + 2) && !WordFollows(s, p + 3) then 3 else 2
      else if DriveFollows(s, p + 1) && !WordFollows(s, p + 2) then 2
      else 1
    case '&' => if Follows(s, p + 1, '&') then 2 else 1
    case '|' => if Follows(s, p + 1, '|') then 2 else 1
    case '!' => if Follows(s, p + 1, '=') then 2 else 1
    case '<' =>
      if Follows(s, p + 1, '<') then 2
      else if Follows(s, p + 1, '=') then if DriveFollows(s, p + 2) then 3 else 2
      else 1
    case '>' =>
      if Follows(s, p + 1, '>') then if Follows(s, p + 2, '>') then 3 else 2
      else if Follows(s, p + 1, '=') then 2
      else 1
    case _ => 1
  }

  predicate IsSymbolChar(c: char) {
    c in "{}()[];,.=+-*%~^&|!<>?:/"
  }

  function ScanSymbol(s: string, p: nat): (r: Scan)
    requires p < |s|
    ensures p < r.end <= |s|
  {
    var text := s[p..p + SymbolLength(s, p)];
    if IsSymbolChar(s[p]) then Scan(p + |text|, Some(Lexed(Symbol(text), text, Plain)), Clean)
    else Scan(p + 1, Some(Lexed(Other, [s[p]], Plain)), if s[p] == '#' then Clean else ParseError)
  }

  predicate IsWordStart(c: char) { IsAlpha(c) || c == '_' || c == '@' }

  /** The element at an offset that is neither blank nor a comment. */
  function ScanAt(s: string, p: nat): (r: Scan)
    requires p < |s|
    ensures p < r.end <= |s|
  {
    if s[p] == '"' then ScanString(s, p)
    else if IsWordStart(s[p]) then ScanWord(s, p)
    else if s[p] == '\'' then Scan(p + 1, None, RuleViolation)
    else if IsDigit(s[p]) then ScanNumber(s, p)
    else ScanSymbol(s, p)
  }

  // ---- Blanks and comments ----

  predicate IsBlank(c: char) { c == ' ' || c == '\t' || c == '\r' || c == '\n' }

  predicate CommentAt(s: string, p: nat) {
    p + 1 < |s| && s[p] == '/' && (s[p + 1] == '/' || s[p + 1] == '*')
  }

  /** A block comment from inside: closed, or broken by a nested opening or the end of the source. */
  datatype Block = Closed(end: nat) | Broken(end: nat)

  function BlockFrom(s: string, p: nat): (r: Block)
    requires p <= |s|
    ensures p <= r.end <= |s|
    decreases |s| - p
  {
    if p == |s| then Broken(p)
    else if s[p] == '/' && Follows(s, p + 1, '*') then Broken(p + 1)
    else if s[p] == '*' && Follows(s, p + 1, '/') then Closed(p + 2)
    else BlockFrom(s, p + 1)
  }

  /** Behind a line comment: its newline is part of it. */
  function LineCommentEnd(s: string, p: nat): (q: nat)
    requires p <= |s|
    ensures p <= q <= |s|
  {
    var q := NewlineAt(s, p);
    if q < |s| then q + 1 else q
  }

  /** The comment at p, from its two opening characters on. */
  function CommentFrom(s: string, p: nat): (r: Block)
    requires CommentAt(s, p)
    ensures p < r.end <= |s|
  {
    if s[p + 1] == '/' then Closed(LineCommentEnd(s, p + 2)) else BlockFrom(s, p + 2)
  }

  /** What precedes an element: where it ends, whether it is free of errors, and whether a broken block
      comment ends the step. */
  datatype Trivia = Trivia(end: nat, clean: bool, aborted: bool)

  /** Blanks and comments from p. A comment directly behind a token is an error. */
  function TriviaFrom(s: string, p: nat, lastEnd: Option<nat>): (r: Trivia)
    requires p <= |s|
    ensures p <= r.end <= |s|
    ensures !r.aborted && r.end < |s| ==> !IsBlank(s[r.end]) && !CommentAt(s, r.end)
    ensures r.aborted ==> r.end > p && !r.clean
    decreases |s| - p
  {
    if p < |s| && IsBlank(s[p]) then TriviaFrom(s, p + 1, lastEnd)
    else if CommentAt(s, p) then
      match CommentFrom(s, p)
      case Broken(q) => Trivia(q, false, true)
      case Closed(q) =>
        var rest := TriviaFrom(s, q, lastEnd);
        rest.(clean := rest.clean && lastEnd != Some(p))
    else Trivia(p, true, false)
  }

  // ---- The lexer as a state machine ----

  const MAX_TOKENS: nat := 1024 * 1024

  /** A token with the range of the source it was read from. */
  datatype Item = Item(token: Token, start: nat, end: nat)

  datatype State = State(pos: nat, items: seq<Item>, hadError: bool, stop: bool, lastEnd: Option<nat>)

  function Start(): State { State(0, [], false, false, None) }

  predicate IsEof(st: State) {
    st.items != [] && st.items[|st.items| - 1].token.kind == Eof
  }

  /** Sized literals get their numeric data after the append, on whatever token is then the last. */
  function SetNum(items: seq<Item>, num: NumericInfo): (r: seq<Item>)
    ensures |r| == |items|
  {
    if num.Plain? || items == [] then items
    else
      var last := |items| - 1;
      items[last := items[last].(token := items[last].token.(num := num))]
  }

  /** Append a token read from s[start..st.pos], or stop at the token limit. */
  function Emit(s: string, st: State, x: Lexed, start: nat, sink: bool): State
    requires start <= |s|
  {
    if |st.items| >= MAX_TOKENS then
      st.(stop := true, hadError := st.hadError || sink, items := SetNum(st.items, x.num))
    else
      var token := Token(x.kind, x.text, LineAt(s, start), ColumnAt(s, start), x.num);
      st.(items := st.items + [Item(token, start, st.pos)],
          lastEnd := if x.kind == Eof then st.lastEnd else Some(st.pos))
  }

  predicate IsError(fault: Fault, sink: bool) {
    fault == ParseError || (fault == RuleViolation && sink)
  }

  /** Move over the element at st.pos, report its fault and emit its token. */
  function TakeScan(s: string, st: State, x: Scan, sink: bool): State
    requires st.pos <= |s|
  {
    var st' := st.(pos := x.end, hadError := st.hadError || IsError(x.fault, sink));
    match x.token
    case None => st'
    case Some(lexed) => Emit(s, st', lexed, st.pos, sink)
  }

  /** One call of lex_one_token. */
  function Step(s: string, st: State, sink: bool): (st': State)
    requires st.pos <= |s|
    ensures st.pos <= st'.pos <= |s|
  {
    if st.stop then st
    else
      var t := TriviaFrom(s, st.pos, st.lastEnd);
      var st1 := st.(pos := t.end, hadError := st.hadError || !t.clean);
      if t.aborted then st1
      else if t.end == |s| then Emit(s, st1, Lexed(Eof, "", Plain), t.end, sink)
      else
        TakeScan(s, st1, ScanAt(s, t.end), sink)
  }

  predicate Finished(st: State) { st.stop || IsEof(st) }

  /** Every step that does not finish consumes source text. */
  lemma StepProgress(s: string, st: State, sink: bool)
    requires st.pos <= |s| && !st.stop
    ensures Finished(Step(s, st, sink)) || Step(s, st, sink).pos > st.pos
  {
  }

  /** The loop of jz_lex_source. */
  function Run(s: string, st: State, sink: bool): State
    requires st.pos <= |s| && !st.stop
    decreases |s| - st.pos
  {
    StepProgress(s, st, sink);
    var st' := Step(s, st, sink);
    if Finished(st') then st' else Run(s, st', sink)
  }

  function Lex(s: string, sink: bool): State { Run(s, Start(), sink) }
}
