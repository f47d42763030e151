// compiler/src/lexer.c in terms of characters: what each element of a source is read as, and that every
// token of a stream is read that way.
module LexerLaws {
  import opened Text
  import opened LexerSpec
  import opened LexerTheorems

  // ---- Classes of characters ----

  const DIGITS := "0123456789"
  const LOWER := "abcdefghijklmnopqrstuvwxyz"
  const UPPER := "ABCDEFGHIJKLMNOPQRSTUVWXYZ"

  lemma DigitsAre(c: char)
    ensures IsDigit(c) <==> c in DIGITS
  {
    if IsDigit(c) {
      assert DIGITS[c as int - '0' as int] == c;
    }
  }

  lemma LowerAre(c: char)
    ensures 'a' <= c <= 'z' <==> c in LOWER
  {
    if 'a' <= c <= 'z' {
      assert LOWER[c as int - 'a' as int] == c;
    }
  }

  lemma UpperAre(c: char)
    ensures 'A' <= c <= 'Z' <==> c in UPPER
  {
    if 'A' <= c <= 'Z' {
      assert UPPER[c as int - 'A' as int] == c;
    }
  }

  predicate InWords(c: char) { c in LOWER || c in UPPER || c in DIGITS || c == '_' }

  /** The classes that the scanner's runs are made of. */
  lemma ClassesAre(c: char)
    ensures IsDigit(c) <==> c in DIGITS
    ensures IsWordChar(c) <==> InWords(c)
    ensures IsLiteralChar(c) <==> InWords(c) || c == '\''
    ensures IsWordStart(c) <==> c in LOWER || c in UPPER || c == '_' || c == '@'
    ensures IsBlank(c) <==> c in " \t\r\n"
  {
    DigitsAre(c);
    LowerAre(c);
    UpperAre(c);
  }

  // ---- Lines and columns ----

  /** The line is one more than the number of newlines before the offset. */
  lemma {:induction false} LineCounts(s: string, p: nat)
    requires p <= |s|
    ensures LineAt(s, p) == 1 + |set k | 0 <= k < p && s[k] == '\n'|
  {
    var before := set k | 0 <= k < p && s[k] == '\n';
    if p == 0 {
      assert before == {};
    } else {
      LineCounts(s, p - 1);
      var earlier := set k | 0 <= k < p - 1 && s[k] == '\n';
      assert before == earlier + if s[p - 1] == '\n' then {p - 1} else {};
    }
  }

  /** The column is the distance from the start of the line, which is the source's start or stands behind
      a newline. */
  lemma {:induction false} ColumnCounts(s: string, p: nat)
    requires p <= |s|
    ensures var start := p + 1 - ColumnAt(s, p);
            0 <= start <= p && (start == 0 || s[start - 1] == '\n') && forall k :: start <= k < p ==> s[k] != '\n'
  {
    if p > 0 && s[p - 1] != '\n' {
      ColumnCounts(s, p - 1);
    }
  }

  // ---- Comments ----

  /** A line comment goes up to and over the first newline, or to the end of the source. */
  lemma LineCommentIs(s: string, p: nat, q: nat)
    requires p + 2 <= q <= |s| && s[p] == '/' && s[p + 1] == '/'
    requires (forall k :: p + 2 <= k < q ==> s[k] != '\n') && (q < |s| ==> s[q] == '\n')
    ensures CommentAt(s, p) && CommentFrom(s, p) == Closed(if q < |s| then q + 1 else q)
  {
    var n := NewlineAt(s, p + 2);
    assert !(n < q) && !(q < n);
  }

  predicate PairAt(s: string, k: nat, c: char, d: char) {
    k + 1 < |s| && s[k] == c && s[k + 1] == d
  }

  /** No opening and no closing mark stands at a position from p up to q. */
  predicate NoMark(s: string, p: nat, q: nat) {
    forall k :: p <= k < q ==> !PairAt(s, k, '/', '*') && !PairAt(s, k, '*', '/')
  }

  /** A block comment closes at its first closing mark, unless another opening mark stands before that or
      neither follows: then it is broken. */
  lemma BlockCommentIs(s: string, p: nat, q: nat)
    requires p + 2 <= q <= |s| && s[p] == '/' && s[p + 1] == '*' && NoMark(s, p + 2, q)
    ensures CommentAt(s, p)
    ensures PairAt(s, q, '*', '/') ==> CommentFrom(s, p) == Closed(q + 2)
    ensures PairAt(s, q, '/', '*') ==> CommentFrom(s, p) == Broken(q + 1)
    ensures q == |s| ==> CommentFrom(s, p) == Broken(q)
  {
    BlockSkips(s, p + 2, q);
  }

  lemma {:induction false} BlockSkips(s: string, p: nat, q: nat)
    requires p <= q <= |s| && NoMark(s, p, q)
    ensures BlockFrom(s, p) == BlockFrom(s, q)
    decreases q - p
  {
    if p < q {
      assert !PairAt(s, p, '/', '*') && !PairAt(s, p, '*', '/');
      BlockSkips(s, p + 1, q);
    }
  }

  /** Between elements the lexer goes over all blanks and closed comments, and finds fault with them only
      if a comment touches the token before it. */
  lemma {:induction false} TriviaIs(s: string, a: nat, b: nat, last: Option<nat>)
    requires a <= b <= |s| && IsTrivia(s, a, b) && (b < |s| ==> !IsBlank(s[b]) && !CommentAt(s, b))
    requires last.Some? ==> last.value <= a
    ensures TriviaFrom(s, a, last) == Trivia(b, !(a < b && CommentAt(s, a) && last == Some(a)), false)
    decreases b - a
  {
    hide CommentFrom;
    if a < b {
      if IsBlank(s[a]) {
        TriviaIs(s, a + 1, b, last);
      } else {
        TriviaIs(s, CommentFrom(s, a).end, b, last);
      }
    }
  }

  /** A block comment that is nested or never closed is an error and ends the step where it broke. */
  lemma {:induction false} BrokenTriviaIs(s: string, a: nat, b: nat, last: Option<nat>)
    requires a <= b < |s| && IsTrivia(s, a, b) && CommentAt(s, b) && CommentFrom(s, b).Broken?
    ensures TriviaFrom(s, a, last) == Trivia(CommentFrom(s, b).end, false, true)
    decreases b - a
  {
    hide CommentFrom;
    if a < b {
      if IsBlank(s[a]) {
        BrokenTriviaIs(s, a + 1, b, last);
      } else {
        BrokenTriviaIs(s, CommentFrom(s, a).end, b, last);
      }
    }
  }

  // ---- Runs ----

  lemma {:induction false} WordEndIs(s: string, p: nat, e: nat)
    requires p <= e <= |s| && (forall k :: p <= k < e ==> IsWordChar(s[k])) && (e < |s| ==> !IsWordChar(s[e]))
    ensures WordEnd(s, p) == e
    decreases e - p
  {
    if p < e {
      WordEndIs(s, p + 1, e);
    }
  }

  lemma {:induction false} LiteralEndIs(s: string, p: nat, e: nat)
    requires p <= e <= |s| && (forall k :: p <= k < e ==> IsLiteralChar(s[k])) && (e < |s| ==> !IsLiteralChar(s[e]))
    ensures LiteralEnd(s, p) == e
    decreases e - p
  {
    if p < e {
      LiteralEndIs(s, p + 1, e);
    }
  }

  lemma {:induction false} FractionEndIs(s: string, p: nat, e: nat)
    requires p <= e <= |s| && (forall k :: p <= k < e ==> IsDigit(s[k])) && (e < |s| ==> !IsDigit(s[e]))
    ensures FractionEnd(s, p) == e
    decreases e - p
  {
    if p < e {
      FractionEndIs(s, p + 1, e);
    }
  }

  /** A word s[p..e]: a start character and word characters, and no word character behind it. */
  predicate WordStands(s: string, p: nat, e: nat) {
    && p < e <= |s| && IsWordStart(s[p])
    && (forall k :: p < k < e ==> IsWordChar(s[k]))
    && (e < |s| ==> !IsWordChar(s[e]))
  }

  /** Literal characters s[p..e], and none behind them. */
  predicate LiteralStands(s: string, p: nat, e: nat) {
    && p <= e <= |s|
    && (forall k :: p <= k < e ==> IsLiteralChar(s[k]))
    && (e < |s| ==> !IsLiteralChar(s[e]))
  }

  // ---- Elements ----

  /** A word is one token, a keyword if it is one, unless a tick makes it the width of a literal. */
  lemma WordIs(s: string, p: nat, e: nat)
    requires WordStands(s, p, e) && !IsTick(s, e)
    requires s[p..e] == "CONFIG" && e < |s| && s[e] == '.' ==>
               exists f :: e < f <= |s| && (forall k :: e < k < f ==> IsWordChar(s[k]))
                           && (f < |s| ==> !IsWordChar(s[f])) && (f == e + 1 || !IsTick(s, f))
    ensures var w := s[p..e];
            ScanAt(s, p) == Scan(e, Some(Lexed(if IsKeyword(w) then Keyword(w) else Identifier, w, Plain)), Clean)
  {
    hide IsKeyword, IsWordChar;
    WordEndIs(s, p + 1, e);
    if s[p..e] == "CONFIG" && e < |s| && s[e] == '.' {
      var f :| e < f <= |s| && (forall k :: e < k < f ==> IsWordChar(s[k]))
               && (f < |s| ==> !IsWordChar(s[f])) && (f == e + 1 || !IsTick(s, f));
      WordEndIs(s, e + 1, f);
    }
  }

  /** A word and a tick start a literal that goes on as long as there are literal characters. */
  lemma NamedLiteralIs(s: string, p: nat, e: nat, f: nat)
    requires WordStands(s, p, e) && IsTick(s, e) && LiteralStands(s, e + 1, f)
    ensures ScanAt(s, p) == ScanNumeric(s, p, f)
  {
    hide IsKeyword, IsWordChar, IsLiteralChar, ScanNumeric;
    WordEndIs(s, p + 1, e);
    LiteralEndIs(s, e + 1, f);
  }

  /** So do CONFIG, a dot, a name and a tick. */
  lemma ConfigLiteralIs(s: string, p: nat, e: nat, n: nat, f: nat)
    requires WordStands(s, p, e) && s[p..e] == "CONFIG" && e + 1 < n <= |s| && s[e] == '.'
    requires (forall k :: e < k < n ==> IsWordChar(s[k])) && IsTick(s, n) && LiteralStands(s, n + 1, f)
    ensures ScanAt(s, p) == ScanNumeric(s, p, f)
  {
    hide IsKeyword, IsLiteralChar, ScanNumeric;
    assert !IsWordChar('\'');
    hide IsWordChar;
    WordEndIs(s, p + 1, e);
    WordEndIs(s, e + 1, n);
    LiteralEndIs(s, n + 1, f);
  }

  /** A digit starts a literal, too, unless a dot and another digit follow characters without a tick. */
  lemma NumberIs(s: string, p: nat, e: nat)
    requires p < |s| && IsDigit(s[p]) && LiteralStands(s, p + 1, e)
    requires '\'' in s[p..e] || !(e + 1 < |s| && s[e] == '.' && IsDigit(s[e + 1]))
    ensures ScanAt(s, p) == ScanNumeric(s, p, e)
  {
    hide IsLiteralChar, ScanNumeric;
    LiteralEndIs(s, p + 1, e);
  }

  /** Then the number goes on over the dot and the digits behind it. */
  lemma FractionIs(s: string, p: nat, e: nat, f: nat)
    requires p < |s| && IsDigit(s[p]) && LiteralStands(s, p + 1, e) && '\'' !in s[p..e]
    requires e + 1 < f <= |s| && s[e] == '.' && (forall k :: e < k < f ==> IsDigit(s[k]))
    requires f < |s| ==> !IsDigit(s[f])
    ensures ScanAt(s, p) == Scan(f, Some(Lexed(Number, s[p..f], Plain)), Clean)
  {
    hide IsLiteralChar;
    LiteralEndIs(s, p + 1, e);
    FractionEndIs(s, e + 1, f);
  }

  /** A string goes to the next quote, escaped or not; without one it is dropped silently. */
  lemma StringIs(s: string, p: nat, q: nat)
    requires p < q <= |s| && s[p] == '"' && (forall k :: p < k < q ==> s[k] != '"') && (q < |s| ==> s[q] == '"')
    ensures ScanAt(s, p)
         == if q == |s| then Scan(q, None, Clean)
            else Scan(q + 1, Some(Lexed(StringLiteral, Decode(s[p + 1..q]), Plain)), Clean)
  {
    hide Decode;
    var at := QuoteAt(s, p + 1);
    assert !(at < q) && !(q < at);
  }

  /** A tick that starts an element is an error without a token. */
  lemma StrayTickIs(s: string, p: nat)
    requires p < |s| && s[p] == '\''
    ensures ScanAt(s, p) == Scan(p + 1, None, RuleViolation)
  {
    hide ScanSymbol, ScanNumber, ScanString, ScanWord;
  }

  /** A character that starts nothing else is a token of its own: an error, too, except for '#'. */
  lemma StrayIs(s: string, p: nat)
    requires p < |s| && s[p] != '\'' && s[p] != '"' && !IsWordStart(s[p]) && !IsDigit(s[p])
    requires s[p] !in "{}()[];,.=+-*%~^&|!<>?:/"
    ensures ScanAt(s, p) == Scan(p + 1, Some(Lexed(Other, [s[p]], Plain)), if s[p] == '#' then Clean else ParseError)
  {
    hide SymbolLength, ScanNumber, ScanString, ScanWord;
  }

  lemma OperatorIs(s: string, p: nat)
    requires p < |s| && s[p] in "{}()[];,.=+-*%~^&|!<>?:/"
    ensures var w := s[p..p + SymbolLength(s, p)];
            ScanAt(s, p) == Scan(p + |w|, Some(Lexed(Symbol(w), w, Plain)), Clean)
  {
    hide SymbolLength, ScanNumber, ScanString, ScanWord;
  }

  // ---- Escapes ----

  /** Text up to the first backslash stands for itself. */
  lemma {:induction false} DecodePlain(a: string, b: string)
    requires '\\' !in a
    ensures Decode(a + b) == a + Decode(b)
  {
    if a == "" {
      assert a + b == b;
    } else {
      DecodePlain(a[1..], b);
      assert a + b == [a[0]] + (a[1..] + b);
      DecodeFirst(a[0], a[1..] + b);
    }
  }

  /** A backslash stands for a newline before n, for the next character if that is a backslash or a quote,
      and otherwise for itself. */
  lemma DecodeEscaped(c: char, b: string)
    ensures Decode("\\" + [c] + b)
         == if c == 'n' then "\n" + Decode(b)
            else if c == '\\' || c == '"' then [c] + Decode(b)
            else "\\" + Decode([c] + b)
    ensures Decode("") == "" && Decode("\\") == "\\"
  {
    var raw := "\\" + [c] + b;
    assert raw[2..] == b && raw[1..] == [c] + b;
    assert "\\"[1..] == "";
  }

  lemma DecodeFirst(c: char, t: string)
    requires c != '\\'
    ensures Decode([c] + t) == [c] + Decode(t)
  {
    assert ([c] + t)[1..] == t;
  }

  // ---- Sized literals ----

  predicate IsBaseChar(c: char) { c in "bBdDhH" }

  function BaseShown(c: char): NumericBase {
    if c in "bB" then Binary else if c in "dD" then DecimalBase else Hexadecimal
  }

  /** d may stand in a value with base character c. */
  predicate LegalDigit(c: char, d: char) {
    if c in "bB" then d in "_01xXzZ"
    else if c in "dD" then d in "_0123456789"
    else d in "_0123456789abcdefABCDEF"
  }

  predicate AllLegal(c: char, v: string) { forall k :: 0 <= k < |v| ==> LegalDigit(c, v[k]) }

  /** The first character of v that may not stand in it is x or z, in either case. */
  predicate FirstIllegalIsXz(c: char, v: string) {
    exists k :: 0 <= k < |v| && v[k] in "xXzZ" && !LegalDigit(c, v[k]) && AllLegal(c, v[..k])
  }

  lemma LegalIsNoFault(c: char, d: char)
    requires IsBaseChar(c)
    ensures BaseOf(c) == Some(BaseShown(c))
    ensures DigitFault(BaseShown(c), d)
         == if LegalDigit(c, d) then None
            else if c in "dD" && d in "xXzZ" then Some(DecimalHasXz) else Some(InvalidDigit)
  {
    DigitsAre(d);
    if 'a' <= d <= 'f' || 'A' <= d <= 'F' {
      assert d in "abcdefABCDEF";
    }
  }

  lemma {:induction false} ValueFaultIs(c: char, v: string)
    requires IsBaseChar(c)
    ensures ValueFault(BaseShown(c), v)
         == if AllLegal(c, v) then None
            else if c in "dD" && FirstIllegalIsXz(c, v) then Some(DecimalHasXz) else Some(InvalidDigit)
  {
    hide LegalDigit, DigitFault, BaseOf, BaseShown;
    if v != "" {
      LegalIsNoFault(c, v[0]);
      var rest := v[1..];
      ValueFaultIs(c, rest);
      FirstIllegalStep(c, v);
    }
  }

  lemma AllLegalStep(c: char, d: char, v: string)
    ensures AllLegal(c, [d] + v) <==> LegalDigit(c, d) && AllLegal(c, v)
  {
    hide LegalDigit;
    var all := [d] + v;
    assert all[0] == d && forall k :: 0 <= k < |v| ==> all[k + 1] == v[k];
  }

  lemma FirstIllegalStep(c: char, v: string)
    requires v != ""
    ensures AllLegal(c, v) <==> LegalDigit(c, v[0]) && AllLegal(c, v[1..])
    ensures !LegalDigit(c, v[0]) ==> (FirstIllegalIsXz(c, v) <==> v[0] in "xXzZ")
    ensures LegalDigit(c, v[0]) ==> (FirstIllegalIsXz(c, v) <==> FirstIllegalIsXz(c, v[1..]))
  {
    hide LegalDigit, AllLegal;
    var rest := v[1..];
    assert v == [v[0]] + rest;
    AllLegalStep(c, v[0], rest);
    NoneLegal(c, v[..0]);
    forall k: nat | k < |rest|
      ensures v[k + 1] == rest[k] && (AllLegal(c, v[..k + 1]) <==> LegalDigit(c, v[0]) && AllLegal(c, rest[..k]))
    {
      assert v[..k + 1] == [v[0]] + rest[..k];
      AllLegalStep(c, v[0], rest[..k]);
    }
    if FirstIllegalIsXz(c, v) {
      var k :| 0 <= k < |v| && v[k] in "xXzZ" && !LegalDigit(c, v[k]) && AllLegal(c, v[..k]);
      assert k > 0 ==>
          rest[k - 1] == v[k] && (AllLegal(c, v[..k]) <==> LegalDigit(c, v[0]) && AllLegal(c, rest[..k - 1]));
    }
    if FirstIllegalIsXz(c, rest) && LegalDigit(c, v[0]) {
      var k :| 0 <= k < |rest| && rest[k] in "xXzZ" && !LegalDigit(c, rest[k]) && AllLegal(c, rest[..k]);
      assert v[k + 1] == rest[k] && AllLegal(c, v[..k + 1]);
    }
  }

  lemma NoneLegal(c: char, v: string)
    requires v == ""
    ensures AllLegal(c, v)
  {
  }

  /** What a literal with a tick is read as: its width w, its base character c and its value v decide. */
  lemma SizedIs(w: string, c: char, v: string)
    requires w != "" && '\'' !in w
    ensures ParseNumeric(w + "'" + [c] + v)
         == if !IsBaseChar(c) || v == "" then BadNumber(OtherCause)
            else if v[0] == '_' || v[|v| - 1] == '_' then BadNumber(UnderscoreEdges)
            else if AllLegal(c, v) then SizedLiteral(Sized(BaseShown(c), |w|))
            else if c in "dD" && FirstIllegalIsXz(c, v) then BadNumber(DecimalHasXz)
            else BadNumber(InvalidDigit)
  {
    hide AllLegal, FirstIllegalIsXz, ValueFault;
    var t := w + "'" + [c] + v;
    TickIs(t, |w|);
    assert t[|w| + 1] == c && t[|w| + 2..] == v;
    if IsBaseChar(c) {
      LegalIsNoFault(c, c);
      ValueFaultIs(c, v);
    }
  }

  lemma TickIs(t: string, q: nat)
    requires q < |t| && t[q] == '\'' && forall k :: 0 <= k < q ==> t[k] != '\''
    ensures TickAt(t) == q
  {
    var at := TickAt(t);
    assert !(at < q) && !(q < at);
  }

  /** The other texts: plain without a tick, and bad if nothing precedes or follows the tick. */
  lemma UnsizedIs(t: string)
    ensures ParseNumeric(t) == PlainNumber <==> '\'' !in t
    ensures ParseNumeric("'" + t) == BadNumber(OtherCause)
    ensures t != "" && '\'' !in t ==> ParseNumeric(t + "'") == BadNumber(OtherCause)
  {
    var at := TickAt(t);
    assert at < |t| ==> t[at] in t;
    TickIs("'" + t, 0);
    if '\'' !in t {
      TickIs(t + "'", |t|);
    }
  }

  /** What a scanned literal yields: a sized token, a parse error when the base or the value is missing, and
      a rule violation when the value is not legal. */
  lemma SizedScanIs(s: string, p: nat, e: nat, w: string, c: char, v: string)
    requires p < e <= |s| && s[p..e] == w + "'" + [c] + v && w != "" && '\'' !in w
    ensures ScanNumeric(s, p, e)
         == if !IsBaseChar(c) || v == "" then Scan(e, None, ParseError)
            else if v[0] != '_' && v[|v| - 1] != '_' && AllLegal(c, v)
                 then Scan(e, Some(Lexed(SizedNumber, s[p..e], Sized(BaseShown(c), |w|))), Clean)
            else Scan(e, None, RuleViolation)
  {
    hide ParseNumeric, AllLegal, FirstIllegalIsXz, IsBaseChar, BaseShown;
    SizedIs(w, c, v);
  }

  lemma PlainScanIs(s: string, p: nat, e: nat)
    requires p < e <= |s|
    ensures '\'' !in s[p..e] ==> ScanNumeric(s, p, e) == Scan(e, Some(Lexed(Number, s[p..e], Plain)), Clean)
    ensures e > p + 1 && '\'' !in s[p..e - 1] && s[e - 1] == '\'' ==> ScanNumeric(s, p, e) == Scan(e, None, ParseError)
  {
    hide ParseNumeric;
    UnsizedIs(s[p..e]);
    if e > p + 1 && s[e - 1] == '\'' {
      UnsizedIs(s[p..e - 1]);
      assert s[p..e - 1] + "'" == s[p..e];
    }
  }

  // ---- The tokens of a stream ----

  /** The token is what stands at its start, its position that of its start, its numeric data aside. */
  predicate IsRead(s: string, x: Item) {
    && x.start < x.end <= |s|
    && !IsBlank(s[x.start]) && !CommentAt(s, x.start)
    && var scan := ScanAt(s, x.start);
       && scan.end == x.end && scan.token.Some?
       && scan.token.value.kind == x.token.kind && scan.token.value.text == x.token.lexeme
       && x.token.line == LineAt(s, x.start) && x.token.column == ColumnAt(s, x.start)
  }

  predicate HasItsNum(s: string, x: Item)
    requires IsRead(s, x)
  {
    x.token.num == ScanAt(s, x.start).token.value.num
  }

  ghost predicate AllRead(s: string, items: seq<Item>) {
    forall x <- items :: x.token.kind != Eof ==> IsRead(s, x)
  }

  ghost predicate AllNumbered(s: string, items: seq<Item>) {
    forall x <- items :: x.token.kind != Eof ==> IsRead(s, x) && HasItsNum(s, x)
  }

  lemma EmitReads(s: string, st: State, x: Lexed, start: nat, sink: bool)
    requires start < st.pos <= |s| && !st.stop && AllNumbered(s, st.items)
    requires !IsBlank(s[start]) && !CommentAt(s, start) && ScanAt(s, start).end == st.pos
    requires ScanAt(s, start).token == Some(x)
    ensures var st' := Emit(s, st, x, start, sink);
            AllRead(s, st'.items) && (!st'.stop ==> AllNumbered(s, st'.items))
            && (st'.stop ==> AllNumbered(s, st'.items[..|st'.items| - 1]))
  {
    hide ScanAt, LineAt, ColumnAt, IsBlank, CommentAt;
    var st' := Emit(s, st, x, start, sink);
    if |st.items| >= MAX_TOKENS {
      var last := |st.items| - 1;
      assert st'.items[..last] == st.items[..last];
      assert forall y <- st.items[..last] :: y in st.items;
      var z := st.items[last];
      assert z in st.items;
      assert st'.items[last].start == z.start && st'.items[last].end == z.end;
      assert forall y <- st'.items :: y in st.items[..last] || y == st'.items[last];
    }
  }

  lemma StepReads(s: string, st: State, sink: bool)
    requires st.pos <= |s| && !st.stop && AllNumbered(s, st.items)
    ensures var st' := Step(s, st, sink);
            AllRead(s, st'.items) && (!st'.stop ==> AllNumbered(s, st'.items))
            && (st'.stop ==> st'.items != [] && AllNumbered(s, st'.items[..|st'.items| - 1]))
  {
    hide ScanAt, TriviaFrom, AllRead, AllNumbered, IsBlank, CommentAt;
    var t := TriviaFrom(s, st.pos, st.lastEnd);
    NumberedIsRead(s, st.items);
    var st1 := st.(pos := t.end, hadError := st.hadError || !t.clean);
    if !t.aborted && t.end < |s| {
      var x := ScanAt(s, t.end);
      if x.token.Some? {
        var st2 := st1.(pos := x.end, hadError := st1.hadError || IsError(x.fault, sink));
        EmitReads(s, st2, x.token.value, t.end, sink);
      }
    } else if !t.aborted {
      EofReads(s, st1, sink);
    }
  }

  lemma NumberedIsRead(s: string, items: seq<Item>)
    requires AllNumbered(s, items)
    ensures AllRead(s, items)
  {
  }

  lemma EofReads(s: string, st: State, sink: bool)
    requires st.pos == |s| && !st.stop && AllNumbered(s, st.items)
    ensures var st' := Emit(s, st, Lexed(Eof, "", Plain), st.pos, sink);
            AllRead(s, st'.items) && AllNumbered(s, st'.items)
            && (st'.stop ==> st'.items != [] && AllNumbered(s, st'.items[..|st'.items| - 1]))
  {
    hide ScanAt, LineAt, ColumnAt, IsRead;
    assert st.items != [] ==> forall y <- st.items[..|st.items| - 1] :: y in st.items;
  }

  /** Every token of every stream is read from what stands at its start; the numeric data of the last
      token alone may be another literal's, and only when the token limit stopped the lexer. */
  lemma {:induction false} RunReads(s: string, st: State, sink: bool)
    requires st.pos <= |s| && !st.stop && AllNumbered(s, st.items)
    ensures var r := Run(s, st, sink);
            AllRead(s, r.items) && (!r.stop ==> AllNumbered(s, r.items))
            && (r.stop ==> r.items != [] && AllNumbered(s, r.items[..|r.items| - 1]))
    decreases |s| - st.pos
  {
    hide Step, AllRead, AllNumbered;
    StepProgress(s, st, sink);
    StepReads(s, st, sink);
    var st' := Step(s, st, sink);
    if !Finished(st') {
      RunReads(s, st', sink);
    }
  }

  lemma StreamIsRead(s: string, sink: bool)
    ensures var r := Lex(s, sink);
            AllRead(s, r.items) && (!r.stop ==> AllNumbered(s, r.items))
            && (r.stop ==> r.items != [] && AllNumbered(s, r.items[..|r.items| - 1]))
  {
    hide Run, AllRead;
    assert AllNumbered(s, Start().items);
    RunReads(s, Start(), sink);
  }

  /** A sized token's text is a width, a tick, a base character and a legal value, and it carries the base
      that the character shows and the length of the width. */
  predicate ShowsBase(t: Token) {
    exists q :: 0 < q && q + 2 < |t.lexeme| && '\'' !in t.lexeme[..q] && t.lexeme[q] == '\''
                && IsBaseChar(t.lexeme[q + 1]) && AllLegal(t.lexeme[q + 1], t.lexeme[q + 2..])
                && t.lexeme[q + 2] != '_' && t.lexeme[|t.lexeme| - 1] != '_'
                && t.num == Sized(BaseShown(t.lexeme[q + 1]), q)
  }

  lemma SizedShowsBase(t: Token)
    requires ParseNumeric(t.lexeme) == SizedLiteral(t.num)
    ensures ShowsBase(t)
  {
    hide AllLegal, FirstIllegalIsXz, IsBaseChar, BaseShown;
    var q := TickAt(t.lexeme);
    var w, c, v := t.lexeme[..q], t.lexeme[q + 1], t.lexeme[q + 2..];
    assert t.lexeme == w + "'" + [c] + v;
    hide ParseNumeric;
    SizedIs(w, c, v);
  }

  lemma SizedScan(s: string, p: nat)
    requires p < |s| && ScanAt(s, p).token.Some?
    ensures var x := ScanAt(s, p).token.value;
            if x.kind == SizedNumber then ParseNumeric(x.text) == SizedLiteral(x.num) else x.num == Plain
  {
    hide ParseNumeric, IsKeyword, Decode, SymbolLength;
  }

  /** Every sized number of a stream carries the base its text shows; the tokens of other kinds carry no
      numeric data. */
  lemma SizedTokensShowBase(s: string, sink: bool, i: nat)
    requires i < |Lex(s, sink).items| && (Lex(s, sink).stop ==> i < |Lex(s, sink).items| - 1)
    ensures var t := Lex(s, sink).items[i].token;
            if t.kind == SizedNumber then ShowsBase(t) else t.kind != Eof ==> t.num == Plain
  {
    hide Lex, ShowsBase, ScanAt, ParseNumeric;
    StreamIsRead(s, sink);
    var r := Lex(s, sink);
    var x := r.items[i];
    assert x in if r.stop then r.items[..|r.items| - 1] else r.items by {
      if r.stop {
        assert r.items[..|r.items| - 1][i] == x;
      }
    }
    if x.token.kind != Eof {
      SizedScan(s, x.start);
      if x.token.kind == SizedNumber {
        SizedShowsBase(x.token);
      }
    }
  }

  // ---- Errors ----

  /** Exactly when a step that gets over the blanks and comments up to b reports an error, and when it stops:
      a rule violation and the token limit are errors only if there is a sink. */
  lemma StepErrors(s: string, st: State, b: nat, sink: bool)
    requires st.pos <= b <= |s| && !st.stop && IsTrivia(s, st.pos, b)
    requires b < |s| ==> !IsBlank(s[b]) && !CommentAt(s, b)
    requires st.lastEnd.Some? ==> st.lastEnd.value <= st.pos
    ensures var st' := Step(s, st, sink);
            var full := |st.items| >= 1_048_576 && (b == |s| || ScanAt(s, b).token.Some?);
            && (st'.stop <==> full)
            && (st'.hadError <==>
                  || st.hadError
                  || (st.pos < b && CommentAt(s, st.pos) && st.lastEnd == Some(st.pos))
                  || (b < |s| && ScanAt(s, b).fault == ParseError)
                  || (b < |s| && ScanAt(s, b).fault == RuleViolation && sink)
                  || (full && sink))
  {
    hide ScanAt, TriviaFrom, IsTrivia, LineAt, ColumnAt;
    TriviaIs(s, st.pos, b, st.lastEnd);
  }
}
