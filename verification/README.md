# JZ-HDL compiler front end: verified models

JZ-HDL is a compiler for a hardware description language. This project models the parts of it that
carry their own state and their own algebra, and proves what each of them is for:

* **`@repeat` expansion.** The expander runs an explicit stack of regions over raw text, one output
  buffer per region, under an iteration limit and a byte limit. `RepeatSpec.Expand` is the short
  recursive definition; `RepeatSpec.ExpandInto` adds the limits and the reported position of every
  failure; `RepeatMachine` is the stack machine, proved equal to `ExpandInto`; `RepeatTheorems` ties
  the two definitions together and shows that the bracket matcher and the expander agree.
  `RepeatDocuments` builds source texts from comments, literals, words and nested repeats and proves that each
  expands to what it means; `RepeatLaws` states this for texts that are written out, with the errors.
* **Clock-generator variants.** A generator is validated by walking the product of its fact axes with an
  odometer, and dispatched later on facts a caller computed. Acceptance is proved to be exactly unique
  dispatch for listed facts, and to exclude ambiguity for all facts.
* **JSON token walkers.** The nesting check with its stack of container ends, and the recursive skip.
* **Lexer.** A scanner specified element by element; the tokens of a clean source partition it, and
  printing and lexing them again gives the same tokens. `LexerLaws` says in terms of characters what each
  element is read as, and that every token of every stream is read that way.
* **Diagnostics.** Order, grouping by line, selection by priority, removal of repetitions, policy.
* **AST teardown.** Each node is freed exactly once, whichever appends to the worklist fail.
* **Paths.** Textual normalisation over its buffers, what directory a normalised path names, and the
  sandbox prefix test.
* **Memory.** Checked sizes, the growable buffer, the arena.
* **Differential lowering.** The serializer chosen for each output pin, and the chip queries that later
  passes use to find it again.

Code that updates state is modelled by methods and classes and proved against a function of the old
state; the laws are lemmas about those functions. `hide` statements only keep proofs small.

## Findings

Where the code departs from what one would expect of it, the model follows the code:

* The text put for `IDX` is cut after 15 digits, because it is formatted into 16 bytes; it is the decimal
  numeral exactly for indices below 10^15 (`RepeatTheorems.IndexTextExact`).
* A source without the text `@repeat` is copied even when it is longer than the byte limit; the full
  machine would refuse it (`RepeatTheorems.FastPathAgrees`).
* A generator whose variants mention no fact is accepted with no variant at all
  (`ClockVariants.AcceptsIsCovered`); the parser refuses such a file before.
* Under the sandbox root `/` the prefix test finds only `/` itself (`Paths.NothingUnderSlash`,
  `Paths.UnderRootIsPrefix`).
* Normalisation keeps at most 256 components and drops further ones; it keeps the meaning of a path and of
  all its beginnings exactly when that never happens (`Paths.MeaningKeptIffFits`).
* A serializer ratio of 0 hides all ratios listed before it from the search for the smallest one, which
  therefore finds the least positive ratio exactly when that is listed behind the last 0 and no ratio is
  negative (`Serializers.SmallestIsLeastIff`, `Serializers.TrailingZeroHides`).

Two laws of the diagnostics depend on what is reported and on the rule table:

* An error of the highest priority on its line is printed as an error, unless its rule is hidden, or it
  shares the line's top priority and its code was first reported, with the same message at the same place,
  at a lower severity (`Diagnostics.ErrorPrintedIff`). A severity that follows from the code excludes the
  latter (`Diagnostics.ErrorsAreShown`).
* A line prints something exactly when one of its visible diagnostics is not outranked by a hidden one, among
  all of the line or among its errors (`Diagnostics.LineSpeaksIff`). An informational rule of positive priority could silence a warning
  (`Diagnostics.WarningsCanVanish`); the shipped table has none, since its informational rules have priority
  0 and no priority is negative (compiler/src/rules.c, lines 386, 393, 429, 473 and 476), and with such a
  table only lines of nothing but informational diagnostics are silent (`Diagnostics.NoLineIsSilent`).

## Model

| member | source | states |
|---|---|---|
| RepeatMachine.RepeatExpand | compiler/src/repeat_expand.c:588-627 | a source containing `@repeat` gets the result of the limited recursive definition, error code and position included, and any other source is returned as it is; whenever the source is the text of a document, the result is what the document means, exactly when that and the bodies fit or the source holds no `@repeat`, and a size failure otherwise |
| RepeatMachine.ExpandRegion | compiler/src/repeat_expand.c:380-584 | the frame-stack loop terminates and leaves in the buffer what the recursive definition appends for the region, or stops with the failure that definition reports |
| RepeatMachine.RepeatFrameStack.Step | compiler/src/repeat_expand.c:398-580 | one turn keeps what the whole stack still stands for, keeps every buffer within its limits, and makes the remaining text of all stacked regions smaller |
| RepeatMachine.RepeatFrameStack.Push | compiler/src/repeat_expand.c:343-373 | puts the frame on top and leaves all other frames as they were |
| RepeatMachine.RepeatFrameStack.Copy | compiler/src/repeat_expand.c:447-474 | the text goes to the top frame's buffer and the frame moves behind it, all other frames unchanged, or the size failure is returned |
| RepeatMachine.RepeatFrame.GoOn | compiler/src/repeat_expand.c:422-444 | the finished body is appended once per index and the frame goes on behind the blanks and the one newline that follow its `@end`, or the first append that does not fit is reported |
| RepeatMachine.PopStep | compiler/src/repeat_expand.c:401-445 | closing a body resumes the parent behind its `@end` line with the same overall result and a smaller measure |
| RepeatMachine.PushStep | compiler/src/repeat_expand.c:546-570 | opening a body on its own buffer keeps the overall result and makes the measure smaller |
| RepeatMachine.CopyStep | compiler/src/repeat_expand.c:447-474 | copying a comment, a literal or one character keeps the overall result and makes the measure smaller, or is the size failure the whole expansion reports |
| RepeatMachine.RepeatFrameStack.OpenBody | compiler/src/repeat_expand.c:546-570 | the top frame waits with count, position and `@end` position, and a new frame with an empty buffer stands at the body; all other frames are unchanged |
| RepeatMachine.RepeatFrameStack.CloseBody | compiler/src/repeat_expand.c:401-445 | the child's text goes to the parent's buffer once per index, in order, the parent goes on behind the `@end` line, and all lower frames are unchanged |
| RepeatMachine.FindMatchingEnd | compiler/src/repeat_expand.c:216-259 | finds the `@end` at which the nesting of active directives returns to zero, although it steps over the newline that ends a cut-off literal where the expander does not |
| RepeatMachine.ReadRepeat | compiler/src/repeat_expand.c:476-545 | a repeat is reported for its count, else for its missing `@end`, else its body and `@end` are found |
| RepeatMachine.MatcherStep | compiler/src/repeat_expand.c:220-256 | the matcher's own way of stepping over comments, literals and directives agrees with the expander's elements |
| RepeatMachine.ReadCount | compiler/src/repeat_expand.c:498-511 | the guarded accumulator is exact: it holds the decimal value whenever that is a `size_t` and flags overflow exactly otherwise |
| RepeatMachine.ReadHeader | compiler/src/repeat_expand.c:476-534 | the header passes exactly when digits are present and their value is between 1 and the count limit, and reads up to the body, behind the blanks and the one newline that follow the count |
| RepeatMachine.StrBuf.AppendLimited | compiler/src/repeat_expand.c:106-162 | appends exactly when the text is empty or the result stays within the byte limit and below `SIZE_MAX`, otherwise changes nothing and names which of the two limits was passed; length plus terminator stays within the capacity |
| RepeatMachine.StrBuf.SubstituteIdx | compiler/src/repeat_expand.c:265-314 | appends the body with every standalone `IDX` replaced by the index text, or stops at the first append that does not fit |
| RepeatTheorems.SourceExpansion | compiler/src/repeat_expand.c:380-584 | the limited expansion succeeds exactly when the plain recursive definition does and every body and the result fit, then with the same text; any failure but a size failure is the plain definition's |
| RepeatTheorems.ExpandIntoMeaning | compiler/src/repeat_expand.c:380-584 | the same for every region and every text already in the buffer |
| RepeatTheorems.SubstIntoMeaning | compiler/src/repeat_expand.c:265-314 | piecewise appending of a substituted body amounts to appending the substituted text |
| RepeatTheorems.IterateIntoMeaning | compiler/src/repeat_expand.c:423-433 | appending the iterations one by one amounts to appending the concatenation over all indices |
| RepeatTheorems.NestedRepeatMatches | compiler/src/repeat_expand.c:216-259 | a repeat inside a body that ends at some `@end` finds its own `@end` before that one, the same whether it searches to the end of the body or of the source, and the outer match goes on behind it |
| RepeatTheorems.FindEndCut | compiler/src/repeat_expand.c:216-259 | a match is not changed by cutting the searched region behind it at an `@` |
| RepeatTheorems.FindEndNested | compiler/src/repeat_expand.c:216-259 | a search that starts deeper passes through the match of every inner depth before its own |
| RepeatTheorems.HeaderIsOrdinary | compiler/src/repeat_expand.c:476-534 | the count and the blanks of a header contain nothing the matcher reacts to, so starting behind them finds the same `@end` |
| RepeatTheorems.BodyNeverUnmatched | compiler/src/repeat_expand.c:536-545 | inside a matched body no repeat lacks its `@end`, so that error arises in the outermost region only |
| RepeatTheorems.InertSource | compiler/src/repeat_expand.c:447-580 | a source whose `@repeat` texts all lie in comments, literals or longer words expands to itself exactly when it fits |
| RepeatTheorems.FastPathAgrees | compiler/src/repeat_expand.c:601-604 | without `@repeat` text the full machine returns the source exactly when it fits the byte limit, so the shortcut differs from it only beyond the limit |
| RepeatTheorems.IndexTextExact | compiler/src/repeat_expand.c:265-314 | the 16-byte index text is the decimal numeral of the index exactly below 10^15 |
| RepeatDocuments.DocPasses | compiler/src/repeat_expand.c:380-584 | wherever the text of a document stands in a region, the expander emits what the document means and goes on behind it, and every search for an `@end` passes over it at the same depth |
| RepeatDocuments.RepeatLocated | compiler/src/repeat_expand.c:476-545 | a repeat put together from blanks, digits, a body and `@end` is read with the value of its digits, its body from behind the count line up to its own `@end`, and the text goes on behind the blanks and the one newline after that |
| RepeatDocuments.CommentPasses | compiler/src/repeat_expand.c:447-457 | a comment is copied up to, not including, its newline, whatever stands in it |
| RepeatDocuments.LiteralPasses | compiler/src/repeat_expand.c:459-474 | a string literal is copied with its escapes up to its closing quote, or to the newline or end that cuts it off |
| RepeatDocuments.WordPasses | compiler/src/repeat_expand.c:164-214 | an `@` word other than `@repeat` and `@end` is copied, even when one of these is a part of it |
| RepeatLaws.ExpandShift | compiler/src/repeat_expand.c:380-584 | an expansion does not depend on the text before its region; reported positions shift with it |
| RepeatLaws.DocThen | compiler/src/repeat_expand.c:380-584 | a document followed by any text it can stand before expands to what it means, followed by the expansion of that text |
| RepeatLaws.DocExpands | compiler/src/repeat_expand.c:588-627 | a document alone is expanded to what it means exactly when that and the meaning of every body, at every level, fit a buffer; otherwise only a size failure is reported |
| RepeatLaws.SubstJoins | compiler/src/repeat_expand.c:265-314 | a body cut at every `IDX` that no letter, digit or underscore touches is substituted by joining the pieces with the index text |
| RepeatLaws.SplitExists | compiler/src/repeat_expand.c:265-314 | every body has such a cut |
| RepeatLaws.IterationsCopy | compiler/src/repeat_expand.c:422-434 | n iterations are the pieces joined by 0, then by 1, up to n - 1, each index in at most 15 digits |
| RepeatLaws.RepeatLines | compiler/src/repeat_expand.c:476-534 | `@repeat n`, a newline, a body without `/`, quote and `@`, `@end` and a newline expand to the body with its `IDX` replaced by 0, 1, ..., n - 1 in that order, followed by the expansion of the rest |
| RepeatLaws.RepeatBlanks | compiler/src/repeat_expand.c:435-439 | the same with any blanks before the two newlines |
| RepeatLaws.RepeatInline | compiler/src/repeat_expand.c:533-534 | the same without newlines, the blanks behind the count and behind `@end` being dropped |
| RepeatLaws.CommentLine | compiler/src/repeat_expand.c:447-457 | `//`, any text and a newline expand to themselves, followed by the expansion of the rest |
| RepeatLaws.CountRefused | compiler/src/repeat_expand.c:513-531 | behind any document a count of 0 is invalid and one above the limit exceeds it, reported at the `@repeat` |
| RepeatLaws.CountMissing | compiler/src/repeat_expand.c:487-496 | a repeat without digits behind its blanks is reported as an invalid count at the `@repeat` |
| RepeatLaws.EndMissing | compiler/src/repeat_expand.c:536-545 | a repeat that only a document follows, without an `@end` of its own, is reported there as unmatched |
| RepeatLaws.PlainTooLong | compiler/src/repeat_expand.c:572-579 | text without anything special that is longer than the byte limit is reported at the first character too many |
| RepeatLaws.RepeatTooLong | compiler/src/repeat_expand.c:422-434 | a repeat whose body fits and whose copies do not is reported at its `@repeat` |
| ClockVariants.BuildAxes | compiler/src/chip_data.c:2313-2382 | collects the axes of all variants in order of first appearance |
| ClockVariants.AddFact | compiler/src/chip_data.c:2325-2380 | adds the fact's value to its axis, or a new axis, and nothing twice |
| ClockVariants.RecordOnAxis | compiler/src/chip_data.c:2268-2382 | the axes have distinct keys with distinct values each, and hold exactly the keys and values the facts mention |
| ClockVariants.CheckTuple | compiler/src/chip_data.c:2385-2420 | a variant matches a tuple exactly when each of its facts has the tuple's value on its axis |
| ClockVariants.CountVariants | compiler/src/chip_data.c:2474-2480 | counts the variants that match the tuple |
| ClockVariants.TuplesWithinLimit | compiler/src/chip_data.c:2444-2458 | multiplying up with early exit decides whether the product of the axes is within the limit |
| ClockVariants.Advance | compiler/src/chip_data.c:2512-2520 | the in-place carry loop steps to the successor tuple, or reports the wrap |
| ClockVariants.NextTupleValue | compiler/src/chip_data.c:2512-2520 | the successor has the next mixed-radix value, and only the last tuple has none |
| ClockVariants.TupleValueInjective | compiler/src/chip_data.c:2512-2520 | different tuples have different mixed-radix values |
| ClockVariants.WalkVisitsOnce | compiler/src/chip_data.c:2473-2521 | the walk from the zero tuple reaches every tuple exactly once |
| ClockVariants.WalkWraps | compiler/src/chip_data.c:2512-2520 | it wraps after as many steps as there are tuples |
| ClockVariants.ValidateCoverage | compiler/src/chip_data.c:2422-2526 | terminates, and accepts exactly within the tuple limit when every tuple of the product is matched by exactly one variant, with the special case of no axes; with variants and within the limit that is: every caller who meets some mentioned fact about each thing the variants ask of meets exactly one variant |
| ClockVariants.AcceptsIsCovered | compiler/src/chip_data.c:2422-2442 | the special case amounts to the general one, except that no variants at all are accepted too |
| ClockVariants.DispatchMatchesInduced | compiler/src/chip_data.c:3546-3577 | a variant that dispatches on caller facts matches the tuple those facts induce, and conversely when all values are listed |
| ClockVariants.DispatchUnambiguous | compiler/src/chip_data.c:3514-3589 | for an accepted generator any caller facts, listed or not, dispatch at most one variant, and listed ones exactly one |
| ClockVariants.AcceptsIsUniqueDispatch | compiler/src/chip_data.c:2422-2526 | within the tuple limit a generator with variants is accepted if and only if every caller whose values are listed dispatches exactly one variant |
| ClockVariants.TupleIsInduced | compiler/src/chip_data.c:3546-3577 | every tuple of the axes is the one some caller stands at |
| ClockVariants.MapForFacts | compiler/src/chip_data.c:3514-3589 | returns how many variants have only facts that the caller meets and, when that is one, the template of the first entry of that variant that names the back end in either case of letters; a generator without variants uses its flat map |
| ClockVariants.DispatchesOn | compiler/src/chip_data.c:3546-3571 | a variant dispatches exactly when for each of its facts the caller counts that many outputs, or the first input of that name has that source text, an absent source and an absent input counting as empty text |
| ClockVariants.LookupSource | compiler/src/chip_data.c:3552-3565 | the source of the first input of that name, empty without a source or without such an input |
| ClockVariants.LookupTemplate | compiler/src/chip_data.c:3863-3875 | the template of the first entry whose back end has the same letters in either case, none without one |
| ClockVariants.SingleDispatch | compiler/src/chip_data.c:3572-3578 | when at most one variant dispatches, the first one found is the only one |
| ClockVariants.GrantsIff | compiler/src/chip_data.c:3546-3571 | what a caller with or without facts must have for one fact, field by field |
| ClockVariants.DispatchesIff | compiler/src/chip_data.c:3546-3577 | a variant dispatches exactly when the caller meets each of its facts so read |
| ClockVariants.AcceptsIsOneMet | compiler/src/chip_data.c:2422-2526 | acceptance as an if-and-only-if over callers and facts alone, without axes, keys or tuples |
| ClockVariants.CountIsSize | compiler/src/chip_data.c:3546-3577 | the number of dispatching variants is the size of the set of variants the caller meets |
| ClockVariants.FoundTemplate | compiler/src/chip_data.c:3863-3875 | the search finds the first entry that names the back end, and nothing exactly when no entry does |
| JsonTokens.CheckNestingLimit | compiler/src/chip_data.c:569-594 | accepts exactly the well-nested arrays in which no container has as many container ancestors as the limit, which is the given one if that is between 1 and 128 and 128 otherwise |
| JsonTokens.PopClosed | compiler/src/chip_data.c:583-585 | popping keeps on the stack exactly the ends of the next token's container ancestors |
| JsonTokens.CloseFrom | compiler/src/chip_data.c:583-585 | popping the ends that lie behind leaves exactly the containers still open |
| JsonTokens.DepthBound | compiler/src/chip_data.c:569-594 | after the check every token has at most the limit of container ancestors |
| JsonTokens.ChildIsDeeper | compiler/src/chip_data.c:561-565 | a token inside a container has more container ancestors than the container |
| JsonTokens.AncestorsAre | compiler/src/chip_data.c:580-592 | the container ancestors of a token are exactly the objects and arrays before it that end behind its start, each once |
| JsonTokens.JsonSkip | compiler/src/chip_data.c:556-567 | returns the least later index that starts at or behind the end of the skipped token, recursing at most one level deeper than the checked limit |
| LexerMachine.LexSource | compiler/src/lexer.c:1027-1070 | terminates on every input and returns the tokens and error status of the scanner definition, the final append of an end token being dead; every sized literal among the tokens, save for one at the token limit, is a width, a tick, a base character and digits legal in that base, and carries that base and the length of the width |
| LexerMachine.LexerState.LexOneToken | compiler/src/lexer.c:427-1025 | one call takes exactly the step of the scanner definition, with line and column those of the position |
| LexerMachine.LexerState.LexWord | compiler/src/lexer.c:548-690 | words, keywords, directives and sized literals with a name or `CONFIG.name` as width, the speculative scan undone when no tick follows |
| LexerMachine.LexerState.LexNumber | compiler/src/lexer.c:714-812 | plain, sized and decimal-point numbers |
| LexerMachine.LexerState.LexString | compiler/src/lexer.c:496-545 | a string up to the next quote, decoded, or the silent end of an unterminated one |
| LexerMachine.LexerState.LexTick | compiler/src/lexer.c:692-712 | a stray tick is reported and consumed without a token |
| LexerMachine.LexerState.LexSymbol | compiler/src/lexer.c:814-1025 | the longest operator as one token, or one unknown character |
| LexerMachine.LexerState.TryConfigWidth | compiler/src/lexer.c:561-594 | moves behind `CONFIG.name` exactly when a tick follows it |
| LexerMachine.LexerState.SkipBlockComment | compiler/src/lexer.c:398-425 | ends behind the first `*/`, or fails at a nested opening or the end of the source |
| LexerMachine.LexerState.SkipTrivia | compiler/src/lexer.c:434-484 | skips blanks and comments up to the next element, reports comments that touch a token, and aborts on a broken comment |
| LexerMachine.ParseNumericLiteral | compiler/src/lexer.c:204-301 | classifies a literal as plain, sized with base and width, or bad for the first cause the scan meets; `LexerLaws.SizedIs` and `LexerLaws.UnsizedIs` say which, character by character |
| LexerMachine.DecodeString | compiler/src/lexer.c:521-541 | decodes the escapes of a string literal and leaves unknown ones alone |
| LexerMachine.LexerState.EmitToken | compiler/src/lexer.c:96-134 | appends one token, or stops lexing with an error at the token limit |
| LexerSpec.StepProgress | compiler/src/lexer.c:1048-1056 | a step that does not finish consumes source text |
| LexerTheorems.LexEnds | compiler/src/lexer.c:1027-1070 | the stream never exceeds the token limit, and unless stopped early holds the end token exactly once, as its last |
| LexerTheorems.LexPartitions | compiler/src/lexer.c:427-1025 | after a clean lex the source is blanks and comments, a token, and so on, with at most one unterminated string at the end; tokens other than strings are their spans, strings decode theirs, and lines and columns are those of the spans |
| LexerTheorems.SpansIncrease | compiler/src/lexer.c:96-134 | token spans are disjoint and increasing |
| LexerTheorems.LongestOperator | compiler/src/lexer.c:814-1020 | no operator that stands at a position is longer than the one taken |
| LexerTheorems.SymbolIsOperator | compiler/src/lexer.c:814-1020 | what is taken is an operator that stands there; a `z` or `s` belongs to `=` and `=>` only where no word goes on behind it |
| LexerLaws.SizedIs | compiler/src/lexer.c:204-301 | a width without tick, a tick, a character c and a value v are a sized literal exactly when c is one of bBdDhH, v is not empty, has no underscore at either end and only digits of the base, with x and z for binary; for every other text it names which of the four causes is reported |
| LexerLaws.UnsizedIs | compiler/src/lexer.c:214-233 | a literal is plain exactly when it holds no tick, and one with nothing before or behind its tick is bad |
| LexerLaws.SizedScanIs | compiler/src/lexer.c:714-812 | such a literal yields a sized token, a parse error for a missing or unknown base or a missing value, and a rule violation for a value that is not legal |
| LexerLaws.PlainScanIs | compiler/src/lexer.c:714-812 | a literal without tick yields a number, one that ends with its tick a parse error |
| LexerLaws.SizedTokensShowBase | compiler/src/lexer.c:714-812 | every sized number of a stream carries the base that its base character shows and the length of its width, and tokens of other kinds carry no numeric data |
| LexerLaws.StreamIsRead | compiler/src/lexer.c:427-1070 | every token of every stream, erroneous ones too, is what stands at its start, with kind, text, line and column; only the numeric data of the last token can differ, when the token limit stopped the lexer |
| LexerLaws.ClassesAre | compiler/src/lexer.c:548-560 | the character classes of words, literals and blanks, letter by letter |
| LexerLaws.LineCounts | compiler/src/lexer.c:434-484 | the line of a position is one more than the number of newlines before it |
| LexerLaws.ColumnCounts | compiler/src/lexer.c:434-484 | its column is the distance from the start of its line |
| LexerLaws.LineCommentIs | compiler/src/lexer.c:384-396 | a line comment goes up to and over the first newline |
| LexerLaws.BlockCommentIs | compiler/src/lexer.c:398-425 | a block comment closes at the first `*/`, unless a `/*` stands before that or the source ends |
| LexerLaws.TriviaIs | compiler/src/lexer.c:434-484 | all blanks and closed comments are passed over, with an error only if a comment touches the token before it |
| LexerLaws.BrokenTriviaIs | compiler/src/lexer.c:398-425 | a nested or unclosed block comment is an error and ends the step where it broke |
| LexerLaws.WordIs | compiler/src/lexer.c:548-690 | a maximal run of word characters is one token unless a tick makes it a width |
| LexerLaws.NamedLiteralIs | compiler/src/lexer.c:596-640 | a word and a tick start a literal as long as its characters go on |
| LexerLaws.ConfigLiteralIs | compiler/src/lexer.c:561-594 | so do `CONFIG`, a dot, a name and a tick |
| LexerLaws.NumberIs | compiler/src/lexer.c:714-812 | so does a digit, unless a dot and a digit follow a text without tick |
| LexerLaws.FractionIs | compiler/src/lexer.c:714-812 | then the number goes on over the dot and the digits behind it |
| LexerLaws.StringIs | compiler/src/lexer.c:496-545 | a string goes to the next quote, escaped or not; without one it is dropped silently |
| LexerLaws.StrayIs | compiler/src/lexer.c:1010-1025 | a character that starts nothing is a token of its own, and an error unless it is `#` |
| LexerLaws.StrayTickIs | compiler/src/lexer.c:692-712 | a tick that starts an element is a rule violation and no token |
| LexerLaws.DecodeEscaped | compiler/src/lexer.c:521-541 | a backslash before n is a newline, before a backslash or a quote that character, and otherwise itself |
| LexerLaws.StepErrors | compiler/src/lexer.c:96-134 | exactly when a step reports an error, a rule violation and the token limit being one only with a sink, and exactly when it stops |
| LexerRoundTrip.RoundTrip | compiler/src/lexer.c:427-1070 | printing a clean stream with one blank between tokens, strings quoted and escaped, and lexing it again gives the same types, texts and numeric data |
| LexerRoundTrip.TokenReadable | compiler/src/lexer.c:427-1025 | a token scanned cleanly anywhere is scanned again wherever it is printed |
| LexerRoundTrip.WordReadable | compiler/src/lexer.c:561-594 | the same for words, including the widths that look past a `.` |
| LexerRoundTrip.DecodeEscape | compiler/src/lexer.c:521-541 | decoding undoes escaping |
| Diagnostics.Sort | compiler/src/diagnostic.c:571-574 | yields all diagnostics in the rendering order: file names never fall, in one file the line, on one line the column, at one column the priority never rises, and of equal priorities the one reported first comes first |
| Diagnostics.OrderUnique | compiler/src/diagnostic.c:297-326 | there is only one such order, so any correct sort gives it |
| Diagnostics.BeforeIsTotal | compiler/src/diagnostic.c:297-326 | the comparator orders any two different diagnostics one way |
| Diagnostics.BeforeIsTransitive | compiler/src/diagnostic.c:297-326 | and is transitive |
| Diagnostics.StrCompareIsTextOrder | compiler/src/diagnostic.c:280-288 | file names compare as texts: equal, a proper prefix, or smaller at the first differing character |
| Diagnostics.OrderRenders | compiler/src/diagnostic.c:280-326 | of any two places in a correct order the first is ahead by file name, line, column, falling priority by the rule table and report order, field by field |
| Diagnostics.GroupMaxima | compiler/src/diagnostic.c:604-614 | the loop finds the line's maximal priority, never below 0, and the maximal priority of its errors |
| Diagnostics.GroupEnd | compiler/src/diagnostic.c:580-597 | the group found holds exactly the diagnostics of the line |
| Diagnostics.IsDuplicate | compiler/src/diagnostic.c:646-669 | finds an earlier selected diagnostic of the group with the same column, code and message, if there is one |
| Diagnostics.PrintGroup | compiler/src/diagnostic.c:632-683 | extends what was printed by exactly the group's shown diagnostics, in order |
| Diagnostics.LineIsGroup | compiler/src/diagnostic.c:580-597 | the group of a diagnostic is its whole line and nothing else |
| Diagnostics.GroupSelects | compiler/src/diagnostic.c:637-644 | the test by the two maxima is selection: top of the line, or top among its errors |
| Diagnostics.RepeatsInGroup | compiler/src/diagnostic.c:646-669 | searching the group finds a repetition exactly when an earlier selected diagnostic has the same place, code and message |
| Diagnostics.PrintAll | compiler/src/diagnostic.c:571-683 | prints exactly the diagnostics that are selected, not repeated and not hidden, ordered by file name, line, column, falling priority (0 without a code or a rule) and report order |
| Diagnostics.PrintedHas | compiler/src/diagnostic.c:636-680 | a diagnostic is printed exactly when it is shown |
| Diagnostics.PrintedRenders | compiler/src/diagnostic.c:571-683 | so are any two places of what is printed |
| Diagnostics.OnePerClass | compiler/src/diagnostic.c:632-680 | of each selected class at most one is shown, and one is shown unless its rule is informational and those are hidden |
| Diagnostics.ErrorPrintedIff | compiler/src/diagnostic.c:632-680 | a highest-priority error of its line has its class printed by an error if and only if it is not hidden and, when it also has the line's top priority, no non-error of its class was reported before all errors of the class |
| Diagnostics.MixedClassLosesError | compiler/src/diagnostic.c:646-669 | a warning and then an error of the same class print the warning only |
| Diagnostics.SeverityByCode | compiler/src/diagnostic.c:130-159 | severities that follow from the code do not vary within a class |
| Diagnostics.ErrorsAreShown | compiler/src/diagnostic.c:599-680 | when severity does not vary within a class and an error on the line has a priority of at least -1, the line has highest-priority errors, and each one not hidden is printed by an error of its class |
| Diagnostics.LineSpeaksIff | compiler/src/diagnostic.c:599-680 | a line prints something if and only if some visible diagnostic on it has a priority of at least 0 and of at least every hidden one there, or is an error with a priority of at least -1 and of at least every hidden error there |
| Diagnostics.NoLineIsSilent | compiler/src/diagnostic.c:599-680 | with no negative priority and informational rules at priority 0, a line with any other diagnostic prints something |
| Diagnostics.WarningsCanVanish | compiler/src/diagnostic.c:636-680 | under any table, a warning alone with a note whose hidden informational rule has a higher priority leaves the line without any output |
| Diagnostics.DiagnosticList.ApplyWarningPolicy | compiler/src/diagnostic.c:465-524 | keeps, in order, exactly what no override disables, the first override of the group of its rule deciding, with warnings turned into errors if asked |
| Diagnostics.ErrorsAfterPolicy | compiler/src/diagnostic.c:465-524 | an error is left exactly when an unsuppressed diagnostic is an error, or a warning under promotion |
| Diagnostics.PromoteAfter | compiler/src/diagnostic.c:512-523 | promotion is independent of the filtering before it |
| Diagnostics.SuppressedIff | compiler/src/diagnostic.c:480-497 | a diagnostic is dropped exactly when its rule has a group and the first override of that group disables the severity it has |
| Diagnostics.TestSuppressed | compiler/src/diagnostic.c:480-497 | the loop over the overrides decides just that |
| Diagnostics.RemainingIsLeft | compiler/src/diagnostic.c:465-524 | what is left are the reported ones at rising positions, namely those not dropped |
| Ast.AstNode.AddChild | compiler/src/ast/ast.c:89-107 | appends the child, growing the array by doubling, unless its bytes would be no `size_t`; the node's tree gains the child's tree |
| Ast.FreeRecursive | compiler/src/ast/ast.c:109-121 | frees the nodes of the tree in post-order, each as often as the tree has it |
| Ast.PushChildren | compiler/src/ast/ast.c:139-143 | pushes the children up to the first append that fails |
| Ast.FreeTop | compiler/src/ast/ast.c:134-166 | frees the top node, handing its children to the worklist or, from the first failed append on, to the recursive fallback together with the whole worklist; nothing owed is lost or freed twice |
| Ast.Drain | compiler/src/ast/ast.c:155-159 | after a failed append the whole worklist is freed recursively |
| Ast.AstFree | compiler/src/ast/ast.c:123-170 | under every schedule of append failures the freed nodes are exactly those of the tree, with multiplicity, and each node whose children are read is freed after that |
| Ast.EachNodeOnce | compiler/src/ast/ast.c:123-170 | in a tree without shared nodes each node is therefore freed once, and no other |
| Ast.NoReadAfterFree | compiler/src/ast/ast.c:123-170 | when no node is freed twice, none is read after it was freed |
| PathMachine.Normalize | compiler/src/path_security.c:107-168 | the loop that cuts the buffer, keeps component offsets and writes the result returns the normal form, within a result buffer of length plus two; an empty path gives nothing |
| PathMachine.Cut | compiler/src/path_security.c:129-131 | terminates the next component in place and leaves the text before it and the rest behind it as they were |
| PathMachine.ReadComponent | compiler/src/path_security.c:124-145 | one turn of the loop reads past slashes, cuts at most one component and pushes it, consuming text |
| PathMachine.PushOffset | compiler/src/path_security.c:133-144 | the offsets stand for the components held after `.`, `..` or a name, with `..` at the root ignored and names beyond the capacity dropped |
| PathMachine.WriteResult | compiler/src/path_security.c:147-164 | joins the components with slashes, after the root slash of an absolute path, and writes `.` for nothing |
| PathMachine.TestUnderRoot | compiler/src/path_security.c:222-237 | compares up to the root's trailing slashes and asks for a boundary |
| PathMachine.TestTraversal | compiler/src/path_security.c:245-262 | finds exactly the paths with a component that is `..` up to a slash or backslash |
| Paths.Idempotent | compiler/src/path_security.c:107-168 | normalising twice is normalising once, for every path |
| Paths.NormOfJoin | compiler/src/path_security.c:107-168 | norm(a/b) = norm(norm(a)/b), for every non-empty a |
| Paths.HeldIsNormal | compiler/src/path_security.c:124-145 | no empty or `.` component is held, and `..` only leads a relative path |
| Paths.NormFits | compiler/src/path_security.c:148-164 | the result is not empty and no longer than the path |
| Paths.NormKeepsMeaning | compiler/src/path_security.c:107-168 | a path that never holds more than the capacity names the same directory as its normal form, from every current directory |
| Paths.MeaningKeptIffFits | compiler/src/path_security.c:133-144 | normalisation agrees with the path after each component, from everywhere, if and only if no component is dropped for capacity |
| Paths.FewComponentsFit | compiler/src/path_security.c:117-144 | paths of at most 256 components never drop one |
| Paths.NamesFitIff | compiler/src/path_security.c:142-144 | names alone overflow exactly when they are more than there is room for |
| Paths.LongPathStops | compiler/src/path_security.c:107-168 | the path of n times the name `d` fits exactly up to n = 256; beyond, it names the directory n levels down and its normal form the one 256 levels down |
| Paths.NormDecidesMeaning | compiler/src/path_security.c:107-168 | two paths that fit have the same normal form if and only if both or neither is absolute and they name the same directory from everywhere |
| Paths.UnderRootIsPrefix | compiler/src/path_security.c:222-237 | on normalised absolute paths the test is component-list prefix, except that only the root directory is under the root directory |
| Paths.SandboxHolds | compiler/src/path_security.c:222-237 | hence, for paths that fit, it says that one directory is or lies below the other |
| Paths.NothingUnderSlash | compiler/src/path_security.c:222-237 | `/a` is not found under `/` |
| Paths.NoTraversalStaysUnder | compiler/src/path_security.c:358-391 | a path without traversal, joined to an absolute directory other than the root, normalises to a path under that directory, however long it is |
| Paths.TraversalIsComponent | compiler/src/path_security.c:245-262 | the scan by characters and the list of components agree on traversal |
| CheckedSize.AddChecked | compiler/src/util.c:123-129 | fails exactly when the sum is no `size_t` |
| CheckedSize.MulGuard | compiler/src/util.c:131-137 | the division guard of the checked product is exact |
| CheckedSize.AlignUpChecked | compiler/src/util.c:148-157 | for a power of two, the least multiple at or above the size, failing exactly when the sum overflows |
| CheckedSize.PowerOfTwoTest | compiler/src/util.c:153 | `a & (a - 1)` is 0 for exactly the powers of two among the positive numbers |
| CheckedSize.MaskAligns | compiler/src/util.c:155 | the mask `~(a - 1)` of a power of two takes a `size_t` down to a multiple of it |
| CheckedSize.GrowDoubling | compiler/src/util.c:159-193 | returns the least doubling of the start that reaches the minimum, or the exact minimum when that doubling is no `size_t`, the start being the current capacity, else the initial one, else 1; it never fails |
| CheckedSize.LeastDoublingIsLeast | compiler/src/util.c:175-189 | the loop's result is a power-of-two multiple of the start, and no smaller one suffices |
| CheckedSize.Buffer.Reserve | compiler/src/util.c:329-348 | keeps the contents, and grows only when it must |
| CheckedSize.Buffer.Append | compiler/src/util.c:350-360 | appends the bytes or, when the length would be no `size_t`, changes nothing; below half of `SIZE_MAX` all reallocations of the buffer's life together moved at most its capacity |
| CheckedSize.DoublingAtLeastTwice | compiler/src/util.c:159-193 | in the lower half of `size_t` growth at least doubles |
| Arenas.Arena.constructor | compiler/src/arena.c:14-21 | an empty arena with the given or the default block size |
| Arenas.Arena.Alloc | compiler/src/arena.c:23-67 | hands out aligned bytes of the head block when they fit and of a new block otherwise, keeping all live allocations disjoint, aligned and inside the used part of their blocks; fails exactly for size 0 and for sums that are no `size_t` |
| Arenas.Arena.AddBlock | compiler/src/arena.c:45-60 | puts a new block in front that holds at least the requested bytes and fills the default size, keeping the older blocks |
| Arenas.Arena.Reset | compiler/src/arena.c:69-87 | frees every block but the newest, once, and empties that one |
| Arenas.Arena.Free | compiler/src/arena.c:89-101 | frees every block, once, and leaves an empty arena |
| Arenas.Arena.FreeFrom | compiler/src/arena.c:79-84 | frees the rest of the block list in order |
| Serializers.BestIsFirstLeast | compiler/src/chip_data.c:3944-3961 | the entry found is the first with the least sufficient ratio, and none is found exactly when no ratio suffices |
| Serializers.BestIsStable | compiler/src/chip_data.c:3944-3961 | asking for the chosen ratio chooses the same entry as asking for the width |
| Serializers.BestRatio | compiler/src/chip_data.c:3929-3942 | the ratio of the first entry with the least ratio of at least the width; 0 when there is none, the width is not positive or the chip has no output serializers |
| Serializers.BestMap | compiler/src/chip_data.c:3944-3961 | the template of that same entry, the first of it that names the back end |
| Serializers.RequiredClocks | compiler/src/chip_data.c:4047-4069 | the clocks of that same entry |
| Serializers.SmallestIsPositive | compiler/src/chip_data.c:3915-3927 | a smallest ratio is found exactly when no ratio is negative and the last is not 0 |
| Serializers.SmallestIsListed | compiler/src/chip_data.c:3915-3927 | a ratio found other than 0 is one of the chip |
| Serializers.SmallestIsLeast | compiler/src/chip_data.c:3915-3927 | with positive ratios it is the least |
| Serializers.SmallestIsLeastIff | compiler/src/chip_data.c:3915-3927 | the least positive ratio is found if and only if no ratio is negative and it is listed behind the last 0 |
| Serializers.SmallestBehindZeros | compiler/src/chip_data.c:3915-3927 | without negative ratios, what is found is the least ratio behind the last 0 |
| Serializers.TrailingZeroHides | compiler/src/chip_data.c:3915-3927 | a trailing ratio of 0 hides a usable serializer |
| Serializers.MaxRatio | compiler/src/chip_data.c:3963-3974 | the largest ratio, 0 if none is positive |
| Serializers.TestDiffMapping | compiler/src/ir/ir_differential_lowering.c:20-32 | a differential pin is mapped exactly when some mapping of its name has a negative side |
| Serializers.FindSignalWidth | compiler/src/ir/ir_differential_lowering.c:43-79 | the width of the first resolvable binding of the bit, else of the whole pin, else 0 |
| Serializers.Lower | compiler/src/ir/ir_differential_lowering.c:94-191 | a pin uses a serializer exactly when it is a differential output with an fclk or pclk text, a mapping of its name with a negative side, a loaded chip with output serializers, a positive smallest ratio and some ratio of at least its data width, which it then carries with the least such ratio; the result is 1 exactly when some other such pin has no ratio, and the reports are exactly the findings about the bits of the pins, by rising pin and bit |
| Serializers.LowerPin | compiler/src/ir/ir_differential_lowering.c:118-184 | the four fields carry the pin's plan, and the reports of the plan are added, one per bit |
| Serializers.PlanIsRight | compiler/src/ir/ir_differential_lowering.c:118-184 | what the plan leaves in a pin, decided from the fields of pin, project and chip |
| Serializers.SerializesIff | compiler/src/ir/ir_differential_lowering.c:81-92 | which pins want a serializer, field by field |
| Serializers.DataWidthIs | compiler/src/ir/ir_differential_lowering.c:128-136 | the data width is the declared one if positive, else the width of the signal bound first to bit 0, else to the whole pin, else the smallest ratio |
| Serializers.DataWidthUnique | compiler/src/ir/ir_differential_lowering.c:43-79 | and there is only one such width |
| Serializers.PerBitIs | compiler/src/ir/ir_differential_lowering.c:139-164 | the reports of a pin are its finding once for every bit, in bit order |
| Serializers.AllFindings | compiler/src/ir/ir_differential_lowering.c:94-191 | the reports of all pins are exactly the findings: every bit of a serialized pin with surplus lanes names its ratio and data width, every bit of a pin too wide its data width and the largest ratio of the chip |
| Serializers.SerializedPin | compiler/src/ir/ir_differential_lowering.c:135-164 | a serialized pin has ratio = data width + surplus with the least ratio of the chip at or above its width, and the template and clock queries settle on that entry |
| Serializers.TooWidePin | compiler/src/ir/ir_differential_lowering.c:137-159 | a pin is too wide exactly when it serializes and its width exceeds the maximum ratio the error names |
| Serializers.UnboundPinFits | compiler/src/ir/ir_differential_lowering.c:128-136 | a pin without any width takes the smallest ratio, with no surplus and no error |
| Text.DecimalRoundTrip | compiler/src/repeat_expand.c:265-314 | a decimal numeral denotes its number and has no leading zero |
| Text.DecimalIs | compiler/src/repeat_expand.c:265-314 | a numeral is written with the ten digits, its last one telling the remainder by ten |

## Left out

- The simulator's viewer, the editor extension, the pipeline scripts, the command line, the compiler life cycle and the rule table's contents; a rule is looked up in a map that gives mode, group and priority.
- The parser, semantic passes, IR construction, tristate transform and back ends.
- The chip file's schema checks, the struct filling and the JSON parser; the walkers take a well-nested token array.
- File reading, temporary outputs, `realpath`, symbolic links and the open and stat race check; of path validation only the textual functions are modelled, for `/` as separator.
- Allocation failure, except in the AST teardown, where every append may fail; so also the unordered printing when the order array cannot be allocated.
- The raw pointers of the frame stack and their relocation: each frame has its own buffer object.
- Message texts, colours, headers, file-name shortening and the line number of a repeat error; a repeat error carries its text offset.
- Locale-dependent character classes: ASCII is assumed.
- The capacity growth of the token array, and the source file name of a token.
- Token types of keywords and operators are identified with their text.
- `qsort` is modelled by an insertion sort; the order it yields is unique.
- The lookup of a clock generator by type; absent fact names and sources are empty text, absent messages too.
- The address of an arena block: an allocation is a block and an offset.
- CheckedSize.Buffer.Append: the appended bytes are a value, so they never alias the buffer.
- JsonTokens.JsonSkip: a null token array and a non-positive count are not modelled.
- Serializers.Lower: a missing design or project is not modelled.
