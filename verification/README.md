# tinyformat: a Dafny model of the format-string interpreter

This project models the core of tinyformat, a type-safe `printf` for C++
streams. The core is the interpreter for the conversion-spec grammar of
ISO/IEC 9899:1999 (C99), section 7.19.6.1: `%[flags][width][.precision][length]conv`.
It has five parts, each modelled as pure functions over a `seq<char>` format
string with explicit error outcomes:

- **Literal scanner** (`literal.dfy`, `Literal`). `printFormatStringLiteral`
  copies literal text up to the next unescaped `%` and turns `%%` into `%`. It is
  modelled twice: as the function `ScanLiteral` and as the method
  `PrintFormatStringLiteral`, which follows the source loop and is proved equal
  to the function. `Escape` doubles every `%`; the scanner is proved to invert it.
- **Spec delimiter** (`spec_end.dfy`, `SpecEnd`). `findFormatSpecEnd` and its
  two errors.
- **Spec interpreter** (`interpreter.dfy`, `Interpreter`). `streamStateFromFormat`
  is composed of the source's stages: reset, flags, width, precision, length
  modifiers, conversion character. It maps a spec and an incoming
  `StreamState` to `Result<Applied>`. `Applied` holds the new state, the
  `ExtraFlags`, the interpreter's cursor and the conversion character it
  acted on. `parseIntAndAdvance` is in `decimal.dfy`. Properties are in
  `interpreter_props.dfy`. `spec_grammar.dfy` (`SpecGrammar`) describes a
  spec by its parts and gives their meaning directly; the interpreter is
  proved to produce that meaning on every spec spelled from such parts.
- **Per-value driver** (`values.dfy`, `format_value.dfy`). `formatValue`
  dispatch, `formatCStringTruncate` and `formatValueBasic`: save the state,
  interpret, write the value directly or through the buffered path, restore.
  Properties are in `format_value_props.dfy`.
- **Argument sequencer** (`format.dfy`, `Sequencer`). The 0-argument and the
  recursive N-argument `format`, recursing over a `seq<Value>`. Properties are
  in `format_props.dfy`. What a successful call writes, piece by piece, is
  in `format_layout.dfy` (`FormatLayout`). There a format string is laid out
  from `Piece`s, each a literal text and the spec that follows it.

Modelling conventions:

- `Chars.At(s, i)` is what a `const char*` sees: `s[i]`, or NUL past the end.
  An interior NUL therefore ends the format string, as in C.
- A stream is `Stream(text, state)`. `StreamState` holds width, precision,
  fill, the adjust/base/float groups, showbase, showpoint, showpos, uppercase,
  and an opaque `otherFlags` for boolalpha and similar flags.
- A value is a `Value` record of capabilities: `isCharType`, `canChar`,
  `canVoidPtr`, and `cString`, the memory a `char*` addresses, as `nat -> char`.
  `render(view, state)` is the text `operator<<` produces after converting the
  value to `view`. It is a field of the value and is left uninterpreted.
- `out << std::string` is `StreamStates.InsertString`: the text is padded with
  the fill character to the width. The padding goes after the text when the
  adjustment is `left`, and before it otherwise.
- Every error is terminal. `Run.Failed(text, error)` keeps the text written
  before the error. `Results.Reason` gives the exact reason string the error
  hook receives. No two errors share one (`ReasonIdentifiesError`), so
  `Failed` carries the error itself.

The model follows the code where the code's behaviour differs from what a
reader of C99 `printf` would expect:

- Values left over when the string is exhausted are an error ("Not enough
  conversion specifiers"). They are not silently ignored.
- A lone `%` at the very end of the string is accepted when no value is left.
- Space padding of positives rewrites every `+` in the buffered text, not only
  a leading sign (`SpacePadRewritesInnerPlus`).
- `.-N` sets precision 0 and still counts as a precision that is set.
- The interpreter acts on the character at its cursor. `formatValue`
  dispatches on the last character of the span. The two can differ
  (`ConversionCharCanDiffer`).

## Model

| member | source | states |
|---|---|---|
| Decimal.ParseDigits | tinyformat.h:157-159 | the accumulating digit loop stops at the first non-digit, and its value is the base-10 value of the digits consumed |
| Decimal.ParseIntAndAdvance | tinyformat.h:155-161 | consumes the maximal digit run and returns its standard base-10 value and the cursor one past it |
| Decimal.ParseToDecimalRoundTrip | tinyformat.h:155-161 | reading back the decimal spelling of n, followed by a non-digit, gives n and stops right after the spelling |
| StreamStates.ResetState | tinyformat.h:184-192 | width 0, precision 6, fill ' ', every owned flag cleared, boolalpha-like flags kept |
| StreamStates.InsertString | tinyformat.h:559 | inserting a string pads it with the fill character up to the width, after it when left-adjusted and before it otherwise |
| Literal.ScanLiteral | tinyformat.h:334-350 | the scanner's cursor never moves backwards and stays within the string |
| Literal.ScanLiteralStops | tinyformat.h:329-350 | the text before the stop is the escaped form of the NUL-free text emitted; the stop is the end of string or one past a `%` not followed by `%` |
| Literal.ScanEscaped | tinyformat.h:336-347 | the escaped form of any NUL-free text, followed by the end or by a spec's `%`, scans back to exactly that text and cursor |
| Literal.PrintFormatStringLiteral | tinyformat.h:334-350 | the source's two-pointer loop emits exactly what the scanner function emits and returns the same cursor |
| SpecEnd.FindTerminator | tinyformat.h:361-371 | finds the first letter that is not a length modifier before the first NUL, or reports that there is none |
| SpecEnd.FindFormatSpecEnd | tinyformat.h:355-374 | returns one past the first terminating letter; "Not enough conversion specifiers" exactly at end of string; "incorrectly terminated" exactly when no such letter precedes the end |
| Interpreter.FlagStep | tinyformat.h:200-228 | one flag character has the order-free effect of the one-character flag run, and a character that is not a flag has none |
| Interpreter.ParseFlags | tinyformat.h:197-230 | consumes exactly the maximal run of `# 0 - space +` |
| Interpreter.FlagStepThenFlags | tinyformat.h:198-228 | one flag followed by a run has the same effect as the order-free effect of the whole run |
| Interpreter.ParseFlagsEffect | tinyformat.h:197-230 | the flag loop's result depends only on which flags occur, not on their order |
| Interpreter.ParseWidth | tinyformat.h:231-238 | a digit run sets the width to its base-10 value and marks width set; `*` after it or in its place is the variable-width error |
| Interpreter.ParsePrecision | tinyformat.h:239-252 | `.N` sets precision N, `.` alone and `.-N` set 0 (consuming N), any `.` marks precision set, `.*` is the variable-precision error |
| Interpreter.SkipLengthModifiers | tinyformat.h:253-256 | skips exactly the maximal run of `l h L j z t` |
| Interpreter.ConversionFlags | tinyformat.h:264-311 | `X E F G` set uppercase; `d i u e E g G` select decimal, `o` octal, `x X p` hex; `e E` scientific, `f F` fixed, `g G` clear the float field; nothing else changes |
| Interpreter.ApplyConversion | tinyformat.h:263-321 | `n` is an error; `s` with a precision asks for truncation; integer conversions with a precision and no width take width = precision, internal adjustment, fill '0'; `a A c` leave everything untouched |
| Interpreter.StreamStateFromFormat | tinyformat.h:180-326 | errors are only the three unsupported features; the conversion character is the one at the cursor, or `s` at the span end; precision is non-negative, fill is ' ' or '0', other flags are kept; the full configuration on a well-formed spec is `SpecGrammar.InterpretsSpelledSpec` |
| SpecGrammar.WidthStage | tinyformat.h:231-238 | a width written as a digit run, followed by neither a digit nor `*`, sets the width to the run's value exactly when the run is not empty, and the cursor lands right after it |
| SpecGrammar.PrecisionStage | tinyformat.h:239-252 | a precision part `.N`, `.-N`, `.` or nothing, followed by a letter, sets the precision to N, 0, 0 or leaves it, marks it set exactly when a `.` is written, and the cursor lands right after it |
| SpecGrammar.InterpretsSpelledSpec | tinyformat.h:180-326 | on any spec spelled as flags, width, precision, length modifiers and a conversion letter, the interpreter's result is the spec's meaning: flags applied order-free to the reset state, the width's and precision's values, the conversion's case, base and float field, truncation for `s` with a precision, the zero-filled width emulation for integer conversions with a precision and no width, `n` refused; the cursor is on the conversion letter |
| SpecGrammar.WidthAndPrecisionSpec | tinyformat.h:231-321 | `%w.pd` and the other integer conversions keep the written width w and precision p, with fill ' ', no adjustment, the conversion's base and no extra flags |
| SpecGrammar.PrecisionWithLengthExample | tinyformat.h:239-320 | `%.3ld` skips the length modifier, acts on `d`, and emulates the precision as width 3, internally adjusted and zero-filled, in decimal |
| InterpreterProps.FlagPrecedence | tinyformat.h:205-227 | from a reset state, `-` beats `0` in either order, `+` beats space in either order, `#` sets showbase and showpoint |
| InterpreterProps.FlagOrderIrrelevant | tinyformat.h:198-230 | two flag runs with the same characters configure the stream identically |
| InterpreterProps.IncomingStateIrrelevant | tinyformat.h:184-192 | the interpreter's result depends on the incoming state only through the flags it does not own |
| InterpreterProps.WidthConsumes | tinyformat.h:232-238 | width parsing steps over decimal digits and nothing else, and stays within the string |
| InterpreterProps.PrecisionConsumes | tinyformat.h:240-252 | precision parsing steps over nothing, or over a `.`, an optional `-` right after it, and decimal digits |
| InterpreterProps.InterpreterConsumesSpecChars | tinyformat.h:196-256 | every character the interpreter steps over is neither NUL nor a terminating letter |
| InterpreterProps.CursorStaysInSpan | tinyformat.h:322-324 | with the end from findFormatSpecEnd, the interpreter's cursor stays strictly before it, so it acts on the character at its cursor |
| InterpreterProps.ConversionIsTerminatorIffCursorAtEnd | tinyformat.h:257-260 | with the end from findFormatSpecEnd, the interpreter acts on the span's last character exactly when its cursor has reached it; stopped earlier, it acts on a character that is not that letter |
| InterpreterProps.WidthIsDecimalValue | tinyformat.h:232-236 | a width written as the decimal spelling of n sets the width to n |
| InterpreterProps.PrecisionIsDecimalValue | tinyformat.h:239-321 | `.N` sets precision N; with `s` it asks for truncation; with an integer conversion the width becomes N, internally adjusted and zero-filled |
| InterpreterProps.NegativePrecisionIsZero | tinyformat.h:248-251 | `.-N` sets precision 0 and still counts as set: truncation for `s`, zero width with zero fill for integer conversions |
| InterpreterProps.PlainSpecIsReset | tinyformat.h:184-196 | a bare `s` spec yields the reset state with no extra flags |
| InterpreterProps.UnsupportedFeatures | tinyformat.h:237-309 | `*` as width, `*` after a width, `.*` and `n` are refused with their errors |
| InterpreterProps.ConversionCharCanDiffer | tinyformat.h:258-260 | in `%5#d` the interpreter acts on `#`, not on the span's last character `d` |
| Values.DispatchView | tinyformat.h:465-502 | character types print numerically exactly under `u d i o X x`; otherwise `%c` converts to char and `%p` to `const void*` exactly when the type allows it, and all else prints the value itself |
| Values.FormatValue | tinyformat.h:465-502 | a character type prints as `int` under `u d i o X x` and as itself otherwise; any other type prints as `char` under `c` and as `const void*` under `p` when it converts to them, and as itself otherwise; only the spec's last character is looked at |
| Values.TruncatedLength | tinyformat.h:436-438 | the counted length stops at the first NUL or at the truncation length, whichever comes first |
| Values.FormatCStringTruncate | tinyformat.h:432-441 | writes the prefix of the C string of length min(truncLen, index of the first NUL) |
| Values.TruncatedLengthReadsBelow | tinyformat.h:437 | the counting loop reads no index at or beyond the truncation length |
| Values.CStringTruncateReadsBelow | tinyformat.h:433-441 | memory at or beyond the truncation length never affects the text written |
| ValueDriver.SpacePadPositive | tinyformat.h:549-554 | every `+` of the buffered text becomes a space and no other character changes |
| ValueDriver.RenderBuffered | tinyformat.h:529-560 | with space padding alone, the value rendered with the sign shown, every `+` made a space, then padded; with truncation of a non-C-string, that text (or the plain render) cut to the precision when longer and padded otherwise; with truncation of a C string, its prefix up to the precision, space-padded if asked, then padded |
| ValueDriver.RenderValue | tinyformat.h:527-559 | without extra flags the value is written directly, rendered under the interpreted state in the view the spec's last character selects; with space padding alone it is rendered with the sign shown, every `+` made a space, and padded; with truncation the text is no longer than the precision or the width, and a C string writes its prefix up to the precision |
| ValueDriver.FormatValueBasic | tinyformat.h:514-566 | it fails exactly when the interpreter refuses the spec, with the interpreter's error; on success the text written is exactly the value's text under the interpreted state, appended, and the stream state on return equals the state on entry |
| FormatValueProps.SpacePadLeavesNoPlus | tinyformat.h:537-559 | with space padding of positives the value's text contains no `+` |
| FormatValueProps.TruncationKeepsPrefix | tinyformat.h:537-559 | truncation of a non-C-string keeps exactly the first precision characters of its text when longer, and pads it otherwise; with the space flag too, the text is the render with the sign shown and every `+` made a space |
| FormatValueProps.TruncatedCStringReadsOnlyPrecision | tinyformat.h:537-559 | a truncated C string writes its prefix of at most precision characters, space-padded when the space flag is set, then padded, and memory beyond the precision never affects the output |
| FormatValueProps.TruncatedCStringIgnoresMemoryPastPrecision | tinyformat.h:539-547 | for every truncating spec, whatever its other flags, memory of the C string at or beyond the precision never changes what is written |
| FormatValueProps.DirectPathFollowsInterpreter | tinyformat.h:525-528 | with no extra flags and the cursor on the terminating letter, the value is rendered in the view the interpreter's conversion character selects, under the state it set, and the state is restored |
| FormatValueProps.ZeroPaddedIntExample | tinyformat_test.cpp:31 | `%04d` writes the value as an integer in decimal, width 4, zero-filled after any sign, from a reset state |
| FormatValueProps.TruncatedCStringExample | tinyformat_test.cpp:38 | "asdf" under `%.2s` writes "as" and leaves the stream state unchanged |
| FormatValueProps.SpacePadRewritesInnerPlus | tinyformat.h:549-554 | "a+b" under `% s` comes out as "a b" |
| Sequencer.FormatNoArgs | tinyformat.h:571-576 | writes the remaining literal text; fails with "Too many conversion specifiers" exactly when the scan stops before the end of string |
| Sequencer.Format | tinyformat.h:588-596 | text already written is never taken back, and the stream state on success is the state on entry |
| FormatLayout.FormatStep | tinyformat.h:588-596 | one step: the literal before the next spec is written unescaped, the first value goes under that spec, and the remaining values continue right after it; a refused spec fails after the literal |
| FormatLayout.FormatWritesPieces | tinyformat.h:588-596 | on a string laid out from well-delimited specs with one value per spec, the output is each literal unescaped and then its value under its own spec, in order, then the final literal, with the state restored; a refused spec is a spec error |
| FormatLayout.FormatWritesEveryValue | tinyformat.h:571-596 | the whole call on such a string writes `t0 + R0 + t1 + R1 + ... + last`, each `Ri` the i-th value under the i-th spec |
| FormatLayout.FormatWritesLast | tinyformat.h:571-576 | with no value left and only escaped literal text after the cursor, the call writes that text unescaped and succeeds |
| Results.ReasonIdentifiesError | tinyformat.h:129-130 | the six reason strings the error hook can receive are pairwise distinct, so the hook can tell every error apart |
| SequencerProps.SpecsMatchArguments | tinyformat.h:588-596 | success only with as many specs as values; more values fail with "Not enough", fewer with "Too many", unless a spec is refused first |
| SequencerProps.EscapedTextRendersExactly | tinyformat.h:571-576 | escaped literal text with no values comes out exactly, every `%%` as one `%` |
| SequencerProps.PlainTextIsIdentity | tinyformat.h:571-576 | a string without `%` comes out unchanged when there are no values |
| SequencerProps.SurplusArgumentsFail | tinyformat.h:359-360 | values left when the string is exhausted fail with "Not enough conversion specifiers" after the literal text is written |
| SequencerProps.UnterminatedSpecFails | tinyformat.h:355-374 | a spec with no terminating letter before the end of the string, with values still to format, fails with "Conversion spec incorrectly terminated by end of string" after the literal text before it is written |
| SequencerProps.SurplusSpecFails | tinyformat.h:574-575 | a spec left when the values are exhausted fails with "Too many conversion specifiers" after the literal text is written |
| SequencerProps.TrailingPercent | tinyformat.h:571-576 | a lone trailing `%` is accepted with no value left and is "Not enough conversion specifiers" with one |
| SequencerProps.OneSpecTwoValues | tinyformat_test.cpp:34-36 | `%d` with two values fails with "Not enough conversion specifiers" |

## Left out

- Value rendering by `operator<<` (integers, floats, pointers, user types) is not modelled. It is the `render` field of a `Value`, because it belongs to the standard library and involves floating-point formatting.
- The width reset that `operator<<` performs after an insertion is not modelled. `formatValueBasic` restores the width afterwards anyway.
- `copyfmt` and the `ostringstream` scratch buffer are not modelled. The buffered path formats under the same state, with showpos added for space padding.
- `is_convertible` and `formatValueAsType` (compile-time type probing) are replaced by the `canChar`, `canVoidPtr` and `isCharType` fields. `formatValueAsType`'s unreachable default is not modelled.
- The three character-type overloads of `formatValue` (char, signed char, unsigned char) are folded into the single `isCharType` capability.
- The generic `formatCStringTruncate`, which returns false, is a `Value` whose `cString` is `None`.
- The generated fixed-arity `format` overloads and the `TINYFORMAT_WRAP_FORMAT` macros are not modelled. They repeat the recursive variadic form mechanically.
- The `std::string` and `std::cout` convenience wrappers are not modelled. They are buffer construction and console I/O.
- The `TINYFORMAT_ERROR` configuration is not modelled: every error is terminal. Continuing after an error in NDEBUG builds is not modelled.
- The stream state after an error is not modelled. A throwing error hook leaves it unrestored, and `Run.Failed` carries only the text.
- `int` overflow of `parseIntAndAdvance` on very long digit runs is not modelled, because integers here are unbounded.
- The `assert(c <= fmtEnd)` at tinyformat.h:324 is not an operation. It is proved as `CursorStaysInSpan`.
- The test program's comparison against `sprintf` is not modelled. It is I/O and depends on the C library.
- SpecGrammar.InterpretsSpelledSpec: covers specs whose parts follow the grammar and whose conversion letter lies inside the span. Specs with `*`, with a character the grammar does not allow before the letter (`%5#d`), or cut off by the span's end are covered by `UnsupportedFeatures`, `ConversionCharCanDiffer` and the contract of `StreamStateFromFormat` instead.
- FormatLayout.FormatWritesPieces: covers format strings whose specs are well delimited and whose literals hold no NUL. A spec that runs into the end of the string is covered by `SequencerProps.UnterminatedSpecFails`, surplus specs by `SurplusSpecFails` and surplus values by `SurplusArgumentsFail`. An interior NUL has no lemma of its own: every scan stops at it, because `Chars.At` reads it as the end of the string.
