/** `streamStateFromFormat`: interpreting one conversion spec
    `%[flags][width][.precision][length]conv` as a stream state plus extra
    flags. The spec occupies `s[start..end)`; like the source, the
    interpreter reads the string through its own cursor, which stays inside
    the span when `end` comes from `findFormatSpecEnd`. */
module Interpreter {
  import opened Chars
  import opened Results
  import opened Decimal
  import opened StreamStates

  // ---------------------------------------------------------------- flags

  /** The effect of a run of flag characters, stated by which flags occur in
      it and not in what order: `-` wins over `0`, `+` wins over space, and
      `0` has no effect on a state that is already left-adjusted. */
  function ApplyFlags(st: StreamState, x: ExtraFlags, flags: string): (StreamState, ExtraFlags)
  {
    var left := '-' in flags;
    var zero := '0' in flags && st.adjust != Left;
    var st' := st.(
      showBase := st.showBase || '#' in flags,
      showPoint := st.showPoint || '#' in flags,
      fill := if left then ' ' else if zero then '0' else st.fill,
      adjust := if left then Left else if zero then Internal else st.adjust,
      showPos := st.showPos || '+' in flags);
    var x' := x.(spacePadPositive :=
      if '+' in flags then false else x.spacePadPositive || (' ' in flags && !st.showPos));
    (st', x')
  }

  datatype FlagsParsed = FlagsParsed(state: StreamState, extra: ExtraFlags, next: nat)

  /** The effect of one flag character, as the body of the source's switch:
      the order-free effect of the one-character run, and no effect for a
      character that is not a flag. */
  function FlagStep(st: StreamState, x: ExtraFlags, ch: char): (r: (StreamState, ExtraFlags))
    ensures r == ApplyFlags(st, x, [ch])
    ensures !IsFlagChar(ch) ==> r == (st, x)
  {
    match ch
    case '#' => (st.(showPoint := true, showBase := true), x)
    case '0' => (if st.adjust != Left then st.(fill := '0', adjust := Internal) else st, x)
    case '-' => (st.(fill := ' ', adjust := Left), x)
    case ' ' => (st, if !st.showPos then x.(spacePadPositive := true) else x)
    case '+' => (st.(showPos := true), x.(spacePadPositive := false))
    case _ => (st, x)
  }

  /** Step 1 of the source: the flag loop, one character at a time. */
  function ParseFlags(s: string, c: nat, st: StreamState, x: ExtraFlags): (r: FlagsParsed)
    requires c <= |s|
    ensures c <= r.next <= |s|
    ensures forall k :: c <= k < r.next ==> IsFlagChar(s[k])
    ensures !IsFlagChar(At(s, r.next))
    decreases |s| - c
  {
    if IsFlagChar(At(s, c)) then
      var (st', x') := FlagStep(st, x, s[c]);
      ParseFlags(s, c + 1, st', x')
    else
      FlagsParsed(st, x, c)
  }

  /** Applying one flag and then a run is applying the whole run at once. */
  lemma FlagStepThenFlags(st: StreamState, x: ExtraFlags, ch: char, rest: string)
    requires IsFlagChar(ch)
    ensures var (st', x') := FlagStep(st, x, ch);
      ApplyFlags(st', x', rest) == ApplyFlags(st, x, [ch] + rest)
  {
    var flags := [ch] + rest;
    assert forall f :: f in flags <==> f == ch || f in rest;
  }

  /** The flag loop computes the order-free effect of the flags it consumed:
      whatever the order, `-` beats `0` and `+` beats space. */
  lemma {:induction false} ParseFlagsEffect(s: string, c: nat, st: StreamState, x: ExtraFlags)
    requires c <= |s|
    ensures var r := ParseFlags(s, c, st, x);
      (r.state, r.extra) == ApplyFlags(st, x, s[c..r.next])
    decreases |s| - c
  {
    var r := ParseFlags(s, c, st, x);
    if IsFlagChar(At(s, c)) {
      var (st', x') := FlagStep(st, x, s[c]);
      ParseFlagsEffect(s, c + 1, st', x');
      FlagStepThenFlags(st, x, s[c], s[c + 1..r.next]);
      assert s[c..r.next] == [s[c]] + s[c + 1..r.next];
    } else {
      assert s[c..r.next] == [];
    }
  }

  // ------------------------------------------------- width and precision

  datatype WidthParsed = WidthParsed(state: StreamState, widthSet: bool, next: nat)

  /** Step 2: a digit run sets the width to its base-10 value; a `*` right
      after it (or in its place) is the unsupported variable width. */
  function ParseWidth(s: string, c: nat, st: StreamState): (r: Result<WidthParsed>)
    requires c <= |s|
    ensures r.Err? <==> At(s, ParseIntAndAdvance(s, c).next) == '*'
    ensures r.Err? ==> r.error == VariableWidth
    ensures r.Ok? ==> r.value.next == ParseIntAndAdvance(s, c).next
    ensures r.Ok? ==> (r.value.widthSet <==> IsDigit(At(s, c)))
    ensures r.Ok? && r.value.widthSet ==>
              r.value.state == st.(width := DecimalValue(s[c..r.value.next]))
    ensures r.Ok? && !r.value.widthSet ==> r.value.state == st && r.value.next == c
  {
    var widthSet := IsDigit(At(s, c));
    var p := ParseIntAndAdvance(s, c);
    var st' := if widthSet then st.(width := p.value) else st;
    if At(s, p.next) == '*' then Err(VariableWidth)
    else Ok(WidthParsed(st', widthSet, p.next))
  }

  datatype PrecisionParsed = PrecisionParsed(state: StreamState, precisionSet: bool, next: nat)

  /** Step 3: `.` followed by digits sets the precision to their value, `.`
      alone sets it to 0, and `.-N` consumes the digits of N and sets it to 0;
      any `.` marks the precision as set. `.*` is the unsupported variable
      precision. */
  function ParsePrecision(s: string, c: nat, st: StreamState): (r: Result<PrecisionParsed>)
    requires c <= |s|
    ensures r.Err? <==> At(s, c) == '.' && At(s, c + 1) == '*'
    ensures r.Err? ==> r.error == VariablePrecision
    ensures r.Ok? ==> (r.value.precisionSet <==> At(s, c) == '.')
    ensures r.Ok? ==> c <= r.value.next <= |s|
    ensures r.Ok? && !r.value.precisionSet ==> r.value.state == st && r.value.next == c
    ensures r.Ok? && r.value.precisionSet && IsDigit(At(s, c + 1)) ==>
              && r.value.next == ParseIntAndAdvance(s, c + 1).next
              && r.value.state == st.(precision := DecimalValue(s[c + 1..r.value.next]))
    ensures r.Ok? && r.value.precisionSet && At(s, c + 1) == '-' ==>
              && r.value.next == ParseIntAndAdvance(s, c + 2).next
              && r.value.state == st.(precision := 0)
    ensures r.Ok? && r.value.precisionSet && !IsDigit(At(s, c + 1)) && At(s, c + 1) != '-' ==>
              && r.value.next == c + 1
              && r.value.state == st.(precision := 0)
  {
    if At(s, c) != '.' then
      Ok(PrecisionParsed(st, false, c))
    else if At(s, c + 1) == '*' then
      Err(VariablePrecision)
    else if IsDigit(At(s, c + 1)) then
      var p := ParseIntAndAdvance(s, c + 1);
      Ok(PrecisionParsed(st.(precision := p.value), true, p.next))
    else if At(s, c + 1) == '-' then
      var p := ParseIntAndAdvance(s, c + 2);
      Ok(PrecisionParsed(st.(precision := 0), true, p.next))
    else
      Ok(PrecisionParsed(st.(precision := 0), true, c + 1))
  }

  /** Step 4: the C99 length modifiers are skipped. */
  function SkipLengthModifiers(s: string, c: nat): (r: nat)
    requires c <= |s|
    ensures c <= r <= |s|
    ensures forall k :: c <= k < r ==> IsLengthModifier(s[k])
    ensures !IsLengthModifier(At(s, r))
    decreases |s| - c
  {
    if IsLengthModifier(At(s, c)) then SkipLengthModifiers(s, c + 1) else c
  }

  // ------------------------------------------------- conversion character

  /** The conversions the source treats as integer conversions. */
  predicate IsIntConversion(conv: char)
  {
    conv == 'u' || conv == 'd' || conv == 'i' || conv == 'o' || conv == 'X' || conv == 'x' || conv == 'p'
  }

  predicate IsDecimalConversion(conv: char)
  {
    conv == 'u' || conv == 'd' || conv == 'i' || conv == 'e' || conv == 'E' || conv == 'g' || conv == 'G'
  }

  predicate IsHexConversion(conv: char)
  {
    conv == 'x' || conv == 'X' || conv == 'p'
  }

  predicate IsUpperCaseConversion(conv: char)
  {
    conv == 'X' || conv == 'E' || conv == 'F' || conv == 'G'
  }

  /** The switch on the conversion character, where `X E F G` set
      `uppercase` and fall through to the case of their lower-case letter. */
  function ConversionFlags(conv: char, st: StreamState): (r: StreamState)
    ensures r.uppercase == (st.uppercase || IsUpperCaseConversion(conv))
    ensures r.base == (if IsDecimalConversion(conv) then Dec
                       else if conv == 'o' then Oct
                       else if IsHexConversion(conv) then Hex
                       else st.base)
    ensures r.floatField == (if conv == 'e' || conv == 'E' then Scientific
                             else if conv == 'f' || conv == 'F' then Fixed
                             else if conv == 'g' || conv == 'G' then FloatNone
                             else st.floatField)
    ensures r == st.(uppercase := r.uppercase, base := r.base, floatField := r.floatField)
  {
    var upper := if IsUpperCaseConversion(conv) then st.(uppercase := true) else st;
    var lower := match conv
      case 'X' => 'x'
      case 'E' => 'e'
      case 'F' => 'f'
      case 'G' => 'g'
      case _ => conv;
    match lower
    case 'u' => upper.(base := Dec)
    case 'd' => upper.(base := Dec)
    case 'i' => upper.(base := Dec)
    case 'o' => upper.(base := Oct)
    case 'x' => upper.(base := Hex)
    case 'p' => upper.(base := Hex)
    case 'e' => upper.(floatField := Scientific, base := Dec)
    case 'f' => upper.(floatField := Fixed)
    case 'g' => upper.(base := Dec, floatField := FloatNone)
    case _ => upper
  }

  datatype Configured = Configured(state: StreamState, extra: ExtraFlags)

  /** Step 5: the conversion character's flags, `%n` rejected, truncation
      requested for `%s` with a precision, and the precision of an integer
      conversion without a width emulated as a zero-filled, internally
      adjusted width. */
  function ApplyConversion(conv: char, st: StreamState, x: ExtraFlags,
                           precisionSet: bool, widthSet: bool): (r: Result<Configured>)
    ensures r.Err? <==> conv == 'n'
    ensures r.Err? ==> r.error == WriteBackConversion
    ensures r.Ok? ==> r.value.state.uppercase == (st.uppercase || IsUpperCaseConversion(conv))
    ensures r.Ok? ==> r.value.state.base == ConversionFlags(conv, st).base
    ensures r.Ok? ==> r.value.state.floatField == ConversionFlags(conv, st).floatField
    ensures r.Ok? ==>
              (r.value.extra.truncateToPrecision <==> x.truncateToPrecision || (conv == 's' && precisionSet))
    ensures r.Ok? ==> r.value.extra.spacePadPositive == x.spacePadPositive
    ensures r.Ok? && IsIntConversion(conv) && precisionSet && !widthSet ==>
              && r.value.state.width == st.precision
              && r.value.state.adjust == Internal
              && r.value.state.fill == '0'
    ensures r.Ok? && !(IsIntConversion(conv) && precisionSet && !widthSet) ==>
              && r.value.state.width == st.width
              && r.value.state.adjust == st.adjust
              && r.value.state.fill == st.fill
    ensures r.Ok? ==> && r.value.state.precision == st.precision
                      && r.value.state.showBase == st.showBase
                      && r.value.state.showPoint == st.showPoint
                      && r.value.state.showPos == st.showPos
                      && r.value.state.otherFlags == st.otherFlags
    ensures conv == 'a' || conv == 'A' || conv == 'c' ==> r == Ok(Configured(st, x))
  {
    if conv == 'n' then
      Err(WriteBackConversion)
    else
      var st1 := ConversionFlags(conv, st);
      var x1 := if conv == 's' && precisionSet then x.(truncateToPrecision := true) else x;
      var st2 := if IsIntConversion(conv) && precisionSet && !widthSet
                 then st1.(width := st1.precision, adjust := Internal, fill := '0')
                 else st1;
      Ok(Configured(st2, x1))
  }

  // ------------------------------------------------------ the whole spec

  /** The outcome of interpreting one spec: the stream state, the extra
      flags, the interpreter's final cursor and the conversion character it
      acted on. */
  datatype Applied = Applied(state: StreamState, extra: ExtraFlags, cursor: nat, conv: char)

  /** streamStateFromFormat: reset the state, then flags, width, precision,
      length modifiers and the conversion character, in that order. The
      conversion character is the one at the cursor, or `s` when the cursor
      has reached `end`. */
  function StreamStateFromFormat(s: string, start: nat, end: nat, st: StreamState): (r: Result<Applied>)
    requires start <= |s|
    ensures r.Err? ==> IsSpecError(r.error)
    ensures r.Ok? ==> start <= r.value.cursor <= |s|
    ensures r.Ok? ==> r.value.conv == (if r.value.cursor < end then At(s, r.value.cursor) else 's')
    ensures r.Ok? ==> r.value.state.precision >= 0
    ensures r.Ok? ==> r.value.state.fill == ' ' || r.value.state.fill == '0'
    ensures r.Ok? ==> r.value.state.otherFlags == st.otherFlags
  {
    var f := ParseFlags(s, start, ResetState(st), NoExtraFlags);
    ParseFlagsEffect(s, start, ResetState(st), NoExtraFlags);
    var w :- ParseWidth(s, f.next, f.state);
    var p :- ParsePrecision(s, w.next, w.state);
    var c := SkipLengthModifiers(s, p.next);
    var conv := if c < end then At(s, c) else 's';
    var a :- ApplyConversion(conv, p.state, f.extra, p.precisionSet, w.widthSet);
    Ok(Applied(a.state, a.extra, c, conv))
  }
}
