/** `formatValueBasic`: formatting one value under one conversion spec, with
    the stream state saved before and restored after, and the buffered path
    that emulates truncation and space padding of positive numbers. */
module ValueDriver {
  import opened Results
  import opened StreamStates
  import opened Interpreter
  import opened Values

  /** The output sink: the text written so far and the stream's state. */
  datatype Stream = Stream(text: string, state: StreamState)

  /** Space padding of positives: every `+` of the buffered text becomes a
      space, wherever it occurs. */
  function SpacePadPositive(text: string): (r: string)
    ensures |r| == |text|
    ensures '+' !in r
    ensures forall k :: 0 <= k < |r| && text[k] != '+' ==> r[k] == text[k]
    ensures forall k :: 0 <= k < |r| && text[k] == '+' ==> r[k] == ' '
  {
    seq(|text|, k requires 0 <= k < |text| => if text[k] == '+' then ' ' else text[k])
  }

  /** The text the buffered path writes: the value formatted into a scratch
      stream with the same state (and the sign shown when padding
      positives), or a C string cut at the precision; then every `+` turned
      into a space if requested; then written raw cut to the precision when
      truncating and longer than it, and inserted with padding otherwise. */
  function RenderBuffered(fmt: string, fmtEnd: nat, a: Applied, v: Value): (r: string)
    requires 0 < fmtEnd <= |fmt|
    requires a.state.precision >= 0
    ensures a.extra.spacePadPositive && !a.extra.truncateToPrecision ==>
              r == InsertString(SpacePadPositive(PositiveShown(fmt, fmtEnd, a, v)), a.state)
    ensures a.extra.truncateToPrecision && v.cString.None? ==>
              var text := if a.extra.spacePadPositive then SpacePadPositive(PositiveShown(fmt, fmtEnd, a, v))
                          else v.render(DispatchView(v, fmt[fmtEnd - 1]), a.state);
              && (|text| > a.state.precision ==> r == text[..a.state.precision])
              && (|text| <= a.state.precision ==> r == InsertString(text, a.state))
    ensures a.extra.truncateToPrecision && v.cString.Some? ==>
              var prefix := FormatCStringTruncate(v.cString.value, a.state.precision);
              r == InsertString(if a.extra.spacePadPositive then SpacePadPositive(prefix) else prefix, a.state)
  {
    var st := a.state;
    var tmp := if a.extra.spacePadPositive then st.(showPos := true) else st;
    var result :=
      if a.extra.truncateToPrecision && v.cString.Some?
      then FormatCStringTruncate(v.cString.value, st.precision)
      else FormatValue(fmt, fmtEnd, tmp, v);
    var padded := if a.extra.spacePadPositive then SpacePadPositive(result) else result;
    if a.extra.truncateToPrecision && |padded| > st.precision then padded[..st.precision]
    else InsertString(padded, st)
  }

  /** The value rendered as formatValue renders it into the scratch stream
      when padding positives: under the interpreted state with the sign of
      positive numbers shown. */
  function PositiveShown(fmt: string, fmtEnd: nat, a: Applied, v: Value): string
    requires 0 < fmtEnd <= |fmt|
  {
    v.render(DispatchView(v, fmt[fmtEnd - 1]), a.state.(showPos := true))
  }

  /** The text one value contributes: direct formatting when no extra flag
      is set, the buffered path otherwise. Without extra flags the value is
      rendered under the interpreted state, in the view its spec's last
      character selects; with truncation the text never exceeds the larger
      of width and precision. */
  function RenderValue(fmt: string, fmtEnd: nat, a: Applied, v: Value): (r: string)
    requires 0 < fmtEnd <= |fmt|
    requires a.state.precision >= 0
    ensures !a.extra.Any() ==> r == v.render(DispatchView(v, fmt[fmtEnd - 1]), a.state)
    ensures a.extra == ExtraFlags(false, true) ==>
              r == InsertString(SpacePadPositive(PositiveShown(fmt, fmtEnd, a, v)), a.state)
    ensures a.extra.truncateToPrecision ==>
              |r| <= a.state.precision || |r| <= a.state.width
    ensures a.extra.truncateToPrecision && v.cString.Some? ==>
              var prefix := FormatCStringTruncate(v.cString.value, a.state.precision);
              r == InsertString(if a.extra.spacePadPositive then SpacePadPositive(prefix) else prefix, a.state)
  {
    if !a.extra.Any() then FormatValue(fmt, fmtEnd, a.state, v)
    else RenderBuffered(fmt, fmtEnd, a, v)
  }

  /** formatValueBasic: save the stream state, interpret the spec
      `fmt[fmtBegin..fmtEnd)`, write the value, restore the state. A spec the
      interpreter refuses writes nothing. */
  function FormatValueBasic(out: Stream, fmt: string, fmtBegin: nat, fmtEnd: nat, v: Value): (r: Result<Stream>)
    requires fmtBegin <= |fmt| && 0 < fmtEnd <= |fmt|
    ensures r.Err? <==> StreamStateFromFormat(fmt, fmtBegin, fmtEnd, out.state).Err?
    ensures r.Err? ==> r.error == StreamStateFromFormat(fmt, fmtBegin, fmtEnd, out.state).error
    ensures r.Err? ==> IsSpecError(r.error)
    ensures r.Ok? ==> r.value.state == out.state
    ensures r.Ok? ==> out.text <= r.value.text
    ensures r.Ok? ==>
              r.value.text == out.text + RenderValue(fmt, fmtEnd, StreamStateFromFormat(fmt, fmtBegin, fmtEnd, out.state).value, v)
  {
    var saved := out.state;
    var a :- StreamStateFromFormat(fmt, fmtBegin, fmtEnd, out.state);
    var written := RenderValue(fmt, fmtEnd, a, v);
    Ok(Stream(out.text + written, saved))
  }
}
