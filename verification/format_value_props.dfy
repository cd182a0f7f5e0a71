/** Properties of `formatValueBasic`: what the buffered path writes for the
    two extra flags, and that truncated C strings are read only up to the
    precision. */
module FormatValueProps {
  import opened Chars
  import opened Results
  import opened StreamStates
  import opened Interpreter
  import opened Values
  import opened ValueDriver
  import SpecEnd
  import InterpreterProps

  /** With space padding of positives requested, the value's text contains
      no `+` at all: the padding inserted is spaces or zeros, and every `+`
      formatted was rewritten. */
  lemma SpacePadLeavesNoPlus(fmt: string, fmtEnd: nat, a: Applied, v: Value)
    requires 0 < fmtEnd <= |fmt|
    requires a.state.precision >= 0
    requires a.state.fill == ' ' || a.state.fill == '0'
    requires a.extra.spacePadPositive
    ensures '+' !in RenderValue(fmt, fmtEnd, a, v)
  {
    var st := a.state;
    var tmp := st.(showPos := true);
    var result :=
      if a.extra.truncateToPrecision && v.cString.Some?
      then FormatCStringTruncate(v.cString.value, st.precision)
      else FormatValue(fmt, fmtEnd, tmp, v);
    var padded := SpacePadPositive(result);
    if !(a.extra.truncateToPrecision && |padded| > st.precision) {
      var r := InsertString(padded, st);
      if st.adjust == Left {
        assert forall k :: 0 <= k < |padded| ==> r[k] == padded[k] by {
          assert r[..|padded|] == padded;
        }
      } else {
        assert forall k :: |r| - |padded| <= k < |r| ==> r[k] == padded[k - (|r| - |padded|)] by {
          assert r[|r| - |padded|..] == padded;
        }
      }
      assert forall k :: 0 <= k < |r| ==> r[k] != '+';
    } else {
      assert forall k :: 0 <= k < st.precision ==> padded[..st.precision][k] == padded[k];
    }
  }

  /** Truncation of a value that is not a C string keeps exactly the first
      `precision` characters of its formatted text when that text is longer,
      and pads it like any string otherwise. */
  lemma TruncationKeepsPrefix(fmt: string, fmtEnd: nat, a: Applied, v: Value)
    requires 0 < fmtEnd <= |fmt|
    requires a.state.precision >= 0
    requires a.extra.truncateToPrecision && v.cString.None?
    ensures var text := if a.extra.spacePadPositive
                        then SpacePadPositive(FormatValue(fmt, fmtEnd, a.state.(showPos := true), v))
                        else FormatValue(fmt, fmtEnd, a.state, v);
      var r := RenderValue(fmt, fmtEnd, a, v);
      && (|text| > a.state.precision ==> |r| == a.state.precision && r == text[..a.state.precision])
      && (|text| <= a.state.precision ==> r == InsertString(text, a.state))
  {
  }

  /** A truncated C string writes at most `precision` characters of the
      string, padded to the width, and what lies in memory at or beyond the
      precision never affects the output. */
  lemma {:induction false} TruncatedCStringReadsOnlyPrecision(out: Stream, fmt: string, fmtBegin: nat, fmtEnd: nat,
                                                              v: Value, mem2: nat -> char)
    requires fmtBegin <= |fmt| && 0 < fmtEnd <= |fmt|
    requires v.cString.Some?
    requires var a := StreamStateFromFormat(fmt, fmtBegin, fmtEnd, out.state);
      && a.Ok? && a.value.extra.truncateToPrecision
      && forall k: nat :: k < a.value.state.precision ==> v.cString.value(k) == mem2(k)
    ensures var a := StreamStateFromFormat(fmt, fmtBegin, fmtEnd, out.state).value;
      var prefix := FormatCStringTruncate(v.cString.value, a.state.precision);
      var shown := if a.extra.spacePadPositive then SpacePadPositive(prefix) else prefix;
      && |prefix| <= a.state.precision
      && FormatValueBasic(out, fmt, fmtBegin, fmtEnd, v)
         == Ok(Stream(out.text + InsertString(shown, a.state), out.state))
      && FormatValueBasic(out, fmt, fmtBegin, fmtEnd, v)
         == FormatValueBasic(out, fmt, fmtBegin, fmtEnd, v.(cString := Some(mem2)))
  {
    var a := StreamStateFromFormat(fmt, fmtBegin, fmtEnd, out.state).value;
    CStringTruncateReadsBelow(v.cString.value, mem2, a.state.precision);
  }

  /** Without extra flags a value is written directly: rendered under the
      interpreted state, in the view chosen by the conversion character the
      interpreter acted on, whenever that character is the spec's last. */
  lemma DirectPathFollowsInterpreter(out: Stream, fmt: string, fmtBegin: nat, v: Value)
    requires fmtBegin <= |fmt|
    requires var e := SpecEnd.FindFormatSpecEnd(fmt, fmtBegin);
      && e.Ok?
      && var a := StreamStateFromFormat(fmt, fmtBegin, e.value, out.state);
      && a.Ok? && !a.value.extra.Any() && a.value.cursor == e.value - 1
    ensures var e := SpecEnd.FindFormatSpecEnd(fmt, fmtBegin).value;
      var a := StreamStateFromFormat(fmt, fmtBegin, e, out.state).value;
      FormatValueBasic(out, fmt, fmtBegin, e, v)
      == Ok(Stream(out.text + v.render(DispatchView(v, a.conv), a.state), out.state))
  {
    InterpreterProps.ConversionIsTerminatorIffCursorAtEnd(fmt, fmtBegin, out.state);
  }

  /** `%04d`: the value is written directly, as an integer in decimal, to
      width 4 with zeros inserted after any sign. */
  lemma ZeroPaddedIntExample(out: Stream, v: Value)
    ensures var st := ResetState(out.state).(width := 4, fill := '0', adjust := Internal, base := Dec);
      FormatValueBasic(out, "04d", 0, 3, v)
      == Ok(Stream(out.text + v.render(DispatchView(v, 'd'), st), out.state))
  {
    var a := StreamStateFromFormat("04d", 0, 3, out.state);
    assert a.Ok?;
  }

  /** However the spec is flagged, a truncated C string is read only below
      the precision: memory at or beyond it never changes what is written. */
  lemma TruncatedCStringIgnoresMemoryPastPrecision(out: Stream, fmt: string, fmtBegin: nat, fmtEnd: nat,
                                                   v: Value, mem2: nat -> char)
    requires fmtBegin <= |fmt| && 0 < fmtEnd <= |fmt|
    requires v.cString.Some?
    requires var a := StreamStateFromFormat(fmt, fmtBegin, fmtEnd, out.state);
      && a.Ok? && a.value.extra.truncateToPrecision
      && forall k: nat :: k < a.value.state.precision ==> v.cString.value(k) == mem2(k)
    ensures FormatValueBasic(out, fmt, fmtBegin, fmtEnd, v)
         == FormatValueBasic(out, fmt, fmtBegin, fmtEnd, v.(cString := Some(mem2)))
  {
    var a := StreamStateFromFormat(fmt, fmtBegin, fmtEnd, out.state).value;
    CStringTruncateReadsBelow(v.cString.value, mem2, a.state.precision);
  }

  /** The C string "asdf" under `%.2s` writes "as" and leaves the stream
      state as it was. */
  lemma TruncatedCStringExample(out: Stream, render: (View, StreamState) -> string)
    ensures var mem := (k: nat) => if k < 4 then "asdf"[k] else NUL;
      var v := Value(false, false, true, Some(mem), render);
      FormatValueBasic(out, ".2s", 0, 3, v) == Ok(Stream(out.text + "as", out.state))
  {
    var mem := (k: nat) => if k < 4 then "asdf"[k] else NUL;
    var a := StreamStateFromFormat(".2s", 0, 3, out.state);
    assert Decimal.ParseIntAndAdvance(".2s", 1).next == 2 by {
      var p := Decimal.ParseIntAndAdvance(".2s", 1);
      assert ".2s"[1..p.next] == ".2s"[1..][..p.next - 1];
    }
    assert a.Ok? && a.value.state.precision == 2 && a.value.extra == ExtraFlags(true, false);
    assert TruncatedLength(mem, 2, 2) == 2;
    assert FormatCStringTruncate(mem, 2) == "as";
  }

  /** Space padding rewrites every `+` of the formatted text, not only a
      leading sign: a string "a+b" under `% s` comes out as "a b". */
  lemma SpacePadRewritesInnerPlus(out: Stream)
    ensures var v := Value(false, false, false, None, (view, st) => "a+b");
      FormatValueBasic(out, " s", 0, 2, v) == Ok(Stream(out.text + "a b", out.state))
  {
    var a := StreamStateFromFormat(" s", 0, 2, out.state);
    assert a.Ok? && a.value.extra == ExtraFlags(false, true) && a.value.state.width == 0;
    assert SpacePadPositive("a+b") == "a b";
  }
}
