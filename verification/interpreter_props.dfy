/** Properties of the spec interpreter: how flags combine, how width and
    precision are read, what the conversion character does, and that the
    interpreter stays inside the span `findFormatSpecEnd` delimits. */
module InterpreterProps {
  import opened Chars
  import opened Results
  import opened Decimal
  import opened StreamStates
  import opened Interpreter
  import SpecEnd

  /** Whatever their order, `-` beats `0` (left adjustment, space fill) and
      `+` beats space (sign shown, no space padding); `#` shows base and
      point. The flags are parsed from a freshly reset state. */
  lemma FlagPrecedence(s: string, c: nat, st: StreamState)
    requires c <= |s|
    ensures var r := ParseFlags(s, c, ResetState(st), NoExtraFlags);
      var run := s[c..r.next];
      && ('-' in run ==> r.state.adjust == Left && r.state.fill == ' ')
      && ('0' in run && '-' !in run ==> r.state.adjust == Internal && r.state.fill == '0')
      && ('0' !in run && '-' !in run ==> r.state.adjust == AdjustNone && r.state.fill == ' ')
      && (r.state.showPos <==> '+' in run)
      && (r.extra.spacePadPositive <==> ' ' in run && '+' !in run)
      && (r.state.showBase <==> '#' in run)
      && (r.state.showPoint <==> '#' in run)
      && !r.extra.truncateToPrecision
  {
    ParseFlagsEffect(s, c, ResetState(st), NoExtraFlags);
  }

  /** Two flag runs made of the same characters, in any order and with any
      repetitions, configure the stream identically. */
  lemma FlagOrderIrrelevant(s1: string, c1: nat, s2: string, c2: nat, st: StreamState, x: ExtraFlags)
    requires c1 <= |s1| && c2 <= |s2|
    requires var r1 := ParseFlags(s1, c1, st, x);
             var r2 := ParseFlags(s2, c2, st, x);
             forall ch :: ch in s1[c1..r1.next] <==> ch in s2[c2..r2.next]
    ensures var r1 := ParseFlags(s1, c1, st, x);
            var r2 := ParseFlags(s2, c2, st, x);
            r1.state == r2.state && r1.extra == r2.extra
  {
    ParseFlagsEffect(s1, c1, st, x);
    ParseFlagsEffect(s2, c2, st, x);
  }

  /** The incoming stream state matters only through the flags the
      interpreter does not own: everything else is reset first. */
  lemma IncomingStateIrrelevant(s: string, start: nat, end: nat, st1: StreamState, st2: StreamState)
    requires start <= |s|
    requires st1.otherFlags == st2.otherFlags
    ensures StreamStateFromFormat(s, start, end, st1) == StreamStateFromFormat(s, start, end, st2)
  {
    assert ResetState(st1) == ResetState(st2);
  }

  /** The width stage steps over decimal digits and nothing else. */
  lemma WidthConsumes(s: string, c: nat, st: StreamState)
    requires c <= |s|
    ensures var r := ParseWidth(s, c, st);
      r.Ok? ==> && c <= r.value.next <= |s|
                && (forall k :: c <= k < r.value.next ==> IsDigit(s[k]))
                && InsideSpec(s, c, r.value.next)
  {
    var p := ParseIntAndAdvance(s, c);
    assert forall k :: c <= k < p.next ==> s[k] == s[c..p.next][k - c];
  }

  /** The precision stage steps over nothing, or over a `.`, an optional
      `-` right after it, and decimal digits. */
  lemma PrecisionConsumes(s: string, c: nat, st: StreamState)
    requires c <= |s|
    ensures var r := ParsePrecision(s, c, st);
      r.Ok? ==> && c <= r.value.next <= |s|
                && (r.value.next > c ==> s[c] == '.')
                && (forall k :: c + 1 <= k < r.value.next ==>
                      IsDigit(s[k]) || (k == c + 1 && s[k] == '-'))
                && InsideSpec(s, c, r.value.next)
  {
    var r := ParsePrecision(s, c, st);
    if r.Ok? && r.value.precisionSet {
      if IsDigit(At(s, c + 1)) {
        var p := ParseIntAndAdvance(s, c + 1);
        assert forall k :: c + 1 <= k < p.next ==> s[k] == s[c + 1..p.next][k - c - 1];
      } else if At(s, c + 1) == '-' {
        var p := ParseIntAndAdvance(s, c + 2);
        assert forall k :: c + 2 <= k < p.next ==> s[k] == s[c + 2..p.next][k - c - 2];
      }
    }
  }

  /** Everything the interpreter steps over is a character a spec may hold
      before its terminating letter. */
  lemma InterpreterConsumesSpecChars(s: string, start: nat, end: nat, st: StreamState)
    requires start <= |s|
    ensures var r := StreamStateFromFormat(s, start, end, st);
      r.Ok? ==> InsideSpec(s, start, r.value.cursor)
  {
    var f := ParseFlags(s, start, ResetState(st), NoExtraFlags);
    var w := ParseWidth(s, f.next, f.state);
    WidthConsumes(s, f.next, f.state);
    if w.Ok? {
      var p := ParsePrecision(s, w.value.next, w.value.state);
      PrecisionConsumes(s, w.value.next, w.value.state);
    }
  }

  /** The interpreter's cursor never passes the end `findFormatSpecEnd`
      returns; it stops at or before the terminating letter, so the
      conversion character it acts on is the character at its cursor. */
  lemma {:induction false} CursorStaysInSpan(s: string, start: nat, st: StreamState)
    requires start <= |s|
    ensures var e := SpecEnd.FindFormatSpecEnd(s, start);
      e.Ok? ==>
        var r := StreamStateFromFormat(s, start, e.value, st);
        r.Ok? ==> && r.value.cursor < e.value
                  && r.value.conv == s[r.value.cursor]
  {
    var e := SpecEnd.FindFormatSpecEnd(s, start);
    if e.Ok? {
      var r := StreamStateFromFormat(s, start, e.value, st);
      InterpreterConsumesSpecChars(s, start, e.value, st);
      if r.Ok? {
        assert IsSpecTerminator(s[e.value - 1]);
        assert r.value.cursor <= e.value - 1;
      }
    }
  }

  /** The interpreter acts on the letter that ends the span exactly when its
      cursor reaches that letter; stopped earlier (as at `#` in `5#d`), it
      acts on a character that is never the terminating letter. */
  lemma {:induction false} ConversionIsTerminatorIffCursorAtEnd(s: string, start: nat, st: StreamState)
    requires start <= |s|
    ensures var e := SpecEnd.FindFormatSpecEnd(s, start);
      e.Ok? ==>
        var r := StreamStateFromFormat(s, start, e.value, st);
        r.Ok? ==> (r.value.conv == s[e.value - 1] <==> r.value.cursor == e.value - 1)
  {
    var e := SpecEnd.FindFormatSpecEnd(s, start);
    if e.Ok? {
      var r := StreamStateFromFormat(s, start, e.value, st);
      CursorStaysInSpan(s, start, st);
      if r.Ok? && r.value.cursor < e.value - 1 {
        assert !IsSpecTerminator(s[r.value.cursor]);
      }
    }
  }

  /** A width written as a decimal number sets the width to that number. */
  lemma WidthIsDecimalValue(n: nat, conv: char, st: StreamState)
    requires n >= 1 && IsSpecTerminator(conv) && conv != 'n'
    ensures var s := ToDecimal(n) + [conv];
      var r := StreamStateFromFormat(s, 0, |s|, st);
      && r.Ok?
      && r.value.state.width == n
      && r.value.conv == conv
  {
    var d := ToDecimal(n);
    var s := d + [conv];
    ParseToDecimalRoundTrip(n, [conv]);
    assert s[0..|d|] == d;
    assert At(s, |d|) == conv;
  }

  /** `.N` sets the precision to N and marks it set: `%.Ns` asks for
      truncation, and an integer conversion turns the precision into a
      zero-filled, internally adjusted width. */
  lemma PrecisionIsDecimalValue(n: nat, conv: char, st: StreamState)
    requires IsSpecTerminator(conv) && conv != 'n'
    ensures var s := "." + ToDecimal(n) + [conv];
      var r := StreamStateFromFormat(s, 0, |s|, st);
      && r.Ok?
      && r.value.state.precision == n
      && r.value.conv == conv
      && (conv == 's' ==> r.value.extra.truncateToPrecision)
      && (IsIntConversion(conv) ==>
            r.value.state.width == n && r.value.state.adjust == Internal && r.value.state.fill == '0')
  {
    var d := ToDecimal(n);
    var s := "." + d + [conv];
    assert s[1..] == d + [conv];
    ParseToDecimalRoundTrip(n, [conv]);
    assert ParseIntAndAdvance(s, 1) == Parsed(n, 1 + |d|) by {
      assert s[1..1 + |d|] == d;
      assert At(s, 1 + |d|) == conv;
      assert forall k :: 0 <= k < |d| ==> s[1 + k] == d[k];
      var p := ParseIntAndAdvance(s, 1);
      assert p.next == 1 + |d| by {
        assert forall k :: 1 <= k < p.next ==> IsDigit(s[k]) by {
          forall k | 1 <= k < p.next
            ensures IsDigit(s[k])
          {
            assert s[1..p.next][k - 1] == s[k];
          }
        }
      }
    }
    assert At(s, 1 + |d|) == conv;
  }

  /** `.-N` consumes the digits of N, sets the precision to 0 and still
      counts as a precision. */
  lemma NegativePrecisionIsZero(n: nat, conv: char, st: StreamState)
    requires IsSpecTerminator(conv) && conv != 'n'
    ensures var s := ".-" + ToDecimal(n) + [conv];
      var r := StreamStateFromFormat(s, 0, |s|, st);
      && r.Ok?
      && r.value.state.precision == 0
      && r.value.conv == conv
      && (conv == 's' ==> r.value.extra.truncateToPrecision)
      && (IsIntConversion(conv) ==>
            r.value.state.width == 0 && r.value.state.adjust == Internal && r.value.state.fill == '0')
  {
    var d := ToDecimal(n);
    var s := ".-" + d + [conv];
    var p := ParseIntAndAdvance(s, 2);
    assert p.next == 2 + |d| by {
      assert forall k :: 0 <= k < |d| ==> s[2 + k] == d[k];
      assert At(s, 2 + |d|) == conv;
      assert forall k :: 2 <= k < p.next ==> IsDigit(s[k]) by {
        forall k | 2 <= k < p.next
          ensures IsDigit(s[k])
        {
          assert s[2..p.next][k - 2] == s[k];
        }
      }
    }
  }

  /** A bare `%s` leaves the freshly reset state as it is and asks for no
      extra behaviour. */
  lemma PlainSpecIsReset(st: StreamState)
    ensures StreamStateFromFormat("s", 0, 1, st) == Ok(Applied(ResetState(st), NoExtraFlags, 0, 's'))
  {
    assert ParseIntAndAdvance("s", 0).next == 0;
  }

  /** The three ways a spec can be refused by the interpreter. */
  lemma UnsupportedFeatures(st: StreamState)
    ensures StreamStateFromFormat("*d", 0, 2, st) == Err(VariableWidth)
    ensures StreamStateFromFormat("12*d", 0, 4, st) == Err(VariableWidth)
    ensures StreamStateFromFormat(".*d", 0, 3, st) == Err(VariablePrecision)
    ensures StreamStateFromFormat("-5n", 0, 3, st) == Err(WriteBackConversion)
  {
    assert ParseIntAndAdvance("12*d", 0).next == 2 by {
      var p := ParseIntAndAdvance("12*d", 0);
      assert "12*d"[0..p.next] == "12*d"[..p.next];
    }
  }

  /** The character the interpreter acts on can differ from the last
      character of the span, which is the one value dispatch looks at: in
      `%5#d` the interpreter sees `#` and sets no base. */
  lemma ConversionCharCanDiffer(st: StreamState)
    ensures SpecEnd.FindFormatSpecEnd("5#d", 0) == Ok(3)
    ensures var r := StreamStateFromFormat("5#d", 0, 3, st);
      r.Ok? && r.value.conv == '#' && r.value.state.base == BaseNone
  {
    assert SpecEnd.FindTerminator("5#d", 0) == Some(2);
    assert ParseIntAndAdvance("5#d", 0).next == 1 by {
      var p := ParseIntAndAdvance("5#d", 0);
      assert "5#d"[0..p.next] == "5#d"[..p.next];
    }
  }
}
