/** The conversion-spec grammar `[flags][width][.precision][length]conv`
    read as data, and what a spec spelled from its parts means: the stream
    state and extra flags `streamStateFromFormat` produces, stated directly
    in terms of the flags, the width, the precision and the conversion
    character rather than through the interpreter's cursor. */
module SpecGrammar {
  import opened Chars
  import opened Results
  import opened Decimal
  import opened StreamStates
  import opened Interpreter

  /** The precision part: absent, or a `.` followed by an optional `-` and a
      run of digits, which may be empty. */
  datatype PrecisionPart = NoPrecision | Precision(negative: bool, digits: string)

  /** A conversion spec by its parts, the `%` left out. */
  datatype Spec = Spec(flags: string, width: string, precision: PrecisionPart,
                       lengths: string, conv: char)

  /** The parts are what the grammar allows: flag characters, a width that
      does not start with `0` (a leading `0` is a flag), digits, length
      modifiers, and a letter that ends a spec. */
  predicate WellFormed(sp: Spec)
  {
    && (forall k :: 0 <= k < |sp.flags| ==> IsFlagChar(sp.flags[k]))
    && AllDigits(sp.width) && (|sp.width| > 0 ==> sp.width[0] != '0')
    && (sp.precision.Precision? ==> AllDigits(sp.precision.digits))
    && (forall k :: 0 <= k < |sp.lengths| ==> IsLengthModifier(sp.lengths[k]))
    && IsSpecTerminator(sp.conv)
  }

  function PrecisionText(p: PrecisionPart): string
  {
    match p
    case NoPrecision => ""
    case Precision(negative, digits) => "." + (if negative then "-" else "") + digits
  }

  /** The spec as it is written in a format string. */
  function Spell(sp: Spec): string
  {
    sp.flags + (sp.width + (PrecisionText(sp.precision) + (sp.lengths + [sp.conv])))
  }

  /** The width a written width denotes: its value, or no change when it is
      empty. */
  function WidthEffect(W: string, st: StreamState): StreamState
    requires AllDigits(W)
  {
    if |W| > 0 then st.(width := DecimalValue(W)) else st
  }

  /** The precision a precision part denotes: 6 when absent, 0 when negative
      or empty, otherwise the value of its digits. */
  function PrecisionValue(p: PrecisionPart): int
    requires p.Precision? ==> AllDigits(p.digits)
  {
    match p
    case NoPrecision => 6
    case Precision(negative, digits) => if negative then 0 else DecimalValue(digits)
  }

  /** The precision stage's effect: a written precision sets it, an absent
      one leaves the state alone. */
  function PrecisionEffect(p: PrecisionPart, st: StreamState): StreamState
    requires p.Precision? ==> AllDigits(p.digits)
  {
    if p.Precision? then st.(precision := PrecisionValue(p)) else st
  }

  /** What a spec means. The flags act from a reset state, in any order. The
      width is the value of its digits. The precision is the value of its
      digits, or 0 when negative or empty, and 6 when absent. The length
      modifiers change nothing. The conversion character sets case, base
      and float field; `s` with a precision truncates; an integer conversion
      with a precision and no width emulates the precision as a zero-filled,
      internally adjusted width. `n` is refused. */
  function Meaning(sp: Spec, st: StreamState): Result<Configured>
    requires WellFormed(sp)
  {
    if sp.conv == 'n' then Err(WriteBackConversion)
    else
      var (st1, x1) := ApplyFlags(ResetState(st), NoExtraFlags, sp.flags);
      var hasDot := sp.precision.Precision?;
      var prec := PrecisionValue(sp.precision);
      var emulate := IsIntConversion(sp.conv) && hasDot && |sp.width| == 0;
      var width := if emulate then prec else if |sp.width| > 0 then DecimalValue(sp.width) else 0;
      Ok(Configured(
        ConversionFlags(sp.conv, st1).(
          width := width,
          precision := prec,
          adjust := if emulate then Internal else st1.adjust,
          fill := if emulate then '0' else st1.fill),
        ExtraFlags(sp.conv == 's' && hasDot, x1.spacePadPositive)))
  }

  /** The interpreter agrees with the grammar: on any well-formed spec
      inside the span, it produces exactly the spec's meaning, with its
      cursor on the conversion character. */
  lemma InterpretsSpelledSpec(s: string, start: nat, end: nat, sp: Spec, rest: string, st: StreamState)
    requires WellFormed(sp)
    requires start <= |s| && s[start..] == Spell(sp) + rest
    requires start + |Spell(sp)| <= end
    ensures var r := StreamStateFromFormat(s, start, end, st);
      match Meaning(sp, st)
      case Err(e) => r == Err(e)
      case Ok(m) => r == Ok(Applied(m.state, m.extra, start + |Spell(sp)| - 1, sp.conv))
  {
    var c1, c2, c3, c4 := Layout(s, start, sp, rest);
    var x := ApplyFlags(ResetState(st), NoExtraFlags, sp.flags);
    var st2 := WidthEffect(sp.width, x.0);
    FlagsStage(s, start, c1, sp.flags, ResetState(st), NoExtraFlags);
    WidthStage(s, c1, c2, sp.width, x.0);
    PrecisionStage(s, c2, c3, sp.precision, st2);
    LengthsStage(s, c3, c4, sp.lengths);
    InterpretStages(s, start, end, st, c1, c2, c3, c4, sp, x, st2);
  }

  /** An integer conversion with a width and a precision, `%w.pd` and its
      kin, keeps the written width: the precision does not replace it, the
      fill stays ' ' and no adjustment is set. */
  lemma WidthAndPrecisionSpec(s: string, start: nat, end: nat, w: nat, p: nat, conv: char,
                              rest: string, st: StreamState)
    requires w >= 1 && IsIntConversion(conv)
    requires start <= |s| && s[start..] == ToDecimal(w) + "." + ToDecimal(p) + [conv] + rest
    requires start + |ToDecimal(w)| + |ToDecimal(p)| + 2 <= end
    ensures var r := StreamStateFromFormat(s, start, end, st);
      && r.Ok?
      && r.value.conv == conv
      && r.value.cursor == start + |ToDecimal(w)| + |ToDecimal(p)| + 1
      && r.value.state.width == w && r.value.state.precision == p
      && r.value.state.adjust == AdjustNone && r.value.state.fill == ' '
      && r.value.state.base == (if conv == 'o' then Oct else if IsHexConversion(conv) then Hex else Dec)
      && r.value.extra == NoExtraFlags
  {
    var sp := Spec("", ToDecimal(w), Precision(false, ToDecimal(p)), "", conv);
    assert Spell(sp) == ToDecimal(w) + "." + ToDecimal(p) + [conv];
    var cf := ConversionFlags(conv, ResetState(st));
    WidthAndPrecisionMeaning(w, p, conv, st);
    InterpretsSpelledSpec(s, start, end, sp, rest, st);
    assert cf.base == (if conv == 'o' then Oct else if IsHexConversion(conv) then Hex else Dec);
  }

  /** The meaning of `%w.pd` and its kin, by the definition. */
  lemma WidthAndPrecisionMeaning(w: nat, p: nat, conv: char, st: StreamState)
    requires w >= 1 && IsIntConversion(conv)
    ensures var sp := Spec("", ToDecimal(w), Precision(false, ToDecimal(p)), "", conv);
      WellFormed(sp)
      && Meaning(sp, st) == Ok(Configured(ConversionFlags(conv, ResetState(st)).(width := w, precision := p),
                                          NoExtraFlags))
  {
    DecimalOfToDecimal(w);
    DecimalOfToDecimal(p);
    var st0 := ResetState(st);
    assert ApplyFlags(st0, NoExtraFlags, "") == (st0, NoExtraFlags);
  }

  /** `%.3ld`: the length modifier is skipped and the conversion is `d`;
      with no width, the precision becomes a zero-filled, internally
      adjusted width of 3. */
  lemma PrecisionWithLengthExample(st: StreamState)
    ensures StreamStateFromFormat(".3ld", 0, 4, st)
         == Ok(Applied(ResetState(st).(width := 3, precision := 3, adjust := Internal, fill := '0', base := Dec),
                       NoExtraFlags, 3, 'd'))
  {
    var sp := Spec("", "", Precision(false, "3"), "l", 'd');
    assert Spell(sp) == ".3ld";
    PrecisionWithLengthMeaning(st);
    InterpretsSpelledSpec(".3ld", 0, 4, sp, "", st);
  }

  /** The meaning of `%.3ld`, by the definition. */
  lemma PrecisionWithLengthMeaning(st: StreamState)
    ensures var sp := Spec("", "", Precision(false, "3"), "l", 'd');
      WellFormed(sp)
      && Meaning(sp, st)
         == Ok(Configured(ResetState(st).(width := 3, precision := 3, adjust := Internal, fill := '0', base := Dec),
                          NoExtraFlags))
  {
    assert DecimalValue("3") == 3;
    var st0 := ResetState(st);
    assert ApplyFlags(st0, NoExtraFlags, "") == (st0, NoExtraFlags);
  }

  /** Where each part of a spelled spec sits in the string, and the
      character after each part, which stops the stage that reads it. */
  lemma Layout(s: string, start: nat, sp: Spec, rest: string) returns (c1: nat, c2: nat, c3: nat, c4: nat)
    requires WellFormed(sp)
    requires start <= |s| && s[start..] == Spell(sp) + rest
    ensures c1 == start + |sp.flags| && c2 == c1 + |sp.width|
    ensures c3 == c2 + |PrecisionText(sp.precision)| && c4 == c3 + |sp.lengths|
    ensures c4 == start + |Spell(sp)| - 1 && c4 < |s| && s[c4] == sp.conv
    ensures s[start..c1] == sp.flags && s[c1..c2] == sp.width
    ensures s[c2..c3] == PrecisionText(sp.precision) && s[c3..c4] == sp.lengths
    ensures !IsFlagChar(At(s, c1)) && At(s, c1) != '*'
    ensures !IsDigit(At(s, c2)) && At(s, c2) != '*'
    ensures IsAsciiLetter(At(s, c3))
    ensures !IsLengthModifier(At(s, c4))
  {
    var P := PrecisionText(sp.precision);
    var T3 := sp.lengths + [sp.conv];
    var T2 := P + T3;
    var T1 := sp.width + T2;
    c1 := Cut(s, start, sp.flags, T1, rest);
    c2 := Cut(s, c1, sp.width, T2, rest);
    c3 := Cut(s, c2, P, T3, rest);
    c4 := Cut(s, c3, sp.lengths, [sp.conv], rest);
  }

  /** `s[i..] == a + t + rest` splits at `j == i + |a|`; the character at
      `i` is the head of `a`, or of `t` when `a` is empty. */
  lemma Cut(s: string, i: nat, a: string, t: string, rest: string) returns (j: nat)
    requires i <= |s| && s[i..] == a + t + rest && |t| > 0
    ensures j == i + |a| && j + |t| <= |s|
    ensures s[i..j] == a && s[j..] == t + rest && s[j] == t[0]
    ensures At(s, i) == if |a| > 0 then a[0] else t[0]
  {
    j := i + |a|;
    assert s[i..][..|a|] == a;
    assert s[i..][|a|..] == t + rest;
    assert s[j..][0] == (t + rest)[0];
    assert s[i..][0] == (a + t + rest)[0];
  }

  /** The last step: with every stage's result known, the interpreter's
      outcome is the spec's meaning. */
  lemma InterpretStages(s: string, start: nat, end: nat, st: StreamState,
                        c1: nat, c2: nat, c3: nat, c4: nat,
                        sp: Spec, x: (StreamState, ExtraFlags), st2: StreamState)
    requires WellFormed(sp)
    requires start <= c1 <= c2 <= c3 <= c4 < |s| && c4 < end && s[c4] == sp.conv
    requires x == ApplyFlags(ResetState(st), NoExtraFlags, sp.flags)
    requires var f := ParseFlags(s, start, ResetState(st), NoExtraFlags);
      f.next == c1 && (f.state, f.extra) == x
    requires st2 == WidthEffect(sp.width, x.0)
    requires ParseWidth(s, c1, x.0) == Ok(WidthParsed(st2, |sp.width| > 0, c2))
    requires ParsePrecision(s, c2, st2)
          == Ok(PrecisionParsed(PrecisionEffect(sp.precision, st2), sp.precision.Precision?, c3))
    requires SkipLengthModifiers(s, c3) == c4
    ensures var r := StreamStateFromFormat(s, start, end, st);
      match Meaning(sp, st)
      case Err(e) => r == Err(e)
      case Ok(m) => r == Ok(Applied(m.state, m.extra, c4, sp.conv))
  {
    assert At(s, c4) == sp.conv;
  }

  /** The flag loop over a run of flags `F` stops right after it, having
      applied exactly `F`. */
  lemma FlagsStage(s: string, c: nat, e: nat, F: string, st: StreamState, x: ExtraFlags)
    requires e == c + |F| && e <= |s| && s[c..e] == F
    requires forall k :: 0 <= k < |F| ==> IsFlagChar(F[k])
    requires !IsFlagChar(At(s, e))
    ensures var r := ParseFlags(s, c, st, x);
      r.next == e && (r.state, r.extra) == ApplyFlags(st, x, F)
  {
    ParseFlagsEffect(s, c, st, x);
  }

  /** parseIntAndAdvance over a digit run `ds` followed by a non-digit reads
      the value of `ds` and stops right after it. */
  lemma DigitRun(s: string, c: nat, ds: string)
    requires c + |ds| <= |s| && s[c..c + |ds|] == ds
    requires AllDigits(ds) && !IsDigit(At(s, c + |ds|))
    ensures ParseIntAndAdvance(s, c) == Parsed(DecimalValue(ds), c + |ds|)
  {
    var r := ParseIntAndAdvance(s, c);
    forall k | c <= k < c + |ds|
      ensures IsDigit(s[k])
    {
      assert s[c..c + |ds|][k - c] == s[k];
    }
    forall k | c <= k < r.next
      ensures IsDigit(s[k])
    {
      assert s[c..r.next][k - c] == s[k];
    }
    assert r.next == c + |ds|;
    assert s[c..r.next] == ds;
  }

  /** The width stage over a digit run `W` sets the width to its value
      exactly when `W` is not empty. */
  lemma WidthStage(s: string, c: nat, e: nat, W: string, st: StreamState)
    requires e == c + |W| && e <= |s| && s[c..e] == W && AllDigits(W)
    requires !IsDigit(At(s, e)) && At(s, e) != '*'
    ensures ParseWidth(s, c, st) == Ok(WidthParsed(WidthEffect(W, st), |W| > 0, e))
  {
    DigitRun(s, c, W);
    if |W| > 0 {
      assert s[c..e][0] == s[c];
    }
  }

  /** The precision stage over a written precision part, followed by a
      letter, sets the precision the part denotes. */
  lemma PrecisionStage(s: string, c: nat, e: nat, p: PrecisionPart, st: StreamState)
    requires e == c + |PrecisionText(p)| && e <= |s| && s[c..e] == PrecisionText(p)
    requires p.Precision? ==> AllDigits(p.digits)
    requires IsAsciiLetter(At(s, e))
    ensures ParsePrecision(s, c, st) == Ok(PrecisionParsed(PrecisionEffect(p, st), p.Precision?, e))
  {
    var t := PrecisionText(p);
    match p
    case NoPrecision =>
    case Precision(negative, digits) =>
      var lead := if negative then 2 else 1;
      assert s[c] == '.' by {
        assert s[c..e][0] == s[c];
      }
      assert s[c + lead..e] == digits by {
        assert t[lead..] == digits;
      }
      if negative {
        assert s[c + 1] == '-' by {
          assert s[c..e][1] == s[c + 1];
        }
      }
      DigitRun(s, c + lead, digits);
      if !negative && |digits| > 0 {
        assert s[c + 1] == digits[0] by {
          assert s[c + 1..e][0] == s[c + 1];
        }
      }
  }

  /** Length modifiers are skipped up to the first other character. */
  lemma LengthsStage(s: string, c: nat, e: nat, L: string)
    requires e == c + |L| && e <= |s| && s[c..e] == L
    requires forall k :: 0 <= k < |L| ==> IsLengthModifier(L[k])
    requires !IsLengthModifier(At(s, e))
    ensures SkipLengthModifiers(s, c) == e
  {
  }
}
