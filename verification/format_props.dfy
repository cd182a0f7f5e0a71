/** Properties of the argument sequencer: one spec per value, the errors for
    surplus values and surplus specs, and exact reproduction of literal
    text. */
module SequencerProps {
  import opened Chars
  import opened Results
  import opened Literal
  import opened SpecEnd
  import opened Values
  import opened ValueDriver
  import opened Sequencer

  /** How SpecCount unfolds: no spec when the scan reaches the end, and
      otherwise one spec plus the specs after its end. */
  lemma SpecCountUnfold(fmt: string, c: nat)
    requires c <= |fmt|
    ensures var lit := ScanLiteral(fmt, c);
      && (At(fmt, lit.next) == NUL ==> SpecCount(fmt, c) == Some(0))
      && (At(fmt, lit.next) != NUL ==>
            match FindFormatSpecEnd(fmt, lit.next)
            case Err(_) => SpecCount(fmt, c).None?
            case Ok(e) =>
              && e <= |fmt|
              && SpecCount(fmt, c) == (if SpecCount(fmt, e).Some? then Some(SpecCount(fmt, e).value + 1) else None))
  {
  }

  /** How Format unfolds on a non-empty list of values whose next spec is
      well delimited and accepted. */
  lemma FormatUnfold(out: Stream, fmt: string, c: nat, args: seq<Value>)
    requires c <= |fmt| && |args| > 0
    ensures var lit := ScanLiteral(fmt, c);
      var out1 := out.(text := out.text + lit.text);
      match FindFormatSpecEnd(fmt, lit.next)
      case Err(e) => Format(out, fmt, c, args) == Failed(out1.text, e)
      case Ok(fmtEnd) =>
        match FormatValueBasic(out1, fmt, lit.next, fmtEnd, args[0])
        case Err(e) => Format(out, fmt, c, args) == Failed(out1.text, e)
        case Ok(out2) => Format(out, fmt, c, args) == Format(out2, fmt, fmtEnd, args[1..])
  {
  }

  /** Each value consumes exactly one spec: a call succeeds only when the
      string holds as many specs as there are values; with more values than
      specs it fails with "Not enough conversion specifiers", with fewer
      with "Too many conversion specifiers", unless the interpreter refuses
      a spec first. */
  lemma {:induction false} SpecsMatchArguments(out: Stream, fmt: string, c: nat, args: seq<Value>)
    requires c <= |fmt|
    ensures var r := Format(out, fmt, c, args);
      && (r.Done? ==> SpecCount(fmt, c) == Some(|args|))
      && (SpecCount(fmt, c).Some? && SpecCount(fmt, c).value < |args| ==>
            r.Failed? && (r.error == NotEnoughSpecifiers || IsSpecError(r.error)))
      && (SpecCount(fmt, c).Some? && SpecCount(fmt, c).value > |args| ==>
            r.Failed? && (r.error == TooManySpecifiers || IsSpecError(r.error)))
      && (SpecCount(fmt, c) == Some(|args|) ==> r.Done? || IsSpecError(r.error))
    decreases |args|
  {
    var lit := ScanLiteral(fmt, c);
    SpecCountUnfold(fmt, c);
    if |args| > 0 {
      FormatUnfold(out, fmt, c, args);
      if At(fmt, lit.next) != NUL {
        var e := FindFormatSpecEnd(fmt, lit.next);
        if e.Ok? {
          var out1 := out.(text := out.text + lit.text);
          var v := FormatValueBasic(out1, fmt, lit.next, e.value, args[0]);
          if v.Ok? {
            SpecsMatchArguments(v.value, fmt, e.value, args[1..]);
          }
        }
      }
    }
  }

  /** Literal text written in escaped form comes out exactly: every `%%`
      gives one `%`, however many there are. */
  lemma EscapedTextRendersExactly(out: Stream, t: string)
    requires NUL !in t
    ensures Format(out, Escape(t), 0, []) == Done(out.(text := out.text + t))
  {
    ScanEscaped(Escape(t), 0, t, "");
  }

  /** A string without `%` comes out unchanged when there are no values. */
  lemma PlainTextIsIdentity(out: Stream, s: string)
    requires '%' !in s && NUL !in s
    ensures Format(out, s, 0, []) == Done(out.(text := out.text + s))
  {
    EscapeWithoutPercent(s);
    EscapedTextRendersExactly(out, s);
  }

  /** Values left over when the string is exhausted are an error, reported
      after the literal text has been written. */
  lemma SurplusArgumentsFail(out: Stream, t: string, args: seq<Value>)
    requires NUL !in t && |args| >= 1
    ensures Format(out, Escape(t), 0, args) == Failed(out.text + t, NotEnoughSpecifiers)
  {
    ScanEscaped(Escape(t), 0, t, "");
  }

  /** A spec left over when the values are exhausted is an error, reported
      after the literal text in front of it has been written. */
  lemma SurplusSpecFails(out: Stream, t: string, rest: string)
    requires NUL !in t
    requires At(rest, 0) != NUL && At(rest, 0) != '%'
    ensures Format(out, Escape(t) + "%" + rest, 0, []) == Failed(out.text + t, TooManySpecifiers)
  {
    var s := Escape(t) + "%" + rest;
    var tail := "%" + rest;
    assert s[0..] == Escape(t) + tail;
    assert At(tail, 1) == At(rest, 0);
    ScanEscaped(s, 0, t, tail);
    var lit := ScanLiteral(s, 0);
    assert lit == Scanned(t, |Escape(t)| + 1);
    assert At(s, lit.next) == At(rest, 0);
  }

  /** A spec that runs into the end of the string, with values still to
      format, fails with "Conversion spec incorrectly terminated by end of
      string" after the literal text before it is written. */
  lemma UnterminatedSpecFails(out: Stream, t: string, rest: string, args: seq<Value>)
    requires NUL !in t && |args| >= 1
    requires At(rest, 0) != NUL && At(rest, 0) != '%'
    requires forall ch :: ch in rest ==> !IsSpecTerminator(ch)
    ensures Format(out, Escape(t) + "%" + rest, 0, args) == Failed(out.text + t, IncorrectlyTerminated)
  {
    var s := Escape(t) + "%" + rest;
    var tail := "%" + rest;
    assert s[0..] == Escape(t) + tail;
    assert At(tail, 1) == At(rest, 0);
    ScanEscaped(s, 0, t, tail);
    var lit := ScanLiteral(s, 0);
    assert lit == Scanned(t, |Escape(t)| + 1);
    assert At(s, lit.next) == At(rest, 0);
    NoTerminatorAfter(s, lit.next, rest);
  }

  /** No spec terminator lies in a suffix made of non-terminators. */
  lemma NoTerminatorAfter(s: string, b: nat, rest: string)
    requires b <= |s| && s[b..] == rest
    requires forall ch :: ch in rest ==> !IsSpecTerminator(ch)
    ensures !HasTerminator(s, b)
  {
    forall k | b <= k < |s|
      ensures !IsSpecTerminator(s[k])
    {
      assert s[k] == rest[k - b];
    }
  }

  /** A lone `%` at the very end is accepted silently when no value is left,
      and is "Not enough conversion specifiers" when one is. */
  lemma TrailingPercent(out: Stream, t: string, args: seq<Value>)
    requires NUL !in t
    ensures Format(out, Escape(t) + "%", 0, []) == Done(out.(text := out.text + t))
    ensures |args| >= 1 ==>
      Format(out, Escape(t) + "%", 0, args) == Failed(out.text + t, NotEnoughSpecifiers)
  {
    var s := Escape(t) + "%";
    assert s[0..] == Escape(t) + "%";
    ScanEscaped(s, 0, t, "%");
  }

  /** Two values for a single `%d` are one too many, whatever the values. */
  lemma OneSpecTwoValues(out: Stream, v1: Value, v2: Value)
    ensures var r := Format(out, "%d", 0, [v1, v2]);
      r.Failed? && r.error == NotEnoughSpecifiers
  {
    assert ScanLiteral("%d", 0) == Scanned("", 1);
    assert FindTerminator("%d", 1) == Some(1);
    var out1 := out.(text := out.text + "");
    var v := FormatValueBasic(out1, "%d", 1, 2, v1);
    assert v.Ok?;
    assert ScanLiteral("%d", 2) == Scanned("", 2);
  }
}
