/** What `format` writes for a well-formed format string, piece by piece:
    every literal text as it reads unescaped, and every value rendered under
    its own spec, in the order of the values. */
module FormatLayout {
  import opened Chars
  import opened Results
  import opened StreamStates
  import opened Literal
  import opened SpecEnd
  import opened Interpreter
  import opened Values
  import opened ValueDriver
  import opened Sequencer
  import SequencerProps

  /** A literal text and the conversion spec that follows it, the spec
      written without its `%`. */
  datatype Piece = Piece(literal: string, spec: string)

  /** A spec `findFormatSpecEnd` delimits exactly: it does not start a `%%`
      escape, its last character is its only terminating letter, and it
      holds no NUL. */
  ghost predicate WellDelimited(spec: string)
  {
    && |spec| > 0 && spec[0] != '%'
    && IsSpecTerminator(spec[|spec| - 1])
    && InsideSpec(spec, 0, |spec| - 1)
  }

  /** Every literal is free of NUL and every spec is well delimited. */
  ghost predicate WellFormedPieces(pieces: seq<Piece>)
  {
    |pieces| > 0 ==>
      && NUL !in pieces[0].literal && WellDelimited(pieces[0].spec)
      && WellFormedPieces(pieces[1..])
  }

  /** The format string the pieces spell out, with every literal escaped and
      a final literal after the last spec. */
  function Layout(pieces: seq<Piece>, last: string): string
  {
    if |pieces| == 0 then Escape(last)
    else Escape(pieces[0].literal) + "%" + pieces[0].spec + Layout(pieces[1..], last)
  }

  lemma SuffixAfter(s: string, c: nat, p: string, q: string)
    requires c <= |s| && s[c..] == p + q
    ensures c + |p| <= |s| && s[c + |p|..] == q
  {
    assert s[c + |p|..] == s[c..][|p|..];
  }

  /** Where the pieces' layout continues after the first spec. */
  lemma LayoutAfterFirst(fmt: string, c: nat, pieces: seq<Piece>, last: string)
    requires c <= |fmt| && fmt[c..] == Layout(pieces, last) && |pieces| > 0
    ensures var e := c + |Escape(pieces[0].literal)| + 1 + |pieces[0].spec|;
      e <= |fmt| && fmt[e..] == Layout(pieces[1..], last)
  {
    var p := pieces[0];
    SuffixAfter(fmt, c, Escape(p.literal) + "%" + p.spec, Layout(pieces[1..], last));
  }

  /** A well-delimited spec at `b` ends exactly where its characters end. */
  lemma SpecEndIsSpecLength(s: string, b: nat, spec: string, rest: string)
    requires b <= |s| && s[b..] == spec + rest
    requires WellDelimited(spec)
    ensures FindFormatSpecEnd(s, b) == Ok(b + |spec|)
  {
    var e := b + |spec|;
    assert forall k :: b <= k < e ==> s[k] == spec[k - b];
    assert InsideSpec(s, b, e - 1);
    assert IsSpecTerminator(s[e - 1]);
    assert At(s, b) != NUL;
    assert HasTerminator(s, b);
    var r := FindFormatSpecEnd(s, b);
    assert IsSpecTerminator(s[r.value - 1]) && InsideSpec(s, b, r.value - 1);
  }

  /** The literal in front of a spec stops one past its `%`. */
  lemma LiteralStopsAtSpec(fmt: string, c: nat, t: string, spec: string, rest: string)
    requires c <= |fmt| && fmt[c..] == Escape(t) + "%" + spec + rest
    requires NUL !in t && |spec| > 0 && spec[0] != '%'
    ensures c + |Escape(t)| + 1 + |spec| <= |fmt|
    ensures ScanLiteral(fmt, c) == Scanned(t, c + |Escape(t)| + 1)
    ensures fmt[c + |Escape(t)| + 1..] == spec + rest
  {
    var tail := "%" + (spec + rest);
    assert fmt[c..] == Escape(t) + tail by {
      assert Escape(t) + "%" + spec + rest == Escape(t) + tail;
    }
    SuffixAfter(fmt, c, Escape(t), tail);
    assert At(tail, 1) == spec[0];
    ScanEscaped(fmt, c, t, tail);
    SuffixAfter(fmt, c + |Escape(t)|, "%", spec + rest);
  }

  /** Where the literal in front of a spec stops and where the spec ends. */
  lemma LiteralThenSpec(fmt: string, c: nat, t: string, spec: string, rest: string)
    requires c <= |fmt| && fmt[c..] == Escape(t) + "%" + spec + rest
    requires NUL !in t && WellDelimited(spec)
    ensures c + |Escape(t)| + 1 + |spec| <= |fmt|
    ensures ScanLiteral(fmt, c) == Scanned(t, c + |Escape(t)| + 1)
    ensures FindFormatSpecEnd(fmt, c + |Escape(t)| + 1) == Ok(c + |Escape(t)| + 1 + |spec|)
    ensures fmt[c + |Escape(t)| + 1 + |spec|..] == rest
  {
    var b := c + |Escape(t)| + 1;
    LiteralStopsAtSpec(fmt, c, t, spec, rest);
    SuffixAfter(fmt, b, spec, rest);
    SpecEndIsSpecLength(fmt, b, spec, rest);
  }

  /** `format` after a literal and an accepted spec continues with the
      next value right after the spec. */
  lemma FormatAfterAcceptedSpec(out: Stream, fmt: string, c: nat, args: seq<Value>, e: nat, out2: Stream)
    requires c <= |fmt| && |args| > 0
    requires FindFormatSpecEnd(fmt, ScanLiteral(fmt, c).next) == Ok(e)
    requires FormatValueBasic(out.(text := out.text + ScanLiteral(fmt, c).text), fmt,
                              ScanLiteral(fmt, c).next, e, args[0]) == Ok(out2)
    ensures e <= |fmt|
    ensures Format(out, fmt, c, args) == Format(out2, fmt, e, args[1..])
  {
  }

  /** One step of `format` once the literal `t` in front of the next spec
      and the spec's span `[b, e)` are known. */
  lemma FormatStepAt(out: Stream, fmt: string, c: nat, t: string, b: nat, e: nat, v: Value, vs: seq<Value>)
    requires c <= |fmt| && 0 < e <= |fmt|
    requires ScanLiteral(fmt, c) == Scanned(t, b)
    requires FindFormatSpecEnd(fmt, b) == Ok(e)
    ensures StreamStateFromFormat(fmt, b, e, out.state).Err? ==>
              Format(out, fmt, c, [v] + vs) == Failed(out.text + t, StreamStateFromFormat(fmt, b, e, out.state).error)
    ensures StreamStateFromFormat(fmt, b, e, out.state).Ok? ==>
              Format(out, fmt, c, [v] + vs)
              == Format(Stream(out.text + t + RenderValue(fmt, e, StreamStateFromFormat(fmt, b, e, out.state).value, v),
                               out.state),
                        fmt, e, vs)
  {
    var args := [v] + vs;
    assert args[0] == v && args[1..] == vs;
    var out1 := out.(text := out.text + t);
    var a := StreamStateFromFormat(fmt, b, e, out.state);
    var fv := FormatValueBasic(out1, fmt, b, e, v);
    if a.Ok? {
      assert fv.value == Stream(out.text + t + RenderValue(fmt, e, a.value, v), out.state);
      FormatAfterAcceptedSpec(out, fmt, c, args, e, fv.value);
    } else {
      SequencerProps.FormatUnfold(out, fmt, c, args);
    }
  }

  /** One step of `format`: the literal in front of the next spec, which
      spans `[b, e)`, is written as it reads unescaped; then the first value
      goes under that spec, and the remaining values continue right after
      it. A spec the interpreter refuses ends the call after the literal. */
  lemma FormatStep(out: Stream, fmt: string, c: nat, t: string, spec: string, rest: string,
                   b: nat, e: nat, v: Value, vs: seq<Value>)
    requires c <= |fmt| && fmt[c..] == Escape(t) + "%" + spec + rest
    requires NUL !in t && WellDelimited(spec)
    requires b == c + |Escape(t)| + 1 && e == b + |spec|
    ensures e <= |fmt| && fmt[e..] == rest
    ensures StreamStateFromFormat(fmt, b, e, out.state).Err? ==>
              Format(out, fmt, c, [v] + vs) == Failed(out.text + t, StreamStateFromFormat(fmt, b, e, out.state).error)
    ensures StreamStateFromFormat(fmt, b, e, out.state).Ok? ==>
              Format(out, fmt, c, [v] + vs)
              == Format(Stream(out.text + t + RenderValue(fmt, e, StreamStateFromFormat(fmt, b, e, out.state).value, v),
                               out.state),
                        fmt, e, vs)
  {
    LiteralThenSpec(fmt, c, t, spec, rest);
    FormatStepAt(out, fmt, c, t, b, e, v, vs);
  }

  /** One value rendered under the spec spanning `[b, e)`, or None when the
      interpreter refuses that spec. */
  function RenderAt(fmt: string, b: nat, e: nat, st: StreamState, v: Value): Option<string>
    requires b <= e && 0 < e <= |fmt|
  {
    match StreamStateFromFormat(fmt, b, e, st)
    case Err(_) => None
    case Ok(a) => Some(RenderValue(fmt, e, a, v))
  }

  /** A literal, a rendered value and the rest, when both of the latter exist. */
  function Join(lit: string, rendered: Option<string>, tail: Option<string>): Option<string>
  {
    if rendered.Some? && tail.Some? then Some(lit + rendered.value + tail.value) else None
  }

  /** The span of the first piece's spec when the layout starts at `c`. */
  function SpecStart(c: nat, p: Piece): nat
  {
    c + |Escape(p.literal)| + 1
  }

  /** The output the pieces promise, given how one value renders under the
      spec spanning `[b, e)`: each literal as written, then its value
      rendered under its own spec, in order, then the final literal; None
      when a spec is refused or falls outside a string of length `len`. */
  function Assemble(render: (nat, nat, Value) -> Option<string>, len: nat, c: nat, pieces: seq<Piece>,
                    last: string, values: seq<Value>): Option<string>
    requires |values| == |pieces|
    decreases |pieces|
  {
    if |pieces| == 0 then Some(last)
    else
      var b := SpecStart(c, pieces[0]);
      var e := b + |pieces[0].spec|;
      if e > len then None
      else Join(pieces[0].literal, render(b, e, values[0]),
                Assemble(render, len, e, pieces[1..], last, values[1..]))
  }

  /** How each value renders inside `fmt` under stream state `st`. */
  function Renderer(fmt: string, st: StreamState): (nat, nat, Value) -> Option<string>
  {
    (b: nat, e: nat, v: Value) => if b <= e && 0 < e <= |fmt| then RenderAt(fmt, b, e, st, v) else None
  }

  /** What the pieces promise for the format string `fmt` under state `st`. */
  function Expected(fmt: string, c: nat, pieces: seq<Piece>, last: string, st: StreamState,
                    values: seq<Value>): Option<string>
    requires |values| == |pieces|
  {
    Assemble(Renderer(fmt, st), |fmt|, c, pieces, last, values)
  }

  /** How Expected unfolds on the first piece. */
  lemma ExpectedUnfold(fmt: string, c: nat, pieces: seq<Piece>, last: string, st: StreamState,
                       values: seq<Value>, b: nat, e: nat)
    requires |values| == |pieces| > 0
    requires b == c + |Escape(pieces[0].literal)| + 1 && e == b + |pieces[0].spec| && e <= |fmt|
    ensures Expected(fmt, c, pieces, last, st, values)
         == Join(pieces[0].literal, RenderAt(fmt, b, e, st, values[0]),
                 Expected(fmt, e, pieces[1..], last, st, values[1..]))
  {
    var render := Renderer(fmt, st);
    AssembleUnfold(render, |fmt|, c, pieces, last, values, b, e);
    assert render(b, e, values[0]) == RenderAt(fmt, b, e, st, values[0]);
  }

  lemma AssembleUnfold(render: (nat, nat, Value) -> Option<string>, len: nat, c: nat, pieces: seq<Piece>,
                       last: string, values: seq<Value>, b: nat, e: nat)
    requires |values| == |pieces| > 0
    requires b == c + |Escape(pieces[0].literal)| + 1 && e == b + |pieces[0].spec| && e <= len
    ensures Assemble(render, len, c, pieces, last, values)
         == Join(pieces[0].literal, render(b, e, values[0]),
                 Assemble(render, len, e, pieces[1..], last, values[1..]))
  {
  }

  /** `format` consumes exactly one spec per value, in order: on a format
      string laid out from well-formed pieces with one value per spec, it
      writes every literal unescaped and every value under its own spec, and
      leaves the stream state as it was; if the interpreter refuses a spec,
      the call fails with that refusal. */
  lemma {:induction false} FormatWritesPieces(out: Stream, fmt: string, c: nat, pieces: seq<Piece>,
                                              last: string, values: seq<Value>)
    requires c <= |fmt| && fmt[c..] == Layout(pieces, last)
    requires |values| == |pieces|
    requires NUL !in last
    requires WellFormedPieces(pieces)
    ensures var x := Expected(fmt, c, pieces, last, out.state, values);
      var r := Format(out, fmt, c, values);
      && (x.Some? ==> r == Done(Stream(out.text + x.value, out.state)))
      && (x.None? ==> r.Failed? && IsSpecError(r.error))
    decreases |pieces|
  {
    var x := Expected(fmt, c, pieces, last, out.state, values);
    if |pieces| == 0 {
      FormatWritesLast(out, fmt, c, last);
    } else {
      var p := pieces[0];
      var rest := Layout(pieces[1..], last);
      assert fmt[c..] == Escape(p.literal) + "%" + p.spec + rest;
      assert values == [values[0]] + values[1..];
      var b := c + |Escape(p.literal)| + 1;
      var e := b + |p.spec|;
      FormatStep(out, fmt, c, p.literal, p.spec, rest, b, e, values[0], values[1..]);
      var a := StreamStateFromFormat(fmt, b, e, out.state);
      if a.Ok? {
        var rendered := RenderValue(fmt, e, a.value, values[0]);
        var out2 := Stream(out.text + p.literal + rendered, out.state);
        var y := Expected(fmt, e, pieces[1..], last, out.state, values[1..]);
        ExpectedUnfold(fmt, c, pieces, last, out.state, values, b, e);
        assert RenderAt(fmt, b, e, out.state, values[0]) == Some(rendered);
        FormatWritesPieces(out2, fmt, e, pieces[1..], last, values[1..]);
        ComposeAccepted(out.text, out.state, p.literal, rendered, x, y,
                        Format(out, fmt, c, values), Format(out2, fmt, e, values[1..]));
      } else {
        ExpectedUnfold(fmt, c, pieces, last, out.state, values, b, e);
        assert RenderAt(fmt, b, e, out.state, values[0]).None?;
      }
    }
  }

  /** The whole call on a format string laid out from well-formed pieces,
      one value per spec: it writes `t0 + R0 + t1 + R1 + ... + last`, each
      `Ri` the i-th value rendered under the i-th spec. */
  lemma FormatWritesEveryValue(out: Stream, pieces: seq<Piece>, last: string, values: seq<Value>)
    requires |values| == |pieces|
    requires NUL !in last && WellFormedPieces(pieces)
    ensures var fmt := Layout(pieces, last);
      var x := Expected(fmt, 0, pieces, last, out.state, values);
      var r := Format(out, fmt, 0, values);
      && (x.Some? ==> r == Done(Stream(out.text + x.value, out.state)))
      && (x.None? ==> r.Failed? && IsSpecError(r.error))
  {
    var fmt := Layout(pieces, last);
    assert fmt[0..] == fmt;
    FormatWritesPieces(out, fmt, 0, pieces, last, values);
  }

  /** Closing an accepted step: when the call continues as the run `r2`
      after the literal and the rendered value, and `r2` writes what the
      remaining pieces promise, the whole call writes what all pieces
      promise. */
  lemma ComposeAccepted(text: string, state: StreamState, lit: string, rendered: string,
                        x: Option<string>, y: Option<string>, r1: Run, r2: Run)
    requires r1 == r2
    requires x == (if y.Some? then Some(lit + rendered + y.value) else None)
    requires y.Some? ==> r2 == Done(Stream(text + lit + rendered + y.value, state))
    requires y.None? ==> r2.Failed? && IsSpecError(r2.error)
    ensures x.Some? ==> r1 == Done(Stream(text + x.value, state))
    ensures x.None? ==> r1.Failed? && IsSpecError(r1.error)
  {
    if y.Some? {
      assert text + lit + rendered + y.value == text + x.value;
    }
  }

  /** With no spec left, the final literal is written unescaped. */
  lemma FormatWritesLast(out: Stream, fmt: string, c: nat, last: string)
    requires c <= |fmt| && fmt[c..] == Escape(last)
    requires NUL !in last
    ensures Format(out, fmt, c, []) == Done(Stream(out.text + last, out.state))
  {
    assert fmt[c..] == Escape(last) + "";
    ScanEscaped(fmt, c, last, "");
  }
}
