/** `format`: the argument sequencer. Literal text and conversion specs
    alternate; each value consumes exactly one spec, in order. */
module Sequencer {
  import opened Chars
  import opened Results
  import opened Literal
  import opened SpecEnd
  import opened Interpreter
  import opened Values
  import opened ValueDriver

  /** The outcome of a call: the sink on success, or the error together with
      the text written before it, which is never taken back. */
  datatype Run = Done(out: Stream) | Failed(text: string, error: FormatError) {
    function Text(): string {
      if Done? then out.text else text
    }
  }

  /** The 0-argument format: the remaining literal text is written, and a
      spec left over is an error. A lone `%` at the very end is not one. */
  function FormatNoArgs(out: Stream, fmt: string, c: nat): (r: Run)
    requires c <= |fmt|
    ensures r.Done? <==> At(fmt, ScanLiteral(fmt, c).next) == NUL
    ensures r.Failed? ==> r.error == TooManySpecifiers
    ensures r.Text() == out.text + ScanLiteral(fmt, c).text
    ensures r.Done? ==> r.out.state == out.state
  {
    var lit := ScanLiteral(fmt, c);
    var out1 := out.(text := out.text + lit.text);
    if At(fmt, lit.next) != NUL then Failed(out1.text, TooManySpecifiers) else Done(out1)
  }

  /** The N-argument format: literal text, then the first value under the
      next spec, then the rest of the values on the rest of the string. */
  function Format(out: Stream, fmt: string, c: nat, args: seq<Value>): (r: Run)
    requires c <= |fmt|
    ensures out.text <= r.Text()
    ensures r.Done? ==> r.out.state == out.state
    decreases |args|
  {
    if |args| == 0 then
      FormatNoArgs(out, fmt, c)
    else
      var lit := ScanLiteral(fmt, c);
      var out1 := out.(text := out.text + lit.text);
      match FindFormatSpecEnd(fmt, lit.next)
      case Err(e) => Failed(out1.text, e)
      case Ok(fmtEnd) =>
        match FormatValueBasic(out1, fmt, lit.next, fmtEnd, args[0])
        case Err(e) => Failed(out1.text, e)
        case Ok(out2) => Format(out2, fmt, fmtEnd, args[1..])
  }

  /** The number of conversion specs from `c` on, or None when one of them
      runs into the end of the string. A `%` at the very end is no spec. */
  function SpecCount(fmt: string, c: nat): Option<nat>
    requires c <= |fmt|
    decreases |fmt| - c
  {
    var lit := ScanLiteral(fmt, c);
    if At(fmt, lit.next) == NUL then Some(0)
    else
      ScanLiteralStops(fmt, c);
      match FindFormatSpecEnd(fmt, lit.next)
      case Err(_) => None
      case Ok(e) =>
        match SpecCount(fmt, e)
        case None => None
        case Some(n) => Some(n + 1)
  }
}
