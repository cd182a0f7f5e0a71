/** Error outcomes of the format-string interpreter and the failure-compatible
    wrappers used to thread them through the model. Every error of the source
    is terminal here: the error hook is never expected to return. */
module Results {

  /** The reasons the source passes to its error hook. */
  datatype FormatError =
    | NotEnoughSpecifiers      // a value is left but the format string is exhausted
    | IncorrectlyTerminated    // a spec runs into the end of the string
    | TooManySpecifiers        // a spec is left but the values are exhausted
    | VariableWidth            // '*' in the width position
    | VariablePrecision        // '*' in the precision position
    | WriteBackConversion      // the %n conversion

  /** What each error reports after the library's name. */
  function Detail(e: FormatError): string
  {
    match e
    case NotEnoughSpecifiers => "Not enough conversion specifiers in format string"
    case IncorrectlyTerminated => "Conversion spec incorrectly terminated by end of string"
    case TooManySpecifiers => "Too many conversion specifiers in format string"
    case VariableWidth => "variable field widths not supported"
    case VariablePrecision => "variable precision not supported"
    case WriteBackConversion => "%n conversion spec not supported"
  }

  /** The reason string handed to the error hook for each error: the
      library's name, then what went wrong. */
  function Reason(e: FormatError): (r: string)
    ensures "tinyformat: " < r
    ensures r[12..] == Detail(e)
  {
    "tinyformat: " + Detail(e)
  }

  /** The reason string tells the errors apart: no two errors share one. */
  lemma ReasonIdentifiesError(e1: FormatError, e2: FormatError)
    ensures Reason(e1) == Reason(e2) <==> e1 == e2
  {
    if Reason(e1) == Reason(e2) {
      assert Reason(e1)[12..] == Detail(e1) && Reason(e2)[12..] == Detail(e2);
      KeyOfDetail(e1);
      KeyOfDetail(e2);
      CodeInjective(e1, e2);
    }
  }

  // Proof scaffolding for ReasonIdentifiesError, not part of the model:
  // comparing six string literals pairwise is costly for the solver, so
  // each detail string is mapped to an integer and the integers compared.

  /** A fingerprint of a detail string: its length, except that the `%n`
      message is told apart from the equally long variable-precision message
      by its first character. */
  function Key(d: string): int
  {
    if |d| == 32 && d[0] == '%' then 0 else |d|
  }

  /** The fingerprint each error's detail has. */
  function Code(e: FormatError): int
  {
    match e
    case NotEnoughSpecifiers => 49
    case IncorrectlyTerminated => 55
    case TooManySpecifiers => 47
    case VariableWidth => 35
    case VariablePrecision => 32
    case WriteBackConversion => 0
  }

  /** Every error's detail string has that error's fingerprint. */
  lemma KeyOfDetail(e: FormatError)
    ensures Key(Detail(e)) == Code(e)
  {
    match e
    case VariablePrecision => assert Detail(e)[0] == 'v';
    case WriteBackConversion => assert Detail(e)[0] == '%';
    case _ =>
  }

  /** No two errors share a fingerprint. */
  lemma CodeInjective(e1: FormatError, e2: FormatError)
    requires Code(e1) == Code(e2)
    ensures e1 == e2
  {
  }

  /** Errors raised while interpreting one conversion spec. */
  predicate IsSpecError(e: FormatError)
  {
    e == VariableWidth || e == VariablePrecision || e == WriteBackConversion
  }

  datatype Option<+T> = None | Some(value: T)

  datatype Result<+T> = Ok(value: T) | Err(error: FormatError) {

    predicate IsFailure() {
      Err?
    }

    function PropagateFailure<U>(): Result<U>
      requires Err?
    {
      Err(error)
    }

    function Extract(): T
      requires Ok?
    {
      value
    }
  }
}
