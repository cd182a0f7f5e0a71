/** The values being formatted and `formatValue`: which rendering of a value
    the conversion character selects, and `formatCStringTruncate`. */
module Values {
  import opened Chars
  import opened Results
  import opened StreamStates

  /** The type a value is inserted as: itself, `char` (for `%c`),
      `const void*` (for `%p`), or `int` (a character type under an integer
      conversion). */
  datatype View = AsSelf | AsChar | AsVoidPtr | AsInt

  /** A value of some argument type, described by what its type can do.
      `render(view, state)` is the text `out << value` produces after
      converting to `view`, under the stream state; it is left uninterpreted.
      `cString` is present for `char*` and `const char*` values and gives the
      characters the pointer addresses. */
  datatype Value = Value(
    isCharType: bool,
    canChar: bool,
    canVoidPtr: bool,
    cString: Option<nat -> char>,
    render: (View, StreamState) -> string)

  /** The conversions under which a character type prints as a number. */
  predicate IsNumericCharConversion(ch: char)
  {
    ch == 'u' || ch == 'd' || ch == 'i' || ch == 'o' || ch == 'X' || ch == 'x'
  }

  /** The rendering `formatValue` selects from the last character of the
      spec: the character-type overload prints numerically under
      `u d i o X x`; otherwise `%c` converts to `char` and `%p` to
      `const void*` when the type allows it, and anything else prints the
      value itself. */
  function DispatchView(v: Value, last: char): (r: View)
    ensures r == AsInt <==> v.isCharType && IsNumericCharConversion(last)
    ensures r == AsChar <==> !v.isCharType && v.canChar && last == 'c'
    ensures r == AsVoidPtr <==> !v.isCharType && v.canVoidPtr && last == 'p'
    ensures r == AsSelf <==>
              if v.isCharType then !IsNumericCharConversion(last)
              else !(v.canChar && last == 'c') && !(v.canVoidPtr && last == 'p')
  {
    if v.isCharType then
      if IsNumericCharConversion(last) then AsInt else AsSelf
    else if v.canChar && last == 'c' then AsChar
    else if v.canVoidPtr && last == 'p' then AsVoidPtr
    else AsSelf
  }

  /** formatValue: renders the value under the stream state, dispatching on
      the last character of the spec span `fmt[..fmtEnd]`. A character type
      prints as `int` under `u d i o X x` and as itself otherwise; any other
      type prints as `char` under `c` and as `const void*` under `p` when it
      converts to them, and as itself otherwise. */
  function FormatValue(fmt: string, fmtEnd: nat, st: StreamState, v: Value): (r: string)
    requires 0 < fmtEnd <= |fmt|
    ensures v.isCharType && IsNumericCharConversion(fmt[fmtEnd - 1]) ==> r == v.render(AsInt, st)
    ensures v.isCharType && !IsNumericCharConversion(fmt[fmtEnd - 1]) ==> r == v.render(AsSelf, st)
    ensures !v.isCharType && v.canChar && fmt[fmtEnd - 1] == 'c' ==> r == v.render(AsChar, st)
    ensures !v.isCharType && v.canVoidPtr && fmt[fmtEnd - 1] == 'p' ==> r == v.render(AsVoidPtr, st)
    ensures (!v.isCharType && !(v.canChar && fmt[fmtEnd - 1] == 'c')
             && !(v.canVoidPtr && fmt[fmtEnd - 1] == 'p')) ==> r == v.render(AsSelf, st)
  {
    v.render(DispatchView(v, fmt[fmtEnd - 1]), st)
  }

  /** The counting loop of formatCStringTruncate, from `len` on: it steps
      forward while it is below `truncLen` and the character there is not
      NUL, and returns where it stops. */
  function TruncatedLength(mem: nat -> char, len: nat, truncLen: int): (r: nat)
    ensures len <= r
    ensures r > len ==> r <= truncLen
    ensures forall k :: len <= k < r ==> mem(k) != NUL
    ensures r < truncLen ==> mem(r) == NUL
    decreases truncLen - len
  {
    if len < truncLen && mem(len) != NUL then TruncatedLength(mem, len + 1, truncLen) else len
  }

  /** formatCStringTruncate for `char*`: the characters before the first NUL,
      but at most `truncLen` of them. */
  function FormatCStringTruncate(mem: nat -> char, truncLen: int): (r: string)
    ensures |r| <= truncLen || |r| == 0
    ensures forall k :: 0 <= k < |r| ==> r[k] == mem(k) && r[k] != NUL
    ensures |r| < truncLen ==> mem(|r|) == NUL
  {
    var len := TruncatedLength(mem, 0, truncLen);
    seq(len, k requires 0 <= k < len => mem(k))
  }

  lemma {:induction false} TruncatedLengthReadsBelow(m1: nat -> char, m2: nat -> char, len: nat, truncLen: int)
    requires forall k: nat :: len <= k < truncLen ==> m1(k) == m2(k)
    ensures TruncatedLength(m1, len, truncLen) == TruncatedLength(m2, len, truncLen)
    decreases truncLen - len
  {
    if len < truncLen {
      TruncatedLengthReadsBelow(m1, m2, len + 1, truncLen);
    }
  }

  /** formatCStringTruncate never reads at or beyond `truncLen`: two memories
      that agree below `truncLen` give the same text, whatever follows. */
  lemma CStringTruncateReadsBelow(m1: nat -> char, m2: nat -> char, truncLen: int)
    requires forall k: nat :: k < truncLen ==> m1(k) == m2(k)
    ensures FormatCStringTruncate(m1, truncLen) == FormatCStringTruncate(m2, truncLen)
  {
    TruncatedLengthReadsBelow(m1, m2, 0, truncLen);
  }
}
