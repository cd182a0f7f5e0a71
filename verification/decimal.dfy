/** `parseIntAndAdvance`: reading an unsigned decimal integer off the format
    string. Integers are unbounded here, so the `int` overflow of the source
    on very long digit runs is not modelled. */
module Decimal {
  import opened Chars

  function DigitValue(ch: char): nat
    requires IsDigit(ch)
  {
    ch as int - '0' as int
  }

  function DigitChar(d: nat): char
    requires d < 10
  {
    ('0' as int + d) as char
  }

  predicate AllDigits(ds: string)
  {
    forall k :: 0 <= k < |ds| ==> IsDigit(ds[k])
  }

  /** The standard base-10 reading of a digit string, most significant digit
      first. */
  function DecimalValue(ds: string): nat
    requires AllDigits(ds)
  {
    if |ds| == 0 then 0 else 10 * DecimalValue(ds[..|ds| - 1]) + DigitValue(ds[|ds| - 1])
  }

  /** The shortest decimal spelling of `n`. */
  function ToDecimal(n: nat): (r: string)
    ensures |r| >= 1 && AllDigits(r)
    ensures n >= 1 ==> r[0] != '0'
  {
    if n < 10 then [DigitChar(n)] else ToDecimal(n / 10) + [DigitChar(n % 10)]
  }

  /** The result of `parseIntAndAdvance`: the value read and the cursor one
      past the last digit. */
  datatype Parsed = Parsed(value: nat, next: nat)

  /** The accumulating digit loop of parseIntAndAdvance: each digit read
      multiplies the value so far by ten and adds the digit's value; `acc`
      is the value of the digits `s[b..c]` already consumed. */
  function ParseDigits(s: string, b: nat, c: nat, acc: nat): (r: Parsed)
    requires b <= c <= |s|
    requires AllDigits(s[b..c]) && acc == DecimalValue(s[b..c])
    ensures c <= r.next <= |s|
    ensures AllDigits(s[b..r.next]) && !IsDigit(At(s, r.next))
    ensures r.value == DecimalValue(s[b..r.next])
    decreases |s| - c
  {
    if IsDigit(At(s, c)) then
      assert s[b..c + 1][..c - b] == s[b..c];
      ParseDigits(s, b, c + 1, 10 * acc + DigitValue(s[c]))
    else
      Parsed(acc, c)
  }

  /** parseIntAndAdvance: consumes the maximal digit run at `c` and returns
      its base-10 value. */
  function ParseIntAndAdvance(s: string, c: nat): (r: Parsed)
    requires c <= |s|
    ensures c <= r.next <= |s|
    ensures AllDigits(s[c..r.next]) && !IsDigit(At(s, r.next))
    ensures r.value == DecimalValue(s[c..r.next])
  {
    ParseDigits(s, c, c, 0)
  }

  lemma {:induction false} DecimalOfToDecimal(n: nat)
    ensures DecimalValue(ToDecimal(n)) == n
  {
    if n >= 10 {
      var d := ToDecimal(n);
      assert d[..|d| - 1] == ToDecimal(n / 10);
      DecimalOfToDecimal(n / 10);
    }
  }

  /** Reading back the decimal spelling of `n`, followed by anything that is
      not a digit, yields `n` and stops right after the spelling. */
  lemma ParseToDecimalRoundTrip(n: nat, rest: string)
    requires !IsDigit(At(rest, 0))
    ensures ParseIntAndAdvance(ToDecimal(n) + rest, 0) == Parsed(n, |ToDecimal(n)|)
  {
    var d := ToDecimal(n);
    var s := d + rest;
    var r := ParseIntAndAdvance(s, 0);
    assert forall k :: 0 <= k < r.next ==> IsDigit(s[k]) by {
      forall k | 0 <= k < r.next
        ensures IsDigit(s[k])
      {
        assert s[0..r.next][k] == s[k];
      }
    }
    assert At(s, |d|) == At(rest, 0);
    assert r.next == |d|;
    assert s[0..r.next] == d;
    DecimalOfToDecimal(n);
  }
}
