/** `findFormatSpecEnd`: delimiting one conversion spec. */
module SpecEnd {
  import opened Chars
  import opened Results

  /** Some spec terminator occurs at or after `i`, before the first NUL. */
  ghost predicate HasTerminator(s: string, i: nat)
    requires i <= |s|
  {
    exists k :: i <= k < |s| && IsSpecTerminator(s[k]) && InsideSpec(s, i, k)
  }

  /** The position of the first spec terminator at or after `c`, provided no
      NUL comes first. */
  function FindTerminator(s: string, c: nat): (r: Option<nat>)
    requires c <= |s|
    ensures r.Some? ==> c <= r.value < |s| && IsSpecTerminator(s[r.value]) && InsideSpec(s, c, r.value)
    ensures r.None? ==> !HasTerminator(s, c)
    decreases |s| - c
  {
    if At(s, c) == NUL then
      None
    else if IsSpecTerminator(s[c]) then
      Some(c)
    else
      var r := FindTerminator(s, c + 1);
      assert r.None? ==> !HasTerminator(s, c) by {
        if r.None? && HasTerminator(s, c) {
          var k :| c <= k < |s| && IsSpecTerminator(s[k]) && InsideSpec(s, c, k);
          assert k != c;
          assert InsideSpec(s, c + 1, k);
        }
      }
      r
  }

  /** findFormatSpecEnd: called just after a `%`, returns one past the first
      ASCII letter that is not a length modifier. It fails when called at the
      end of the string, and when the string ends before such a letter. */
  function FindFormatSpecEnd(s: string, i: nat): (r: Result<nat>)
    requires i <= |s|
    ensures r == Err(NotEnoughSpecifiers) <==> At(s, i) == NUL
    ensures r == Err(IncorrectlyTerminated) <==> At(s, i) != NUL && !HasTerminator(s, i)
    ensures r.Err? ==> r.error == NotEnoughSpecifiers || r.error == IncorrectlyTerminated
    ensures r.Ok? ==> && i < r.value <= |s|
                      && IsSpecTerminator(s[r.value - 1])
                      && InsideSpec(s, i, r.value - 1)
  {
    if At(s, i) == NUL then
      Err(NotEnoughSpecifiers)
    else
      match FindTerminator(s, i)
      case Some(k) => Ok(k + 1)
      case None => Err(IncorrectlyTerminated)
  }
}
