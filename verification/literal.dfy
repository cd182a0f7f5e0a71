/** `printFormatStringLiteral`: copying the literal text in front of the next
    conversion spec, with `%%` standing for one `%`. */
module Literal {
  import opened Chars

  /** The literal text emitted and the cursor returned. */
  datatype Scanned = Scanned(text: string, next: nat)

  /** How literal text is written in a format string: every `%` doubled. The
      scanner inverts it. */
  function Escape(t: string): (r: string)
    ensures |r| >= |t|
  {
    if |t| == 0 then ""
    else (if t[0] == '%' then "%%" else [t[0]]) + Escape(t[1..])
  }

  lemma EscapeCons(ch: char, t: string)
    ensures Escape([ch] + t) == (if ch == '%' then "%%" else [ch]) + Escape(t)
  {
    assert ([ch] + t)[1..] == t;
  }

  /** The scanner as a function of the remaining string: it stops at the
      terminating NUL or just after a `%` not followed by another `%`. */
  function ScanLiteral(s: string, i: nat): (r: Scanned)
    requires i <= |s|
    ensures i <= r.next <= |s|
    decreases |s| - i
  {
    if At(s, i) == NUL then
      Scanned("", i)
    else if s[i] != '%' then
      var r := ScanLiteral(s, i + 1);
      Scanned([s[i]] + r.text, r.next)
    else if At(s, i + 1) == '%' then
      var r := ScanLiteral(s, i + 2);
      Scanned("%" + r.text, r.next)
    else
      Scanned("", i + 1)
  }

  /** Where a scan from `i` may stop, having emitted `text`: the text is
      NUL-free, and the stop is either the terminating NUL, with everything
      from `i` being the escaped text, or one past a `%` that starts a spec
      (it is not followed by another `%`), with everything in front of that
      `%` being the escaped text. */
  ghost predicate StopsAfter(s: string, i: nat, text: string, next: nat)
    requires i <= next <= |s|
  {
    && NUL !in text
    && (|| (At(s, next) == NUL && s[i..next] == Escape(text))
        || (i < next && s[next - 1] == '%' && At(s, next) != '%'
            && s[i..next - 1] == Escape(text)))
  }

  /** What the scanner emits and where it stops. */
  lemma {:induction false} ScanLiteralStops(s: string, i: nat)
    requires i <= |s|
    ensures StopsAfter(s, i, ScanLiteral(s, i).text, ScanLiteral(s, i).next)
    decreases |s| - i
  {
    if At(s, i) == NUL {
    } else if s[i] != '%' {
      ScanLiteralStops(s, i + 1);
      PlainStep(s, i);
    } else if At(s, i + 1) == '%' {
      ScanLiteralStops(s, i + 2);
      EscapedStep(s, i);
    }
  }

  /** A plain character in front of a stop reached from the next index. */
  lemma PlainStep(s: string, i: nat)
    requires i < |s| && s[i] != NUL && s[i] != '%'
    requires StopsAfter(s, i + 1, ScanLiteral(s, i + 1).text, ScanLiteral(s, i + 1).next)
    ensures StopsAfter(s, i, ScanLiteral(s, i).text, ScanLiteral(s, i).next)
  {
    var r' := ScanLiteral(s, i + 1);
    EscapeCons(s[i], r'.text);
    assert s[i..i + 1] == [s[i]];
    PrependStop(s, i, i + 1, [s[i]], r'.text, r'.next);
  }

  /** An escaped `%%` in front of a stop reached from two indices on. */
  lemma EscapedStep(s: string, i: nat)
    requires i + 1 < |s| && s[i] == '%' && s[i + 1] == '%'
    requires StopsAfter(s, i + 2, ScanLiteral(s, i + 2).text, ScanLiteral(s, i + 2).next)
    ensures StopsAfter(s, i, ScanLiteral(s, i).text, ScanLiteral(s, i).next)
  {
    var r' := ScanLiteral(s, i + 2);
    EscapeCons('%', r'.text);
    assert s[i..i + 2] == "%%";
    PrependStop(s, i, i + 2, "%", r'.text, r'.next);
  }

  /** Text `t` written as `s[i..j]` in front of a stop reached from `j` is a
      stop reached from `i`. */
  lemma PrependStop(s: string, i: nat, j: nat, t: string, text: string, next: nat)
    requires i < j <= next <= |s|
    requires NUL !in t
    requires Escape(t + text) == s[i..j] + Escape(text)
    requires StopsAfter(s, j, text, next)
    ensures StopsAfter(s, i, t + text, next)
  {
    if At(s, next) == NUL && s[j..next] == Escape(text) {
      assert s[i..next] == s[i..j] + s[j..next];
    } else {
      assert s[i..next - 1] == s[i..j] + s[j..next - 1];
    }
  }

  /** printFormatStringLiteral, following the source loop: `fmt` marks the
      start of the pending literal chunk and `c` the character examined. */
  method PrintFormatStringLiteral(s: string, i: nat) returns (text: string, next: nat)
    requires i <= |s|
    ensures Scanned(text, next) == ScanLiteral(s, i)
  {
    ghost var whole := ScanLiteral(s, i);
    var fmt := i;
    var c := i;
    text := "";
    while At(s, c) != NUL
      invariant i <= fmt <= c <= |s|
      invariant text + s[fmt..c] + ScanLiteral(s, c).text == whole.text
      invariant ScanLiteral(s, c).next == whole.next
      decreases |s| - c
    {
      if s[c] == '%' {
        EscapedChunk(s, fmt, c, text);
        text := text + s[fmt..c];
        c := c + 1;
        fmt := c;
        if At(s, c) != '%' {
          next := c;
          return;
        }
      } else {
        PlainChunk(s, fmt, c, text);
      }
      c := c + 1;
    }
    text := text + s[fmt..c];
    next := c;
  }

  /** The loop invariant of printFormatStringLiteral survives a plain
      character joining the pending chunk. */
  lemma PlainChunk(s: string, fmt: nat, c: nat, text: string)
    requires fmt <= c < |s| && s[c] != NUL && s[c] != '%'
    ensures text + s[fmt..c + 1] + ScanLiteral(s, c + 1).text
         == text + s[fmt..c] + ScanLiteral(s, c).text
    ensures ScanLiteral(s, c + 1).next == ScanLiteral(s, c).next
  {
    assert s[fmt..c + 1] == s[fmt..c] + [s[c]];
  }

  /** At a `%` the pending chunk is flushed: a spec leaves nothing more to
      emit, and `%%` restarts the chunk at its second `%`. */
  lemma EscapedChunk(s: string, fmt: nat, c: nat, text: string)
    requires fmt <= c < |s| && s[c] == '%'
    ensures At(s, c + 1) != '%' ==> ScanLiteral(s, c) == Scanned("", c + 1)
    ensures At(s, c + 1) == '%' ==>
      && text + s[fmt..c] + s[c + 1..c + 2] + ScanLiteral(s, c + 2).text
         == text + s[fmt..c] + ScanLiteral(s, c).text
      && ScanLiteral(s, c + 2).next == ScanLiteral(s, c).next
  {
    if At(s, c + 1) == '%' {
      assert s[c + 1..c + 2] == "%";
    }
  }

  /** The converse of the scanner's contract: the escaped form of a NUL-free
      text, followed by the end of the string or by a `%` that starts a spec,
      scans back to exactly that text. */
  lemma {:induction false} ScanEscaped(s: string, i: nat, t: string, rest: string)
    requires i <= |s| && s[i..] == Escape(t) + rest
    requires NUL !in t
    requires At(rest, 0) == NUL || (rest[0] == '%' && At(rest, 1) != '%')
    ensures ScanLiteral(s, i)
         == Scanned(t, i + |Escape(t)| + (if At(rest, 0) == NUL then 0 else 1))
    decreases |t|
  {
    if |t| == 0 {
      assert s[i..] == rest;
      assert At(s, i) == At(rest, 0);
      if At(rest, 0) != NUL {
        assert At(s, i + 1) == At(rest, 1);
      }
    } else {
      var e := Escape(t);
      assert s[i] == e[0];
      assert t[0] != NUL;
      EscapeCons(t[0], t[1..]);
      assert [t[0]] + t[1..] == t;
      if t[0] == '%' {
        assert s[i + 1] == e[1];
        assert s[i + 2..] == Escape(t[1..]) + rest;
        ScanEscaped(s, i + 2, t[1..], rest);
        assert "%" + t[1..] == t;
      } else {
        assert s[i + 1..] == Escape(t[1..]) + rest;
        ScanEscaped(s, i + 1, t[1..], rest);
        assert [t[0]] + t[1..] == t;
      }
    }
  }

  /** Without a `%` in it, a NUL-free text is its own escaped form. */
  lemma {:induction false} EscapeWithoutPercent(t: string)
    requires '%' !in t
    ensures Escape(t) == t
    decreases |t|
  {
    if |t| > 0 {
      assert '%' !in t[1..] by {
        assert forall k :: 0 <= k < |t| - 1 ==> t[1..][k] == t[k + 1];
      }
      EscapeWithoutPercent(t[1..]);
      assert [t[0]] + t[1..] == t;
    }
  }
}
