/** The JavaScript string primitives the path code relies on: `String.prototype.trim`,
    `split('/')`, `join('/')`, and decimal digit strings (`parseInt(s, 10)` on a string
    of ASCII digits, `\d` in a regular expression without the `u` flag). */
module Text {

  /** The code points `trim` removes: ECMAScript WhiteSpace and LineTerminator. */
  predicate IsJsSpace(c: char) {
    var n := c as int;
    n == 0x09 || n == 0x0A || n == 0x0B || n == 0x0C || n == 0x0D || n == 0x20
    || n == 0xA0 || n == 0x1680 || (0x2000 <= n <= 0x200A) || n == 0x2028
    || n == 0x2029 || n == 0x202F || n == 0x205F || n == 0x3000 || n == 0xFEFF
  }

  predicate AllSpace(s: string) {
    forall i :: 0 <= i < |s| ==> IsJsSpace(s[i])
  }

  /** Drops leading white space; the dropped prefix is all white space and the
      remainder does not start with white space. */
  function TrimStart(s: string): (r: string)
    ensures |r| <= |s| && r == s[|s| - |r|..]
    ensures AllSpace(s[..|s| - |r|])
    ensures r == [] || !IsJsSpace(r[0])
    decreases |s|
  {
    if |s| > 0 && IsJsSpace(s[0]) then
      var r := TrimStart(s[1..]);
      assert s[..|s| - |r|] == [s[0]] + s[1..][..|s| - 1 - |r|];
      r
    else s
  }

  /** Drops trailing white space; the dropped suffix is all white space and the
      remainder does not end with white space. */
  function TrimEnd(s: string): (r: string)
    ensures |r| <= |s| && r == s[..|r|]
    ensures AllSpace(s[|r|..])
    ensures r == [] || !IsJsSpace(r[|r| - 1])
    decreases |s|
  {
    if |s| > 0 && IsJsSpace(s[|s| - 1]) then
      var r := TrimEnd(s[..|s| - 1]);
      assert s[|r|..] == s[..|s| - 1][|r|..] + [s[|s| - 1]];
      r
    else s
  }

  /** `s.trim()`: the string with its white-space padding removed. What is
      left neither starts nor ends with white space. */
  function Trim(s: string): (r: string)
    ensures exists lead, trail :: s == lead + r + trail && AllSpace(lead) && AllSpace(trail)
    ensures r == [] || (!IsJsSpace(r[0]) && !IsJsSpace(r[|r| - 1]))
  {
    var t := TrimStart(s);
    var u := TrimEnd(t);
    TrimPieces(s, t, u);
    assert u == [] || u[0] == t[0];
    u
  }

  /** The padding `TrimStart` and then `TrimEnd` cut off, as one decomposition. */
  lemma TrimPieces(s: string, t: string, u: string)
    requires t == TrimStart(s) && u == TrimEnd(t)
    ensures exists lead, trail :: s == lead + u + trail && AllSpace(lead) && AllSpace(trail)
  {
    var lead := s[..|s| - |t|];
    var trail := t[|u|..];
    assert s == lead + t by { SliceConcat(s, |s| - |t|); }
    assert t == u + trail by { SliceConcat(t, |u|); }
    ConcatAssoc(s, lead, t, u, trail);
    Padded(s, lead, u, trail);
  }

  lemma Padded(s: string, lead: string, u: string, trail: string)
    requires s == lead + u + trail && AllSpace(lead) && AllSpace(trail)
    ensures exists lead, trail :: s == lead + u + trail && AllSpace(lead) && AllSpace(trail)
  {
  }

  /** Every string is its trimmed form padded with white space on both sides;
      the padding is returned. */
  lemma TrimDecomposition(s: string) returns (lead: string, trail: string)
    ensures s == lead + Trim(s) + trail
    ensures AllSpace(lead) && AllSpace(trail)
  {
    lead, trail :| s == lead + Trim(s) + trail && AllSpace(lead) && AllSpace(trail);
  }

  lemma ConcatAssoc(s: string, lead: string, t: string, u: string, trail: string)
    requires s == lead + t && t == u + trail
    ensures s == lead + u + trail
  {
  }

  lemma SliceConcat(s: string, k: nat)
    requires k <= |s|
    ensures s == s[..k] + s[k..]
  {
  }

  /** Trimming white-space padding off a string with non-space ends recovers it. */
  lemma TrimPadded(lead: string, t: string, trail: string)
    requires AllSpace(lead) && AllSpace(trail)
    requires |t| > 0 && !IsJsSpace(t[0]) && !IsJsSpace(t[|t| - 1])
    ensures Trim(lead + t + trail) == t
  {
    TrimStartPadded(lead, t + trail);
    assert lead + t + trail == lead + (t + trail);
    TrimEndPadded(t, trail);
  }

  lemma {:induction false} TrimStartPadded(lead: string, u: string)
    requires AllSpace(lead)
    requires |u| > 0 && !IsJsSpace(u[0])
    ensures TrimStart(lead + u) == u
    decreases |lead|
  {
    if |lead| > 0 {
      assert (lead + u)[1..] == lead[1..] + u;
      TrimStartPadded(lead[1..], u);
    } else {
      assert lead + u == u;
    }
  }

  lemma {:induction false} TrimEndPadded(u: string, trail: string)
    requires AllSpace(trail)
    requires |u| > 0 && !IsJsSpace(u[|u| - 1])
    ensures TrimEnd(u + trail) == u
    decreases |trail|
  {
    if |trail| > 0 {
      assert (u + trail)[..|u + trail| - 1] == u + trail[..|trail| - 1];
      TrimEndPadded(u, trail[..|trail| - 1]);
    } else {
      assert u + trail == u;
    }
  }

  // ---------------------------------------------------------------------------
  // split('/') and join('/')

  predicate SlashFree(s: string) {
    forall i :: 0 <= i < |s| ==> s[i] != '/'
  }

  predicate AllSlashFree(parts: seq<string>) {
    forall i :: 0 <= i < |parts| ==> SlashFree(parts[i])
  }

  /** The number of `c` characters in `s`. */
  function Count(s: string, c: char): nat
    decreases |s|
  {
    if |s| == 0 then 0 else (if s[0] == c then 1 else 0) + Count(s[1..], c)
  }

  /** `s.split('/')`: the pieces between separators, in order. There is one more
      piece than there are separators, and no piece contains a separator. */
  function Split(s: string): (parts: seq<string>)
    ensures |parts| == Count(s, '/') + 1
    ensures AllSlashFree(parts)
    decreases |s|
  {
    if |s| == 0 then [""]
    else
      var rest := Split(s[1..]);
      if s[0] == '/' then [""] + rest
      else [[s[0]] + rest[0]] + rest[1..]
  }

  /** `parts.join('/')`. */
  function Join(parts: seq<string>): string
    requires |parts| >= 1
    decreases |parts|
  {
    if |parts| == 1 then parts[0] else parts[0] + "/" + Join(parts[1..])
  }

  /** Splitting a joined sequence of separator-free pieces gives the pieces back. */
  lemma {:induction false} SplitJoin(parts: seq<string>)
    requires |parts| >= 1 && AllSlashFree(parts)
    ensures Split(Join(parts)) == parts
    decreases |parts|
  {
    if |parts| == 1 {
      SplitPrefix(parts[0], "");
      assert parts[0] + "" == parts[0];
    } else {
      var rest := Join(parts[1..]);
      SplitJoin(parts[1..]);
      SplitPrefix(parts[0], "/" + rest);
      assert parts[0] + "/" + rest == parts[0] + ("/" + rest);
      assert ("/" + rest)[1..] == rest;
      assert Split("/" + rest) == [""] + Split(rest);
      assert parts[0] + "" == parts[0];
      assert parts == [parts[0]] + parts[1..];
    }
  }

  /** Joining the pieces of a split gives the string back. */
  lemma {:induction false} JoinSplit(s: string)
    ensures Join(Split(s)) == s
    decreases |s|
  {
    if |s| > 0 {
      var rest := Split(s[1..]);
      JoinSplit(s[1..]);
      if s[0] == '/' {
        assert Split(s)[1..] == rest;
        assert s == "/" + s[1..];
      } else {
        JoinConsFirst([s[0]], rest);
        assert s == [s[0]] + s[1..];
      }
    }
  }

  /** Prepending text to the first piece prepends it to the joined string. */
  lemma {:induction false} JoinConsFirst(lead: string, parts: seq<string>)
    requires |parts| >= 1
    ensures Join([lead + parts[0]] + parts[1..]) == lead + Join(parts)
  {
    var ps := [lead + parts[0]] + parts[1..];
    assert ps[0] == lead + parts[0];
    if |parts| > 1 {
      assert ps[1..] == parts[1..];
      assert Join(ps) == (lead + parts[0]) + "/" + Join(parts[1..]);
      assert Join(parts) == parts[0] + "/" + Join(parts[1..]);
    } else {
      assert |ps| == 1;
    }
  }

  /** Joining with one more piece at the end appends a separator and that piece. */
  lemma {:induction false} JoinSnoc(parts: seq<string>, last: string)
    requires |parts| >= 1
    ensures Join(parts + [last]) == Join(parts) + "/" + last
    decreases |parts|
  {
    var ps := parts + [last];
    assert ps[0] == parts[0];
    if |parts| == 1 {
      assert ps[1..] == [last];
    } else {
      assert ps[1..] == parts[1..] + [last];
      JoinSnoc(parts[1..], last);
    }
  }

  /** A separator-free prefix lands in the first piece. */
  lemma {:induction false} SplitPrefix(lead: string, t: string)
    requires SlashFree(lead)
    ensures Split(lead + t) == [lead + Split(t)[0]] + Split(t)[1..]
    decreases |lead|
  {
    if |lead| == 0 {
      assert lead + t == t;
      assert lead + Split(t)[0] == Split(t)[0];
    } else {
      var s := lead + t;
      assert s[0] == lead[0];
      assert s[1..] == lead[1..] + t;
      SplitPrefix(lead[1..], t);
      assert [s[0]] + (lead[1..] + Split(t)[0]) == lead + Split(t)[0];
    }
  }

  /** A separator-free suffix lands in the last piece. */
  lemma {:induction false} SplitSuffix(t: string, trail: string)
    requires SlashFree(trail)
    ensures var p := Split(t);
      Split(t + trail) == p[..|p| - 1] + [p[|p| - 1] + trail]
    decreases |t|
  {
    if |t| == 0 {
      assert t + trail == trail;
      SplitPrefix(trail, "");
      assert trail + "" == trail;
    } else {
      var s := t + trail;
      assert s[0] == t[0];
      assert s[1..] == t[1..] + trail;
      SplitSuffix(t[1..], trail);
      var q := Split(t[1..]);
      if t[0] == '/' {
        assert Split(t) == [""] + q;
      } else {
        if |q| == 1 {
          assert [t[0]] + (q[0] + trail) == ([t[0]] + q[0]) + trail;
        } else {
          assert Split(t)[..|Split(t)| - 1] == [[t[0]] + q[0]] + q[1..|q| - 1];
        }
      }
    }
  }

  // ---------------------------------------------------------------------------
  // Decimal digits

  predicate IsDigit(c: char) {
    '0' <= c <= '9'
  }

  predicate AllDigits(s: string) {
    forall i :: 0 <= i < |s| ==> IsDigit(s[i])
  }

  function DigitValue(c: char): nat
    requires IsDigit(c)
  {
    (c as int) - ('0' as int)
  }

  function DigitChar(d: nat): (c: char)
    requires d < 10
    ensures IsDigit(c) && DigitValue(c) == d
  {
    ('0' as int + d) as char
  }

  /** `parseInt(s, 10)` on a string of ASCII digits, without the loss of
      precision of a JavaScript number. The empty string gives 0 (where
      `parseInt` gives NaN); it is reached only as the base of the recursion,
      since every caller passes a `\d+` run. */
  function DecimalValue(s: string): nat
    requires AllDigits(s)
    decreases |s|
  {
    if |s| == 0 then 0 else DecimalValue(s[..|s| - 1]) * 10 + DigitValue(s[|s| - 1])
  }

  /** The shortest decimal rendering of `n`; it reads back as `n`. */
  function DecimalDigits(n: nat): (r: string)
    ensures |r| >= 1 && AllDigits(r)
    ensures DecimalValue(r) == n
    decreases n
  {
    if n < 10 then [DigitChar(n)]
    else
      var r := DecimalDigits(n / 10) + [DigitChar(n % 10)];
      assert r[..|r| - 1] == DecimalDigits(n / 10);
      r
  }
}
