/** Fingerprint overrides in hexadecimal: `u32FromHexBE` (server.js lines 42-46),
    which reads an override through Node's `Buffer.from(hex, 'hex')`, and the
    zero-padded eight-digit rendering `(fp >>> 0).toString(16).padStart(8, '0')`
    of the response (lines 118-119). */
module HexOverride {
  import opened Outcomes
  import opened Bytes

  const OverrideMessage: string := "Override fingerprint must be 8 hex chars"

  predicate IsHexDigit(c: char) {
    '0' <= c <= '9' || 'a' <= c <= 'f' || 'A' <= c <= 'F'
  }

  predicate IsLowerHexDigit(c: char) {
    '0' <= c <= '9' || 'a' <= c <= 'f'
  }

  predicate AllHex(s: string) {
    forall i :: 0 <= i < |s| ==> IsHexDigit(s[i])
  }

  predicate AllLowerHex(s: string) {
    forall i :: 0 <= i < |s| ==> IsLowerHexDigit(s[i])
  }

  function HexDigitValue(c: char): (v: nat)
    requires IsHexDigit(c)
    ensures v < 16
  {
    if '0' <= c <= '9' then c as int - '0' as int
    else if 'a' <= c <= 'f' then c as int - 'a' as int + 10
    else c as int - 'A' as int + 10
  }

  /** The lower-case digit `Number.prototype.toString(16)` writes for `d`. */
  function HexChar(d: nat): (c: char)
    requires d < 16
    ensures IsLowerHexDigit(c) && IsHexDigit(c) && HexDigitValue(c) == d
  {
    if d < 10 then ('0' as int + d) as char else ('a' as int + d - 10) as char
  }

  /** The byte a pair of hex digits denotes, high nibble first. */
  function PairValue(hi: char, lo: char): Byte
    requires IsHexDigit(hi) && IsHexDigit(lo)
  {
    HexDigitValue(hi) * 16 + HexDigitValue(lo)
  }

  /** The number a string of hex digits denotes, most significant digit first. */
  function HexValue(s: string): nat
    requires AllHex(s)
    decreases |s|
  {
    if |s| == 0 then 0 else HexValue(s[..|s| - 1]) * 16 + HexDigitValue(s[|s| - 1])
  }

  // ---------------------------------------------------------------------------
  // Buffer.from(hex, 'hex')

  /** Pair number `i` of `s` (characters `2i` and `2i+1`) is complete and made
      of two hex digits. */
  predicate PairOk(s: string, i: nat) {
    2 * i + 1 < |s| && IsHexDigit(s[2 * i]) && IsHexDigit(s[2 * i + 1])
  }

  /** Pair number `i` of `s` is complete, valid, and denotes byte `b`. */
  predicate PairAt(s: string, i: nat, b: Byte) {
    PairOk(s, i) && b == PairValue(s[2 * i], s[2 * i + 1])
  }

  /** Node's hex decoding: bytes are read pair by pair and decoding stops at the
      first pair that is not two hex digits, so the result is the longest prefix
      of complete valid pairs (a trailing odd digit is dropped). */
  function DecodeHex(s: string): (r: seq<Byte>)
    ensures 2 * |r| <= |s|
    ensures forall i :: 0 <= i < |r| ==> PairAt(s, i, r[i])
    ensures !PairOk(s, |r|)
  {
    DecodeHexFrom(s, 0)
  }

  function DecodeHexFrom(s: string, start: nat): (r: seq<Byte>)
    requires 2 * start <= |s|
    ensures 2 * (start + |r|) <= |s|
    ensures forall j :: 0 <= j < |r| ==> PairAt(s, start + j, r[j])
    ensures !PairOk(s, start + |r|)
    decreases |s| - 2 * start
  {
    if PairOk(s, start) then
      var rest := DecodeHexFrom(s, start + 1);
      var r := [PairValue(s[2 * start], s[2 * start + 1])] + rest;
      assert forall j :: 1 <= j < |r| ==> r[j] == rest[j - 1];
      r
    else []
  }

  /** `u32FromHexBE`: an empty override means none (`null`); otherwise the
      decoded bytes must number exactly four, read big-endian. */
  function U32FromHexBE(hex: string): (r: Result<Option<U32>, string>)
    ensures r == Success(None) <==> hex == ""
    ensures r.Failure? <==> hex != "" && |DecodeHex(hex)| != 4
    ensures r.Failure? ==> r.error == OverrideMessage
    ensures r.Success? && r.value.Some? ==>
      |hex| >= 8 && AllHex(hex[..8]) && r.value.value == HexValue(hex[..8])
  {
    if hex == "" then Success(None)
    else
      var b := DecodeHex(hex);
      if |b| != 4 then Failure(OverrideMessage)
      else
        assert PairAt(hex, 0, b[0]) && PairAt(hex, 1, b[1]) && PairAt(hex, 2, b[2]) && PairAt(hex, 3, b[3]);
        FirstFourPairs(hex);
        ReadHexPairs(hex);
        Success(Some(ReadUInt32BE(b)))
  }

  /** Reading four decoded pairs big-endian is reading the eight digits as one
      hexadecimal number. */
  lemma ReadHexPairs(s: string)
    requires |s| >= 8 && AllHex(s[..8])
    ensures |DecodeHex(s)| >= 4 ==> ReadUInt32BE(DecodeHex(s)) == HexValue(s[..8])
  {
    var h := s[..8];
    var b := DecodeHex(s);
    if |b| >= 4 {
      assert PairAt(s, 0, b[0]) && PairAt(s, 1, b[1]) && PairAt(s, 2, b[2]) && PairAt(s, 3, b[3]);
      assert h[..0] == [];
      HexValueStep(h, 0);
      HexValueStep(h, 1);
      HexValueStep(h, 2);
      HexValueStep(h, 3);
      assert h[..8] == h;
    }
  }

  /** Two more digits multiply the value by 256 and add the pair's byte. */
  lemma HexValueStep(h: string, k: nat)
    requires 2 * k + 2 <= |h| && AllHex(h)
    ensures HexValue(h[..2 * k + 2]) == HexValue(h[..2 * k]) * 256 + PairValue(h[2 * k], h[2 * k + 1])
  {
    assert h[..2 * k + 2][..2 * k + 1] == h[..2 * k + 1];
    assert h[..2 * k + 1][..2 * k] == h[..2 * k];
  }

  /** An override is accepted exactly when it is empty, or its first eight
      characters are hex digits and the ninth and tenth are not a further
      complete pair; anything may follow. */
  lemma OverrideAccepts(hex: string)
    ensures U32FromHexBE(hex).Success? <==>
      || hex == ""
      || (|hex| >= 8 && AllHex(hex[..8]) && !PairOk(hex, 4))
  {
    var b := DecodeHex(hex);
    assert |b| > 4 ==> PairAt(hex, 4, b[4]);
    if |hex| >= 8 {
      FirstFourPairs(hex);
      if AllHex(hex[..8]) && !PairOk(hex, 4) {
        assert !PairOk(hex, |b|);
        assert |b| == 4;
      }
    }
    if |b| == 4 {
      assert PairAt(hex, 0, b[0]) && PairAt(hex, 1, b[1]) && PairAt(hex, 2, b[2]) && PairAt(hex, 3, b[3]);
    }
  }

  lemma FirstFourPairs(hex: string)
    requires |hex| >= 8
    ensures AllHex(hex[..8]) <==> PairOk(hex, 0) && PairOk(hex, 1) && PairOk(hex, 2) && PairOk(hex, 3)
  {
    var h := hex[..8];
    assert forall i :: 0 <= i < 8 ==> h[i] == hex[i];
    if PairOk(hex, 0) && PairOk(hex, 1) && PairOk(hex, 2) && PairOk(hex, 3) {
      forall i | 0 <= i < 8 ensures IsHexDigit(h[i]) {
        assert PairOk(hex, i / 2);
      }
    }
  }

  // ---------------------------------------------------------------------------
  // (fp >>> 0).toString(16).padStart(8, '0')

  /** `x.toString(16)`: the shortest lower-case hex digits of `x`. */
  function LowerHex(x: nat): (r: string)
    ensures |r| >= 1 && AllLowerHex(r) && AllHex(r)
    ensures HexValue(r) == x
    ensures x == 0 || r[0] != '0'
    decreases x
  {
    if x < 16 then [HexChar(x)]
    else
      var r := LowerHex(x / 16) + [HexChar(x % 16)];
      assert r[..|r| - 1] == LowerHex(x / 16);
      r
  }

  /** `s.padStart(width, '0')`. */
  function PadStart(s: string, width: nat): (r: string)
    ensures |s| >= width ==> r == s
    ensures |s| < width ==>
      && |r| == width && r[width - |s|..] == s
      && forall i :: 0 <= i < width - |s| ==> r[i] == '0'
  {
    if |s| >= width then s else seq(width - |s|, _ => '0') + s
  }

  /** The eight-digit lower-case rendering of a fingerprint in the response:
      exactly eight digits, which denote the fingerprint. */
  function FpHex(x: U32): (r: string)
    ensures |r| == 8 && AllLowerHex(r) && AllHex(r)
    ensures HexValue(r) == x
  {
    var digits := LowerHex(x);
    LowerHexLength(x, 8);
    var r := PadStart(digits, 8);
    var zeros := r[..8 - |digits|];
    assert r == zeros + digits;
    HexValueZeros(zeros, digits);
    r
  }

  function Pow16(k: nat): nat {
    if k == 0 then 1 else 16 * Pow16(k - 1)
  }

  lemma {:induction false} LowerHexLength(x: nat, k: nat)
    requires k >= 1 && x < Pow16(k)
    ensures |LowerHex(x)| <= k
    decreases k
  {
    if x >= 16 {
      assert Pow16(1) == 16;
      assert k != 1;
      assert x / 16 < Pow16(k - 1);
      LowerHexLength(x / 16, k - 1);
    }
  }

  /** Leading zero digits do not change the value. */
  lemma {:induction false} HexValueZeros(zeros: string, s: string)
    requires forall i :: 0 <= i < |zeros| ==> zeros[i] == '0'
    requires AllHex(s)
    ensures AllHex(zeros + s) && HexValue(zeros + s) == HexValue(s)
    decreases |s|
  {
    var z := zeros + s;
    assert AllHex(z) by {
      forall i | 0 <= i < |z| ensures IsHexDigit(z[i]) {
        if i >= |zeros| { assert z[i] == s[i - |zeros|]; }
      }
    }
    if |s| == 0 {
      assert z == zeros;
      HexValueAllZero(zeros);
    } else {
      assert z[..|z| - 1] == zeros + s[..|s| - 1];
      HexValueZeros(zeros, s[..|s| - 1]);
    }
  }

  lemma {:induction false} HexValueAllZero(zeros: string)
    requires forall i :: 0 <= i < |zeros| ==> zeros[i] == '0'
    ensures AllHex(zeros) && HexValue(zeros) == 0
    decreases |zeros|
  {
    if |zeros| > 0 {
      HexValueAllZero(zeros[..|zeros| - 1]);
    }
  }

  /** Round trip: an override written as the response writes a fingerprint is
      read back as that fingerprint. */
  lemma FpHexRoundTrip(x: U32)
    ensures U32FromHexBE(FpHex(x)) == Success(Some(x))
  {
    var s := FpHex(x);
    OverrideAccepts(s);
    assert s[..8] == s;
  }

  /** Concrete cases: the decoded length, not the text length, is checked. */
  lemma OverrideExamples()
    ensures U32FromHexBE("") == Success(None)
    ensures U32FromHexBE("zz") == Failure(OverrideMessage)
    ensures U32FromHexBE("281d1d2b") == Success(Some(0x281d1d2b))
    ensures U32FromHexBE("281D1D2Bzz") == Success(Some(0x281d1d2b))
    ensures U32FromHexBE("281d1d2b0") == Success(Some(0x281d1d2b))
    ensures U32FromHexBE("281d1d2b00") == Failure(OverrideMessage)
  {
  }
}
