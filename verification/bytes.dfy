/** Bytes and 32-bit unsigned integers, and the big-endian read/write used for
    fingerprints (Node's `Buffer.readUInt32BE(0)`). */
module Bytes {

  type Byte = b: int | 0 <= b < 256

  /** The value range of a JavaScript `x >>> 0` result. */
  type U32 = n: int | 0 <= n < 0x1_0000_0000

  /** A RIPEMD-160 digest. */
  type Digest20 = s: seq<Byte> | |s| == 20 witness seq(20, _ => 0)

  /** A SHA-256 digest. */
  type Digest32 = s: seq<Byte> | |s| == 32 witness seq(32, _ => 0)

  /** The four big-endian bytes of `x`: repeatedly split off the low byte. */
  function U32ToBytesBE(x: U32): (r: seq<Byte>)
    ensures |r| == 4
  {
    var q1 := x / 0x100;
    var q2 := q1 / 0x100;
    var q3 := q2 / 0x100;
    [q3, q2 % 0x100, q1 % 0x100, x % 0x100]
  }

  /** Appending a byte below `q` and splitting it off again. */
  lemma ByteSplit(q: nat, d: Byte)
    ensures (q * 0x100 + d) / 0x100 == q && (q * 0x100 + d) % 0x100 == d
  {
  }

  /** `buf.readUInt32BE(0)`: the first four bytes read most significant first.
      Writing the result back yields exactly those four bytes. */
  function ReadUInt32BE(b: seq<Byte>): (r: U32)
    requires |b| >= 4
    ensures U32ToBytesBE(r) == b[..4]
  {
    var q3 := b[0] as int;
    var q2 := q3 * 0x100 + b[1];
    var q1 := q2 * 0x100 + b[2];
    var r := q1 * 0x100 + b[3];
    ByteSplit(q1, b[3]);
    ByteSplit(q2, b[2]);
    ByteSplit(q3, b[1]);
    assert q3 < 0x100;
    r
  }

  /** Reading back the bytes written for `x` gives `x`. */
  lemma ReadWriteU32(x: U32)
    ensures ReadUInt32BE(U32ToBytesBE(x)) == x
  {
    var q1 := x / 0x100;
    var q2 := q1 / 0x100;
    var q3 := q2 / 0x100;
    assert x == q1 * 0x100 + x % 0x100;
    assert q1 == q2 * 0x100 + q1 % 0x100;
    assert q2 == q3 * 0x100 + q2 % 0x100;
  }

}
