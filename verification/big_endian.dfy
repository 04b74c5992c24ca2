/**
 * Fixed-width unsigned integers and their big-endian byte encoding, as
 * `encoding/binary` writes them with `binary.BigEndian`.
 */
module BigEndian {

  /** Go's `uint8` (`byte`). */
  type uint8 = x: int | 0 <= x < 0x100

  /** Go's `uint32`. */
  type uint32 = x: int | 0 <= x < 0x1_0000_0000

  type Bytes = seq<uint8>

  const UINT32_LIMIT: int := 0x1_0000_0000

  /** Go's conversion `uint32(n)` of a non-negative length: keeps the low 32 bits. */
  function ToUint32(n: nat): (r: uint32)
    ensures n < UINT32_LIMIT ==> r == n
    ensures r <= n
    ensures (n - r) % UINT32_LIMIT == 0
  {
    n % UINT32_LIMIT
  }

  /** The four bytes of `x`, most significant first. */
  function EncodeU32(x: uint32): (r: Bytes)
    ensures |r| == 4
  {
    [x / 0x100_0000, (x / 0x1_0000) % 0x100, (x / 0x100) % 0x100, x % 0x100]
  }

  /** Reads four bytes, most significant first. */
  function DecodeU32(b: Bytes): (x: uint32)
    requires |b| == 4
  {
    var hi: int := b[0];
    ((hi * 0x100 + b[1]) * 0x100 + b[2]) * 0x100 + b[3]
  }

  lemma DecodeEncodeU32(x: uint32)
    ensures DecodeU32(EncodeU32(x)) == x
  {
    var q1, q2, q3 := x / 0x100, x / 0x1_0000, x / 0x100_0000;
    assert q1 / 0x100 == q2 && q2 / 0x100 == q3;
    assert x == q1 * 0x100 + x % 0x100;
    assert q1 == q2 * 0x100 + q1 % 0x100;
    assert q2 == q3 * 0x100 + q2 % 0x100;
  }

  lemma EncodeDecodeU32(b: Bytes)
    requires |b| == 4
    ensures EncodeU32(DecodeU32(b)) == b
  {
    var x := DecodeU32(b);
    var b0: int, b1: int, b2: int, b3: int := b[0], b[1], b[2], b[3];
    assert x == b0 * 0x100_0000 + b1 * 0x1_0000 + b2 * 0x100 + b3;
    assert x / 0x100 == b0 * 0x1_0000 + b1 * 0x100 + b2;
    assert x / 0x1_0000 == b0 * 0x100 + b1;
    assert x / 0x100_0000 == b0;
  }

  /** The 32-bit field stored at byte offset `at` of `b`. */
  function Field(b: Bytes, at: nat): uint32
    requires at + 4 <= |b|
  {
    DecodeU32(b[at..at + 4])
  }

  /** `b` with the 32-bit field at offset `at` overwritten by `v`. */
  function Stamp(b: Bytes, at: nat, v: uint32): (r: Bytes)
    requires at + 4 <= |b|
    ensures |r| == |b|
    ensures r[at..at + 4] == EncodeU32(v)
    ensures forall i :: 0 <= i < |b| && !(at <= i < at + 4) ==> r[i] == b[i]
  {
    b[..at] + EncodeU32(v) + b[at + 4..]
  }

  lemma FieldOfStamp(b: Bytes, at: nat, v: uint32)
    requires at + 4 <= |b|
    ensures Field(Stamp(b, at, v), at) == v
  {
    DecodeEncodeU32(v);
  }

  /** Stamping back the value that was there undoes a stamp. */
  lemma StampRestores(b: Bytes, at: nat, v: uint32)
    requires at + 4 <= |b|
    ensures Stamp(Stamp(b, at, v), at, Field(b, at)) == b
  {
    EncodeDecodeU32(b[at..at + 4]);
    var r := Stamp(Stamp(b, at, v), at, Field(b, at));
    assert forall i | 0 <= i < |b| :: r[i] == b[i] by {
      forall i | at <= i < at + 4
        ensures r[i] == b[i]
      {
        assert r[i] == r[at..at + 4][i - at];
        assert b[i] == b[at..at + 4][i - at];
      }
    }
  }

  /** Stamping inside a prefix leaves the suffix alone. */
  lemma StampPrefix(a: Bytes, c: Bytes, at: nat, v: uint32)
    requires at + 4 <= |a|
    ensures Stamp(a + c, at, v) == Stamp(a, at, v) + c
  {
  }
}
