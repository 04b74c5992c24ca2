/**
 * CRC-32 as `hash/crc32` computes it for `crc32.MakeTable(crc32.IEEE)`:
 * the reflected shift-register CRC of ITU-T V.42 section 8.1.1.6.2 /
 * IEEE 802.3 clause 3.2.9, with reversed polynomial 0xEDB88320, initial
 * register all ones and the final register inverted. This is the bitwise
 * definition; Go's table-driven implementation is not part of this model.
 */
module Crc32 {
  import opened BigEndian

  /** `crc32.IEEE`, the reversed IEEE 802.3 polynomial. */
  const IEEE: bv32 := 0xEDB8_8320

  /** One shift of the reflected register: divide by x and reduce by `poly`. */
  function Step(poly: bv32, c: bv32): bv32 {
    if c & 1 == 1 then (c >> 1) ^ poly else c >> 1
  }

  /** `n` shifts of the register. */
  function Shift(poly: bv32, c: bv32, n: nat): bv32
    decreases n
  {
    if n == 0 then c else Shift(poly, Step(poly, c), n - 1)
  }

  /** Feeds one byte, low bit first. */
  function UpdateByte(poly: bv32, c: bv32, b: uint8): bv32 {
    Shift(poly, c ^ ((b as bv8) as bv32), 8)
  }

  /** `UpdateByte` for `poly` as a register update. */
  function ByteStep(poly: bv32): (bv32, uint8) -> bv32 {
    (r: bv32, b: uint8) => UpdateByte(poly, r, b)
  }

  /** Feeds `data` in order through a register update `step`. */
  function Feed(step: (bv32, uint8) -> bv32, c: bv32, data: Bytes): bv32
    decreases |data|
  {
    if |data| == 0 then c
    else step(Feed(step, c, data[..|data| - 1]), data[|data| - 1])
  }

  /** Feeds `data` in order, one byte at a time. */
  function Update(poly: bv32, c: bv32, data: Bytes): bv32 {
    Feed(ByteStep(poly), c, data)
  }

  /** The CRC-32 of `data` for polynomial `poly`. */
  function Crc(poly: bv32, data: Bytes): uint32 {
    (!Update(poly, !0, data)) as int
  }

  /**
   * CRC-32/IEEE, the checksum the download list header carries. The preset
   * and the final inversion cancel on empty input, so its checksum is zero;
   * `CheckValue` gives its value on the standard check string.
   */
  function Ieee(data: Bytes): (r: uint32)
    ensures |data| == 0 ==> r == 0
  {
    Crc(IEEE, data)
  }

  /**
   * Feeding `a + b` is feeding `a` and then `b` from the register `a` left:
   * a property of the CRC definition itself, that its register is the whole
   * state carried from one byte to the next.
   */
  lemma {:induction false} FeedAppend(step: (bv32, uint8) -> bv32, c: bv32, a: Bytes, b: Bytes)
    ensures Feed(step, c, a + b) == Feed(step, Feed(step, c, a), b)
    decreases |b|
  {
    if |b| == 0 {
      assert a + b == a;
    } else {
      var ab := a + b;
      assert ab[..|ab| - 1] == a + b[..|b| - 1];
      assert ab[|ab| - 1] == b[|b| - 1];
      FeedAppend(step, c, a, b[..|b| - 1]);
    }
  }

  /** `FeedAppend` for the byte update of polynomial `poly`. */
  lemma UpdateAppend(poly: bv32, c: bv32, a: Bytes, b: Bytes)
    ensures Update(poly, c, a + b) == Update(poly, Update(poly, c, a), b)
  {
    FeedAppend(ByteStep(poly), c, a, b);
  }

  /** Feeding one more byte is one more register update. */
  lemma {:induction false} FeedSnoc(step: (bv32, uint8) -> bv32, c: bv32, a: Bytes, x: uint8)
    ensures Feed(step, c, a + [x]) == step(Feed(step, c, a), x)
  {
    assert (a + [x])[..|a|] == a;
  }

  // The register after each byte of the ASCII string "123456789", one
  // lemma per byte so that each evaluation stays small.

  lemma CheckByte1()
    ensures ByteStep(IEEE)(0xffffffff, 0x31) == 0x7c231048
  {
  }

  lemma CheckByte2()
    ensures ByteStep(IEEE)(0x7c231048, 0x32) == 0xb0acbb32
  {
  }

  lemma CheckByte3()
    ensures ByteStep(IEEE)(0xb0acbb32, 0x33) == 0x77b79c2d
  {
  }

  lemma CheckByte4()
    ensures ByteStep(IEEE)(0x77b79c2d, 0x34) == 0x641c1f5c
  {
  }

  lemma CheckByte5()
    ensures ByteStep(IEEE)(0x641c1f5c, 0x35) == 0x340ac5e3
  {
  }

  lemma CheckByte6()
    ensures ByteStep(IEEE)(0x340ac5e3, 0x36) == 0xf68d2c9e
  {
  }

  lemma CheckByte7()
    ensures ByteStep(IEEE)(0xf68d2c9e, 0x37) == 0xaffc9660
  {
  }

  lemma CheckByte8()
    ensures ByteStep(IEEE)(0xaffc9660, 0x38) == 0x651f2550
  {
  }

  lemma CheckByte9()
    ensures ByteStep(IEEE)(0x651f2550, 0x39) == 0x340bc6d9
  {
  }

  lemma CheckPrefix0()
    ensures Feed(ByteStep(IEEE), !0, []) == 0xffffffff
  {
  }

  lemma CheckPrefix1()
    ensures Feed(ByteStep(IEEE), !0, [0x31]) == 0x7c231048
  {
    CheckPrefix0();
    CheckByte1();
    FeedSnoc(ByteStep(IEEE), !0, [], 0x31);
    assert [] + [0x31] == [0x31];
  }

  lemma CheckPrefix2()
    ensures Feed(ByteStep(IEEE), !0, [0x31, 0x32]) == 0xb0acbb32
  {
    CheckPrefix1();
    CheckByte2();
    FeedSnoc(ByteStep(IEEE), !0, [0x31], 0x32);
    assert [0x31] + [0x32] == [0x31, 0x32];
  }

  lemma CheckPrefix3()
    ensures Feed(ByteStep(IEEE), !0, [0x31, 0x32, 0x33]) == 0x77b79c2d
  {
    CheckPrefix2();
    CheckByte3();
    FeedSnoc(ByteStep(IEEE), !0, [0x31, 0x32], 0x33);
    assert [0x31, 0x32] + [0x33] == [0x31, 0x32, 0x33];
  }

  lemma CheckPrefix4()
    ensures Feed(ByteStep(IEEE), !0, [0x31, 0x32, 0x33, 0x34]) == 0x641c1f5c
  {
    CheckPrefix3();
    CheckByte4();
    FeedSnoc(ByteStep(IEEE), !0, [0x31, 0x32, 0x33], 0x34);
    assert [0x31, 0x32, 0x33] + [0x34] == [0x31, 0x32, 0x33, 0x34];
  }

  lemma CheckPrefix5()
    ensures Feed(ByteStep(IEEE), !0, [0x31, 0x32, 0x33, 0x34, 0x35]) == 0x340ac5e3
  {
    CheckPrefix4();
    CheckByte5();
    FeedSnoc(ByteStep(IEEE), !0, [0x31, 0x32, 0x33, 0x34], 0x35);
    assert [0x31, 0x32, 0x33, 0x34] + [0x35] == [0x31, 0x32, 0x33, 0x34, 0x35];
  }

  lemma CheckPrefix6()
    ensures Feed(ByteStep(IEEE), !0, [0x31, 0x32, 0x33, 0x34, 0x35, 0x36]) == 0xf68d2c9e
  {
    CheckPrefix5();
    CheckByte6();
    FeedSnoc(ByteStep(IEEE), !0, [0x31, 0x32, 0x33, 0x34, 0x35], 0x36);
    assert [0x31, 0x32, 0x33, 0x34, 0x35] + [0x36] == [0x31, 0x32, 0x33, 0x34, 0x35, 0x36];
  }

  lemma CheckPrefix7()
    ensures Feed(ByteStep(IEEE), !0, [0x31, 0x32, 0x33, 0x34, 0x35, 0x36, 0x37]) == 0xaffc9660
  {
    CheckPrefix6();
    CheckByte7();
    FeedSnoc(ByteStep(IEEE), !0, [0x31, 0x32, 0x33, 0x34, 0x35, 0x36], 0x37);
    assert [0x31, 0x32, 0x33, 0x34, 0x35, 0x36] + [0x37] == [0x31, 0x32, 0x33, 0x34, 0x35, 0x36, 0x37];
  }

  lemma CheckPrefix8()
    ensures Feed(ByteStep(IEEE), !0, [0x31, 0x32, 0x33, 0x34, 0x35, 0x36, 0x37, 0x38]) == 0x651f2550
  {
    CheckPrefix7();
    CheckByte8();
    FeedSnoc(ByteStep(IEEE), !0, [0x31, 0x32, 0x33, 0x34, 0x35, 0x36, 0x37], 0x38);
    assert [0x31, 0x32, 0x33, 0x34, 0x35, 0x36, 0x37] + [0x38] == [0x31, 0x32, 0x33, 0x34, 0x35, 0x36, 0x37, 0x38];
  }

  lemma CheckPrefix9()
    ensures Feed(ByteStep(IEEE), !0, [0x31, 0x32, 0x33, 0x34, 0x35, 0x36, 0x37, 0x38, 0x39]) == 0x340bc6d9
  {
    CheckPrefix8();
    CheckByte9();
    FeedSnoc(ByteStep(IEEE), !0, [0x31, 0x32, 0x33, 0x34, 0x35, 0x36, 0x37, 0x38], 0x39);
    assert [0x31, 0x32, 0x33, 0x34, 0x35, 0x36, 0x37, 0x38] + [0x39] == [0x31, 0x32, 0x33, 0x34, 0x35, 0x36, 0x37, 0x38, 0x39];
  }

  /**
   * The check value of CRC-32/IEEE: the checksum of the ASCII string
   * "123456789" is 0xCBF43926.
   */
  lemma CheckValue()
    ensures Ieee([0x31, 0x32, 0x33, 0x34, 0x35, 0x36, 0x37, 0x38, 0x39]) == 0xCBF4_3926
  {
    CheckPrefix9();
  }
}
