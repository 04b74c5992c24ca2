/**
 * The three-pass write that lets the download list header describe the
 * file it sits in: serialize once to learn the length and store it in
 * `Filesize`, serialize again and store the checksum of that image in
 * `CRC32`, serialize a third time to get the bytes that are published.
 *
 * The checksum is a parameter `crc`, so every statement here holds for
 * any checksum function; `Build` instantiates it with CRC-32/IEEE.
 */
module SelfReference {
  import opened BigEndian
  import opened Layout
  import opened DownloadList
  import Header
  import Crc32

  /** The three serializations and the list as it stands after the protocol. */
  datatype Passes = Passes(first: Bytes, second: Bytes, final: Bytes, list: List)

  function WithFilesize(l: List, n: uint32): List {
    l.(header := l.header.(filesize := n))
  }

  function WithCrc(l: List, c: uint32): List {
    l.(header := l.header.(crc32 := c))
  }

  /**
   * The write sequence of one worker: `Filesize` becomes the wrapped length
   * of the first pass, `CRC32` the checksum of the second pass, and nothing
   * else in the list changes.
   */
  function Run(s: Schema, l: List, crc: Bytes -> uint32): (p: Passes)
    requires Encodable(s, l)
    ensures p.first == WriteAll(s, l)
    ensures |p.first| == |p.second| == |p.final| == Size(s, l)
    ensures Encodable(s, p.list) && p.final == WriteAll(s, p.list)
    ensures p.list.header.fields == l.header.fields
    ensures p.list.(header := l.header) == l
  {
    var first := WriteAll(s, l);
    var sized := WithFilesize(l, ToUint32(|first|));
    var second := WriteAll(s, sized);
    var stamped := WithCrc(sized, crc(second));
    Passes(first, second, WriteAll(s, stamped), stamped)
  }

  /** The protocol with the checksum `MakeDownloadList` computes (`crc32.IEEE`). */
  function Build(s: Schema, l: List): (p: Passes)
    requires Encodable(s, l)
    ensures |p.final| == Size(s, l)
    ensures l.header.crc32 == 0 && Size(s, l) < UINT32_LIMIT ==> Accepts(s, Crc32.Ieee, p.final)
  {
    if l.header.crc32 == 0 && Size(s, l) < UINT32_LIMIT then
      ReaderAccepts(s, l, Crc32.Ieee);
      Run(s, l, Crc32.Ieee)
    else
      Run(s, l, Crc32.Ieee)
  }

  /**
   * What a consumer can check of a published image: its `Filesize` field is
   * its length, and its `CRC32` field is the checksum of the image with that
   * field zeroed.
   */
  predicate Accepts(s: Schema, crc: Bytes -> uint32, b: Bytes)
    requires s.Valid()
  {
    && s.headerSize <= |b|
    && Field(b, s.filesizeAt) == |b|
    && Field(b, s.crcAt) == crc(Stamp(b, s.crcAt, 0))
  }

  /** The serialized header fields read back as the list's header values. */
  lemma HeaderFieldsOfWriteAll(s: Schema, l: List)
    requires Encodable(s, l)
    ensures Field(WriteAll(s, l), s.filesizeAt) == l.header.filesize
    ensures Field(WriteAll(s, l), s.crcAt) == l.header.crc32
  {
    var b := WriteAll(s, l);
    var h := Header.Encode(s, l.header);
    assert b[s.filesizeAt..s.filesizeAt + 4] == h[s.filesizeAt..s.filesizeAt + 4];
    assert b[s.crcAt..s.crcAt + 4] == h[s.crcAt..s.crcAt + 4];
    DecodeEncodeU32(l.header.filesize);
    DecodeEncodeU32(l.header.crc32);
  }

  /** Changing `CRC32` changes only its four bytes of the serialization. */
  lemma WriteAllWithCrc(s: Schema, l: List, c: uint32)
    requires Encodable(s, l)
    ensures WriteAll(s, WithCrc(l, c)) == Stamp(WriteAll(s, l), s.crcAt, c)
  {
    var h := Header.Encode(s, l.header);
    var rest := WriteAll(s, l)[s.headerSize..];
    assert WriteAll(s, l) == h + rest;
    assert WriteAll(s, WithCrc(l, c)) == Header.Encode(s, WithCrc(l, c).header) + rest;
    Header.EncodeWithCrc(s, l.header, c);
    StampPrefix(h, rest, s.crcAt, c);
  }

  /** Changing `Filesize` changes only its four bytes of the serialization. */
  lemma WriteAllWithFilesize(s: Schema, l: List, n: uint32)
    requires Encodable(s, l)
    ensures WriteAll(s, WithFilesize(l, n)) == Stamp(WriteAll(s, l), s.filesizeAt, n)
  {
    var h := Header.Encode(s, l.header);
    var rest := WriteAll(s, l)[s.headerSize..];
    assert WriteAll(s, l) == h + rest;
    assert WriteAll(s, WithFilesize(l, n)) == Header.Encode(s, WithFilesize(l, n).header) + rest;
    Header.EncodeWithFilesize(s, l.header, n);
    StampPrefix(h, rest, s.filesizeAt, n);
  }

  /**
   * Consecutive passes differ only in the field set between them: the second
   * pass is the first with `Filesize` stamped, the final pass is the second
   * with `CRC32` stamped.
   */
  lemma PassesDifferByOneField(s: Schema, l: List, crc: Bytes -> uint32)
    requires Encodable(s, l)
    ensures var p := Run(s, l, crc);
      && p.second == Stamp(p.first, s.filesizeAt, ToUint32(|p.first|))
      && p.final == Stamp(p.second, s.crcAt, crc(p.second))
  {
    var first := WriteAll(s, l);
    var sized := WithFilesize(l, ToUint32(|first|));
    WriteAllWithFilesize(s, l, ToUint32(|first|));
    WriteAllWithCrc(s, sized, crc(WriteAll(s, sized)));
  }

  /**
   * The published `Filesize` is the published length, both in the list and
   * in the bytes, whenever that length fits in 32 bits.
   */
  lemma FilesizeMatchesFinal(s: Schema, l: List, crc: Bytes -> uint32)
    requires Encodable(s, l) && Size(s, l) < UINT32_LIMIT
    ensures var p := Run(s, l, crc);
      && p.list.header.filesize == |p.final|
      && Field(p.final, s.filesizeAt) == |p.final|
  {
    HeaderFieldsOfWriteAll(s, Run(s, l, crc).list);
  }

  /** Past 4 GiB the published `Filesize` is the length modulo 2^32. */
  lemma FilesizeWraps(s: Schema, l: List, crc: Bytes -> uint32)
    requires Encodable(s, l)
    ensures var p := Run(s, l, crc);
      && Field(p.final, s.filesizeAt) == |p.final| % UINT32_LIMIT
      && (Size(s, l) >= UINT32_LIMIT ==> Field(p.final, s.filesizeAt) != |p.final|)
  {
    HeaderFieldsOfWriteAll(s, Run(s, l, crc).list);
  }

  /**
   * The published `CRC32` is the checksum of the published image with the
   * `CRC32` field put back to the value it had before the protocol ran.
   */
  lemma ChecksumOverSecondPass(s: Schema, l: List, crc: Bytes -> uint32)
    requires Encodable(s, l)
    ensures var p := Run(s, l, crc);
      && p.list.header.crc32 == crc(p.second)
      && Field(p.final, s.crcAt) == crc(p.second)
      && p.second == Stamp(p.final, s.crcAt, l.header.crc32)
  {
    var p := Run(s, l, crc);
    PassesDifferByOneField(s, l, crc);
    FieldOfStamp(p.second, s.crcAt, crc(p.second));
    HeaderFieldsOfWriteAll(s, p.list);
    var sized := WithFilesize(l, ToUint32(|p.first|));
    HeaderFieldsOfWriteAll(s, sized);
    StampRestores(p.second, s.crcAt, crc(p.second));
  }

  /**
   * A list whose `CRC32` starts at zero, and whose serialized length is
   * below 2^32, is published in a form the consumer's check accepts.
   */
  lemma ReaderAccepts(s: Schema, l: List, crc: Bytes -> uint32)
    requires Encodable(s, l) && l.header.crc32 == 0 && Size(s, l) < UINT32_LIMIT
    ensures Accepts(s, crc, Run(s, l, crc).final)
  {
    var p := Run(s, l, crc);
    FilesizeMatchesFinal(s, l, crc);
    ChecksumOverSecondPass(s, l, crc);
  }

  /**
   * Whatever `CRC32` held before the protocol, the consumer accepts the
   * published image exactly when checksumming it with `CRC32` zeroed gives
   * the same value as checksumming the second pass.
   */
  lemma AcceptsExactly(s: Schema, l: List, crc: Bytes -> uint32)
    requires Encodable(s, l) && Size(s, l) < UINT32_LIMIT
    ensures var p := Run(s, l, crc);
      Accepts(s, crc, p.final) <==> crc(Stamp(p.final, s.crcAt, 0)) == crc(p.second)
  {
    FilesizeMatchesFinal(s, l, crc);
    ChecksumOverSecondPass(s, l, crc);
  }

  /**
   * Without that zero start the second pass checksums a stale `CRC32`: the
   * published image is rejected whenever the checksum tells the stale value
   * from zero. From 4 GiB on the wrapped `Filesize` already fails the check.
   */
  lemma StaleChecksumRejected(s: Schema, l: List, crc: Bytes -> uint32)
    requires Encodable(s, l) && l.header.crc32 != 0
    requires crc(Stamp(Run(s, l, crc).final, s.crcAt, 0)) != crc(Run(s, l, crc).second)
    ensures !Accepts(s, crc, Run(s, l, crc).final)
  {
    if Size(s, l) < UINT32_LIMIT {
      AcceptsExactly(s, l, crc);
    } else {
      FilesizeWraps(s, l, crc);
    }
  }

  /**
   * For a list whose `CRC32` starts at zero, running the protocol again on
   * its own result, with `CRC32` cleared, publishes the same bytes and the
   * same list.
   */
  lemma RerunIsStable(s: Schema, l: List, crc: Bytes -> uint32)
    requires Encodable(s, l) && l.header.crc32 == 0
    ensures var p := Run(s, l, crc);
      && Run(s, WithCrc(p.list, 0), crc) == Passes(
           WriteAll(s, WithCrc(p.list, 0)), p.second, p.final, p.list)
  {
    var p := Run(s, l, crc);
    var cleared := WithCrc(p.list, 0);
    var sized := WithFilesize(l, ToUint32(|p.first|));
    assert cleared == sized;
    assert WithFilesize(cleared, ToUint32(Size(s, cleared))) == sized;
  }
}
