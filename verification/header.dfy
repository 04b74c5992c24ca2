/**
 * The download list header: a fixed-size record whose `Filesize` and
 * `CRC32` fields describe the very byte sequence that contains it. All
 * other header fields are kept abstract as the bytes they encode to.
 */
module Header {
  import opened BigEndian
  import opened Layout

  /**
   * `fields` is the encoded image of every header field other than
   * `Filesize` and `CRC32`; the bytes it holds under those two slots are
   * not used.
   */
  datatype Header = Header(fields: Bytes, filesize: uint32, crc32: uint32)

  predicate Sized(s: Schema, h: Header) {
    |h.fields| == s.headerSize
  }

  /** The unused slot bytes of `fields` are zero, so each encoding has one header. */
  predicate Canonical(s: Schema, h: Header) {
    && Sized(s, h)
    && forall i :: 0 <= i < |h.fields| && (s.InFilesize(i) || s.InCrc(i)) ==> h.fields[i] == 0
  }

  /** `binary.Write(w, binary.BigEndian, l.Header)`. */
  function Encode(s: Schema, h: Header): (r: Bytes)
    requires s.Valid() && Sized(s, h)
    ensures |r| == s.headerSize
    ensures r[s.filesizeAt..s.filesizeAt + 4] == EncodeU32(h.filesize)
    ensures r[s.crcAt..s.crcAt + 4] == EncodeU32(h.crc32)
    ensures forall i :: 0 <= i < |r| && !s.InFilesize(i) && !s.InCrc(i) ==> r[i] == h.fields[i]
  {
    var f, c := EncodeU32(h.filesize), EncodeU32(h.crc32);
    seq(s.headerSize, i requires 0 <= i < s.headerSize =>
      if s.InFilesize(i) then f[i - s.filesizeAt]
      else if s.InCrc(i) then c[i - s.crcAt]
      else h.fields[i])
  }

  /** How a reader recovers the header from its bytes. */
  function Decode(s: Schema, b: Bytes): (h: Header)
    requires s.Valid() && |b| == s.headerSize
    ensures Canonical(s, h)
  {
    Header(
      seq(s.headerSize, i requires 0 <= i < s.headerSize =>
        if s.InFilesize(i) || s.InCrc(i) then 0 else b[i]),
      Field(b, s.filesizeAt),
      Field(b, s.crcAt))
  }

  lemma DecodeEncode(s: Schema, h: Header)
    requires s.Valid() && Canonical(s, h)
    ensures Decode(s, Encode(s, h)) == h
  {
    DecodeEncodeU32(h.filesize);
    DecodeEncodeU32(h.crc32);
  }

  lemma EncodeDecode(s: Schema, b: Bytes)
    requires s.Valid() && |b| == s.headerSize
    ensures Encode(s, Decode(s, b)) == b
  {
    var r := Encode(s, Decode(s, b));
    EncodeDecodeU32(b[s.filesizeAt..s.filesizeAt + 4]);
    EncodeDecodeU32(b[s.crcAt..s.crcAt + 4]);
    forall i | 0 <= i < |b|
      ensures r[i] == b[i]
    {
      if s.InFilesize(i) {
        assert r[i] == r[s.filesizeAt..s.filesizeAt + 4][i - s.filesizeAt];
        assert b[i] == b[s.filesizeAt..s.filesizeAt + 4][i - s.filesizeAt];
      } else if s.InCrc(i) {
        assert r[i] == r[s.crcAt..s.crcAt + 4][i - s.crcAt];
        assert b[i] == b[s.crcAt..s.crcAt + 4][i - s.crcAt];
      }
    }
  }

  /**
   * Setting `CRC32` to `c` changes the encoded header exactly as
   * overwriting its CRC32 slot with `c` would: no other byte moves.
   */
  lemma EncodeWithCrc(s: Schema, h: Header, c: uint32)
    requires s.Valid() && Sized(s, h)
    ensures Encode(s, h.(crc32 := c)) == Stamp(Encode(s, h), s.crcAt, c)
  {
    var a, b := Encode(s, h.(crc32 := c)), Stamp(Encode(s, h), s.crcAt, c);
    forall i | 0 <= i < |a|
      ensures a[i] == b[i]
    {
      if s.InCrc(i) {
        assert a[i] == a[s.crcAt..s.crcAt + 4][i - s.crcAt];
        assert b[i] == b[s.crcAt..s.crcAt + 4][i - s.crcAt];
      } else if s.InFilesize(i) {
        assert a[i] == a[s.filesizeAt..s.filesizeAt + 4][i - s.filesizeAt];
        assert Encode(s, h)[i] == Encode(s, h)[s.filesizeAt..s.filesizeAt + 4][i - s.filesizeAt];
      }
    }
  }

  /** Likewise for `Filesize` and its slot. */
  lemma EncodeWithFilesize(s: Schema, h: Header, n: uint32)
    requires s.Valid() && Sized(s, h)
    ensures Encode(s, h.(filesize := n)) == Stamp(Encode(s, h), s.filesizeAt, n)
  {
    var a, b := Encode(s, h.(filesize := n)), Stamp(Encode(s, h), s.filesizeAt, n);
    forall i | 0 <= i < |a|
      ensures a[i] == b[i]
    {
      if s.InFilesize(i) {
        assert a[i] == a[s.filesizeAt..s.filesizeAt + 4][i - s.filesizeAt];
        assert b[i] == b[s.filesizeAt..s.filesizeAt + 4][i - s.filesizeAt];
      } else if s.InCrc(i) {
        assert a[i] == a[s.crcAt..s.crcAt + 4][i - s.crcAt];
        assert Encode(s, h)[i] == Encode(s, h)[s.crcAt..s.crcAt + 4][i - s.crcAt];
      }
    }
  }
}
