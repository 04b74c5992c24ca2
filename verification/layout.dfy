/**
 * The byte widths of the download list's fixed-size records.
 *
 * The Go struct definitions of `Header` and the table record types are not
 * part of this model, so their sizes are not fixed here: a `Schema` names
 * the encoded width of each record type and the byte offsets of the two
 * self-referential header fields, and every statement of the model holds
 * for every valid schema.
 */
module Layout {

  datatype Schema = Schema(
    headerSize: nat,
    /** Byte offset of `Header.Filesize` within the encoded header. */
    filesizeAt: nat,
    /** Byte offset of `Header.CRC32` within the encoded header. */
    crcAt: nat,
    rating: nat,
    titleType: nat,
    company: nat,
    title: nat,
    video: nat,
    newVideo: nat,
    demo: nat,
    recentRecommendation: nat,
    popularVideo: nat,
    detailedRating: nat)
  {
    /** Both 32-bit header fields lie inside the header and do not overlap. */
    predicate Valid() {
      && filesizeAt + 4 <= headerSize
      && crcAt + 4 <= headerSize
      && (filesizeAt + 4 <= crcAt || crcAt + 4 <= filesizeAt)
    }

    predicate InFilesize(i: int) {
      filesizeAt <= i < filesizeAt + 4
    }

    predicate InCrc(i: int) {
      crcAt <= i < crcAt + 4
    }
  }
}
