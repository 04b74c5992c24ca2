/**
 * The download list aggregate (`List` of dllist/dllist.go) and its
 * serializer `WriteAll`: the header, then twelve tables in one fixed order,
 * each written with `binary.Write` in big-endian order.
 */
module DownloadList {
  import opened BigEndian
  import opened Layout
  import opened Wrappers
  import opened Tables
  import Header

  /**
   * The build state a `List` keeps besides its tables: the region, rating
   * group and language it is built for, the recommendation working map
   * (game id to an opaque vote record) and the accumulated image bytes.
   */
  datatype State = State(
    region: nat,
    ratingGroup: nat,
    language: nat,
    recommendations: map<string, Record>,
    imageBuffer: Bytes)

  /** The state of a list that was read back from bytes rather than built. */
  const Detached: State := State(0, 0, 0, map[], [])

  datatype List = List(
    header: Header.Header,
    ratings: seq<Record>,
    titleTypes: seq<Record>,
    companies: seq<Record>,
    titles: seq<Record>,
    /** Positions of new titles in `titles`, in display order. */
    newTitles: seq<uint32>,
    videos: seq<Record>,
    newVideos: seq<Record>,
    demos: seq<Record>,
    /** Recommended titles, in display order. */
    recommendationIndex: seq<uint32>,
    recentRecommendations: seq<Record>,
    popularVideos: seq<Record>,
    detailedRatings: seq<Record>,
    state: State)

  /** Every record has the width its Go type gives it. */
  predicate Encodable(s: Schema, l: List) {
    && s.Valid()
    && Header.Sized(s, l.header)
    && Uniform(l.ratings, s.rating)
    && Uniform(l.titleTypes, s.titleType)
    && Uniform(l.companies, s.company)
    && Uniform(l.titles, s.title)
    && Uniform(l.videos, s.video)
    && Uniform(l.newVideos, s.newVideo)
    && Uniform(l.demos, s.demo)
    && Uniform(l.recentRecommendations, s.recentRecommendation)
    && Uniform(l.popularVideos, s.popularVideo)
    && Uniform(l.detailedRatings, s.detailedRating)
  }

  /** The serialized size: the header plus, per table, count times record width. */
  function Size(s: Schema, l: List): nat {
    s.headerSize
    + Span(|l.ratings|, s.rating)
    + Span(|l.titleTypes|, s.titleType)
    + Span(|l.companies|, s.company)
    + Span(|l.titles|, s.title)
    + Span(|l.newTitles|, 4)
    + Span(|l.videos|, s.video)
    + Span(|l.newVideos|, s.newVideo)
    + Span(|l.demos|, s.demo)
    + Span(|l.recommendationIndex|, 4)
    + Span(|l.recentRecommendations|, s.recentRecommendation)
    + Span(|l.popularVideos|, s.popularVideo)
    + Span(|l.detailedRatings|, s.detailedRating)
  }

  /** `List.WriteAll` into an empty buffer. */
  function WriteAll(s: Schema, l: List): (r: Bytes)
    requires Encodable(s, l)
    ensures |r| == Size(s, l)
    ensures r[..s.headerSize] == Header.Encode(s, l.header)
  {
    Header.Encode(s, l.header)
    + (EncodeRecords(s.rating, l.ratings)
    + (EncodeRecords(s.titleType, l.titleTypes)
    + (EncodeRecords(s.company, l.companies)
    + (EncodeRecords(s.title, l.titles)
    + (EncodeIndex(l.newTitles)
    + (EncodeRecords(s.video, l.videos)
    + (EncodeRecords(s.newVideo, l.newVideos)
    + (EncodeRecords(s.demo, l.demos)
    + (EncodeIndex(l.recommendationIndex)
    + (EncodeRecords(s.recentRecommendation, l.recentRecommendations)
    + (EncodeRecords(s.popularVideo, l.popularVideos)
    + EncodeRecords(s.detailedRating, l.detailedRatings))))))))))))
  }

  /** `List.GetCurrentSize`: the serialized list plus the image buffer, as a `uint32`. */
  function CurrentSize(s: Schema, l: List): (r: uint32)
    requires Encodable(s, l)
    ensures (Size(s, l) + |l.state.imageBuffer| - r) % UINT32_LIMIT == 0
    ensures Size(s, l) + |l.state.imageBuffer| < UINT32_LIMIT ==> r == Size(s, l) + |l.state.imageBuffer|
  {
    ToUint32(|WriteAll(s, l) + l.state.imageBuffer|)
  }

  /** The build state, image bytes included, never reaches the serialized list. */
  lemma WriteAllIgnoresState(s: Schema, l: List, st: State)
    requires Encodable(s, l)
    ensures WriteAll(s, l.(state := st)) == WriteAll(s, l)
  {
  }

  /** The record count of every table, which a reader must know to parse the list. */
  datatype Shape = Shape(
    ratings: nat, titleTypes: nat, companies: nat, titles: nat, newTitles: nat,
    videos: nat, newVideos: nat, demos: nat, recommendationIndex: nat,
    recentRecommendations: nat, popularVideos: nat, detailedRatings: nat)

  function ShapeOf(l: List): Shape {
    Shape(|l.ratings|, |l.titleTypes|, |l.companies|, |l.titles|, |l.newTitles|,
      |l.videos|, |l.newVideos|, |l.demos|, |l.recommendationIndex|,
      |l.recentRecommendations|, |l.popularVideos|, |l.detailedRatings|)
  }

  /**
   * A consumer's view: given the table counts, split the bytes into
   * the header and the twelve tables in serialization order. `None` when
   * the bytes are too short or too long for that shape.
   */
  function Parse(s: Schema, shape: Shape, b: Bytes): (r: Option<List>)
    requires s.Valid()
    ensures r.Some? ==> Encodable(s, r.value) && Header.Canonical(s, r.value.header)
    ensures r.Some? ==> ShapeOf(r.value) == shape && r.value.state == Detached
  {
    if |b| < s.headerSize then None
    else
      var header := Header.Decode(s, b[..s.headerSize]);
      var ratings :- TakeRecords(b[s.headerSize..], s.rating, shape.ratings);
      var titleTypes :- TakeRecords(ratings.1, s.titleType, shape.titleTypes);
      var companies :- TakeRecords(titleTypes.1, s.company, shape.companies);
      var titles :- TakeRecords(companies.1, s.title, shape.titles);
      var newTitles :- TakeIndex(titles.1, shape.newTitles);
      var videos :- TakeRecords(newTitles.1, s.video, shape.videos);
      var newVideos :- TakeRecords(videos.1, s.newVideo, shape.newVideos);
      var demos :- TakeRecords(newVideos.1, s.demo, shape.demos);
      var recommendationIndex :- TakeIndex(demos.1, shape.recommendationIndex);
      var recent :- TakeRecords(recommendationIndex.1, s.recentRecommendation, shape.recentRecommendations);
      var popular :- TakeRecords(recent.1, s.popularVideo, shape.popularVideos);
      var detailed :- TakeRecords(popular.1, s.detailedRating, shape.detailedRatings);
      if |detailed.1| != 0 then None
      else
        Some(List(header, ratings.0, titleTypes.0, companies.0, titles.0, newTitles.0,
          videos.0, newVideos.0, demos.0, recommendationIndex.0, recent.0, popular.0,
          detailed.0, Detached))
  }

  /**
   * Everything `WriteAll` emits is read back, table by table and record by
   * record in insertion order: the serialization loses nothing but the
   * build state, and inserts nothing between the tables.
   */
  lemma {:induction false} ParseWriteAll(s: Schema, l: List)
    requires Encodable(s, l) && Header.Canonical(s, l.header)
    ensures Parse(s, ShapeOf(l), WriteAll(s, l)) == Some(l.(state := Detached))
  {
    var e12 := EncodeRecords(s.detailedRating, l.detailedRatings);
    var e11 := EncodeRecords(s.popularVideo, l.popularVideos) + e12;
    var e10 := EncodeRecords(s.recentRecommendation, l.recentRecommendations) + e11;
    var e9 := EncodeIndex(l.recommendationIndex) + e10;
    var e8 := EncodeRecords(s.demo, l.demos) + e9;
    var e7 := EncodeRecords(s.newVideo, l.newVideos) + e8;
    var e6 := EncodeRecords(s.video, l.videos) + e7;
    var e5 := EncodeIndex(l.newTitles) + e6;
    var e4 := EncodeRecords(s.title, l.titles) + e5;
    var e3 := EncodeRecords(s.company, l.companies) + e4;
    var e2 := EncodeRecords(s.titleType, l.titleTypes) + e3;
    var e1 := EncodeRecords(s.rating, l.ratings) + e2;
    var b := WriteAll(s, l);
    assert b == Header.Encode(s, l.header) + e1;
    assert b[s.headerSize..] == e1;
    Header.DecodeEncode(s, l.header);
    TakeEncodedRecords(s.rating, l.ratings, e2);
    TakeEncodedRecords(s.titleType, l.titleTypes, e3);
    TakeEncodedRecords(s.company, l.companies, e4);
    TakeEncodedRecords(s.title, l.titles, e5);
    TakeEncodedIndex(l.newTitles, e6);
    TakeEncodedRecords(s.video, l.videos, e7);
    TakeEncodedRecords(s.newVideo, l.newVideos, e8);
    TakeEncodedRecords(s.demo, l.demos, e9);
    TakeEncodedIndex(l.recommendationIndex, e10);
    TakeEncodedRecords(s.recentRecommendation, l.recentRecommendations, e11);
    TakeEncodedRecords(s.popularVideo, l.popularVideos, e12);
    TakeEncodedRecords(s.detailedRating, l.detailedRatings, []);
    assert e12 + [] == e12;
  }

  /**
   * Conversely, every byte sequence the reader accepts is exactly what
   * `WriteAll` emits for the list it reads: for a given shape,
   * serialization is a bijection between lists and byte sequences.
   */
  lemma {:induction false} WriteAllParse(s: Schema, shape: Shape, b: Bytes)
    requires s.Valid() && Parse(s, shape, b).Some?
    ensures WriteAll(s, Parse(s, shape, b).value) == b
  {
    var p := Parse(s, shape, b).value;
    var rest0 := b[s.headerSize..];
    var ratings := TakeRecords(rest0, s.rating, shape.ratings).value;
    var titleTypes := TakeRecords(ratings.1, s.titleType, shape.titleTypes).value;
    var companies := TakeRecords(titleTypes.1, s.company, shape.companies).value;
    var titles := TakeRecords(companies.1, s.title, shape.titles).value;
    var newTitles := TakeIndex(titles.1, shape.newTitles).value;
    var videos := TakeRecords(newTitles.1, s.video, shape.videos).value;
    var newVideos := TakeRecords(videos.1, s.newVideo, shape.newVideos).value;
    var demos := TakeRecords(newVideos.1, s.demo, shape.demos).value;
    var recommendationIndex := TakeIndex(demos.1, shape.recommendationIndex).value;
    var recent := TakeRecords(recommendationIndex.1, s.recentRecommendation, shape.recentRecommendations).value;
    var popular := TakeRecords(recent.1, s.popularVideo, shape.popularVideos).value;
    var detailed := TakeRecords(popular.1, s.detailedRating, shape.detailedRatings).value;
    assert p == List(Header.Decode(s, b[..s.headerSize]), ratings.0, titleTypes.0, companies.0,
      titles.0, newTitles.0, videos.0, newVideos.0, demos.0, recommendationIndex.0, recent.0,
      popular.0, detailed.0, Detached);
    var d12 := EncodeRecords(s.detailedRating, detailed.0);
    assert d12 == popular.1 by {
      TakeRecordsSplits(popular.1, s.detailedRating, shape.detailedRatings);
      assert detailed.1 == [];
      assert d12 + [] == d12;
    }
    var d11 := EncodeRecords(s.popularVideo, popular.0) + d12;
    assert d11 == recent.1 by {
      TakeRecordsSplits(recent.1, s.popularVideo, shape.popularVideos);
    }
    var d10 := EncodeRecords(s.recentRecommendation, recent.0) + d11;
    assert d10 == recommendationIndex.1 by {
      TakeRecordsSplits(recommendationIndex.1, s.recentRecommendation, shape.recentRecommendations);
    }
    var d9 := EncodeIndex(recommendationIndex.0) + d10;
    assert d9 == demos.1 by {
      TakeIndexSplits(demos.1, shape.recommendationIndex);
    }
    var d8 := EncodeRecords(s.demo, demos.0) + d9;
    assert d8 == newVideos.1 by {
      TakeRecordsSplits(newVideos.1, s.demo, shape.demos);
    }
    var d7 := EncodeRecords(s.newVideo, newVideos.0) + d8;
    assert d7 == videos.1 by {
      TakeRecordsSplits(videos.1, s.newVideo, shape.newVideos);
    }
    var d6 := EncodeRecords(s.video, videos.0) + d7;
    assert d6 == newTitles.1 by {
      TakeRecordsSplits(newTitles.1, s.video, shape.videos);
    }
    var d5 := EncodeIndex(newTitles.0) + d6;
    assert d5 == titles.1 by {
      TakeIndexSplits(titles.1, shape.newTitles);
    }
    var d4 := EncodeRecords(s.title, titles.0) + d5;
    assert d4 == companies.1 by {
      TakeRecordsSplits(companies.1, s.title, shape.titles);
    }
    var d3 := EncodeRecords(s.company, companies.0) + d4;
    assert d3 == titleTypes.1 by {
      TakeRecordsSplits(titleTypes.1, s.company, shape.companies);
    }
    var d2 := EncodeRecords(s.titleType, titleTypes.0) + d3;
    assert d2 == ratings.1 by {
      TakeRecordsSplits(ratings.1, s.titleType, shape.titleTypes);
    }
    var d1 := EncodeRecords(s.rating, ratings.0) + d2;
    assert d1 == rest0 by {
      TakeRecordsSplits(rest0, s.rating, shape.ratings);
    }
    Header.EncodeDecode(s, b[..s.headerSize]);
    assert WriteAll(s, p) == Header.Encode(s, p.header) + d1;
    assert b == b[..s.headerSize] + rest0;
  }
}
