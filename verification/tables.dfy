/**
 * The tables of the download list. `binary.Write` of a slice of a
 * fixed-size type writes its elements back to back, in slice order, with
 * no count, padding or separator; a reader therefore needs the element
 * count from elsewhere (the header, whose layout is not part of this
 * model) and the element width.
 */
module Tables {
  import opened BigEndian
  import opened Wrappers

  /**
   * One record of an entity table (rating, title type, company, title,
   * video, ...): the fixed-width bytes `binary.Write` emits for it. The
   * record field layouts are not part of this model.
   */
  datatype Record = Record(raw: Bytes)

  /** Every record of `t` has the width `w` of its record type. */
  predicate Uniform(t: seq<Record>, w: nat) {
    forall i :: 0 <= i < |t| ==> |t[i].raw| == w
  }

  /** The number of bytes `n` elements of width `w` take. */
  function Span(n: nat, w: nat): nat {
    n * w
  }

  /** `binary.Write` of a slice of fixed-width records of width `w`. */
  function EncodeRecords(w: nat, t: seq<Record>): (r: Bytes)
    requires Uniform(t, w)
    ensures |r| == Span(|t|, w)
  {
    if |t| == 0 then []
    else
      var rest := EncodeRecords(w, t[1..]);
      assert Span(|t|, w) == w + Span(|t| - 1, w);
      t[0].raw + rest
  }

  /**
   * Reads `n` records of width `w` from the front of `b`, returning them
   * and the unread rest; `None` when `b` is too short.
   */
  function TakeRecords(b: Bytes, w: nat, n: nat): (r: Option<(seq<Record>, Bytes)>)
    ensures r.Some? ==> |r.value.0| == n && Uniform(r.value.0, w)
  {
    if n == 0 then Some(([], b))
    else if |b| < w then None
    else
      var p :- TakeRecords(b[w..], w, n - 1);
      Some(([Record(b[..w])] + p.0, p.1))
  }

  /** A table reads back from its own encoding, whatever follows it. */
  lemma {:induction false} TakeEncodedRecords(w: nat, t: seq<Record>, rest: Bytes)
    requires Uniform(t, w)
    ensures TakeRecords(EncodeRecords(w, t) + rest, w, |t|) == Some((t, rest))
  {
    if |t| > 0 {
      var b := EncodeRecords(w, t) + rest;
      assert b[..w] == t[0].raw;
      assert b[w..] == EncodeRecords(w, t[1..]) + rest;
      TakeEncodedRecords(w, t[1..], rest);
      assert |b| >= w;
      assert TakeRecords(b, w, |t|) == Some(([Record(b[..w])] + t[1..], rest));
      assert [t[0]] + t[1..] == t;
    } else {
      assert EncodeRecords(w, t) + rest == rest;
    }
  }

  /** Conversely, whatever was read re-encodes to the bytes it came from. */
  lemma {:induction false} TakeRecordsSplits(b: Bytes, w: nat, n: nat)
    requires TakeRecords(b, w, n).Some?
    ensures var p := TakeRecords(b, w, n).value; EncodeRecords(w, p.0) + p.1 == b
  {
    if n > 0 {
      TakeRecordsSplits(b[w..], w, n - 1);
      var p := TakeRecords(b, w, n).value;
      assert p.0[1..] == TakeRecords(b[w..], w, n - 1).value.0;
      assert b == b[..w] + b[w..];
    }
  }

  /** `binary.Write` of a `[]uint32` index table: four big-endian bytes per entry. */
  function EncodeIndex(t: seq<uint32>): (r: Bytes)
    ensures |r| == Span(|t|, 4)
  {
    if |t| == 0 then [] else EncodeU32(t[0]) + EncodeIndex(t[1..])
  }

  /** Reads `n` index entries from the front of `b`. */
  function TakeIndex(b: Bytes, n: nat): (r: Option<(seq<uint32>, Bytes)>)
    ensures r.Some? ==> |r.value.0| == n
  {
    if n == 0 then Some(([], b))
    else if |b| < 4 then None
    else
      var p :- TakeIndex(b[4..], n - 1);
      Some(([DecodeU32(b[..4])] + p.0, p.1))
  }

  lemma {:induction false} TakeEncodedIndex(t: seq<uint32>, rest: Bytes)
    ensures TakeIndex(EncodeIndex(t) + rest, |t|) == Some((t, rest))
  {
    if |t| > 0 {
      var b := EncodeIndex(t) + rest;
      assert b[..4] == EncodeU32(t[0]);
      assert b[4..] == EncodeIndex(t[1..]) + rest;
      DecodeEncodeU32(t[0]);
      TakeEncodedIndex(t[1..], rest);
      assert |b| >= 4;
      assert TakeIndex(b, |t|) == Some(([DecodeU32(b[..4])] + t[1..], rest));
      assert [t[0]] + t[1..] == t;
    } else {
      assert EncodeIndex(t) + rest == rest;
    }
  }

  lemma {:induction false} TakeIndexSplits(b: Bytes, n: nat)
    requires TakeIndex(b, n).Some?
    ensures var p := TakeIndex(b, n).value; EncodeIndex(p.0) + p.1 == b
  {
    if n > 0 {
      TakeIndexSplits(b[4..], n - 1);
      var p := TakeIndex(b, n).value;
      assert p.0[1..] == TakeIndex(b[4..], n - 1).value.0;
      EncodeDecodeU32(b[..4]);
      assert b == b[..4] + b[4..];
    }
  }
}
