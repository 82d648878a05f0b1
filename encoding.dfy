/** What encoding a chunk (`_encode_chunk`) and a chunk list (`encode_ordinary`) computes. */
module Encoding {
  import opened PairStats
  import opened PairMerge
  import opened Vocabulary

  datatype Option<T> = None | Some(value: T)

  /** `merges.get(p)`: the id the merge table assigns to `p`, if `p` is a key. */
  function Lookup(ms: seq<MergeEntry>, p: Pair): (r: Option<int>)
    ensures r.None? <==> forall k :: 0 <= k < |ms| ==> ms[k].pair != p
    ensures r.Some? ==> exists k :: 0 <= k < |ms| && ms[k] == MergeEntry(p, r.value)
    decreases |ms|
  {
    if |ms| == 0 then None
    else if ms[0].pair == p then Some(ms[0].id)
    else Lookup(ms[1..], p)
  }

  /** In a well-formed table an id names one pair only. */
  lemma LookupInjective(ms: seq<MergeEntry>, p: Pair, q: Pair)
    requires WellFormed(ms)
    requires Lookup(ms, p).Some? && Lookup(ms, p) == Lookup(ms, q)
    ensures p == q
  {
    var id := Lookup(ms, p).value;
    var j :| 0 <= j < |ms| && ms[j] == MergeEntry(p, id);
    var k :| 0 <= k < |ms| && ms[k] == MergeEntry(q, id);
    assert ms[j].id == 256 + j && ms[k].id == 256 + k;
  }

  /**
   * The pair `_encode_chunk` merges next: among the adjacent pairs of `ids`
   * that are keys of the table, one with the smallest merge id; `None` when
   * no adjacent pair is a key.
   */
  function LowestMerge(ms: seq<MergeEntry>, ids: seq<int>): (r: Option<MergeEntry>)
    ensures r.None? <==> forall q :: q in Pairs(ids) ==> Lookup(ms, q).None?
    ensures r.Some? ==> r.value.pair in Pairs(ids) && Lookup(ms, r.value.pair) == Some(r.value.id)
    ensures r.Some? ==> forall q :: q in Pairs(ids) && Lookup(ms, q).Some? ==> r.value.id <= Lookup(ms, q).value
    decreases |ids|
  {
    if |ids| < 2 then None
    else
      assert Pairs(ids) == [(ids[0], ids[1])] + Pairs(ids[1..]);
      var first := (ids[0], ids[1]);
      var here := Lookup(ms, first);
      var rest := LowestMerge(ms, ids[1..]);
      assert first in Pairs(ids);
      assert rest.Some? ==> rest.value.pair in Pairs(ids);
      if here.None? then rest
      else if rest.Some? && rest.value.id < here.value then rest
      else Some(MergeEntry(first, here.value))
  }

  /**
   * `_encode_chunk` on the ids of one chunk: while two or more ids remain,
   * merge the present pair with the smallest merge id; stop when no adjacent
   * pair is a key.  The result is never longer than the input and none of
   * its adjacent pairs is a key of the table.
   */
  function Encoded(ms: seq<MergeEntry>, ids: seq<int>): (r: seq<int>)
    ensures |r| <= |ids|
    ensures forall q :: q in Pairs(r) ==> Lookup(ms, q).None?
    decreases |ids|
  {
    if |ids| < 2 then ids
    else
      match LowestMerge(ms, ids)
      case None => ids
      case Some(e) =>
        MergedShorter(ids, e.pair, e.id);
        Encoded(ms, Merged(ids, e.pair, e.id))
  }

  /**
   * `encode_ordinary`: the chunk encodings concatenated in order, with no
   * delimiter.  There are never more ids than input ids.
   */
  function EncodedAll(ms: seq<MergeEntry>, chunks: seq<seq<int>>): (r: seq<int>)
    ensures |r| <= |Concat(chunks)|
    decreases |chunks|
  {
    if |chunks| == 0 then []
    else EncodedAll(ms, chunks[..|chunks| - 1]) + Encoded(ms, chunks[|chunks| - 1])
  }

  /** The chunks joined in order. */
  function Concat<T>(chunks: seq<seq<T>>): seq<T>
    decreases |chunks|
  {
    if |chunks| == 0 then [] else Concat(chunks[..|chunks| - 1]) + chunks[|chunks| - 1]
  }

  /**
   * A pair present in `ids` that is a key and whose id is no larger than
   * that of any other present key is the pair `LowestMerge` picks.
   */
  lemma LowestMergeIs(ms: seq<MergeEntry>, ids: seq<int>, pair: Pair, id: int)
    requires WellFormed(ms)
    requires pair in Pairs(ids) && Lookup(ms, pair) == Some(id)
    requires forall q :: q in Pairs(ids) && Lookup(ms, q).Some? ==> id <= Lookup(ms, q).value
    ensures LowestMerge(ms, ids) == Some(MergeEntry(pair, id))
  {
    var r := LowestMerge(ms, ids);
    assert r.Some?;
    assert r.value.id == id;
    LookupInjective(ms, pair, r.value.pair);
  }

  /**
   * Encoding keeps every id inside the vocabulary and preserves the decoded
   * bytes: each step merges a pair `(a, b) -> idx` of the table, and
   * `vocab[idx] == vocab[a] + vocab[b]`.
   */
  lemma {:induction false} EncodedDecodes(ms: seq<MergeEntry>, ids: seq<int>)
    requires WellFormed(ms) && InRange(ms, ids)
    ensures
      && InRange(ms, Encoded(ms, ids))
      && Decode(MergedVocab(ms), Encoded(ms, ids)) == Decode(MergedVocab(ms), ids)
    decreases |ids|
  {
    if |ids| >= 2 {
      match LowestMerge(ms, ids)
      case None =>
      case Some(e) =>
        var k :| 0 <= k < |ms| && ms[k] == MergeEntry(e.pair, e.id);
        MergedVocabEntry(ms, k);
        var v := MergedVocab(ms);
        var next := Merged(ids, e.pair, e.id);
        assert InRange(ms, next);
        DecodeMerged(v, ids, e.pair, e.id);
        MergedShorter(ids, e.pair, e.id);
        EncodedDecodes(ms, next);
    }
  }

  /**
   * Byte preservation of `_encode_chunk`: expanding the encoded ids of a
   * chunk through the vocabulary gives the chunk's bytes back.
   */
  lemma EncodeChunkRoundTrip(ms: seq<MergeEntry>, chunk: seq<Byte>)
    requires WellFormed(ms)
    ensures
      && InRange(ms, Encoded(ms, chunk))
      && Decode(MergedVocab(ms), Encoded(ms, chunk)) == chunk
  {
    forall x | x in chunk ensures 0 <= x < 256 + |ms| {
      var b: Byte := x;
    }
    EncodedDecodes(ms, chunk);
    DecodeBytes(ms, chunk);
  }

  /**
   * Byte preservation of `encode_ordinary`: decoding the whole output gives
   * the bytes of all chunks, in order.
   */
  lemma {:induction false} EncodeAllRoundTrip(ms: seq<MergeEntry>, chunks: seq<seq<Byte>>)
    requires WellFormed(ms)
    ensures
      && InRange(ms, EncodedAll(ms, chunks))
      && Decode(MergedVocab(ms), EncodedAll(ms, chunks)) == Concat(chunks)
    decreases |chunks|
  {
    if |chunks| > 0 {
      var init := chunks[..|chunks| - 1];
      var last := chunks[|chunks| - 1];
      EncodeAllRoundTrip(ms, init);
      EncodeChunkRoundTrip(ms, last);
      var v := MergedVocab(ms);
      var a := EncodedAll(ms, init);
      var b := Encoded(ms, last);
      assert forall x :: x in a ==> x in v;
      assert forall x :: x in b ==> x in v;
      DecodeAppend(v, a, b);
    }
  }

  /** `min(stats, key=rank)` with an absent key ranked last: a present pair of smallest merge id. */
  method LowestRankPair(ms: seq<MergeEntry>, stats: map<Pair, nat>) returns (pair: Pair)
    requires stats != map[]
    ensures pair in stats
    ensures forall q :: q in stats && Lookup(ms, q).Some? ==>
      Lookup(ms, pair).Some? && Lookup(ms, pair).value <= Lookup(ms, q).value
  {
    pair :| pair in stats;
    var rank := Lookup(ms, pair);
    var rest := stats.Keys - {pair};
    while rest != {}
      invariant rest <= stats.Keys && pair in stats && rank == Lookup(ms, pair)
      invariant forall q :: q in stats && q !in rest && Lookup(ms, q).Some? ==>
        rank.Some? && rank.value <= Lookup(ms, q).value
      decreases |rest|
    {
      var q :| q in rest;
      var r := Lookup(ms, q);
      if r.Some? && (rank.None? || r.value < rank.value) {
        pair, rank := q, r;
      }
      rest := rest - {q};
    }
  }
}
