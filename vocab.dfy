/** The merge table and the vocabulary derived from it (`_build_vocab`). */
module Vocabulary {
  import opened PairStats
  import opened PairMerge

  /** A raw byte value. */
  type Byte = b: int | 0 <= b < 256

  /** One entry `(p0, p1) -> idx` of the merge table; tables are kept in insertion order. */
  datatype MergeEntry = MergeEntry(pair: Pair, id: int)

  /** A special token: the UTF-8 bytes of its literal and its reserved id. */
  datatype SpecialToken = SpecialToken(bytes: seq<Byte>, id: int)

  /**
   * Merge ids are dense from 256 in insertion order, and each merge refers
   * only to bytes and to ids of earlier merges.
   */
  ghost predicate WellFormed(ms: seq<MergeEntry>) {
    forall k :: 0 <= k < |ms| ==>
      ms[k].id == 256 + k && 0 <= ms[k].pair.0 < 256 + k && 0 <= ms[k].pair.1 < 256 + k
  }

  /** A well-formed table in which no pair is a key twice. */
  ghost predicate ValidMerges(ms: seq<MergeEntry>) {
    WellFormed(ms) && forall j, k :: 0 <= j < k < |ms| ==> ms[j].pair != ms[k].pair
  }

  /** Every id of `ids` is a byte or the id of a merge of `ms`. */
  ghost predicate InRange(ms: seq<MergeEntry>, ids: seq<int>) {
    forall x :: x in ids ==> 0 <= x < 256 + |ms|
  }

  /** `{idx: bytes([idx]) for idx in range(256)}`. */
  function BaseVocab(): (v: map<int, seq<Byte>>)
    ensures forall id :: id in v <==> 0 <= id < 256
    ensures forall b :: 0 <= b < 256 ==> v[b] == [b]
  {
    map b: int | 0 <= b < 256 :: [b]
  }

  /**
   * The base vocabulary with every merge folded in, in insertion order:
   * `vocab[idx] = vocab[p0] + vocab[p1]`.  Its keys are exactly the bytes
   * and the merge ids.
   */
  function MergedVocab(ms: seq<MergeEntry>): (v: map<int, seq<Byte>>)
    requires WellFormed(ms)
    ensures forall id :: id in v <==> 0 <= id < 256 + |ms|
    decreases |ms|
  {
    if |ms| == 0 then BaseVocab()
    else
      var v := MergedVocab(ms[..|ms| - 1]);
      var e := ms[|ms| - 1];
      v[e.id := v[e.pair.0] + v[e.pair.1]]
  }

  /**
   * Special tokens written over `v`, in insertion order.  The keys are those
   * of `v` and the special ids; the special token written last is read back.
   */
  function WithSpecials(v: map<int, seq<Byte>>, specials: seq<SpecialToken>): (r: map<int, seq<Byte>>)
    ensures forall id :: id in r <==> id in v || exists j :: 0 <= j < |specials| && specials[j].id == id
    ensures |specials| > 0 ==> r[specials[|specials| - 1].id] == specials[|specials| - 1].bytes
    decreases |specials|
  {
    if |specials| == 0 then v
    else
      var s := specials[|specials| - 1];
      WithSpecials(v, specials[..|specials| - 1])[s.id := s.bytes]
  }

  /**
   * The whole of `_build_vocab`: merges first, special tokens last.  Its keys
   * are the bytes, the merge ids and the special ids.
   */
  function VocabOf(ms: seq<MergeEntry>, specials: seq<SpecialToken>): (r: map<int, seq<Byte>>)
    requires WellFormed(ms)
    ensures forall id :: id in r <==>
      (0 <= id < 256 + |ms|) || exists j :: 0 <= j < |specials| && specials[j].id == id
  {
    WithSpecials(MergedVocab(ms), specials)
  }

  /** The byte string a sequence of ids stands for. */
  function Decode(v: map<int, seq<Byte>>, ids: seq<int>): seq<Byte>
    requires forall x :: x in ids ==> x in v
    decreases |ids|
  {
    if |ids| == 0 then []
    else
      var x := ids[0];
      assert x in ids;
      v[x] + Decode(v, ids[1..])
  }

  /** Appending a merge adds exactly its entry to the derived vocabulary. */
  lemma MergedVocabSnoc(ms: seq<MergeEntry>, e: MergeEntry)
    requires WellFormed(ms + [e])
    ensures WellFormed(ms) && e.id == 256 + |ms| && 0 <= e.pair.0 < e.id && 0 <= e.pair.1 < e.id
    ensures var v := MergedVocab(ms); MergedVocab(ms + [e]) == v[e.id := v[e.pair.0] + v[e.pair.1]]
  {
    var ext := ms + [e];
    assert ext[..|ext| - 1] == ms;
    forall k | 0 <= k < |ms| ensures ms[k] == ext[k] { }
    assert ext[|ms|] == e;
  }

  /** Ids 0..255 keep their single-byte strings whatever merges follow. */
  lemma {:induction false} MergedVocabBase(ms: seq<MergeEntry>)
    requires WellFormed(ms)
    ensures forall b :: 0 <= b < 256 ==> MergedVocab(ms)[b] == [b]
    decreases |ms|
  {
    if |ms| > 0 {
      MergedVocabBase(ms[..|ms| - 1]);
    }
  }

  /** Later merges never change an entry that an earlier prefix of the table defined. */
  lemma {:induction false} MergedVocabStable(ms: seq<MergeEntry>, j: nat)
    requires WellFormed(ms) && j <= |ms|
    ensures forall id :: 0 <= id < 256 + j ==> MergedVocab(ms)[id] == MergedVocab(ms[..j])[id]
    decreases |ms|
  {
    if |ms| > j {
      var prefix := ms[..|ms| - 1];
      MergedVocabStable(prefix, j);
      assert prefix[..j] == ms[..j];
    } else {
      assert ms[..j] == ms;
    }
  }

  /**
   * For every merge `(p0, p1) -> idx` of the table, `vocab[idx]` is
   * `vocab[p0] + vocab[p1]` in the derived vocabulary.
   */
  lemma MergedVocabEntry(ms: seq<MergeEntry>, k: nat)
    requires WellFormed(ms) && k < |ms|
    ensures var v := MergedVocab(ms); v[ms[k].id] == v[ms[k].pair.0] + v[ms[k].pair.1]
  {
    MergedVocabStable(ms, k + 1);
    var upTo := ms[..k + 1];
    assert upTo[..k] == ms[..k];
  }

  /**
   * A special token whose id no later special token reuses maps to its
   * bytes; the last write for an id wins.
   */
  lemma {:induction false} SpecialEntry(v: map<int, seq<Byte>>, specials: seq<SpecialToken>, j: nat)
    requires j < |specials|
    requires forall k :: j < k < |specials| ==> specials[k].id != specials[j].id
    ensures specials[j].id in WithSpecials(v, specials)
    ensures WithSpecials(v, specials)[specials[j].id] == specials[j].bytes
    decreases |specials|
  {
    if j < |specials| - 1 {
      SpecialEntry(v, specials[..|specials| - 1], j);
    }
  }

  /** Ids that no special token uses keep the entry of the merged vocabulary. */
  lemma {:induction false} NonSpecialEntry(v: map<int, seq<Byte>>, specials: seq<SpecialToken>, id: int)
    requires forall k :: 0 <= k < |specials| ==> specials[k].id != id
    ensures id in WithSpecials(v, specials) <==> id in v
    ensures id in v ==> WithSpecials(v, specials)[id] == v[id]
    decreases |specials|
  {
    if |specials| > 0 {
      NonSpecialEntry(v, specials[..|specials| - 1], id);
    }
  }

  /** Decoding distributes over concatenation. */
  lemma {:induction false} DecodeAppend(v: map<int, seq<Byte>>, a: seq<int>, b: seq<int>)
    requires forall x :: x in a ==> x in v
    requires forall x :: x in b ==> x in v
    ensures Decode(v, a + b) == Decode(v, a) + Decode(v, b)
    decreases |a|
  {
    if |a| > 0 {
      DecodeAppend(v, a[1..], b);
      assert (a + b)[1..] == a[1..] + b;
    } else {
      assert a + b == b;
    }
  }

  /** Decoding only looks at the entries of the ids it decodes. */
  lemma {:induction false} DecodeAgree(v: map<int, seq<Byte>>, w: map<int, seq<Byte>>, ids: seq<int>)
    requires forall x :: x in ids ==> x in v && x in w && v[x] == w[x]
    ensures Decode(v, ids) == Decode(w, ids)
    decreases |ids|
  {
    if |ids| > 0 {
      var x := ids[0];
      assert x in ids;
      DecodeAgree(v, w, ids[1..]);
    }
  }

  /**
   * Replacing `pair` by `idx` keeps the decoded bytes when
   * `v[idx] == v[pair.0] + v[pair.1]`.
   */
  lemma {:induction false} DecodeMerged(v: map<int, seq<Byte>>, ids: seq<int>, pair: Pair, idx: int)
    requires forall x :: x in ids ==> x in v
    requires idx in v && pair.0 in v && pair.1 in v && v[idx] == v[pair.0] + v[pair.1]
    ensures Decode(v, Merged(ids, pair, idx)) == Decode(v, ids)
    decreases |ids|
  {
    if |ids| > 0 {
      var m := Merged(ids, pair, idx);
      if StartsWith(ids, pair) {
        DecodeMerged(v, ids[2..], pair, idx);
        assert m[1..] == Merged(ids[2..], pair, idx);
        assert ids[1..][1..] == ids[2..];
      } else {
        DecodeMerged(v, ids[1..], pair, idx);
        assert m[1..] == Merged(ids[1..], pair, idx);
      }
    }
  }

  /**
   * Appending a merge `(p0, p1) -> idx` to the table and applying it to ids
   * of the earlier vocabulary keeps them inside the vocabulary and keeps the
   * bytes they decode to.
   */
  lemma DecodeAfterMerge(ms: seq<MergeEntry>, e: MergeEntry, ids: seq<int>)
    requires WellFormed(ms + [e]) && InRange(ms, ids)
    ensures InRange(ms + [e], Merged(ids, e.pair, e.id))
    ensures Decode(MergedVocab(ms + [e]), Merged(ids, e.pair, e.id)) == Decode(MergedVocab(ms), ids)
  {
    MergedVocabSnoc(ms, e);
    var v := MergedVocab(ms + [e]);
    var w := MergedVocab(ms);
    forall x | x in ids ensures x in v && x in w && v[x] == w[x] {
      assert 0 <= x < 256 + |ms|;
    }
    DecodeMerged(v, ids, e.pair, e.id);
    DecodeAgree(v, w, ids);
  }

  /** Raw bytes decode to themselves when every byte maps to its single-byte string. */
  lemma {:induction false} DecodeSingles(v: map<int, seq<Byte>>, bytes: seq<Byte>)
    requires forall b :: 0 <= b < 256 ==> b in v && v[b] == [b]
    ensures Decode(v, bytes) == bytes
    decreases |bytes|
  {
    if |bytes| > 0 {
      DecodeSingles(v, bytes[1..]);
    }
  }

  /** A raw byte sequence decodes to itself under any derived vocabulary. */
  lemma DecodeBytes(ms: seq<MergeEntry>, bytes: seq<Byte>)
    requires WellFormed(ms)
    ensures Decode(MergedVocab(ms), bytes) == bytes
  {
    MergedVocabBase(ms);
    DecodeSingles(MergedVocab(ms), bytes);
  }
}
