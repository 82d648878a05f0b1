/** The tokenizer object: its merge table and vocabulary, training, and encoding. */
module Tokenizer {
  import opened PairStats
  import opened PairMerge
  import opened Vocabulary
  import opened Training
  import opened Encoding

  /** Why `train` stops without updating the tokenizer. */
  datatype TrainError =
    | InvalidVocabSize  // the vocabulary size is below 256
    | NoPairs           // an iteration found no adjacent pair left to merge

  datatype Result<T> = Ok(value: T) | Err(error: TrainError)

  /**
   * A byte-level BPE tokenizer.  `merges` is the merge table in insertion
   * order, `specialTokens` the registered special tokens, and `vocab` maps
   * every id to the bytes it stands for.
   */
  class RegexTokenizer {
    var merges: seq<MergeEntry>
    var specialTokens: seq<SpecialToken>
    var vocab: map<int, seq<Byte>>

    /** The merge table is valid and the vocabulary is the one derived from it. */
    ghost predicate Valid()
      reads this
    {
      ValidMerges(merges) && vocab == MergedVocab(merges)
    }

    /** A fresh tokenizer: no merges, no special tokens, the 256 single-byte tokens. */
    constructor ()
      ensures Valid()
      ensures merges == [] && specialTokens == []
      ensures vocab == VocabOf([], [])
      ensures forall id :: id in vocab <==> 0 <= id < 256
      ensures forall b :: 0 <= b < 256 ==> vocab[b] == [b]
    {
      merges := [];
      specialTokens := [];
      new;
      vocab := BuildVocab();
      MergedVocabBase([]);
    }

    /**
     * `_build_vocab`: the single-byte tokens, then each merge in insertion
     * order, then each special token.
     */
    method BuildVocab() returns (v: map<int, seq<Byte>>)
      requires WellFormed(merges)
      ensures v == VocabOf(merges, specialTokens)
    {
      v := BaseVocab();
      for k := 0 to |merges|
        invariant v == MergedVocab(merges[..k])
      {
        var e := merges[k];
        assert merges[..k + 1][..k] == merges[..k];
        v := v[e.id := v[e.pair.0] + v[e.pair.1]];
      }
      assert merges[..|merges|] == merges;
      for j := 0 to |specialTokens|
        invariant v == WithSpecials(MergedVocab(merges), specialTokens[..j])
      {
        var s := specialTokens[j];
        assert specialTokens[..j + 1][..j] == specialTokens[..j];
        v := v[s.id := s.bytes];
      }
      assert specialTokens[..|specialTokens|] == specialTokens;
    }

    /**
     * `train` on text already split into chunks and encoded as bytes.  It
     * fails when `vocabSize < 256`, and when an iteration finds no pair to
     * merge; on failure the tokenizer is unchanged.  Otherwise it performs
     * `vocabSize - 256` greedy merges (`run`), replaces the merge table and
     * the vocabulary with those of the run (dropping special tokens, as the
     * vocabulary is rebuilt from bytes and merges only) and returns whether
     * some iteration had a tie at the maximum count.
     */
    method Train(chunks: seq<seq<Byte>>, vocabSize: int) returns (r: Result<bool>, ghost run: seq<MergeEntry>)
      requires Valid()
      modifies this
      ensures Valid() && specialTokens == old(specialTokens)
      ensures r == Err(InvalidVocabSize) <==> vocabSize < 256
      ensures r.Err? ==> merges == old(merges) && vocab == old(vocab)
      ensures GreedyRun(chunks, run)
      ensures r == Err(NoPairs) ==> |run| < vocabSize - 256 && AllPairs(Replay(chunks, run)) == []
      ensures vocabSize > 256 && AllPairs(chunks) == [] ==> r == Err(NoPairs)
      ensures r.Ok? ==> |run| == vocabSize - 256 && merges == run && vocab == MergedVocab(run)
      ensures r.Ok? ==> (r.value <==> Ambiguous(chunks, run))
    {
      run := [];
      if vocabSize < 256 {
        r := Err(InvalidVocabSize);
        return;
      }
      var ok, ambiguous, newMerges, newVocab := MergeLoop(chunks, vocabSize - 256);
      run := newMerges;
      if ok && |newMerges| > 0 {
        FirstMergeNeedsPairs(chunks, newMerges);
      }
      if !ok {
        r := Err(NoPairs);
        return;
      }
      merges := newMerges;
      vocab := newVocab;
      r := Ok(ambiguous);
    }

    /**
     * `_encode_chunk`: repeatedly merges the present pair with the lowest
     * merge id until no present pair is a key.  The ids stay inside the
     * vocabulary and decode back to the chunk's bytes.
     */
    method EncodeChunk(textBytes: seq<Byte>) returns (ids: seq<int>)
      requires Valid()
      ensures ids == Encoded(merges, textBytes)
      ensures forall x :: x in ids ==> x in vocab
      ensures Decode(vocab, ids) == textBytes
    {
      ids := textBytes;
      while |ids| >= 2
        invariant Encoded(merges, ids) == Encoded(merges, textBytes)
        decreases |ids|
      {
        var stats := GetStats(ids, map[]);
        assert Pairs(ids)[0] in stats;
        var pair := LowestRankPair(merges, stats);
        var rank := Lookup(merges, pair);
        if rank.None? {
          assert LowestMerge(merges, ids).None?;
          break;
        }
        var idx := rank.value;
        LowestMergeIs(merges, ids, pair, idx);
        MergedShorter(ids, pair, idx);
        ids := Merge(ids, pair, idx);
      }
      EncodeChunkRoundTrip(merges, textBytes);
    }

    /**
     * `encode_ordinary` on text already split into chunks: each chunk is
     * encoded on its own and the results are concatenated.  Decoding the
     * output gives back all chunk bytes in order.
     */
    method EncodeOrdinary(chunks: seq<seq<Byte>>) returns (ids: seq<int>)
      requires Valid()
      ensures ids == EncodedAll(merges, chunks)
      ensures forall x :: x in ids ==> x in vocab
      ensures Decode(vocab, ids) == Concat(chunks)
    {
      ids := [];
      for c := 0 to |chunks|
        invariant ids == EncodedAll(merges, chunks[..c])
      {
        var chunkIds := EncodeChunk(chunks[c]);
        assert chunks[..c + 1][..c] == chunks[..c];
        ids := ids + chunkIds;
      }
      assert chunks[..|chunks|] == chunks;
      EncodeAllRoundTrip(merges, chunks);
    }
  }
}
