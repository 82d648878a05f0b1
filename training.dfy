/** What one run of the training loop (`train`) computes, stated over its chunks. */
module Training {
  import opened PairStats
  import opened PairMerge
  import opened Vocabulary

  /**
   * Every chunk rewritten by one merge: `[merge(c, pair, idx) for c in ids]`.
   * The number of chunks is kept.
   */
  function MergeAll(chunks: seq<seq<int>>, e: MergeEntry): (r: seq<seq<int>>)
    ensures |r| == |chunks|
  {
    seq(|chunks|, c requires 0 <= c < |chunks| => Merged(chunks[c], e.pair, e.id))
  }

  /** The chunks after the merges of `ms` were applied to them in order. */
  function Replay(chunks: seq<seq<int>>, ms: seq<MergeEntry>): (r: seq<seq<int>>)
    ensures |r| == |chunks|
    decreases |ms|
  {
    if |ms| == 0 then chunks else MergeAll(Replay(chunks, ms[..|ms| - 1]), ms[|ms| - 1])
  }

  /**
   * The pairs the statistics pass counts, chunk after chunk: a pair is
   * counted only when both ids sit in the same chunk.
   */
  function AllPairs(chunks: seq<seq<int>>): (ps: seq<Pair>)
    ensures forall p :: p in ps <==> exists c :: 0 <= c < |chunks| && p in Pairs(chunks[c])
    decreases |chunks|
  {
    if |chunks| == 0 then [] else AllPairs(chunks[..|chunks| - 1]) + Pairs(chunks[|chunks| - 1])
  }

  /** `p` is a pair of maximal count: what `max(stats, key=stats.get)` returns. */
  ghost predicate IsMostFrequent(counts: multiset<Pair>, p: Pair) {
    p in counts && forall q :: counts[q] <= counts[p]
  }

  /** Another pair shares the count of `p`. */
  ghost predicate HasTie(counts: multiset<Pair>, p: Pair) {
    exists q :: q != p && counts[q] == counts[p]
  }

  /** The counts of the statistics pass before merge `k` of `ms`. */
  ghost function CountsBefore(chunks: seq<seq<int>>, ms: seq<MergeEntry>, k: nat): multiset<Pair>
    requires k <= |ms|
  {
    multiset(AllPairs(Replay(chunks, ms[..k])))
  }

  /**
   * `ms` is a merge table the loop of `train` can produce from `chunks`:
   * iteration `k` picks a pair of maximal count over the chunks as they
   * stand after the first `k` merges and gives it the id `256 + k`.
   */
  ghost predicate GreedyRun(chunks: seq<seq<int>>, ms: seq<MergeEntry>)
    decreases |ms|
  {
    |ms| == 0 ||
    (GreedyRun(chunks, ms[..|ms| - 1]) &&
     ms[|ms| - 1].id == 256 + (|ms| - 1) &&
     IsMostFrequent(CountsBefore(chunks, ms, |ms| - 1), ms[|ms| - 1].pair))
  }

  /** The flag `train` returns: some iteration had two or more pairs at the maximum count. */
  ghost predicate Ambiguous(chunks: seq<seq<int>>, ms: seq<MergeEntry>)
    decreases |ms|
  {
    |ms| > 0 &&
    (Ambiguous(chunks, ms[..|ms| - 1]) ||
     HasTie(CountsBefore(chunks, ms, |ms| - 1), ms[|ms| - 1].pair))
  }

  /** The counts before merge `k` do not depend on the merges after it. */
  lemma CountsBeforePrefix(chunks: seq<seq<int>>, ms: seq<MergeEntry>, n: nat, k: nat)
    requires k < n <= |ms|
    ensures ms[..n][k] == ms[k]
    ensures CountsBefore(chunks, ms[..n], k) == CountsBefore(chunks, ms, k)
  {
    assert ms[..n][..k] == ms[..k];
  }

  /** Merge `k` of a greedy run has the id `256 + k` and a pair of maximal count before it. */
  lemma GreedyRunAt(chunks: seq<seq<int>>, ms: seq<MergeEntry>, k: nat)
    requires GreedyRun(chunks, ms) && k < |ms|
    ensures ms[k].id == 256 + k && IsMostFrequent(CountsBefore(chunks, ms, k), ms[k].pair)
  {
    GreedyRunPrefix(chunks, ms, k + 1);
    CountsBeforePrefix(chunks, ms, k + 1, k);
  }

  /** A table whose every merge is a greedy choice with the next id is a greedy run. */
  lemma {:induction false} GreedyRunFrom(chunks: seq<seq<int>>, ms: seq<MergeEntry>)
    requires forall k :: 0 <= k < |ms| ==>
      ms[k].id == 256 + k && IsMostFrequent(CountsBefore(chunks, ms, k), ms[k].pair)
    ensures GreedyRun(chunks, ms)
    decreases |ms|
  {
    if |ms| > 0 {
      var n := |ms| - 1;
      var prefix := ms[..n];
      forall k | 0 <= k < n
        ensures prefix[k].id == 256 + k && IsMostFrequent(CountsBefore(chunks, prefix, k), prefix[k].pair)
      {
        CountsBeforePrefix(chunks, ms, n, k);
      }
      GreedyRunFrom(chunks, prefix);
    }
  }

  /**
   * A greedy run, iteration by iteration: merge `k` has the id `256 + k` and
   * a pair of maximal count over the chunks after the first `k` merges.
   */
  lemma GreedyRunMeans(chunks: seq<seq<int>>, ms: seq<MergeEntry>)
    ensures GreedyRun(chunks, ms) <==>
      forall k :: 0 <= k < |ms| ==>
        ms[k].id == 256 + k && IsMostFrequent(CountsBefore(chunks, ms, k), ms[k].pair)
  {
    if GreedyRun(chunks, ms) {
      forall k | 0 <= k < |ms|
        ensures ms[k].id == 256 + k && IsMostFrequent(CountsBefore(chunks, ms, k), ms[k].pair)
      {
        GreedyRunAt(chunks, ms, k);
      }
    } else if forall k :: 0 <= k < |ms| ==>
        ms[k].id == 256 + k && IsMostFrequent(CountsBefore(chunks, ms, k), ms[k].pair) {
      GreedyRunFrom(chunks, ms);
    }
  }

  /** A raised flag names an iteration that had a tie. */
  lemma {:induction false} AmbiguousWitness(chunks: seq<seq<int>>, ms: seq<MergeEntry>) returns (k: nat)
    requires Ambiguous(chunks, ms)
    ensures k < |ms| && HasTie(CountsBefore(chunks, ms, k), ms[k].pair)
    decreases |ms|
  {
    var n := |ms| - 1;
    var prefix := ms[..n];
    if Ambiguous(chunks, prefix) {
      k := AmbiguousWitness(chunks, prefix);
      CountsBeforePrefix(chunks, ms, n, k);
    } else {
      k := n;
    }
  }

  /** A tie in any iteration raises the flag. */
  lemma {:induction false} AmbiguousFrom(chunks: seq<seq<int>>, ms: seq<MergeEntry>, k: nat)
    requires k < |ms| && HasTie(CountsBefore(chunks, ms, k), ms[k].pair)
    ensures Ambiguous(chunks, ms)
    decreases |ms|
  {
    var n := |ms| - 1;
    if k < n {
      CountsBeforePrefix(chunks, ms, n, k);
      AmbiguousFrom(chunks, ms[..n], k);
      assert Ambiguous(chunks, ms[..n]);
    } else {
      assert HasTie(CountsBefore(chunks, ms, n), ms[n].pair);
    }
  }

  /** The flag, iteration by iteration: it is raised exactly when some iteration had a tie. */
  lemma AmbiguousMeans(chunks: seq<seq<int>>, ms: seq<MergeEntry>)
    ensures Ambiguous(chunks, ms) <==>
      exists k :: 0 <= k < |ms| && HasTie(CountsBefore(chunks, ms, k), ms[k].pair)
  {
    if Ambiguous(chunks, ms) {
      var k := AmbiguousWitness(chunks, ms);
    }
    if exists k :: 0 <= k < |ms| && HasTie(CountsBefore(chunks, ms, k), ms[k].pair) {
      var k :| 0 <= k < |ms| && HasTie(CountsBefore(chunks, ms, k), ms[k].pair);
      AmbiguousFrom(chunks, ms, k);
    }
  }

  /** Every id of every chunk lies in `[0, n)`. */
  ghost predicate ChunksBelow(chunks: seq<seq<int>>, n: int) {
    forall c, x :: 0 <= c < |chunks| && x in chunks[c] ==> 0 <= x < n
  }

  /** One more iteration of the loop extends a greedy run. */
  lemma GreedyStep(chunks: seq<seq<int>>, ms: seq<MergeEntry>, pair: Pair)
    requires GreedyRun(chunks, ms)
    requires IsMostFrequent(multiset(AllPairs(Replay(chunks, ms))), pair)
    ensures var e := MergeEntry(pair, 256 + |ms|);
      && GreedyRun(chunks, ms + [e])
      && Replay(chunks, ms + [e]) == MergeAll(Replay(chunks, ms), e)
      && (Ambiguous(chunks, ms + [e]) <==>
          Ambiguous(chunks, ms) || HasTie(multiset(AllPairs(Replay(chunks, ms))), pair))
  {
    var e := MergeEntry(pair, 256 + |ms|);
    var ext := ms + [e];
    assert ext[..|ms|] == ms;
    assert ext[..|ext| - 1] == ms;
  }

  /** A counted pair consists of two ids of one chunk, so it lies below the chunks' bound. */
  lemma CountedPairBelow(state: seq<seq<int>>, p: Pair, n: int)
    requires ChunksBelow(state, n) && p in AllPairs(state)
    ensures 0 <= p.0 < n && 0 <= p.1 < n
    ensures exists c :: 0 <= c < |state| && p in Pairs(state[c])
  {
    var c :| 0 <= c < |state| && p in Pairs(state[c]);
    var ps := Pairs(state[c]);
    var i :| 0 <= i < |ps| && ps[i] == p;
    var a, b := state[c][i], state[c][i + 1];
    assert a in state[c] && b in state[c];
    assert p == (a, b);
  }

  /** Merging with the next id keeps every chunk below the bound raised by one. */
  lemma MergeAllBelow(state: seq<seq<int>>, e: MergeEntry, n: int)
    requires ChunksBelow(state, n) && e.id == n && 0 <= n
    ensures ChunksBelow(MergeAll(state, e), n + 1)
  {
    var next := MergeAll(state, e);
    forall c, x | 0 <= c < |next| && x in next[c] ensures 0 <= x < n + 1 {
      assert next[c] == Merged(state[c], e.pair, e.id);
    }
  }

  /** A pair absent from every chunk stays absent after a merge with an unrelated id. */
  lemma MergeAllKeepsAbsent(state: seq<seq<int>>, e: MergeEntry, q: Pair)
    requires q.0 != e.id && q.1 != e.id
    requires forall c :: 0 <= c < |state| ==> q !in Pairs(state[c])
    ensures forall c :: 0 <= c < |state| ==> q !in Pairs(MergeAll(state, e)[c])
  {
    var next := MergeAll(state, e);
    forall c | 0 <= c < |state| ensures q !in Pairs(next[c]) {
      assert next[c] == Merged(state[c], e.pair, e.id);
      if q in Pairs(next[c]) {
        MergedPairsFromInput(state[c], e.pair, e.id, q);
      }
    }
  }

  /** After merging `e`, its pair occurs in no chunk. */
  lemma MergeAllRemoves(state: seq<seq<int>>, e: MergeEntry)
    requires e.pair.0 != e.id && e.pair.1 != e.id
    ensures forall c :: 0 <= c < |state| ==> e.pair !in Pairs(MergeAll(state, e)[c])
  {
    var next := MergeAll(state, e);
    forall c | 0 <= c < |state| ensures e.pair !in Pairs(next[c]) {
      assert next[c] == Merged(state[c], e.pair, e.id);
      MergedRemovesPair(state[c], e.pair, e.id);
    }
  }

  /** Appending a fresh pair with the next id keeps a merge table valid. */
  lemma ExtendValid(ms: seq<MergeEntry>, e: MergeEntry)
    requires ValidMerges(ms)
    requires e.id == 256 + |ms| && 0 <= e.pair.0 < e.id && 0 <= e.pair.1 < e.id
    requires forall k :: 0 <= k < |ms| ==> ms[k].pair != e.pair
    ensures ValidMerges(ms + [e])
  {
    var ext := ms + [e];
    forall k | 0 <= k < |ext|
      ensures ext[k].id == 256 + k && 0 <= ext[k].pair.0 < 256 + k && 0 <= ext[k].pair.1 < 256 + k
    {
      if k < |ms| {
        assert ext[k] == ms[k];
      }
    }
    forall j, k | 0 <= j < k < |ext| ensures ext[j].pair != ext[k].pair {
      assert ext[j] == ms[j];
    }
  }

  /** The raw chunks are bytes. */
  lemma BytesBelow(chunks: seq<seq<Byte>>)
    ensures ChunksBelow(chunks, 256)
  {
    forall c, x | 0 <= c < |chunks| && x in chunks[c] ensures 0 <= x < 256 {
      var bytes: seq<Byte> := chunks[c];
      assert x in bytes;
    }
  }

  /** No pair merged by `ms` occurs in any chunk of `state`. */
  ghost predicate Retired(state: seq<seq<int>>, ms: seq<MergeEntry>) {
    forall k, c :: 0 <= k < |ms| && 0 <= c < |state| ==> ms[k].pair !in Pairs(state[c])
  }

  /** Every prefix of a greedy run is a greedy run. */
  lemma {:induction false} GreedyRunPrefix(chunks: seq<seq<int>>, ms: seq<MergeEntry>, j: nat)
    requires GreedyRun(chunks, ms) && j <= |ms|
    ensures GreedyRun(chunks, ms[..j])
    decreases |ms|
  {
    if j < |ms| {
      var prefix := ms[..|ms| - 1];
      GreedyRunPrefix(chunks, prefix, j);
      assert prefix[..j] == ms[..j];
    } else {
      assert ms[..j] == ms;
    }
  }

  /**
   * A greedy run with at least one merge needs a pair in the original
   * chunks: when no chunk has two ids, the first `max` has nothing to choose.
   */
  lemma FirstMergeNeedsPairs(chunks: seq<seq<int>>, ms: seq<MergeEntry>)
    requires GreedyRun(chunks, ms) && |ms| > 0
    ensures AllPairs(chunks) != []
  {
    GreedyRunPrefix(chunks, ms, 1);
    var first := ms[..1];
    assert first[..0] == [];
    assert ms[0].pair in multiset(AllPairs(Replay(chunks, first[..0])));
  }

  /** The invariant of a greedy run, proved by induction on the number of merges. */
  lemma {:induction false} GreedyRunInvariant(chunks: seq<seq<Byte>>, ms: seq<MergeEntry>)
    requires GreedyRun(chunks, ms)
    ensures ValidMerges(ms)
    ensures ChunksBelow(Replay(chunks, ms), 256 + |ms|)
    ensures Retired(Replay(chunks, ms), ms)
    decreases |ms|
  {
    if |ms| == 0 {
      BytesBelow(chunks);
    } else {
      var n := |ms| - 1;
      var prefix := ms[..n];
      var e := ms[n];
      GreedyRunInvariant(chunks, prefix);
      assert ms == prefix + [e];
      assert Replay(chunks, ms) == MergeAll(Replay(chunks, prefix), e);
      ValidStep(Replay(chunks, prefix), prefix, e);
    }
  }

  /** The inductive step of `GreedyRunInvariant`, on the chunks before and after one merge. */
  lemma ValidStep(state: seq<seq<int>>, ms: seq<MergeEntry>, e: MergeEntry)
    requires ValidMerges(ms)
    requires ChunksBelow(state, 256 + |ms|)
    requires Retired(state, ms)
    requires e.id == 256 + |ms| && e.pair in multiset(AllPairs(state))
    ensures ValidMerges(ms + [e])
    ensures ChunksBelow(MergeAll(state, e), 256 + |ms| + 1)
    ensures Retired(MergeAll(state, e), ms + [e])
  {
    var n := |ms|;
    var ext := ms + [e];
    var next := MergeAll(state, e);
    CountedPairBelow(state, e.pair, 256 + n);
    var c :| 0 <= c < |state| && e.pair in Pairs(state[c]);
    forall k | 0 <= k < n ensures ms[k].pair != e.pair {
      assert ms[k].pair !in Pairs(state[c]);
    }
    ExtendValid(ms, e);
    MergeAllBelow(state, e, 256 + n);
    MergeAllRemoves(state, e);
    forall k, c' | 0 <= k < n + 1 && 0 <= c' < |state| ensures ext[k].pair !in Pairs(next[c']) {
      if k < n {
        assert ext[k] == ms[k];
        MergeAllKeepsAbsent(state, e, ms[k].pair);
      }
    }
  }

  /**
   * Byte preservation during training: after the merges of any well-formed
   * table, in particular of a greedy run, each rewritten chunk holds only
   * vocabulary ids and decodes through the derived vocabulary to the
   * chunk's original bytes.
   */
  lemma {:induction false} ReplayDecodes(chunks: seq<seq<Byte>>, ms: seq<MergeEntry>, c: nat)
    requires WellFormed(ms) && c < |chunks|
    ensures InRange(ms, Replay(chunks, ms)[c])
    ensures Decode(MergedVocab(ms), Replay(chunks, ms)[c]) == chunks[c]
    decreases |ms|
  {
    if |ms| == 0 {
      forall x | x in chunks[c] ensures 0 <= x < 256 {
        var bytes: seq<Byte> := chunks[c];
        assert x in bytes;
      }
      DecodeBytes(ms, chunks[c]);
    } else {
      var n := |ms| - 1;
      var prefix := ms[..n];
      var e := ms[n];
      assert ms == prefix + [e];
      MergedVocabSnoc(prefix, e);
      ReplayDecodes(chunks, prefix, c);
      var before := Replay(chunks, prefix)[c];
      assert Replay(chunks, ms)[c] == Merged(before, e.pair, e.id);
      DecodeAfterMerge(prefix, e, before);
    }
  }

  /** The statistics pass over all chunks (the inner loop of `train`). */
  method CountAll(chunks: seq<seq<int>>) returns (stats: map<Pair, nat>)
    ensures forall p :: Get(stats, p) == multiset(AllPairs(chunks))[p]
    ensures forall p :: p in stats <==> p in AllPairs(chunks)
    ensures stats == map[] <==> AllPairs(chunks) == []
  {
    stats := map[];
    for c := 0 to |chunks|
      invariant forall p :: Get(stats, p) == multiset(AllPairs(chunks[..c]))[p]
      invariant forall p :: p in stats <==> p in AllPairs(chunks[..c])
    {
      assert chunks[..c + 1][..c] == chunks[..c];
      assert AllPairs(chunks[..c + 1]) == AllPairs(chunks[..c]) + Pairs(chunks[c]);
      stats := GetStats(chunks[c], stats);
    }
    assert chunks[..|chunks|] == chunks;
    if AllPairs(chunks) != [] {
      assert AllPairs(chunks)[0] in stats;
    }
  }

  /** `max(stats, key=stats.get)`: some pair of maximal count; which one is left open. */
  method MostFrequentPair(stats: map<Pair, nat>) returns (pair: Pair)
    requires stats != map[]
    ensures pair in stats
    ensures forall q :: q in stats ==> stats[q] <= stats[pair]
  {
    pair :| pair in stats;
    var rest := stats.Keys - {pair};
    while rest != {}
      invariant rest <= stats.Keys && pair in stats
      invariant forall q :: q in stats && q !in rest ==> stats[q] <= stats[pair]
      decreases |rest|
    {
      var q :| q in rest;
      if stats[q] > stats[pair] {
        pair := q;
      }
      rest := rest - {q};
    }
  }

  /** Rewrites every chunk with one merge. */
  method MergeChunks(chunks: seq<seq<int>>, pair: Pair, idx: int) returns (r: seq<seq<int>>)
    ensures r == MergeAll(chunks, MergeEntry(pair, idx))
  {
    r := [];
    for c := 0 to |chunks|
      invariant |r| == c
      invariant forall j :: 0 <= j < c ==> r[j] == Merged(chunks[j], pair, idx)
    {
      var merged := Merge(chunks[c], pair, idx);
      r := r + [merged];
    }
  }

  /**
   * The selection a training iteration makes, read back on the counts: a
   * pair of maximal count in the map is a most frequent pair, and more than
   * one pair at that count is exactly a tie.
   */
  lemma SelectionMeaning(counts: multiset<Pair>, stats: map<Pair, nat>, pair: Pair, tied: set<Pair>)
    requires forall p :: Get(stats, p) == counts[p]
    requires forall p :: p in stats <==> p in counts
    requires pair in stats && forall q :: q in stats ==> stats[q] <= stats[pair]
    requires forall q :: q in tied <==> q in stats && stats[q] == stats[pair]
    ensures IsMostFrequent(counts, pair)
    ensures |tied| > 1 <==> HasTie(counts, pair)
  {
    assert Get(stats, pair) == stats[pair];
    forall q ensures counts[q] <= counts[pair] {
      assert Get(stats, q) == counts[q];
    }
    assert pair in tied;
    if |tied| > 1 {
      var q :| q in tied && q != pair by {
        if forall q :: q in tied ==> q == pair {
          assert tied <= {pair};
          SubsetCard(tied, {pair});
        }
      }
      assert Get(stats, q) == counts[q];
    }
    if HasTie(counts, pair) {
      var q :| q != pair && counts[q] == counts[pair];
      assert Get(stats, q) == counts[q];
      assert q in stats;
      assert {pair, q} <= tied;
      SubsetCard({pair, q}, tied);
    }
  }

  /**
   * The state of the training loop after the merges `ms`: they form a greedy
   * run, the chunks are rewritten by them, the vocabulary is derived from
   * them, and the flag records whether some iteration so far was tied.
   */
  ghost predicate LoopState(chunks: seq<seq<int>>, ms: seq<MergeEntry>, ids: seq<seq<int>>,
                            vocab: map<int, seq<Byte>>, ambiguous: bool) {
    && GreedyRun(chunks, ms)
    && ValidMerges(ms)
    && ids == Replay(chunks, ms)
    && vocab == MergedVocab(ms)
    && (ambiguous <==> Ambiguous(chunks, ms))
  }

  /**
   * One iteration of the training loop: given the counts of the current
   * chunks and a pair of maximal count, merging it with id `256 + |ms|`,
   * adding `vocab[idx] = vocab[p0] + vocab[p1]` and raising the flag when
   * more than one pair has the maximal count yields the loop state after
   * `ms` extended by that merge.
   */
  lemma IterationStep(chunks: seq<seq<Byte>>, ms: seq<MergeEntry>, ids: seq<seq<int>>,
                      vocab: map<int, seq<Byte>>, ambiguous: bool, stats: map<Pair, nat>, pair: Pair,
                      tied: set<Pair>)
    requires LoopState(chunks, ms, ids, vocab, ambiguous)
    requires forall p :: Get(stats, p) == multiset(AllPairs(ids))[p]
    requires forall p :: p in stats <==> p in AllPairs(ids)
    requires pair in stats && forall q :: q in stats ==> stats[q] <= stats[pair]
    requires forall q :: q in tied <==> q in stats && stats[q] == stats[pair]
    ensures pair.0 in vocab && pair.1 in vocab
    ensures IsMostFrequent(multiset(AllPairs(ids)), pair)
    ensures |tied| > 1 <==> HasTie(multiset(AllPairs(ids)), pair)
    ensures var e := MergeEntry(pair, 256 + |ms|);
      LoopState(chunks, ms + [e], MergeAll(ids, e), vocab[e.id := vocab[pair.0] + vocab[pair.1]],
                ambiguous || |tied| > 1)
  {
    var e := MergeEntry(pair, 256 + |ms|);
    var counts := multiset(AllPairs(ids));
    SelectionMeaning(counts, stats, pair, tied);
    RunStep(chunks, ms, ids, vocab, pair);
    GreedyStep(chunks, ms, pair);
  }

  /** The merge table, chunks and vocabulary after one iteration. */
  lemma RunStep(chunks: seq<seq<Byte>>, ms: seq<MergeEntry>, ids: seq<seq<int>>,
                vocab: map<int, seq<Byte>>, pair: Pair)
    requires GreedyRun(chunks, ms) && ValidMerges(ms)
    requires ids == Replay(chunks, ms) && vocab == MergedVocab(ms)
    requires IsMostFrequent(multiset(AllPairs(ids)), pair)
    ensures pair.0 in vocab && pair.1 in vocab
    ensures var e := MergeEntry(pair, 256 + |ms|);
      && GreedyRun(chunks, ms + [e])
      && ValidMerges(ms + [e])
      && MergeAll(ids, e) == Replay(chunks, ms + [e])
      && vocab[e.id := vocab[pair.0] + vocab[pair.1]] == MergedVocab(ms + [e])
  {
    var e := MergeEntry(pair, 256 + |ms|);
    GreedyStep(chunks, ms, pair);
    GreedyRunInvariant(chunks, ms + [e]);
    MergedVocabSnoc(ms, e);
  }

  /**
   * One iteration of the loop of `train`, iteration number `|ms|`: count the
   * pairs of the current chunks, pick a most frequent pair, note a tie,
   * merge the pair with the next id in every chunk and record the merge.
   * `found` is false when no pair is left to count.
   */
  method Iteration(chunks: seq<seq<Byte>>, ms: seq<MergeEntry>, ids: seq<seq<int>>,
                   vocab: map<int, seq<Byte>>, ambiguous: bool)
    returns (found: bool, nextMs: seq<MergeEntry>, nextIds: seq<seq<int>>,
             nextVocab: map<int, seq<Byte>>, nextAmbiguous: bool)
    requires LoopState(chunks, ms, ids, vocab, ambiguous)
    ensures !found <==> AllPairs(ids) == []
    ensures !found ==> nextMs == ms && nextIds == ids && nextVocab == vocab && nextAmbiguous == ambiguous
    ensures found ==> |nextMs| == |ms| + 1 && nextMs[..|ms|] == ms
    ensures found ==> var e := nextMs[|ms|];
      && e.id == 256 + |ms|
      && IsMostFrequent(multiset(AllPairs(ids)), e.pair)
      && e.pair.0 in vocab && e.pair.1 in vocab
      && nextIds == MergeAll(ids, e)
      && nextVocab == vocab[e.id := vocab[e.pair.0] + vocab[e.pair.1]]
      && (nextAmbiguous <==> ambiguous || HasTie(multiset(AllPairs(ids)), e.pair))
    ensures found ==> LoopState(chunks, nextMs, nextIds, nextVocab, nextAmbiguous)
  {
    var stats := CountAll(ids);
    if stats == map[] {
      return false, ms, ids, vocab, ambiguous;
    }
    var pair := MostFrequentPair(stats);
    var pairCount := stats[pair];
    var pairsWithMaxCount := set q | q in stats && stats[q] == pairCount;
    IterationStep(chunks, ms, ids, vocab, ambiguous, stats, pair, pairsWithMaxCount);
    nextAmbiguous := ambiguous;
    if |pairsWithMaxCount| > 1 {
      nextAmbiguous := true;
    }
    var idx := 256 + |ms|;
    nextIds := MergeChunks(ids, pair, idx);
    nextVocab := vocab[idx := vocab[pair.0] + vocab[pair.1]];
    nextMs := ms + [MergeEntry(pair, idx)];
    found := true;
  }

  /**
   * The loop of `train` over `numMerges` iterations, on local copies of the
   * merge table and the vocabulary.  It either completes, with a greedy run
   * of `numMerges` merges, the vocabulary derived from it and the tie flag,
   * or stops early (`ok == false`) at an iteration that finds no pair left,
   * where `max` over the empty statistics raises.
   */
  method MergeLoop(chunks: seq<seq<Byte>>, numMerges: nat)
    returns (ok: bool, ambiguous: bool, ms: seq<MergeEntry>, vocab: map<int, seq<Byte>>)
    ensures GreedyRun(chunks, ms) && ValidMerges(ms) && vocab == MergedVocab(ms)
    ensures ok ==> |ms| == numMerges && (ambiguous <==> Ambiguous(chunks, ms))
    ensures !ok ==> |ms| < numMerges && AllPairs(Replay(chunks, ms)) == []
  {
    ambiguous := false;
    var ids: seq<seq<int>> := chunks;
    ms := [];
    vocab := BaseVocab();
    for i := 0 to numMerges
      invariant |ms| == i && LoopState(chunks, ms, ids, vocab, ambiguous)
    {
      var found, nextMs, nextIds, nextVocab, nextAmbiguous := Iteration(chunks, ms, ids, vocab, ambiguous);
      if !found {
        return false, ambiguous, ms, vocab;
      }
      ms, ids, vocab, ambiguous := nextMs, nextIds, nextVocab, nextAmbiguous;
    }
    ok := true;
  }

  /** A subset is no larger than its superset. */
  lemma {:induction false} SubsetCard(a: set<Pair>, b: set<Pair>)
    requires a <= b
    ensures |a| <= |b|
    decreases |a|
  {
    if a != {} {
      var x :| x in a;
      SubsetCard(a - {x}, b - {x});
    }
  }
}
