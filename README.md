# Byte-level BPE tokenizer, modelled in Dafny

This project models the byte-pair-encoding engine of `nana_tokenizers/regex_tokenizer.py`:

- the adjacent-pair counter `get_stats`;
- the pair replacement `merge`;
- the `RegexTokenizer` object:
  - its construction and `_build_vocab`;
  - the training loop `train`;
  - the encoders `_encode_chunk` and `encode_ordinary`.

Text enters the model already split into chunks and encoded as bytes. Each chunk is a `seq<Byte>`, where `Byte` is an `int` in `0..255`. The regex pre-split and the UTF-8 encoding are outside the model.

Module layout, one module per file:

- `PairStats` (`pair_stats.dfy`):
  - the pairs of a sequence, `zip(ids, ids[1:])`, as `Pairs`;
  - `get_stats` as the method `GetStats` over a `map<Pair, nat>`, whose increments are the multiset of `Pairs(ids)`.
- `PairMerge` (`merge.dfy`):
  - the reference function `Merged`, a left-to-right scan in which a match consumes two positions;
  - the `while` loop of `merge` as the method `Merge`, proved equal to `Merged`;
  - the properties of `Merged`.
- `Vocabulary` (`vocab.dfy`):
  - the merge table as a sequence of `MergeEntry(pair, id)` in insertion order, which is Python dict order;
  - the derived vocabulary: bytes first, then each merge folded in order, then the special tokens;
  - `Decode`, which expands ids through a vocabulary.
- `Training` (`training.dfy`):
  - what one run of the training loop computes: chunks rewritten by a prefix of the merges (`Replay`), counts taken per chunk (`AllPairs`), a greedy choice per iteration (`GreedyRun`) and the tie flag (`Ambiguous`);
  - the loop itself, as the methods `Iteration` and `MergeLoop`.
- `Encoding` (`encoding.dfy`):
  - the lookup `merges.get(p)` as `Lookup`;
  - the pair `_encode_chunk` merges next (`LowestMerge`);
  - the per-chunk and whole-text encodings (`Encoded`, `EncodedAll`).
- `Tokenizer` (`tokenizer.dfy`): the class `RegexTokenizer` with the fields `merges`, `specialTokens` and `vocab`, and its methods.

`train` in the source fails in two ways: by an assertion when `vocab_size < 256`, and by a `ValueError` from `max` over empty statistics. `Train` returns these as `Err(InvalidVocabSize)` and `Err(NoPairs)`. In both cases the fields are unchanged, just as the source assigns `self.merges` and `self.vocab` only after its loop.

When the text runs out of adjacent pairs before `vocab_size - 256` merges, `max` at line 78 of `nana_tokenizers/regex_tokenizer.py` raises over empty statistics. Lines 105-106 are then never reached, so `self.merges` and `self.vocab` keep their old values. `Train` returns `Err(NoPairs)` in this case and leaves the fields unchanged.

The pair chosen by `max(stats, key=stats.get)` is specified only as *some* pair of maximal count. `MostFrequentPair` picks one nondeterministically.

## Model

| member | source | states |
|---|---|---|
| PairStats.Pairs | nana_tokenizers/regex_tokenizer.py:17 | the pairs visited by `zip(ids, ids[1:])`: one per position `i`, equal to `(ids[i], ids[i+1])`; there are `max(len(ids) - 1, 0)` of them |
| PairStats.Get | nana_tokenizers/regex_tokenizer.py:18 | `counts.get(pair, 0)`: the stored count of a key, and 0 for a pair that is not a key |
| PairStats.GetStats | nana_tokenizers/regex_tokenizer.py:9-19 | the count of every pair `p` in the result is its count in the passed counter plus the number of occurrences of `p` among the adjacent pairs; existing entries are kept and accumulated; the keys are the old keys plus the pairs that occur |
| PairStats.CountIsPositions | nana_tokenizers/regex_tokenizer.py:17-18 | the amount added for `p` is the number of positions `i` with `(ids[i], ids[i+1]) == p`, so overlapping occurrences count once per position |
| PairStats.MultiplicityIsPositions | nana_tokenizers/regex_tokenizer.py:17-18 | the multiplicity of a pair in a pair sequence is the number of positions holding it |
| PairStats.StatsExample | nana_tokenizers/regex_tokenizer.py:12 | `[1, 2, 3, 1, 2]` counts `(1, 2)` twice and `(2, 3)` and `(3, 1)` once, four pairs in all |
| PairMerge.Merged | nana_tokenizers/regex_tokenizer.py:22-36 | reference scan of `merge`; the result is never longer than the input and holds only `idx` and ids of the input |
| PairMerge.Merge | nana_tokenizers/regex_tokenizer.py:27-36 | the `while` loop over `i` (a match of `pair` at `i` appends `idx` and advances by two, anything else is copied and advances by one) returns exactly `Merged(ids, pair, idx)` |
| PairMerge.MergedAt | nana_tokenizers/regex_tokenizer.py:30-35 | the scan from position `i` emits `idx` and resumes at `i + 2` when the test of line 30 holds, and otherwise emits `ids[i]` and resumes at `i + 1` |
| PairMerge.MergedLength | nana_tokenizers/regex_tokenizer.py:29-35 | the output length is the input length minus the number of replacements the scan makes |
| PairMerge.ReplacementsIffPresent | nana_tokenizers/regex_tokenizer.py:29-35 | the scan replaces something if and only if `pair` occurs adjacently in `ids` |
| PairMerge.MergedShorter | nana_tokenizers/regex_tokenizer.py:22-36 | merging a present pair strictly shortens the sequence |
| PairMerge.MergedUnchanged | nana_tokenizers/regex_tokenizer.py:22-36 | if `pair` never occurs adjacently, the output equals the input |
| PairMerge.MergeRoundTrip | nana_tokenizers/regex_tokenizer.py:27-36 | when `idx` does not occur in `ids`, expanding every `idx` of the output into `pair[0], pair[1]` gives `ids` back |
| PairMerge.MergedRemovesPair | nana_tokenizers/regex_tokenizer.py:22-36 | with `idx` different from both halves of `pair`, no occurrence of `pair` survives the merge |
| PairMerge.MergedPairsFromInput | nana_tokenizers/regex_tokenizer.py:22-36 | every adjacent pair of the output that does not involve `idx` was an adjacent pair of the input |
| PairMerge.MergeExample | nana_tokenizers/regex_tokenizer.py:25 | `[1, 2, 3, 1, 2]`, `(1, 2)`, `4` gives `[4, 3, 4]` |
| Vocabulary.BaseVocab | nana_tokenizers/regex_tokenizer.py:50 | `{idx: bytes([idx]) for idx in range(256)}`: the keys are exactly `0..255`, and each maps to its single byte |
| Vocabulary.MergedVocab | nana_tokenizers/regex_tokenizer.py:50-52 | the byte vocabulary with the merges folded in, in insertion order; its keys are exactly `0..255` and the merge ids |
| Vocabulary.MergedVocabSnoc | nana_tokenizers/regex_tokenizer.py:51-52 | appending a merge to the table adds exactly `vocab[idx] = vocab[p0] + vocab[p1]` to the vocabulary |
| Vocabulary.MergedVocabBase | nana_tokenizers/regex_tokenizer.py:50 | ids `0..255` map to their single byte whatever merges follow |
| Vocabulary.MergedVocabStable | nana_tokenizers/regex_tokenizer.py:51-52 | later merges never change an entry that an earlier prefix of the table defined |
| Vocabulary.MergedVocabEntry | nana_tokenizers/regex_tokenizer.py:51-52 | for every merge `(p0, p1) -> idx` of the table, `vocab[idx] == vocab[p0] + vocab[p1]` in the final vocabulary |
| Vocabulary.WithSpecials | nana_tokenizers/regex_tokenizer.py:53-54 | writing the special tokens over a vocabulary: the keys are the old keys plus the special ids, and the special token written last is read back |
| Vocabulary.VocabOf | nana_tokenizers/regex_tokenizer.py:48-55 | the result of `_build_vocab`: its keys are exactly the bytes `0..255`, the merge ids and the special-token ids |
| Vocabulary.SpecialEntry | nana_tokenizers/regex_tokenizer.py:53-54 | special tokens are written last: a special token whose id no later one reuses maps to its bytes |
| Vocabulary.NonSpecialEntry | nana_tokenizers/regex_tokenizer.py:53-54 | an id that no special token uses keeps its merged-vocabulary entry |
| Vocabulary.DecodeAppend | nana_tokenizers/regex_tokenizer.py:134 | the bytes of a concatenation of id sequences are the concatenation of their bytes |
| Vocabulary.DecodeAgree | nana_tokenizers/regex_tokenizer.py:51-52 | decoding only depends on the entries of the ids decoded |
| Vocabulary.DecodeMerged | nana_tokenizers/regex_tokenizer.py:22-36 | replacing `pair` by `idx` with `vocab[idx] == vocab[pair[0]] + vocab[pair[1]]` keeps the decoded bytes |
| Vocabulary.DecodeAfterMerge | nana_tokenizers/regex_tokenizer.py:92-96 | recording a merge and applying it keeps ids inside the grown vocabulary and keeps their bytes |
| Vocabulary.DecodeSingles | nana_tokenizers/regex_tokenizer.py:50 | raw bytes decode to themselves under the single-byte entries |
| Vocabulary.DecodeBytes | nana_tokenizers/regex_tokenizer.py:50-52 | raw bytes decode to themselves under any derived vocabulary |
| Training.MergeAll | nana_tokenizers/regex_tokenizer.py:92 | `[merge(chunk_ids, pair, idx) for chunk_ids in ids]` keeps the number of chunks; what a merge does to each chunk is stated by `MergeAllRemoves` and `MergeAllKeepsAbsent` |
| Training.Replay | nana_tokenizers/regex_tokenizer.py:92 | the chunks rewritten by the merges in order; the number of chunks never changes |
| Training.AllPairs | nana_tokenizers/regex_tokenizer.py:74-76 | the pairs counted over all chunks: a pair is counted only inside one chunk, never across a chunk boundary |
| Training.CountAll | nana_tokenizers/regex_tokenizer.py:74-76 | the statistics pass returns, for every pair, its number of occurrences summed over the chunks; it is empty exactly when no chunk has two ids |
| Training.MostFrequentPair | nana_tokenizers/regex_tokenizer.py:78 | `max(stats, key=stats.get)` on non-empty statistics returns a key whose count is at least every other count |
| Training.MergeChunks | nana_tokenizers/regex_tokenizer.py:92 | every chunk is rewritten by `merge` with the chosen pair and id |
| Training.SelectionMeaning | nana_tokenizers/regex_tokenizer.py:78-86 | the pair chosen from the statistics is a most frequent pair of the chunk counts, and more than one pair at the maximum count is exactly a tie |
| Training.GreedyStep | nana_tokenizers/regex_tokenizer.py:72-96 | one more iteration with a most frequent pair and id `256 + i` extends a greedy run, rewrites the chunks by that merge and raises the flag exactly on a tie |
| Training.GreedyRunMeans | nana_tokenizers/regex_tokenizer.py:72-95 | what `GreedyRun` states: a table is a run of the loop if and only if, for every `k`, merge `k` has the id `256 + k` and a pair of maximal count over the chunks as they stand after the first `k` merges |
| Training.GreedyRunAt | nana_tokenizers/regex_tokenizer.py:78-89 | in a greedy run, merge `k` has the id `256 + k` and a pair of maximal count over the chunks before it |
| Training.AmbiguousMeans | nana_tokenizers/regex_tokenizer.py:80-86 | what `Ambiguous` states: the returned flag is raised if and only if some iteration had another pair with the same maximal count as the chosen pair |
| Training.AmbiguousFrom | nana_tokenizers/regex_tokenizer.py:80-86 | a tie in any one iteration raises the flag, and later iterations never lower it |
| Training.GreedyRunPrefix | nana_tokenizers/regex_tokenizer.py:72 | every prefix of a greedy run is a greedy run |
| Training.FirstMergeNeedsPairs | nana_tokenizers/regex_tokenizer.py:74-78 | a run with at least one merge needs an adjacent pair in the original chunks; otherwise the first `max` gets empty statistics |
| Training.GreedyRunInvariant | nana_tokenizers/regex_tokenizer.py:72-96 | after a greedy run the table is valid (ids dense from 256, merges that refer to earlier ids only, no pair chosen twice), the chunks hold only ids below `256 + len(merges)`, and no merged pair occurs in any chunk |
| Training.ValidStep | nana_tokenizers/regex_tokenizer.py:89-95 | one iteration keeps that invariant |
| Training.ExtendValid | nana_tokenizers/regex_tokenizer.py:89-95 | recording a fresh pair with the next id keeps the table valid |
| Training.ReplayDecodes | nana_tokenizers/regex_tokenizer.py:67-96 | byte preservation during training: each rewritten chunk holds only vocabulary ids and decodes to the chunk's original bytes |
| Training.IterationStep | nana_tokenizers/regex_tokenizer.py:74-96 | the chosen pair is a most frequent pair and more than one pair at its count is exactly a tie; one iteration moves the loop state (greedy run, rewritten chunks, derived vocabulary, tie flag) from `i` merges to `i + 1` |
| Training.RunStep | nana_tokenizers/regex_tokenizer.py:89-96 | recording the pair with id `256 + i`, rewriting the chunks and extending the vocabulary gives the state of the extended run |
| Training.Iteration | nana_tokenizers/regex_tokenizer.py:73-96 | one loop body finds no pair exactly when the statistics are empty, and then changes nothing; otherwise it keeps the earlier merges and appends one entry with the id `256 + i` and a most frequent pair, rewrites every chunk with that merge, adds `vocab[idx] = vocab[p0] + vocab[p1]`, raises the flag exactly on a tie, and keeps the loop state |
| Training.MergeLoop | nana_tokenizers/regex_tokenizer.py:69-96 | the loop either runs exactly `num_merges` iterations (a greedy run of that length, its vocabulary and tie flag) or stops at an iteration with no pair left |
| Encoding.Lookup | nana_tokenizers/regex_tokenizer.py:115-121 | `merges.get(p)` is an id exactly when `p` is a key, and then it is the id recorded for `p` |
| Encoding.LookupInjective | nana_tokenizers/regex_tokenizer.py:89-95 | in a valid table an id names one pair only |
| Encoding.LowestMerge | nana_tokenizers/regex_tokenizer.py:114-118 | no result exactly when no present pair is a key; otherwise a present key whose id is no larger than that of any present key |
| Encoding.LowestRankPair | nana_tokenizers/regex_tokenizer.py:115 | `min` with absent keys ranked last returns a key of the statistics whose merge id is the smallest whenever any key has one |
| Encoding.LowestMergeIs | nana_tokenizers/regex_tokenizer.py:115-121 | a present key of smallest id is the pair `LowestMerge` chooses |
| Encoding.Encoded | nana_tokenizers/regex_tokenizer.py:109-123 | the encoding of a chunk is never longer than its bytes, and on exit no adjacent pair is a key of the table |
| Encoding.EncodedDecodes | nana_tokenizers/regex_tokenizer.py:112-122 | encoding keeps every id in the vocabulary and preserves the decoded bytes |
| Encoding.EncodedAll | nana_tokenizers/regex_tokenizer.py:125-135 | `encode_ordinary` on the chunks: the chunk encodings joined in order, never more ids than input ids; byte preservation is `EncodeAllRoundTrip` |
| Encoding.EncodeChunkRoundTrip | nana_tokenizers/regex_tokenizer.py:109-123 | the encoded ids of a chunk decode to the chunk's bytes |
| Encoding.EncodeAllRoundTrip | nana_tokenizers/regex_tokenizer.py:125-135 | the concatenated encoding decodes to the bytes of all chunks in order |
| Tokenizer.RegexTokenizer.constructor | nana_tokenizers/regex_tokenizer.py:40-46 | a new tokenizer has no merges and no special tokens, and its vocabulary maps exactly the ids `0..255`, each to its single byte |
| Tokenizer.RegexTokenizer.BuildVocab | nana_tokenizers/regex_tokenizer.py:48-55 | the loops over merges and special tokens build `VocabOf(merges, special_tokens)`: bytes, then each merge in order, then each special token |
| Tokenizer.RegexTokenizer.Train | nana_tokenizers/regex_tokenizer.py:57-107 | fails before any change if and only if `vocab_size < 256`; fails unchanged when an iteration has no pair, in particular whenever `vocab_size > 256` and no chunk has two bytes; otherwise it replaces `merges` and `vocab` with a greedy run of exactly `vocab_size - 256` merges and its vocabulary, and returns true if and only if some iteration was tied |
| Tokenizer.RegexTokenizer.EncodeChunk | nana_tokenizers/regex_tokenizer.py:109-123 | the loop returns `Encoded(merges, text_bytes)`, whose ids lie in `vocab` and decode back to `text_bytes` |
| Tokenizer.RegexTokenizer.EncodeOrdinary | nana_tokenizers/regex_tokenizer.py:125-135 | the per-chunk encodings concatenated in order, with ids in `vocab` that decode to all chunk bytes in order |

## Left out

- The regex pre-split (`GPT4_SPLIT_PATTERN`, `re.compile`, `re.findall`, lines 6, 41, 43, 64 and 127): the chunks are taken as an input sequence. The `pattern` argument and field are therefore not modelled.
- UTF-8 encoding of chunks and special-token strings (lines 54, 67 and 132): chunks and special-token values are given as byte sequences.
- The `float("inf")` rank of `min` (line 115) is modelled as an optional id, `Lookup` returning `None` for a pair that is not a key.
- Python dict iteration order as the tie-break of `max` (line 78): `MostFrequentPair` returns any pair of maximal count, and `GreedyRun` states only maximality. For `min` (line 115), ties between pairs that are keys cannot occur, because in a valid table ids are distinct (`LookupInjective`). When no pair is a key, the pair `min` returns is irrelevant, since the loop breaks.
- Verbose printing (lines 99-102) and the unused `inversae_special_tokens` field (line 45).
- `get_stats` updates the caller's dict in place and returns it. `GetStats` returns the updated map instead, because maps are values in this model. Aliasing of the counter between callers is not modelled.
- Tokenizer.RegexTokenizer.BuildVocab: requires a well-formed merge table, so the `KeyError` that `_build_vocab` would raise on a merge whose halves are not yet in the vocabulary is not modelled. Tables built by `train` are always well formed (`GreedyRunInvariant`).
- Tokenizer.RegexTokenizer.Train: the tokenizer invariant relates `vocab` to `merges` only. `train` rebuilds the vocabulary from bytes and merges, which drops any special tokens from `vocab`, and the model does the same. The source never registers special tokens, so `specialTokens` stays empty after construction.
- Training.MergeLoop: the merges recorded before an early stop are returned but discarded by `Train`, just as the exception in `train` discards its local `merges`.
- The test script `tests/test_bpe.py` (downloads, file reads, timing) is not part of this model.
