/** Replacing a pair of adjacent ids by a new id (`merge`). */
module PairMerge {
  import opened PairStats

  /** The test at a scan position: `ids` starts with `pair`. */
  predicate StartsWith(ids: seq<int>, pair: Pair) {
    |ids| >= 2 && ids[0] == pair.0 && ids[1] == pair.1
  }

  /**
   * Reference definition of `merge`: scan left to right; a match of `pair`
   * becomes `idx` and consumes two positions, anything else is copied and
   * consumes one.  The result is never longer and holds only `idx` and ids
   * of the input.
   */
  function Merged(ids: seq<int>, pair: Pair, idx: int): (r: seq<int>)
    ensures |r| <= |ids|
    ensures forall x :: x in r ==> x == idx || x in ids
    decreases |ids|
  {
    if |ids| == 0 then []
    else if StartsWith(ids, pair) then [idx] + Merged(ids[2..], pair, idx)
    else [ids[0]] + Merged(ids[1..], pair, idx)
  }

  /** The number of matches the scan of `merge` replaces. */
  function Replacements(ids: seq<int>, pair: Pair): nat
    decreases |ids|
  {
    if |ids| == 0 then 0
    else if StartsWith(ids, pair) then 1 + Replacements(ids[2..], pair)
    else Replacements(ids[1..], pair)
  }

  /** Undoes a merge: every `idx` becomes `pair.0, pair.1` again. */
  function Expand(ids: seq<int>, pair: Pair, idx: int): seq<int>
    decreases |ids|
  {
    if |ids| == 0 then []
    else (if ids[0] == idx then [pair.0, pair.1] else [ids[0]]) + Expand(ids[1..], pair, idx)
  }

  /** One step of the scan of `merge`, at position `i`. */
  lemma MergedAt(ids: seq<int>, pair: Pair, idx: int, i: nat)
    requires i < |ids|
    ensures ids[i] == pair.0 && i < |ids| - 1 && ids[i + 1] == pair.1 ==>
      Merged(ids[i..], pair, idx) == [idx] + Merged(ids[i + 2..], pair, idx)
    ensures !(ids[i] == pair.0 && i < |ids| - 1 && ids[i + 1] == pair.1) ==>
      Merged(ids[i..], pair, idx) == [ids[i]] + Merged(ids[i + 1..], pair, idx)
  {
    var suffix := ids[i..];
    assert suffix[1..] == ids[i + 1..];
    if i < |ids| - 1 {
      assert suffix[2..] == ids[i + 2..];
    }
  }

  /** `merge(ids, pair, idx)`, by its `while` loop over `i`. */
  method Merge(ids: seq<int>, pair: Pair, idx: int) returns (newIds: seq<int>)
    ensures newIds == Merged(ids, pair, idx)
  {
    newIds := [];
    var i := 0;
    while i < |ids|
      invariant 0 <= i <= |ids|
      invariant newIds + Merged(ids[i..], pair, idx) == Merged(ids, pair, idx)
    {
      MergedAt(ids, pair, idx, i);
      if ids[i] == pair.0 && i < |ids| - 1 && ids[i + 1] == pair.1 {
        assert newIds + [idx] + Merged(ids[i + 2..], pair, idx) == newIds + Merged(ids[i..], pair, idx);
        newIds := newIds + [idx];
        i := i + 2;
      } else {
        assert newIds + [ids[i]] + Merged(ids[i + 1..], pair, idx) == newIds + Merged(ids[i..], pair, idx);
        newIds := newIds + [ids[i]];
        i := i + 1;
      }
    }
  }

  /** The first id of a merge result. */
  lemma MergedHead(ids: seq<int>, pair: Pair, idx: int)
    requires |ids| > 0
    ensures |Merged(ids, pair, idx)| > 0
    ensures Merged(ids, pair, idx)[0] == if StartsWith(ids, pair) then idx else ids[0]
  {
  }

  /** The pairs of a sequence with one id in front. */
  lemma PairsCons(h: int, t: seq<int>)
    ensures Pairs([h] + t) == (if |t| == 0 then [] else [(h, t[0])] + Pairs(t))
  {
    if |t| > 0 {
      assert ([h] + t)[1..] == t;
    }
  }

  /** A pair of a suffix of `ids` is a pair of `ids`. */
  lemma PairsOfSuffix(ids: seq<int>, k: nat, q: Pair)
    requires k <= |ids| && q in Pairs(ids[k..])
    ensures q in Pairs(ids)
  {
    var suffix := ids[k..];
    var ps := Pairs(suffix);
    var i :| 0 <= i < |ps| && ps[i] == q;
    assert q == (suffix[i], suffix[i + 1]);
    assert suffix[i] == ids[k + i] && suffix[i + 1] == ids[k + i + 1];
    var all := Pairs(ids);
    assert all[k + i] == (ids[k + i], ids[k + i + 1]);
  }

  /** The output is the input shortened by one position per replacement. */
  lemma {:induction false} MergedLength(ids: seq<int>, pair: Pair, idx: int)
    ensures |Merged(ids, pair, idx)| == |ids| - Replacements(ids, pair)
    decreases |ids|
  {
    if |ids| > 0 {
      if StartsWith(ids, pair) {
        MergedLength(ids[2..], pair, idx);
      } else {
        MergedLength(ids[1..], pair, idx);
      }
    }
  }

  /** The scan replaces something exactly when `pair` occurs adjacently. */
  lemma {:induction false} ReplacementsIffPresent(ids: seq<int>, pair: Pair)
    ensures Replacements(ids, pair) > 0 <==> pair in Pairs(ids)
    decreases |ids|
  {
    if |ids| >= 2 {
      assert Pairs(ids) == [(ids[0], ids[1])] + Pairs(ids[1..]);
      if StartsWith(ids, pair) {
        assert Pairs(ids)[0] == pair;
      } else {
        ReplacementsIffPresent(ids[1..], pair);
      }
    }
  }

  /** A merge of a present pair strictly shortens the sequence. */
  lemma MergedShorter(ids: seq<int>, pair: Pair, idx: int)
    requires pair in Pairs(ids)
    ensures |Merged(ids, pair, idx)| < |ids|
  {
    MergedLength(ids, pair, idx);
    ReplacementsIffPresent(ids, pair);
  }

  /** If `pair` never occurs adjacently, the output equals the input. */
  lemma {:induction false} MergedUnchanged(ids: seq<int>, pair: Pair, idx: int)
    requires pair !in Pairs(ids)
    ensures Merged(ids, pair, idx) == ids
    decreases |ids|
  {
    if |ids| > 0 {
      if |ids| >= 2 {
        assert Pairs(ids) == [(ids[0], ids[1])] + Pairs(ids[1..]);
      }
      MergedUnchanged(ids[1..], pair, idx);
    }
  }

  /** Round trip: when `idx` is fresh, expanding the merged ids gives `ids` back. */
  lemma {:induction false} MergeRoundTrip(ids: seq<int>, pair: Pair, idx: int)
    requires idx !in ids
    ensures Expand(Merged(ids, pair, idx), pair, idx) == ids
    decreases |ids|
  {
    if |ids| > 0 {
      var m := Merged(ids, pair, idx);
      if StartsWith(ids, pair) {
        MergeRoundTrip(ids[2..], pair, idx);
        assert m[1..] == Merged(ids[2..], pair, idx);
        assert ids == [ids[0], ids[1]] + ids[2..];
      } else {
        MergeRoundTrip(ids[1..], pair, idx);
        assert m[1..] == Merged(ids[1..], pair, idx);
        assert ids == [ids[0]] + ids[1..];
      }
    }
  }

  /** With a fresh `idx`, no occurrence of `pair` survives a merge. */
  lemma {:induction false} MergedRemovesPair(ids: seq<int>, pair: Pair, idx: int)
    requires idx != pair.0 && idx != pair.1
    ensures pair !in Pairs(Merged(ids, pair, idx))
    decreases |ids|
  {
    if |ids| > 0 {
      var rest := if StartsWith(ids, pair) then ids[2..] else ids[1..];
      var h := if StartsWith(ids, pair) then idx else ids[0];
      var m := Merged(rest, pair, idx);
      assert Merged(ids, pair, idx) == [h] + m;
      MergedRemovesPair(rest, pair, idx);
      PairsCons(h, m);
      if |m| > 0 && !StartsWith(ids, pair) {
        MergedHead(rest, pair, idx);
      }
    }
  }

  /** Every pair of the output that does not involve `idx` was a pair of the input. */
  lemma {:induction false} MergedPairsFromInput(ids: seq<int>, pair: Pair, idx: int, q: Pair)
    requires q in Pairs(Merged(ids, pair, idx))
    requires q.0 != idx && q.1 != idx
    ensures q in Pairs(ids)
    decreases |ids|
  {
    var start := StartsWith(ids, pair);
    var k := if start then 2 else 1;
    var rest := ids[k..];
    var h := if start then idx else ids[0];
    var m := Merged(rest, pair, idx);
    assert Merged(ids, pair, idx) == [h] + m;
    PairsCons(h, m);
    if q in Pairs(m) {
      MergedPairsFromInput(rest, pair, idx, q);
      PairsOfSuffix(ids, k, q);
    } else {
      MergedHead(rest, pair, idx);
      assert q == (ids[0], ids[1]) == Pairs(ids)[0];
    }
  }

  /** The documented example: `[1, 2, 3, 1, 2]`, `(1, 2)`, `4` gives `[4, 3, 4]`. */
  lemma MergeExample()
    ensures Merged([1, 2, 3, 1, 2], (1, 2), 4) == [4, 3, 4]
  {
    assert [1, 2, 3, 1, 2][2..] == [3, 1, 2];
    assert [3, 1, 2][1..] == [1, 2];
  }
}
