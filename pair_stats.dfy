/** Adjacent-pair statistics over token-id sequences (`get_stats`). */
module PairStats {

  /** Two adjacent token ids: the key type of the pair counter. */
  type Pair = (int, int)

  /** The adjacent pairs of `ids`, one per position: `zip(ids, ids[1:])`. */
  function Pairs(ids: seq<int>): (ps: seq<Pair>)
    ensures |ps| == if |ids| < 2 then 0 else |ids| - 1
    ensures forall i :: 0 <= i < |ps| ==> ps[i] == (ids[i], ids[i + 1])
    decreases |ids|
  {
    if |ids| < 2 then [] else [(ids[0], ids[1])] + Pairs(ids[1..])
  }

  /** `counts.get(p, 0)`: an absent pair has count 0. */
  function Get(counts: map<Pair, nat>, p: Pair): (n: nat)
    ensures p in counts ==> n == counts[p]
    ensures p !in counts ==> n == 0
  {
    if p in counts then counts[p] else 0
  }

  /**
   * `get_stats(ids, counts)`: adds one to the count of every adjacent pair of
   * `ids`, once per position, on top of what `counts` already holds.  The
   * increments form the multiset of the pairs of `ids`, whose size is
   * `max(|ids| - 1, 0)`.
   */
  method GetStats(ids: seq<int>, counts: map<Pair, nat>) returns (r: map<Pair, nat>)
    ensures forall p :: Get(r, p) == Get(counts, p) + multiset(Pairs(ids))[p]
    ensures forall p :: p in r <==> p in counts || p in Pairs(ids)
  {
    r := counts;
    ghost var ps := Pairs(ids);
    var i := 0;
    while i + 1 < |ids|
      invariant 0 <= i <= |ps|
      invariant forall p :: Get(r, p) == Get(counts, p) + multiset(ps[..i])[p]
      invariant forall p :: p in r <==> p in counts || p in ps[..i]
    {
      var pair := (ids[i], ids[i + 1]);
      r := r[pair := Get(r, pair) + 1];
      assert ps[..i + 1] == ps[..i] + [pair];
      i := i + 1;
    }
    assert ps[..i] == ps;
  }

  /** The multiplicity of `x` in `s` is the number of positions holding `x`. */
  lemma {:induction false} MultiplicityIsPositions(s: seq<Pair>, x: Pair)
    ensures multiset(s)[x] == |set i | 0 <= i < |s| && s[i] == x|
    decreases |s|
  {
    var b := set i | 0 <= i < |s| && s[i] == x;
    if |s| == 0 {
      assert b == {};
    } else {
      var t := s[..|s| - 1];
      MultiplicityIsPositions(t, x);
      assert s == t + [s[|s| - 1]];
      var a := set i | 0 <= i < |t| && t[i] == x;
      if s[|s| - 1] == x {
        assert b == a + {|s| - 1};
      } else {
        assert b == a;
      }
    }
  }

  /** Positions `i` where `p` sits at `ids[i], ids[i + 1]`. */
  predicate PairAt(ids: seq<int>, i: int, p: Pair) {
    0 <= i < |ids| - 1 && (ids[i], ids[i + 1]) == p
  }

  /**
   * The count that `get_stats` adds for `p` is the number of positions `i`
   * with `(ids[i], ids[i + 1]) == p`: overlapping occurrences count once per
   * position.
   */
  lemma CountIsPositions(ids: seq<int>, p: Pair)
    ensures multiset(Pairs(ids))[p] == |set i | 0 <= i < |ids| - 1 && PairAt(ids, i, p)|
  {
    var ps := Pairs(ids);
    MultiplicityIsPositions(ps, p);
    var a := set i | 0 <= i < |ps| && ps[i] == p;
    var b := set i | 0 <= i < |ids| - 1 && PairAt(ids, i, p);
    forall i ensures i in a <==> i in b {
      if 0 <= i < |ps| {
        assert ps[i] == (ids[i], ids[i + 1]);
      }
    }
    assert a == b;
  }

  /** The documented example: `[1, 2, 3, 1, 2]` gives `{(1, 2): 2, (2, 3): 1, (3, 1): 1}`. */
  lemma StatsExample()
    ensures var m := multiset(Pairs([1, 2, 3, 1, 2]));
      m[(1, 2)] == 2 && m[(2, 3)] == 1 && m[(3, 1)] == 1 && |m| == 4
  {
    var s := [1, 2, 3, 1, 2];
    var ps := Pairs(s);
    assert ps == [(1, 2), (2, 3), (3, 1), (1, 2)];
  }
}
