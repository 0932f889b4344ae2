/** One column of the canonical view: the slide toward index 0 (`_compress`)
    and the single merge pass (`_merge`), as functions on sequences of tile
    exponents (0 is an empty cell). */
module Line {

  /** The non-zero cells of s, in their original order. */
  function NonZeros(s: seq<int>): (r: seq<int>)
    ensures |r| <= |s|
    ensures forall i :: 0 <= i < |r| ==> r[i] != 0
  {
    if s == [] then []
    else if s[0] != 0 then [s[0]] + NonZeros(s[1..])
    else NonZeros(s[1..])
  }

  function Zeros(m: nat): (r: seq<int>)
    ensures |r| == m && forall i :: 0 <= i < m ==> r[i] == 0
  {
    seq(m, _ => 0)
  }

  /** The column after the slide: its tiles in order, then empty cells. */
  function CompressLine(s: seq<int>): (r: seq<int>)
    ensures |r| == |s|
  {
    NonZeros(s) + Zeros(|s| - |NonZeros(s)|)
  }

  /** No tile stands below an empty cell. */
  predicate IsCompressed(s: seq<int>)
  {
    forall i, j :: 0 <= i < j < |s| && s[i] == 0 ==> s[j] == 0
  }

  /** The number of tiles whose index changes in the slide: the tile at index
      i lands at index |NonZeros(s[..i])|, so it moves iff that differs from i. */
  function Moved(s: seq<int>): (r: nat)
    ensures r <= |s|
  {
    if s == [] then 0
    else
      var p := s[..|s| - 1];
      Moved(p) + (if s[|s| - 1] != 0 && |NonZeros(p)| != |p| then 1 else 0)
  }

  /** Length of the unbroken run of tiles at the head of s. */
  function LeadRun(s: seq<int>): nat
  {
    if s == [] || s[0] == 0 then 0 else 1 + LeadRun(s[1..])
  }

  /** The column after one pass of `_merge`: a pair of equal tiles becomes one
      tile of the next exponent in the upper cell and an empty lower cell; the
      scan then meets the emptied cell, so the new tile is not merged again. */
  function Merged(s: seq<int>): (r: seq<int>)
    ensures |r| == |s|
  {
    if |s| < 2 then s
    else if s[0] == s[1] && s[0] != 0 then [s[0] + 1, 0] + Merged(s[2..])
    else [s[0]] + Merged(s[1..])
  }

  /** The reward of the pass: the sum of the exponents the merges produce. */
  function MergeScore(s: seq<int>): int
  {
    if |s| < 2 then 0
    else if s[0] == s[1] && s[0] != 0 then (s[0] + 1) + MergeScore(s[2..])
    else MergeScore(s[1..])
  }

  /** The number of merges of the pass. */
  function MergeCount(s: seq<int>): nat
  {
    if |s| < 2 then 0
    else if s[0] == s[1] && s[0] != 0 then 1 + MergeCount(s[2..])
    else MergeCount(s[1..])
  }

  predicate NonNegative(s: seq<int>)
  {
    forall i :: 0 <= i < |s| ==> s[i] >= 0
  }

  /** Two vertically adjacent cells hold the same tile. */
  predicate HasEqualPair(s: seq<int>)
  {
    exists i :: 0 <= i < |s| - 1 && s[i] == s[i + 1] && s[i] != 0
  }

  function Pow2(e: nat): (r: nat)
    ensures r >= 1
  {
    if e == 0 then 1 else 2 * Pow2(e - 1)
  }

  /** Sum of the displayed tile values 2^v over the tiles of s. */
  function Weight(s: seq<int>): int
    requires NonNegative(s)
  {
    if s == [] then 0
    else (if s[0] != 0 then Pow2(s[0]) else 0) + Weight(s[1..])
  }

  // ---------------------------------------------------------------------------
  // The slide

  lemma {:induction false} NonZerosAppend(a: seq<int>, b: seq<int>)
    ensures NonZeros(a + b) == NonZeros(a) + NonZeros(b)
  {
    if a == [] {
      assert a + b == b;
    } else {
      assert (a + b)[1..] == a[1..] + b;
      NonZerosAppend(a[1..], b);
    }
  }

  lemma NonZerosSnoc(p: seq<int>, x: int)
    ensures NonZeros(p + [x]) == NonZeros(p) + (if x != 0 then [x] else [])
  {
    NonZerosAppend(p, [x]);
    assert [x][1..] == [];
  }

  lemma {:induction false} NonZerosOfZeros(m: nat)
    ensures NonZeros(Zeros(m)) == []
  {
    if m > 0 {
      assert Zeros(m)[1..] == Zeros(m - 1);
      NonZerosOfZeros(m - 1);
    }
  }

  lemma {:induction false} NonZerosOfAllZero(s: seq<int>)
    requires forall i :: 0 <= i < |s| ==> s[i] == 0
    ensures NonZeros(s) == [] && s == Zeros(|s|)
  {
    if s != [] {
      NonZerosOfAllZero(s[1..]);
    }
  }

  lemma {:induction false} NonZerosIdempotent(s: seq<int>)
    ensures NonZeros(NonZeros(s)) == NonZeros(s)
  {
    if s != [] {
      NonZerosIdempotent(s[1..]);
      if s[0] != 0 {
        assert ([s[0]] + NonZeros(s[1..]))[1..] == NonZeros(s[1..]);
      }
    }
  }

  lemma ZerosMultisetCons(z: nat)
    ensures multiset(Zeros(z + 1)) == multiset{0} + multiset(Zeros(z))
  {
    assert Zeros(z + 1) == [0] + Zeros(z);
  }

  lemma {:induction false} NonZerosMultiset(s: seq<int>)
    ensures multiset(s) == multiset(NonZeros(s)) + multiset(Zeros(|s| - |NonZeros(s)|))
  {
    if s != [] {
      var t := s[1..];
      NonZerosMultiset(t);
      assert s == [s[0]] + t;
      var z := |t| - |NonZeros(t)|;
      if s[0] == 0 {
        assert NonZeros(s) == NonZeros(t);
        ZerosMultisetCons(z);
      } else {
        assert NonZeros(s) == [s[0]] + NonZeros(t);
        assert multiset(NonZeros(s)) == multiset{s[0]} + multiset(NonZeros(t));
      }
    }
  }

  lemma {:induction false} NonZerosAllSame(s: seq<int>)
    ensures |NonZeros(s)| == |s| <==> forall i :: 0 <= i < |s| ==> s[i] != 0
    ensures |NonZeros(s)| == |s| ==> NonZeros(s) == s
  {
    if s != [] {
      NonZerosAllSame(s[1..]);
      assert forall i :: 1 <= i < |s| ==> s[i] == s[1..][i - 1];
    }
  }

  /** The slide keeps the column's length and its tiles, in their order, at
      indices 0..c-1, leaves empty cells after them, and only permutes cells. */
  lemma CompressLineShape(s: seq<int>)
    ensures |CompressLine(s)| == |s|
    ensures CompressLine(s)[..|NonZeros(s)|] == NonZeros(s)
    ensures forall i :: |NonZeros(s)| <= i < |s| ==> CompressLine(s)[i] == 0
    ensures NonZeros(CompressLine(s)) == NonZeros(s)
    ensures IsCompressed(CompressLine(s))
    ensures multiset(CompressLine(s)) == multiset(s)
  {
    var z := Zeros(|s| - |NonZeros(s)|);
    assert CompressLine(s) == NonZeros(s) + z;
    NonZerosAppend(NonZeros(s), z);
    NonZerosOfZeros(|z|);
    NonZerosIdempotent(s);
    NonZerosMultiset(s);
  }

  /** A compressed column is left as it is. */
  lemma {:induction false} CompressedFixed(s: seq<int>)
    requires IsCompressed(s)
    ensures CompressLine(s) == s
  {
    if s != [] {
      assert IsCompressed(s[1..]) by {
        forall i, j | 0 <= i < j < |s[1..]| && s[1..][i] == 0 ensures s[1..][j] == 0 {
          assert s[i + 1] == 0;
        }
      }
      CompressedFixed(s[1..]);
      CompressLineShape(s[1..]);
      if s[0] == 0 {
        assert forall j :: 0 <= j < |s| ==> s[j] == 0;
        NonZerosOfAllZero(s);
        assert CompressLine(s) == Zeros(|s|);
      } else {
        assert CompressLine(s) == [s[0]] + CompressLine(s[1..]);
      }
    }
  }

  lemma CompressedIff(s: seq<int>)
    ensures CompressLine(s) == s <==> IsCompressed(s)
  {
    CompressLineShape(s);
    if IsCompressed(s) {
      CompressedFixed(s);
    }
  }

  /** The slide is idempotent: a second slide changes nothing and moves no tile. */
  lemma CompressIdempotent(s: seq<int>)
    ensures CompressLine(CompressLine(s)) == CompressLine(s)
    ensures Moved(CompressLine(s)) == 0
  {
    CompressLineShape(s);
    CompressedFixed(CompressLine(s));
    MovedZeroIff(CompressLine(s));
  }

  lemma MovedSnoc(p: seq<int>, x: int)
    ensures Moved(p + [x]) == Moved(p) + (if x != 0 && |NonZeros(p)| != |p| then 1 else 0)
  {
    assert (p + [x])[..|p|] == p;
  }

  lemma {:induction false} LeadRunSnoc(p: seq<int>, x: int)
    ensures LeadRun(p) <= |p|
    ensures LeadRun(p + [x]) == if LeadRun(p) == |p| && x != 0 then |p| + 1 else LeadRun(p)
  {
    if p != [] {
      assert (p + [x])[1..] == p[1..] + [x];
      LeadRunSnoc(p[1..], x);
    }
  }

  /** The slide moves exactly the tiles that are not in the unbroken run of tiles
      at the head of the column. */
  lemma {:induction false} MovedClosedForm(s: seq<int>)
    ensures LeadRun(s) <= |NonZeros(s)|
    ensures Moved(s) == |NonZeros(s)| - LeadRun(s)
  {
    if s != [] {
      var p, x := s[..|s| - 1], s[|s| - 1];
      assert s == p + [x];
      MovedClosedForm(p);
      MovedSnoc(p, x);
      LeadRunSnoc(p, x);
      NonZerosSnoc(p, x);
      NonZerosAllSame(p);
      if LeadRun(p) == |p| {
        LeadRunAllTiles(p);
      } else if |NonZeros(p)| == |p| {
        LeadRunAllTiles(p);
      }
    }
  }

  lemma {:induction false} LeadRunAllTiles(p: seq<int>)
    ensures LeadRun(p) == |p| <==> forall i :: 0 <= i < |p| ==> p[i] != 0
  {
    if p != [] {
      LeadRunAllTiles(p[1..]);
      assert forall i :: 1 <= i < |p| ==> p[i] == p[1..][i - 1];
      LeadRunSnoc(p[1..], 0);
    }
  }

  /** `_compress` reports a change iff some tile moved, iff the column was not
      already compressed. */
  lemma {:induction false} MovedZeroIff(s: seq<int>)
    ensures Moved(s) == 0 <==> IsCompressed(s)
  {
    if s != [] {
      var p, x := s[..|s| - 1], s[|s| - 1];
      assert s == p + [x];
      MovedZeroIff(p);
      MovedSnoc(p, x);
      NonZerosAllSame(p);
      if IsCompressed(s) {
        assert IsCompressed(p);
        if x != 0 {
          assert forall i :: 0 <= i < |p| ==> p[i] != 0;
        }
      }
      if Moved(s) == 0 {
        forall i, j | 0 <= i < j < |s| && s[i] == 0 ensures s[j] == 0 {
          if j < |p| {
            assert p[i] == 0;
          } else {
            assert p[i] == 0;
          }
        }
      }
    }
  }

  // ---------------------------------------------------------------------------
  // The merge pass

  lemma MergedZeroHead(t: seq<int>)
    ensures Merged([0] + t) == [0] + Merged(t)
    ensures MergeScore([0] + t) == MergeScore(t)
    ensures MergeCount([0] + t) == MergeCount(t)
  {
    assert ([0] + t)[1..] == t;
  }

  /** Cell i of m is cell i of s after at most one merge: it keeps its value;
      or it is the upper cell of an equal pair, gains one exponent, and its
      lower neighbour becomes empty; or it is that emptied lower cell. */
  predicate MergeStepAt(s: seq<int>, m: seq<int>, i: int)
    requires |m| == |s| && 0 <= i < |s|
  {
    m[i] == s[i] ||
    (m[i] == s[i] + 1 && i + 1 < |s| && s[i] == s[i + 1] && s[i] != 0 && m[i + 1] == 0) ||
    (m[i] == 0 && 0 < i && s[i - 1] == s[i] && s[i] != 0 && m[i - 1] == s[i - 1] + 1)
  }

  /** No tile is merged twice in one pass: every cell of the result is its
      input cell after at most one merge. */
  lemma {:induction false} MergedCells(s: seq<int>)
    ensures |Merged(s)| == |s|
    ensures forall i :: 0 <= i < |s| ==> MergeStepAt(s, Merged(s), i)
  {
    if |s| >= 2 {
      var m := Merged(s);
      var d := if s[0] == s[1] && s[0] != 0 then 2 else 1;
      var t := s[d..];
      MergedCells(t);
      var mt := Merged(t);
      assert m == m[..d] + mt;
      forall i | d <= i < |s| ensures MergeStepAt(s, m, i) {
        ShiftStep(s, m, t, mt, d, i);
      }
      assert MergeStepAt(s, m, 0);
      if d == 2 { assert MergeStepAt(s, m, 1); }
    }
  }

  lemma ShiftStep(s: seq<int>, m: seq<int>, t: seq<int>, mt: seq<int>, d: nat, i: int)
    requires |m| == |s| && 1 <= d <= |s| && t == s[d..] && |mt| == |t| && m == m[..d] + mt
    requires d <= i < |s|
    requires MergeStepAt(t, mt, i - d)
    requires (d == 2 && m[1] == 0) || (d == 1 && m[0] == s[0])
    ensures MergeStepAt(s, m, i)
  {
    var u := i - d;
    assert m[i] == mt[u] && s[i] == t[u];
    if i + 1 < |s| { assert m[i + 1] == mt[u + 1] && s[i + 1] == t[u + 1]; }
    if 0 < u { assert m[i - 1] == mt[u - 1] && s[i - 1] == t[u - 1]; }
  }

  /** A pass without merges leaves the column unchanged. */
  lemma {:induction false} NoMergeFixed(s: seq<int>)
    requires MergeCount(s) == 0
    ensures Merged(s) == s
  {
    if |s| >= 2 {
      NoMergeFixed(s[1..]);
      assert s == [s[0]] + s[1..];
    }
  }

  /** On non-negative exponents, the reward is positive iff a merge happened. */
  lemma {:induction false} ScorePositiveIff(s: seq<int>)
    requires NonNegative(s)
    ensures MergeScore(s) >= MergeCount(s)
    ensures MergeScore(s) > 0 <==> MergeCount(s) > 0
  {
    if |s| >= 2 {
      if s[0] == s[1] && s[0] != 0 {
        assert NonNegative(s[2..]);
        ScorePositiveIff(s[2..]);
      } else {
        assert NonNegative(s[1..]);
        ScorePositiveIff(s[1..]);
      }
    }
  }

  /** A pass merges something iff the column holds two adjacent equal tiles. */
  lemma {:induction false} MergeCountIff(s: seq<int>)
    ensures MergeCount(s) > 0 <==> HasEqualPair(s)
  {
    if |s| >= 2 {
      if s[0] == s[1] && s[0] != 0 {
        assert HasEqualPair(s) by { assert s[0] == s[0 + 1]; }
      } else {
        var t := s[1..];
        MergeCountIff(t);
        if HasEqualPair(s) {
          var i :| 0 <= i < |s| - 1 && s[i] == s[i + 1] && s[i] != 0;
          assert i != 0;
          assert t[i - 1] == t[i - 1 + 1];
        }
        if HasEqualPair(t) {
          var i :| 0 <= i < |t| - 1 && t[i] == t[i + 1] && t[i] != 0;
          assert s[i + 1] == s[i + 1 + 1];
        }
      }
    }
  }

  lemma WeightCons(x: int, t: seq<int>)
    requires x >= 0 && NonNegative(t)
    ensures NonNegative([x] + t)
    ensures Weight([x] + t) == (if x != 0 then Pow2(x) else 0) + Weight(t)
  {
    assert ([x] + t)[1..] == t;
  }

  /** Merging conserves the sum of displayed tile values 2^v. */
  lemma {:induction false} MergePreservesWeight(s: seq<int>)
    requires NonNegative(s)
    ensures NonNegative(Merged(s))
    ensures Weight(Merged(s)) == Weight(s)
  {
    if |s| >= 2 {
      if s[0] == s[1] && s[0] != 0 {
        var t := s[2..];
        assert NonNegative(t);
        MergePreservesWeight(t);
        assert s == [s[0]] + ([s[1]] + t);
        WeightCons(s[1], t);
        WeightCons(s[0], [s[1]] + t);
        assert Merged(s) == [s[0] + 1] + ([0] + Merged(t));
        WeightCons(0, Merged(t));
        WeightCons(s[0] + 1, [0] + Merged(t));
        assert Pow2(s[0] + 1) == 2 * Pow2(s[0]);
      } else {
        var t := s[1..];
        assert NonNegative(t);
        MergePreservesWeight(t);
        assert s == [s[0]] + t;
        WeightCons(s[0], Merged(t));
      }
    }
  }

  /** Each merge removes exactly one tile. */
  lemma NonZerosCons(x: int, t: seq<int>)
    ensures NonZeros([x] + t) == (if x != 0 then [x] else []) + NonZeros(t)
  {
    assert ([x] + t)[1..] == t;
  }

  lemma {:induction false} MergeTileCount(s: seq<int>)
    requires NonNegative(s)
    ensures |NonZeros(Merged(s))| == |NonZeros(s)| - MergeCount(s)
  {
    if |s| >= 2 {
      if s[0] == s[1] && s[0] != 0 {
        var t := s[2..];
        assert NonNegative(t);
        MergeTileCount(t);
        assert s == [s[0]] + ([s[1]] + t);
        NonZerosCons(s[1], t);
        NonZerosCons(s[0], [s[1]] + t);
        assert Merged(s) == [s[0] + 1] + ([0] + Merged(t));
        NonZerosCons(0, Merged(t));
        NonZerosCons(s[0] + 1, [0] + Merged(t));
      } else {
        var t := s[1..];
        assert NonNegative(t);
        MergeTileCount(t);
        assert s == [s[0]] + t;
        NonZerosCons(s[0], t);
        NonZerosCons(s[0], Merged(t));
      }
    }
  }

  /** After an accepted move (a tile slid, or a merge happened) the column ends
      in an empty cell, so the spawn that follows always finds a free cell. */
  lemma AcceptedLineLeavesEmpty(s: seq<int>)
    requires NonNegative(s)
    requires Moved(s) > 0 || MergeScore(CompressLine(s)) > 0
    ensures |s| > 0
    ensures |CompressLine(Merged(CompressLine(s)))| == |s|
    ensures CompressLine(Merged(CompressLine(s)))[|s| - 1] == 0
  {
    var c := CompressLine(s);
    CompressLineShape(s);
    assert NonNegative(c) by {
      forall i | 0 <= i < |c| ensures c[i] >= 0 {
        assert c[i] in multiset(s);
      }
    }
    MergeTileCount(c);
    ScorePositiveIff(c);
    var m := Merged(c);
    if Moved(s) > 0 {
      MovedZeroIff(s);
      var i, j :| 0 <= i < j < |s| && s[i] == 0 && s[j] != 0;
      NonZerosAllSame(s);
    }
    assert |NonZeros(m)| < |m|;
    CompressLineShape(m);
  }

  /** The two examples of the merge pass: four equal tiles make two merged
      tiles, and three equal tiles merge only the upper pair. */
  lemma MergeExamples()
    ensures Merged([1, 1, 1, 1]) == [2, 0, 2, 0] && MergeScore([1, 1, 1, 1]) == 4
    ensures Merged([2, 2, 2, 0]) == [3, 0, 2, 0] && MergeScore([2, 2, 2, 0]) == 3
  {
    assert [1, 1, 1, 1][2..] == [1, 1];
    assert [1, 1][2..] == [];
    assert [2, 2, 2, 0][2..] == [2, 0];
    assert [2, 0][1..] == [0];
  }
}
