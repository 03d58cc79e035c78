/** Longest common subsequences, and the greedy walk that recovers one from the table of their lengths. */
module Subsequence {
  import opened Numbers

  /** The entry of the source's table for two suffixes. */
  function Lcs(x: seq<string>, y: seq<string>): nat
    decreases |x| + |y|
  {
    if x == [] || y == [] then 0
    else if x[0] == y[0] then Lcs(x[1..], y[1..]) + 1
    else Max(Lcs(x[1..], y), Lcs(x, y[1..]))
  }

  /**
   A common subsequence: pairs of positions that increase on both sides and hold equal words,
   none of them before position `i` of `x` or position `j` of `y`.
   */
  ghost predicate IsMatching(m: seq<(nat, nat)>, x: seq<string>, y: seq<string>, i: nat, j: nat) {
    && (forall k :: 0 <= k < |m| ==> i <= m[k].0 < |x| && j <= m[k].1 < |y| && x[m[k].0] == y[m[k].1])
    && (forall k, l :: 0 <= k < l < |m| ==> m[k].0 < m[l].0 && m[k].1 < m[l].1)
  }

  // ----- Suffixes -----

  lemma {:induction false} LcsAt(x: seq<string>, y: seq<string>, i: nat, j: nat)
    requires i < |x| && j < |y|
    ensures Lcs(x[i..], y[j..]) ==
            if x[i] == y[j] then Lcs(x[i + 1..], y[j + 1..]) + 1
            else Max(Lcs(x[i + 1..], y[j..]), Lcs(x[i..], y[j + 1..]))
  {
    assert x[i..][1..] == x[i + 1..] && y[j..][1..] == y[j + 1..];
  }

  /** Dropping the first word of either side costs at most one match and gains none. */
  lemma {:induction false} LcsDrop(x: seq<string>, y: seq<string>)
    ensures x != [] ==> Lcs(x[1..], y) <= Lcs(x, y) <= Lcs(x[1..], y) + 1
    ensures y != [] ==> Lcs(x, y[1..]) <= Lcs(x, y) <= Lcs(x, y[1..]) + 1
    decreases |x| + |y|
  {
    if x != [] && y != [] {
      LcsDrop(x[1..], y);
      LcsDrop(x, y[1..]);
      LcsDrop(x[1..], y[1..]);
    }
  }

  // ----- Lcs is the length of the longest common subsequence -----

  lemma {:induction false} MatchingIsNoLonger(m: seq<(nat, nat)>, x: seq<string>, y: seq<string>, i: nat, j: nat)
    requires i <= |x| && j <= |y| && IsMatching(m, x, y, i, j)
    ensures |m| <= Lcs(x[i..], y[j..])
    decreases |x| - i + |y| - j
  {
    if m != [] {
      assert i <= m[0].0 < |x| && j <= m[0].1 < |y|;
      LcsAt(x, y, i, j);
      hide Lcs;
      if m[0].0 > i {
        MatchingIsNoLonger(m, x, y, i + 1, j);
        LcsDropAt(x, y, i, j);
      } else if m[0].1 > j {
        MatchingIsNoLonger(m, x, y, i, j + 1);
        LcsDropAt(x, y, i, j);
      } else {
        MatchingIsNoLonger(m[1..], x, y, i + 1, j + 1);
      }
    }
  }

  lemma {:induction false} LcsDropAt(x: seq<string>, y: seq<string>, i: nat, j: nat)
    requires i < |x| && j < |y|
    ensures Lcs(x[i + 1..], y[j..]) <= Lcs(x[i..], y[j..]) && Lcs(x[i..], y[j + 1..]) <= Lcs(x[i..], y[j..])
  {
    hide Lcs;
    LcsDrop(x[i..], y[j..]);
    assert x[i..][1..] == x[i + 1..] && y[j..][1..] == y[j + 1..];
  }

  /** The walk of the source through the table, from position (i, j). */
  function Traceback(x: seq<string>, y: seq<string>, i: nat, j: nat): (m: seq<(nat, nat)>)
    requires i <= |x| && j <= |y|
    decreases |x| - i + |y| - j
  {
    if i == |x| || j == |y| then []
    else if x[i] == y[j] then [(i, j)] + Traceback(x, y, i + 1, j + 1)
    else if Lcs(x[i + 1..], y[j..]) >= Lcs(x[i..], y[j + 1..]) then Traceback(x, y, i + 1, j)
    else Traceback(x, y, i, j + 1)
  }

  lemma {:induction false} MatchingEarlier(m: seq<(nat, nat)>, x: seq<string>, y: seq<string>, i: nat, j: nat,
                                           i': nat, j': nat)
    requires i' <= i && j' <= j && IsMatching(m, x, y, i, j)
    ensures IsMatching(m, x, y, i', j')
  {
  }

  /** Greedy as it is, the walk attains the table's value. */
  lemma {:induction false} TracebackIsLongest(x: seq<string>, y: seq<string>, i: nat, j: nat)
    requires i <= |x| && j <= |y|
    ensures IsMatching(Traceback(x, y, i, j), x, y, i, j)
    ensures |Traceback(x, y, i, j)| == Lcs(x[i..], y[j..])
    decreases |x| - i + |y| - j
  {
    if i < |x| && j < |y| {
      LcsAt(x, y, i, j);
      hide Lcs, IsMatching;
      if x[i] == y[j] {
        TracebackIsLongest(x, y, i + 1, j + 1);
        assert IsMatching([(i, j)] + Traceback(x, y, i + 1, j + 1), x, y, i, j);
      } else if Lcs(x[i + 1..], y[j..]) >= Lcs(x[i..], y[j + 1..]) {
        TracebackIsLongest(x, y, i + 1, j);
        MatchingEarlier(Traceback(x, y, i + 1, j), x, y, i + 1, j, i, j);
      } else {
        TracebackIsLongest(x, y, i, j + 1);
        MatchingEarlier(Traceback(x, y, i, j + 1), x, y, i, j + 1, i, j);
      }
    }
  }

  /** No common subsequence is longer than the table's first entry, and one is as long. */
  lemma {:induction false} LcsIsLongest(x: seq<string>, y: seq<string>)
    ensures exists m :: IsMatching(m, x, y, 0, 0) && |m| == Lcs(x, y)
    ensures forall m :: IsMatching(m, x, y, 0, 0) ==> |m| <= Lcs(x, y)
  {
    hide Lcs;
    assert x[0..] == x && y[0..] == y;
    TracebackIsLongest(x, y, 0, 0);
    forall m | IsMatching(m, x, y, 0, 0)
      ensures |m| <= Lcs(x, y)
    {
      MatchingIsNoLonger(m, x, y, 0, 0);
    }
  }

  // ----- Words that cannot match -----

  /** Words of `y` that do not occur in `x` may be left out. */
  lemma {:induction false} LcsSkip(x: seq<string>, y: seq<string>)
    requires y != [] && y[0] !in x
    ensures Lcs(x, y) == Lcs(x, y[1..])
    decreases |x|
  {
    if x != [] {
      LcsSkip(x[1..], y);
      LcsDrop(x, y[1..]);
    }
  }

  ghost function Only(y: seq<string>, keep: string -> bool): seq<string> {
    if y == [] then []
    else if keep(y[0]) then [y[0]] + Only(y[1..], keep)
    else Only(y[1..], keep)
  }

  lemma {:induction false} LcsCongruence(x: seq<string>, y: seq<string>, z: seq<string>)
    requires y != [] && z != [] && y[0] == z[0]
    requires forall n: nat :: n <= |x| ==> Lcs(x[n..], y[1..]) == Lcs(x[n..], z[1..])
    ensures Lcs(x, y) == Lcs(x, z)
    decreases |x|
  {
    assert x[0..] == x;
    if x != [] {
      assert Lcs(x[1..], y[1..]) == Lcs(x[1..], z[1..]);
      forall n: nat | n <= |x| - 1
        ensures Lcs(x[1..][n..], y[1..]) == Lcs(x[1..][n..], z[1..])
      {
        assert x[1..][n..] == x[n + 1..];
      }
      LcsCongruence(x[1..], y, z);
    }
  }

  lemma {:induction false} LcsOnly(x: seq<string>, y: seq<string>, keep: string -> bool)
    requires forall w :: w in x ==> keep(w)
    ensures Lcs(x, y) == Lcs(x, Only(y, keep))
    decreases |y|
  {
    if y != [] {
      hide Lcs;
      if keep(y[0]) {
        forall n: nat | n <= |x|
          ensures Lcs(x[n..], y[1..]) == Lcs(x[n..], Only(y, keep)[1..])
        {
          LcsOnly(x[n..], y[1..], keep);
          assert Only(y, keep)[1..] == Only(y[1..], keep);
        }
        LcsCongruence(x, y, Only(y, keep));
      } else {
        LcsSkip(x, y);
        LcsOnly(x, y[1..], keep);
      }
    }
  }

  // ----- Where the walk matches -----

  function Firsts(m: seq<(nat, nat)>): (p: seq<nat>)
    ensures |p| == |m|
  {
    seq(|m|, k requires 0 <= k < |m| => m[k].0)
  }

  /** The positions of `x` the walk matches, `x` and `y` being what is left and `i` the position of `x[0]`. */
  ghost function Walk(x: seq<string>, y: seq<string>, i: nat): seq<nat>
    decreases |x| + |y|
  {
    if x == [] || y == [] then []
    else if x[0] == y[0] then [i] + Walk(x[1..], y[1..], i + 1)
    else if Lcs(x[1..], y) >= Lcs(x, y[1..]) then Walk(x[1..], y, i + 1)
    else Walk(x, y[1..], i)
  }

  lemma {:induction false} WalkIsTraceback(x: seq<string>, y: seq<string>, i: nat, j: nat)
    requires i <= |x| && j <= |y|
    ensures Firsts(Traceback(x, y, i, j)) == Walk(x[i..], y[j..], i)
    decreases |x| - i + |y| - j
  {
    if i < |x| && j < |y| {
      hide Lcs;
      assert x[i..][1..] == x[i + 1..] && y[j..][1..] == y[j + 1..];
      if x[i] == y[j] {
        WalkIsTraceback(x, y, i + 1, j + 1);
      } else if Lcs(x[i + 1..], y[j..]) >= Lcs(x[i..], y[j + 1..]) {
        WalkIsTraceback(x, y, i + 1, j);
      } else {
        WalkIsTraceback(x, y, i, j + 1);
      }
    }
  }

  predicate NoneRepeated(x: seq<string>) {
    forall k, l :: 0 <= k < l < |x| ==> x[k] != x[l]
  }

  /** A word that occurs once and adds nothing to the table is passed over. */
  lemma {:induction false} WalkPasses(x: seq<string>, y: seq<string>, i: nat)
    requires x != [] && x[0] !in x[1..] && Lcs(x, y) == Lcs(x[1..], y)
    ensures Walk(x, y, i) == Walk(x[1..], y, i + 1)
  {
    if y != [] {
      if x[0] == y[0] {
        LcsSkip(x[1..], y);
      } else {
        LcsDrop(x, y);
      }
    }
  }

  /** Where no word of `x` repeats, words of `y` that cannot occur in `x` do not change what the walk matches. */
  lemma {:induction false} WalkOnly(x: seq<string>, y: seq<string>, keep: string -> bool, i: nat)
    requires NoneRepeated(x) && forall w :: w in x ==> keep(w)
    ensures Walk(x, y, i) == Walk(x, Only(y, keep), i)
    decreases |x| + |y|
  {
    if x != [] && y != [] {
      var rest := y[1..];
      LcsOnly(x[1..], y, keep);
      LcsOnly(x, rest, keep);
      assert x[0] !in x[1..] && NoneRepeated(x[1..]);
      hide Lcs;
      if keep(y[0]) {
        assert Only(y, keep)[1..] == Only(rest, keep);
        WalkOnly(x[1..], rest, keep, i + 1);
        WalkOnly(x[1..], y, keep, i + 1);
        WalkOnly(x, rest, keep, i);
      } else {
        LcsSkip(x, y);
        LcsSkip(x[1..], y);
        LcsOnly(x, y, keep);
        LcsDrop(x, y);
        WalkOnly(x[1..], y, keep, i + 1);
        WalkOnly(x, rest, keep, i);
        if Lcs(x[1..], y) >= Lcs(x, rest) {
          WalkPasses(x, Only(y, keep), i);
        }
      }
    }
  }

  /** Against one word the walk matches its first occurrence. */
  lemma {:induction false} WalkFirst(x: seq<string>, w: string, i: nat) returns (f: nat)
    requires w in x
    ensures f < |x| && x[f] == w && Walk(x, [w], i) == [i + f]
    ensures forall n :: 0 <= n < f ==> x[n] != w
  {
    if x[0] == w {
      f := 0;
    } else {
      var g := WalkFirst(x[1..], w, i + 1);
      f := g + 1;
      assert forall n :: 0 < n < f ==> x[n] == x[1..][n - 1];
    }
  }

  lemma {:induction false} LcsOne(x: seq<string>, w: string)
    ensures Lcs(x, [w]) == if w in x then 1 else 0
  {
    if x != [] {
      LcsOne(x[1..], w);
    }
  }

  /** With a word that cannot match before it, the last one. */
  lemma {:induction false} WalkLast(x: seq<string>, blank: string, w: string, i: nat) returns (l: nat)
    requires w in x && blank !in x
    ensures l < |x| && x[l] == w && Walk(x, [blank, w], i) == [i + l]
    ensures forall n :: l < n < |x| ==> x[n] != w
  {
    var y := [blank, w];
    assert y[1..] == [w];
    LcsSkip(x[1..], y);
    LcsOne(x[1..], w);
    LcsOne(x, w);
    hide Lcs;
    if w in x[1..] {
      var m := WalkLast(x[1..], blank, w, i + 1);
      l := m + 1;
      assert forall n :: l < n < |x| ==> x[n] == x[1..][n - 1];
    } else {
      l := 0;
      assert Walk(x, [w], i) == [i];
    }
  }

  /** So the two differ when the word repeats. */
  lemma {:induction false} WalksDiffer(x: seq<string>, blank: string, k: nat, l: nat)
    requires k < l < |x| && x[k] == x[l] && blank !in x
    ensures exists a: nat, b: nat ::
              a != b && a < |x| && b < |x| && Walk(x, [x[k]], 0) == [a] && Walk(x, [blank, x[k]], 0) == [b]
  {
    var a := WalkFirst(x, x[k], 0);
    var b := WalkLast(x, blank, x[k], 0);
  }
}
