/**
 The Levenshtein distance of `ml-service/app/bio_eval_metrics.py`.

 The source fills a table two rows at a time.  `Dist` is the table entry for two
 prefixes; the point of this module is that the entry is the least number of
 single-character edits that turn one string into the other, where a script is a
 list of edits applied one after the other at arbitrary positions.
 */
module EditDistance {

  // ----- Edit scripts: the meaning of the distance -----

  datatype Edit =
    | Insert(pos: nat, c: char)
    | Delete(pos: nat)
    | Substitute(pos: nat, c: char)

  /** How many characters the edit takes out at its position. */
  ghost function Removed(e: Edit): nat {
    if e.Insert? then 0 else 1
  }

  /** What the edit puts in their place. */
  ghost function Added(e: Edit): string {
    if e.Delete? then "" else [e.c]
  }

  ghost predicate Applicable(e: Edit, s: string) {
    e.pos + Removed(e) <= |s|
  }

  ghost function Apply(e: Edit, s: string): string
    requires Applicable(e, s)
  {
    s[..e.pos] + Added(e) + s[e.pos + Removed(e)..]
  }

  /** Carrying out the edits of `script` in order turns `a` into `b`. */
  ghost predicate Transforms(script: seq<Edit>, a: string, b: string) {
    if script == [] then a == b
    else Applicable(script[0], a) && Transforms(script[1..], Apply(script[0], a), b)
  }

  /** `d` edits suffice to turn `a` into `b`, and fewer never do. */
  ghost predicate IsEditDistance(a: string, b: string, d: nat) {
    && (exists script :: Transforms(script, a, b) && |script| == d)
    && (forall script :: Transforms(script, a, b) ==> d <= |script|)
  }

  // ----- The table -----

  function Min(x: nat, y: nat): nat {
    if x <= y then x else y
  }

  function Front(s: string): string
    requires s != ""
  {
    s[..|s| - 1]
  }

  function Last(s: string): char
    requires s != ""
  {
    s[|s| - 1]
  }

  function Dist(a: string, b: string): nat
    decreases |a| + |b|
  {
    if a == "" then |b|
    else if b == "" then |a|
    else
      var cost := if Last(a) == Last(b) then 0 else 1;
      Min(Min(Dist(Front(a), b) + 1, Dist(a, Front(b)) + 1), Dist(Front(a), Front(b)) + cost)
  }

  // ----- Metric laws -----

  lemma {:induction false} DistSelf(a: string)
    ensures Dist(a, a) == 0
  {
    if a != "" {
      DistSelf(Front(a));
    }
  }

  lemma {:induction false} DistSymmetric(a: string, b: string)
    ensures Dist(a, b) == Dist(b, a)
    decreases |a| + |b|
  {
    if a != "" && b != "" {
      DistSymmetric(Front(a), b);
      DistSymmetric(a, Front(b));
      DistSymmetric(Front(a), Front(b));
    }
  }

  lemma {:induction false} DistZero(a: string, b: string)
    ensures Dist(a, b) == 0 <==> a == b
    decreases |a| + |b|
  {
    if a == b {
      DistSelf(a);
    }
    if a != "" && b != "" && Dist(a, b) == 0 {
      DistZero(Front(a), Front(b));
      assert a == Front(a) + [Last(a)] && b == Front(b) + [Last(b)];
    }
  }

  lemma {:induction false} DistBounds(a: string, b: string)
    ensures |a| - |b| <= Dist(a, b) && |b| - |a| <= Dist(a, b)
    ensures Dist(a, b) <= if |a| <= |b| then |b| else |a|
    decreases |a| + |b|
  {
    if a != "" && b != "" {
      DistBounds(Front(a), b);
      DistBounds(a, Front(b));
      DistBounds(Front(a), Front(b));
    }
  }

  lemma {:induction false} DistTriangle(a: string, b: string, c: string)
    ensures Dist(a, c) <= Dist(a, b) + Dist(b, c)
    decreases |a| + |b| + |c|
  {
    if a == "" {
      DistBounds(b, c);
    } else if c == "" {
      DistBounds(a, b);
    } else if b == "" {
      DistBounds(a, c);
    } else {
      DistTriangle(Front(a), b, c);
      DistTriangle(a, b, Front(c));
      DistTriangle(a, Front(b), c);
      DistTriangle(Front(a), Front(b), c);
      DistTriangle(a, Front(b), Front(c));
      DistTriangle(Front(a), Front(b), Front(c));
    }
  }

  // ----- Dist is the edit distance -----

  /** A common last character never changes the distance. */
  lemma {:induction false} DistSnoc(a: string, b: string, c: char)
    ensures Dist(a + [c], b + [c]) <= Dist(a, b)
  {
    assert Front(a + [c]) == a && Front(b + [c]) == b;
  }

  lemma {:induction false} SplitLast(a: string, t: string)
    requires t != ""
    ensures a + t == a + Front(t) + [Last(t)]
  {
  }

  lemma {:induction false} DistAppend(a: string, b: string, t: string)
    ensures Dist(a + t, b + t) <= Dist(a, b)
    decreases |t|
  {
    hide Dist;
    if t == "" {
      assert a + t == a && b + t == b;
    } else {
      DistAppend(a, b, Front(t));
      SplitLast(a, t);
      SplitLast(b, t);
      DistSnoc(a + Front(t), b + Front(t), Last(t));
    }
  }

  lemma {:induction false} OneMore(x: string, c: char)
    ensures Dist(x + [c], x) <= 1 && Dist(x, x + [c]) <= 1
  {
    DistSelf(x);
    assert Front(x + [c]) == x;
  }

  lemma {:induction false} OneChanged(x: string, c: char, d: char)
    ensures Dist(x + [c], x + [d]) <= 1
  {
    DistSelf(x);
    assert Front(x + [c]) == x && Front(x + [d]) == x;
  }

  lemma {:induction false} OneTail(x: string, out: string, into: string)
    requires |out| <= 1 && |into| <= 1
    ensures Dist(x + out, x + into) <= 1
  {
    hide Dist;
    assert x + "" == x;
    if out == into {
      DistSelf(x + out);
    } else if out == "" {
      OneMore(x, into[0]);
      assert into == [into[0]];
    } else if into == "" {
      OneMore(x, out[0]);
      assert out == [out[0]];
    } else {
      OneChanged(x, out[0], into[0]);
      assert out == [out[0]] && into == [into[0]];
    }
  }

  lemma {:induction false} OneEdit(e: Edit, s: string)
    requires Applicable(e, s)
    ensures Dist(s, Apply(e, s)) <= 1
  {
    hide Dist;
    var p, q := e.pos, e.pos + Removed(e);
    OneTail(s[..p], s[p..q], Added(e));
    DistAppend(s[..p] + s[p..q], s[..p] + Added(e), s[q..]);
    assert s == s[..p] + s[p..q] + s[q..];
  }

  lemma {:induction false} ScriptsAreNoShorter(script: seq<Edit>, a: string, b: string)
    requires Transforms(script, a, b)
    ensures Dist(a, b) <= |script|
    decreases |script|
  {
    if script == [] {
      DistSelf(a);
    } else {
      var a' := Apply(script[0], a);
      ScriptsAreNoShorter(script[1..], a', b);
      OneEdit(script[0], a);
      DistTriangle(a, a', b);
    }
  }

  /** A script keeps working when the same character follows both strings. */
  lemma {:induction false} TransformsSnoc(script: seq<Edit>, a: string, b: string, c: char)
    requires Transforms(script, a, b)
    ensures Transforms(script, a + [c], b + [c])
    decreases |script|
  {
    if script != [] {
      var e := script[0];
      TransformsSnoc(script[1..], Apply(e, a), b, c);
      assert Apply(e, a) + [c] == Apply(e, a + [c]);
    }
  }

  lemma {:induction false} TransformsThen(script: seq<Edit>, a: string, b: string, e: Edit)
    requires Transforms(script, a, b) && Applicable(e, b)
    ensures Transforms(script + [e], a, Apply(e, b))
    decreases |script|
  {
    if script == [] {
      assert [e][1..] == [];
    } else {
      TransformsThen(script[1..], Apply(script[0], a), b, e);
      assert (script + [e])[1..] == script[1..] + [e];
    }
  }

  lemma {:induction false} InsertLast(script: seq<Edit>, a: string, b: string)
    requires b != "" && Transforms(script, a, Front(b))
    ensures Transforms(script + [Insert(|b| - 1, Last(b))], a, b)
  {
    var e := Insert(|b| - 1, Last(b));
    TransformsThen(script, a, Front(b), e);
    assert Apply(e, Front(b)) == b;
  }

  lemma {:induction false} DeleteLast(script: seq<Edit>, a: string, b: string)
    requires a != "" && Transforms(script, Front(a), b)
    ensures Transforms([Delete(|a| - 1)] + script, a, b)
  {
    assert Apply(Delete(|a| - 1), a) == Front(a);
    assert ([Delete(|a| - 1)] + script)[1..] == script;
  }

  lemma {:induction false} KeepLast(script: seq<Edit>, a: string, b: string)
    requires a != "" && b != "" && Last(a) == Last(b) && Transforms(script, Front(a), Front(b))
    ensures Transforms(script, a, b)
  {
    TransformsSnoc(script, Front(a), Front(b), Last(b));
    assert Front(a) + [Last(a)] == a && Front(b) + [Last(b)] == b;
  }

  lemma {:induction false} SubstituteLast(script: seq<Edit>, a: string, b: string)
    requires a != "" && b != "" && Transforms(script, Front(a), Front(b))
    ensures Transforms([Substitute(|a| - 1, Last(b))] + script, a, b)
  {
    var e := Substitute(|a| - 1, Last(b));
    TransformsSnoc(script, Front(a), Front(b), Last(b));
    assert Front(b) + [Last(b)] == b;
    assert Apply(e, a) == Front(a) + [Last(b)];
    assert ([e] + script)[1..] == script;
  }

  lemma {:induction false} ShortestScript(a: string, b: string) returns (script: seq<Edit>)
    ensures Transforms(script, a, b) && |script| == Dist(a, b)
    decreases |a| + |b|
  {
    if a == "" && b == "" {
      script := [];
    } else if b != "" && (a == "" || Dist(a, b) == Dist(a, Front(b)) + 1) {
      var rest := ShortestScript(a, Front(b));
      InsertLast(rest, a, b);
      script := rest + [Insert(|b| - 1, Last(b))];
    } else if b == "" || Dist(a, b) == Dist(Front(a), b) + 1 {
      var rest := ShortestScript(Front(a), b);
      DeleteLast(rest, a, b);
      script := [Delete(|a| - 1)] + rest;
    } else if Last(a) == Last(b) {
      script := ShortestScript(Front(a), Front(b));
      KeepLast(script, a, b);
    } else {
      var rest := ShortestScript(Front(a), Front(b));
      SubstituteLast(rest, a, b);
      script := [Substitute(|a| - 1, Last(b))] + rest;
    }
  }

  /** The table entry is the least number of edits, for all strings. */
  lemma {:induction false} DistIsEditDistance(a: string, b: string)
    ensures IsEditDistance(a, b, Dist(a, b))
  {
    var _ := ShortestScript(a, b);
    forall script | Transforms(script, a, b)
      ensures Dist(a, b) <= |script|
    {
      ScriptsAreNoShorter(script, a, b);
    }
  }

  // ----- The two-row computation -----

  /** `row` holds the distances from `a` to the first `|row|` prefixes of `b`. */
  ghost predicate IsRow(row: seq<nat>, a: string, b: string) {
    && |row| <= |b| + 1
    && forall j :: 0 <= j < |row| ==> row[j] == Dist(a, b[..j])
  }

  lemma {:induction false} PrefixEnd(s: string, i: nat)
    requires 0 < i <= |s|
    ensures Front(s[..i]) == s[..i - 1] && Last(s[..i]) == s[i - 1]
  {
  }

  lemma {:induction false} Cell(a: string, i: nat, b: string, j: nat)
    requires 0 < i <= |a| && 0 < j <= |b|
    ensures Dist(a[..i], b[..j]) ==
            Min(Min(Dist(a[..i - 1], b[..j]) + 1, Dist(a[..i], b[..j - 1]) + 1),
                Dist(a[..i - 1], b[..j - 1]) + if a[i - 1] == b[j - 1] then 0 else 1)
  {
    hide Dist;
    PrefixEnd(a, i);
    PrefixEnd(b, j);
    DistUnfold(a[..i], b[..j]);
  }

  lemma {:induction false} DistUnfold(a: string, b: string)
    requires a != "" && b != ""
    ensures Dist(a, b) ==
            Min(Min(Dist(Front(a), b) + 1, Dist(a, Front(b)) + 1),
                Dist(Front(a), Front(b)) + if Last(a) == Last(b) then 0 else 1)
  {
    hide Front, Last, Min;
  }

  lemma {:induction false} FirstCell(a: string, i: nat, b: string)
    requires i <= |a|
    ensures IsRow([i], a[..i], b)
  {
  }

  /** The assignment of the inner loop computes the next entry of the row. */
  lemma {:induction false} NextCell(previous: seq<nat>, current: seq<nat>, a: string, i: nat, b: string)
    requires 0 < i <= |a| && 0 < |current| <= |b| && |previous| == |b| + 1
    requires IsRow(previous, a[..i - 1], b) && IsRow(current, a[..i], b)
    ensures var j := |current|;
            var cost := if a[i - 1] == b[j - 1] then 0 else 1;
            IsRow(current + [Min(Min(previous[j] + 1, current[j - 1] + 1), previous[j - 1] + cost)], a[..i], b)
  {
    hide Dist;
    Cell(a, i, b, |current|);
  }

  /** The inner loop: one more row from the row before it. */
  method NextRow(previous: seq<nat>, a: string, i: nat, b: string) returns (current: seq<nat>)
    requires 0 < i <= |a|
    requires |previous| == |b| + 1 && IsRow(previous, a[..i - 1], b)
    ensures |current| == |b| + 1 && IsRow(current, a[..i], b)
  {
    hide *;
    current := [i];
    FirstCell(a, i, b);
    for j := 1 to |b| + 1
      invariant |current| == j && IsRow(current, a[..i], b)
    {
      var cost := if a[i - 1] == b[j - 1] then 0 else 1;
      NextCell(previous, current, a, i, b);
      current := current + [Min(Min(previous[j] + 1, current[j - 1] + 1), previous[j - 1] + cost)];
    }
  }

  lemma {:induction false} DistToEmpty(a: string, b: string)
    ensures (a == "" ==> Dist(a, b) == |b|) && (b == "" ==> Dist(a, b) == |a|)
  {
  }

  lemma {:induction false} FirstRow(a: string, b: string)
    ensures IsRow(seq(|b| + 1, j => j), a[..0], b)
  {
  }

  lemma {:induction false} LastCell(row: seq<nat>, a: string, b: string)
    requires |row| == |b| + 1 && IsRow(row, a[..|a|], b)
    ensures row[|b|] == Dist(a, b)
  {
    hide Dist;
    assert a[..|a|] == a && b[..|b|] == b;
  }

  method Levenshtein(a: string, b: string) returns (distance: nat)
    ensures distance == Dist(a, b)
    ensures IsEditDistance(a, b, distance)
  {
    DistIsEditDistance(a, b);
    hide IsEditDistance;
    DistToEmpty(a, b);
    FirstRow(a, b);
    hide Dist, IsRow;
    if a == b {
      DistSelf(a);
      return 0;
    }
    if a == "" {
      return |b|;
    }
    if b == "" {
      return |a|;
    }
    var previous: seq<nat> := seq(|b| + 1, j => j);
    for i := 1 to |a| + 1
      invariant |previous| == |b| + 1 && IsRow(previous, a[..i - 1], b)
    {
      previous := NextRow(previous, a, i, b);
    }
    LastCell(previous, a, b);
    distance := previous[|previous| - 1];
  }

  // ----- The normalised ratio -----

  method SimilarityRatio(a: string, b: string) returns (ratio: real)
    ensures ratio == Ratio(a, b)
  {
    if a == "" && b == "" {
      return 1.0;
    }
    var longest := if |a| <= |b| then |b| else |a|;
    if longest == 0 {
      return 1.0;
    }
    var distance := Levenshtein(a, b);
    ratio := 1.0 - distance as real / longest as real;
  }

  ghost function Ratio(a: string, b: string): real {
    var longest := if |a| <= |b| then |b| else |a|;
    if longest == 0 then 1.0 else 1.0 - Dist(a, b) as real / longest as real
  }

  lemma {:induction false} DivBounds(n: nat, d: nat)
    requires n <= d && 0 < d
    ensures 0.0 <= n as real / d as real <= 1.0
    ensures n as real / d as real == 0.0 <==> n == 0
    ensures n as real / d as real == 1.0 <==> n == d
  {
    var q := n as real / d as real;
    assert q * d as real == n as real;
  }

  /** 1 means identical, 0 means no alignment saves an edit, and the order of the arguments is irrelevant. */
  lemma {:induction false} RatioLaws(a: string, b: string)
    ensures 0.0 <= Ratio(a, b) <= 1.0
    ensures Ratio(a, b) == 1.0 <==> a == b
    ensures Ratio(a, b) == 0.0 <==> a != b && Dist(a, b) == if |a| <= |b| then |b| else |a|
    ensures Ratio(a, b) == Ratio(b, a)
  {
    DistBounds(a, b);
    DistZero(a, b);
    DistSymmetric(a, b);
    var longest := if |a| <= |b| then |b| else |a|;
    if longest != 0 {
      DivBounds(Dist(a, b), longest);
    }
  }
}
