/** `compute_entity_exact_metrics` of `ml-service/tools/train_bio_bundle.py`, and what a perfect score means. */
module BioMetrics {
  import opened BioTags
  import opened BioDecoders

  type RowEntities = set<(nat, Entity)>

  ghost predicate Pipeline(rows: seq<seq<Tag>>) {
    forall r :: 0 <= r < |rows| ==> OnlyBIO(rows[r])
  }

  ghost predicate AllValid(rows: seq<seq<Tag>>) {
    forall r :: 0 <= r < |rows| ==> Valid(rows[r])
  }

  /** Every row's entities, each with the number of its row. */
  ghost predicate HoldsEntities(s: RowEntities, rows: seq<seq<Tag>>, n: nat)
    requires n <= |rows|
  {
    forall r: nat, e: Entity :: (r, e) in s <==> r < n && e in Entities(rows[r], 0)
  }

  method EntitySet(rows: seq<seq<Tag>>) returns (s: RowEntities)
    ensures Pipeline(rows) ==> HoldsEntities(s, rows, |rows|)
  {
    hide Entities;
    s := {};
    for r := 0 to |rows|
      invariant Pipeline(rows) ==> HoldsEntities(s, rows, r)
    {
      var entities := ExtractBioEntities(rows[r]);
      s := s + set e | e in entities :: (r, e);
    }
  }

  function Ratio(part: nat, whole: nat): real {
    if whole == 0 then 0.0 else part as real / whole as real
  }

  function F1(precision: real, recall: real): real {
    if precision + recall > 0.0 then 2.0 * precision * recall / (precision + recall) else 0.0
  }

  method ComputeEntityExactMetrics(trueSequences: seq<seq<Tag>>, predSequences: seq<seq<Tag>>)
    returns (precision: real, recall: real, f1: real, entityTrue: nat, entityPredicted: nat, entityCorrect: nat)
    ensures entityCorrect <= entityTrue && entityCorrect <= entityPredicted
    ensures precision == Ratio(entityCorrect, entityPredicted) && recall == Ratio(entityCorrect, entityTrue)
    ensures precision * entityPredicted as real == entityCorrect as real == recall * entityTrue as real
    ensures entityPredicted == 0 ==> precision == 0.0
    ensures entityTrue == 0 ==> recall == 0.0
    ensures f1 == F1(precision, recall)
    ensures f1 * (entityTrue + entityPredicted) as real == 2.0 * entityCorrect as real
    ensures entityTrue + entityPredicted == 0 ==> f1 == 0.0
    ensures Pipeline(trueSequences) && Pipeline(predSequences) ==>
              exists t: RowEntities, p: RowEntities ::
                && HoldsEntities(t, trueSequences, |trueSequences|) && HoldsEntities(p, predSequences, |predSequences|)
                && entityTrue == |t| && entityPredicted == |p| && entityCorrect == |t * p|
  {
    hide Entities, HoldsEntities;
    var trueSet := EntitySet(trueSequences);
    var predSet := EntitySet(predSequences);
    var correctSet := trueSet * predSet;
    SubsetSize(correctSet, trueSet);
    SubsetSize(correctSet, predSet);
    entityTrue, entityPredicted, entityCorrect := |trueSet|, |predSet|, |correctSet|;
    precision := if predSet != {} then |correctSet| as real / |predSet| as real else 0.0;
    recall := if trueSet != {} then |correctSet| as real / |trueSet| as real else 0.0;
    f1 := F1(precision, recall);
    SharesOfEntities(entityCorrect, entityTrue, entityPredicted);
  }

  lemma {:induction false} RatioTimes(part: nat, whole: nat)
    requires part <= whole
    ensures Ratio(part, whole) * whole as real == part as real
    ensures Ratio(part, whole) >= 0.0 && (Ratio(part, whole) == 0.0 <==> part == 0)
  {
    if whole != 0 {
      var q := part as real / whole as real;
      assert q * whole as real == part as real;
    }
  }

  lemma {:induction false} HarmonicMean(f: real, p: real, r: real, correct: real, truth: real, predicted: real)
    requires p * predicted == correct && r * truth == correct && correct != 0.0 && f * (p + r) == 2.0 * p * r
    ensures f * (truth + predicted) == 2.0 * correct
  {
    var product := truth * predicted;
    assert (p + r) * product == correct * (truth + predicted) by {
      assert p * product == (p * predicted) * truth && r * product == (r * truth) * predicted;
    }
    assert p * r * product == correct * correct by {
      assert p * r * product == (p * predicted) * (r * truth);
    }
    assert f * (p + r) * product == f * ((p + r) * product);
    assert 2.0 * p * r * product == 2.0 * (p * r * product);
    assert correct * (f * (truth + predicted)) == correct * (2.0 * correct);
  }

  /** The score is twice the number of correct entities over the number of all entities, the true and the predicted. */
  lemma {:induction false} SharesOfEntities(correct: nat, truth: nat, predicted: nat)
    requires correct <= truth && correct <= predicted
    ensures var p, r := Ratio(correct, predicted), Ratio(correct, truth);
            && p * predicted as real == correct as real == r * truth as real
            && F1(p, r) * (truth + predicted) as real == 2.0 * correct as real
  {
    RatioTimes(correct, predicted);
    RatioTimes(correct, truth);
    var p, r := Ratio(correct, predicted), Ratio(correct, truth);
    hide Ratio;
    if correct != 0 {
      var f := F1(p, r);
      assert f * (p + r) == 2.0 * p * r;
      HarmonicMean(f, p, r, correct as real, truth as real, predicted as real);
    }
  }

  lemma {:induction false} SubsetSize<T>(a: set<T>, b: set<T>)
    requires a <= b
    ensures |a| <= |b| && (|a| == |b| <==> a == b)
  {
    assert b == a + (b - a);
  }

  lemma {:induction false} RatioIsOne(part: nat, whole: nat)
    requires part <= whole
    ensures 0.0 <= Ratio(part, whole) <= 1.0
    ensures Ratio(part, whole) == 1.0 <==> part == whole && whole != 0
  {
    if whole != 0 {
      var q := part as real / whole as real;
      assert q * whole as real == part as real;
    }
  }

  lemma {:induction false} Product(x: real, y: real)
    requires 0.0 <= x && 0.0 <= y
    ensures x * y >= 0.0 && (x * y == 0.0 ==> x == 0.0 || y == 0.0)
  {
    if x > 0.0 && y > 0.0 {
      assert x * y > 0.0;
    }
  }

  lemma {:induction false} F1IsOne(p: real, r: real)
    requires 0.0 <= p <= 1.0 && 0.0 <= r <= 1.0
    ensures F1(p, r) == 1.0 <==> p == 1.0 && r == 1.0
  {
    if p + r > 0.0 {
      var f := 2.0 * p * r / (p + r);
      assert f * (p + r) == 2.0 * p * r;
      if f == 1.0 {
        assert p * (1.0 - r) + r * (1.0 - p) == 0.0;
        Product(p, 1.0 - r);
        Product(r, 1.0 - p);
      }
    }
  }

  // ----- Entities determine valid tags -----

  lemma {:induction false} LaterStarts(es: seq<Entity>, i: nat, n: nat, e: Entity)
    requires Ordered(es, i, n) && e in es
    ensures i <= e.start
    decreases |es|
  {
    if e != es[0] {
      LaterStarts(es[1..], es[0].end, n, e);
    }
  }

  /** Two ordered lists with the same members are the same list. */
  lemma {:induction false} OrderedListsAgree(es: seq<Entity>, fs: seq<Entity>, i: nat, n: nat)
    requires Ordered(es, i, n) && Ordered(fs, i, n)
    requires forall e :: e in es <==> e in fs
    ensures es == fs
    decreases |es|
  {
    assert forall k :: 0 <= k < |fs| ==> fs[k] in fs;
    if es != [] {
      assert es[0] in fs && (fs[0] in fs ==> fs[0] in es);
      if es[0] != fs[0] {
        LaterStarts(fs[1..], fs[0].end, n, es[0]);
        LaterStarts(es[1..], es[0].end, n, fs[0]);
      }
      forall e
        ensures e in es[1..] <==> e in fs[1..]
      {
        TailMembers(es, i, n, e);
        TailMembers(fs, i, n, e);
      }
      OrderedListsAgree(es[1..], fs[1..], es[0].end, n);
    }
  }

  lemma {:induction false} TailMembers(es: seq<Entity>, i: nat, n: nat, e: Entity)
    requires es != [] && Ordered(es, i, n)
    ensures e in es[1..] <==> e in es && e != es[0]
  {
    if e in es[1..] {
      LaterStarts(es[1..], es[0].end, n, e);
    }
  }

  lemma {:induction false} EntitiesDetermineTags(a: seq<Tag>, b: seq<Tag>)
    requires |a| == |b| && OnlyBIO(a) && OnlyBIO(b) && Valid(a) && Valid(b)
    requires forall e :: e in Entities(a, 0) <==> e in Entities(b, 0)
    ensures a == b
  {
    EntitiesAreOrdered(a, 0);
    EntitiesAreOrdered(b, 0);
    OrderedListsAgree(Entities(a, 0), Entities(b, 0), 0, |a|);
    EncodeDecode(a);
    EncodeDecode(b);
  }

  /** On valid rows of equal lengths the score is perfect exactly when every tag is right and some entity is there. */
  lemma {:induction false} PerfectScore(truth: seq<seq<Tag>>, pred: seq<seq<Tag>>, t: RowEntities, p: RowEntities)
    requires |truth| == |pred| && Pipeline(truth) && Pipeline(pred) && AllValid(truth) && AllValid(pred)
    requires forall r :: 0 <= r < |truth| ==> |truth[r]| == |pred[r]|
    requires HoldsEntities(t, truth, |truth|) && HoldsEntities(p, pred, |pred|)
    ensures F1(Ratio(|t * p|, |p|), Ratio(|t * p|, |t|)) == 1.0 <==> truth == pred && t != {}
  {
    hide Entities;
    SubsetSize(t * p, p);
    SubsetSize(t * p, t);
    RatioIsOne(|t * p|, |p|);
    RatioIsOne(|t * p|, |t|);
    F1IsOne(Ratio(|t * p|, |p|), Ratio(|t * p|, |t|));
    if t == p {
      forall r | 0 <= r < |truth|
        ensures truth[r] == pred[r]
      {
        forall e
          ensures e in Entities(truth[r], 0) <==> e in Entities(pred[r], 0)
        {
          assert (r, e) in t <==> (r, e) in p;
        }
        EntitiesDetermineTags(truth[r], pred[r]);
      }
    }
    if truth == pred {
      forall x: (nat, Entity)
        ensures x in t <==> x in p
      {
        var (r, e) := x;
      }
      assert t == p;
    }
  }
}
