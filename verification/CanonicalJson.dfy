/**
 When `stableStringify` gives values that differ only in the order of entries one text.
 Where the comparison ties two keys, what counts is the order in which the object lists them.
 */
module CanonicalJson {
  import opened Wrappers
  import opened ObjectKeys
  import opened JsonReader
  import opened StableJson

  // ----- Sorted lists without ties -----

  ghost predicate Contained(s: seq<(string, Json)>, t: seq<(string, Json)>) {
    forall e :: e in s ==> e in t
  }

  ghost predicate Sorted(cmp: Compare, s: seq<(string, Json)>) {
    forall i, j :: 0 <= i < j < |s| ==> cmp(s[i].0, s[j].0) <= 0
  }

  lemma {:induction false} SortSorts(cmp: Compare, es: seq<(string, Json)>)
    requires IsOrder(cmp)
    ensures Sorted(cmp, Sort(cmp, es))
    decreases |es|
  {
    if es != [] {
      SortSorts(cmp, es[1..]);
      InsertSorts(cmp, es[0], Sort(cmp, es[1..]));
    }
  }

  ghost predicate AllAfter(cmp: Compare, key: string, s: seq<(string, Json)>) {
    forall d :: d in s ==> cmp(key, d.0) <= 0
  }

  lemma {:induction false} InsertSorts(cmp: Compare, e: (string, Json), s: seq<(string, Json)>)
    requires IsOrder(cmp) && Sorted(cmp, s)
    ensures Sorted(cmp, Insert(cmp, e, s))
    decreases |s|
  {
    if s != [] {
      HeadIsLeast(cmp, s);
      if cmp(e.0, s[0].0) <= 0 {
        PutFirst(cmp, e, s);
      } else {
        InsertSorts(cmp, e, s[1..]);
        InsertAfter(cmp, s[0].0, e, s[1..]);
        PutBefore(cmp, s[0], Insert(cmp, e, s[1..]));
      }
    }
  }

  lemma {:induction false} PutFirst(cmp: Compare, e: (string, Json), s: seq<(string, Json)>)
    requires IsOrder(cmp) && Sorted(cmp, s) && s != [] && AllAfter(cmp, s[0].0, s) && cmp(e.0, s[0].0) <= 0
    ensures Sorted(cmp, [e] + s)
  {
    forall d | d in s
      ensures cmp(e.0, d.0) <= 0
    {
      assert cmp(s[0].0, d.0) <= 0;
    }
    PutBefore(cmp, e, s);
  }

  lemma {:induction false} PutBefore(cmp: Compare, e: (string, Json), s: seq<(string, Json)>)
    requires Sorted(cmp, s) && AllAfter(cmp, e.0, s)
    ensures Sorted(cmp, [e] + s)
  {
    var r := [e] + s;
    forall i, j | 0 <= i < j < |r|
      ensures cmp(r[i].0, r[j].0) <= 0
    {
      assert r[j] == s[j - 1] && s[j - 1] in s;
    }
  }

  lemma {:induction false} InsertAfter(cmp: Compare, key: string, e: (string, Json), s: seq<(string, Json)>)
    requires IsOrder(cmp) && AllAfter(cmp, key, s) && cmp(e.0, key) > 0
    ensures AllAfter(cmp, key, Insert(cmp, e, s))
  {
    InsertMembers(cmp, e, s);
    var r := Insert(cmp, e, s);
    forall d | d in r
      ensures cmp(key, d.0) <= 0
    {
      assert d in multiset(r);
      assert cmp(e.0, key) > 0 ==> cmp(key, e.0) <= 0;
    }
  }

  lemma {:induction false} HeadIsLeast(cmp: Compare, s: seq<(string, Json)>)
    requires IsOrder(cmp) && Sorted(cmp, s) && s != []
    ensures AllAfter(cmp, s[0].0, s)
  {
    assert cmp(s[0].0, s[0].0) <= 0;
  }

  /** Entries whose keys the comparison ties have the same key. */
  ghost predicate TiesAreEqual(cmp: Compare, s: seq<(string, Json)>) {
    forall d, e :: d in s && e in s && cmp(d.0, e.0) == 0 ==> d.0 == e.0
  }

  /** The heads of two sorted lists with the same members agree. */
  lemma {:induction false} SortedHeads(cmp: Compare, s: seq<(string, Json)>, t: seq<(string, Json)>)
    requires IsOrder(cmp) && TiesAreEqual(cmp, t) && Sorted(cmp, s) && Sorted(cmp, t) && DistinctKeys(t)
    requires s != [] && t != [] && s[0] in t && t[0] in s
    ensures s[0] == t[0]
  {
    HeadIsLeast(cmp, s);
    HeadIsLeast(cmp, t);
    assert cmp(s[0].0, t[0].0) <= 0 && cmp(t[0].0, s[0].0) <= 0;
    hide Sorted;
    assert t[0] in t;
    var i :| 0 <= i < |t| && t[i] == s[0];
  }

  lemma {:induction false} TailContained(s: seq<(string, Json)>, t: seq<(string, Json)>)
    requires s != [] && t != [] && s[0] == t[0] && DistinctKeys(s) && Contained(s, t)
    ensures Contained(s[1..], t[1..])
  {
    forall e | e in s[1..]
      ensures e in t[1..]
    {
      var i :| 0 <= i < |s[1..]| && s[1..][i] == e;
      assert s[i + 1] == e && e in s;
      var j :| 0 <= j < |t| && t[j] == e;
      assert j > 0 && t[1..][j - 1] == e;
    }
  }

  /** A sorted list without ties is determined by its members. */
  lemma {:induction false} SortedIsUnique(cmp: Compare, s: seq<(string, Json)>, t: seq<(string, Json)>)
    requires IsOrder(cmp) && TiesAreEqual(cmp, t) && Sorted(cmp, s) && Sorted(cmp, t)
    requires DistinctKeys(s) && DistinctKeys(t) && |s| == |t| && Contained(s, t)
    ensures s == t
    decreases |s|
  {
    if s != [] {
      HeadsShared(s, t);
      SortedHeads(cmp, s, t);
      TailContained(s, t);
      TailSorted(cmp, s);
      TailSorted(cmp, t);
      TailTies(cmp, t);
      hide Sorted, DistinctKeys, IsOrder, TiesAreEqual, Contained;
      SortedIsUnique(cmp, s[1..], t[1..]);
      assert s == [s[0]] + s[1..] && t == [t[0]] + t[1..];
    }
  }

  lemma {:induction false} HeadsShared(s: seq<(string, Json)>, t: seq<(string, Json)>)
    requires s != [] && |s| == |t| && DistinctKeys(s) && Contained(s, t)
    ensures s[0] in t && t[0] in s
  {
    SameMembers(s, t);
    hide DistinctKeys;
    assert s[0] in s && t[0] in t;
  }

  lemma {:induction false} TailSorted(cmp: Compare, s: seq<(string, Json)>)
    requires s != [] && Sorted(cmp, s) && DistinctKeys(s)
    ensures Sorted(cmp, s[1..]) && DistinctKeys(s[1..])
  {
  }

  lemma {:induction false} TailTies(cmp: Compare, t: seq<(string, Json)>)
    requires t != [] && TiesAreEqual(cmp, t)
    ensures TiesAreEqual(cmp, t[1..])
  {
    assert forall d :: d in t[1..] ==> d in t;
  }

  ghost function Elements(s: seq<(string, Json)>): set<(string, Json)> {
    set e | e in s
  }

  lemma {:induction false} DistinctSize(s: seq<(string, Json)>)
    ensures |Elements(s)| <= |s|
    ensures DistinctKeys(s) ==> |Elements(s)| == |s|
    decreases |s|
  {
    if s == [] {
      assert Elements(s) == {};
    } else {
      var n := |s| - 1;
      DistinctSize(s[..n]);
      assert s == s[..n] + [s[n]];
      assert Elements(s) == Elements(s[..n]) + {s[n]};
      if DistinctKeys(s) {
        assert s[n] !in s[..n];
      }
    }
  }

  /** A list without repetition contained in one no longer than it has the same members. */
  lemma {:induction false} SameMembers(s: seq<(string, Json)>, t: seq<(string, Json)>)
    requires |s| == |t| && DistinctKeys(s) && Contained(s, t)
    ensures Contained(t, s)
  {
    DistinctSize(s);
    DistinctSize(t);
    assert Elements(s) <= Elements(t);
    assert Elements(t) == Elements(s) + (Elements(t) - Elements(s));
    forall e | e in t
      ensures e in s
    {
      assert e in Elements(t);
    }
  }

  lemma {:induction false} CanonKeys(cmp: Compare, entries: seq<(string, Json)>)
    requires DistinctKeys(entries)
    ensures DistinctKeys(CanonEntries(cmp, entries))
  {
  }

  // ----- The text is JSON for the value, with sorted keys -----

  /** Every object in the value lists its entries in the order of the comparison. */
  ghost predicate KeysSorted(cmp: Compare, v: Json) {
    match v
    case Arr(items) => forall i :: 0 <= i < |items| ==> KeysSorted(cmp, items[i])
    case Obj(entries) => Sorted(cmp, entries) && forall i :: 0 <= i < |entries| ==> KeysSorted(cmp, entries[i].1)
    case _ => true
  }

  lemma {:induction false} CanonIsSame(cmp: Compare, v: Json)
    ensures Same(v, Canon(cmp, v))
  {
    match v
    case Arr(items) =>
      forall i | 0 <= i < |items|
        ensures Same(items[i], Canon(cmp, items[i]))
      {
        CanonIsSame(cmp, items[i]);
      }
    case Obj(entries) =>
      var c := CanonEntries(cmp, entries);
      CanonOfObject(cmp, entries);
      SortMembers(cmp, c);
      forall i | 0 <= i < |entries|
        ensures Corresponds(entries[i].0, entries[i].1, Sort(cmp, c))
      {
        CanonIsSame(cmp, entries[i].1);
        InSort(cmp, c, c[i]);
        assert c[i] in c;
        var j :| 0 <= j < |Sort(cmp, c)| && Sort(cmp, c)[j] == c[i];
      }
    case _ =>
  }

  lemma {:induction false} CanonIsSorted(cmp: Compare, v: Json)
    requires IsOrder(cmp)
    ensures KeysSorted(cmp, Canon(cmp, v))
  {
    match v
    case Arr(items) =>
      forall i | 0 <= i < |items|
        ensures KeysSorted(cmp, Canon(cmp, items[i]))
      {
        CanonIsSorted(cmp, items[i]);
      }
    case Obj(entries) =>
      var c := CanonEntries(cmp, entries);
      CanonOfObject(cmp, entries);
      SortSorts(cmp, c);
      forall i | 0 <= i < |entries|
        ensures KeysSorted(cmp, c[i].1)
      {
        CanonIsSorted(cmp, entries[i].1);
      }
      hide Sorted, IsOrder, KeysSorted;
      forall j | 0 <= j < |Sort(cmp, c)|
        ensures KeysSorted(cmp, Sort(cmp, c)[j].1)
      {
        InSort(cmp, c, Sort(cmp, c)[j]);
      }
    case _ =>
  }

  /**
   The text is a JSON text of RFC 8259 for a value that is the given one up to the order of entries,
   and in which every object lists its keys in the order of the comparison.
   */
  lemma {:induction false} StringifyIsRead(cmp: Compare, v: Json, r: string) returns (w: Json)
    requires WellFormed(v) && Delimits(r)
    ensures ReadJson(Stringify(cmp, v) + r) == Some((w, r)) && Same(v, w)
    ensures IsOrder(cmp) ==> KeysSorted(cmp, w)
  {
    w := Canon(cmp, v);
    hide *;
    StringifyPrints(cmp, v);
    CanonWellFormed(cmp, v);
    ReadPrinted(w, r);
    CanonIsSame(cmp, v);
    if IsOrder(cmp) {
      CanonIsSorted(cmp, v);
    }
  }

  // ----- Values -----

  /** Every object in the value lists its entries in the order in which a JavaScript object lists its keys. */
  predicate InOrder(v: Json) {
    match v
    case Arr(items) => forall i :: 0 <= i < |items| ==> InOrder(items[i])
    case Obj(entries) => Enumerated(entries) && forall i :: 0 <= i < |entries| ==> InOrder(entries[i].1)
    case _ => true
  }

  /** What the serialiser can be given. */
  predicate IsValue(v: Json) {
    WellFormed(v) && InOrder(v)
  }

  // ----- Sorting entries that are listed in order -----

  lemma {:induction false} InsertRefined(cmp: Compare, e: (string, Json), s: seq<(string, Json)>)
    requires forall d :: d in s ==> Earlier(e.0, d.0)
    ensures Insert(cmp, e, s) == Insert(Refined(cmp), e, s)
    decreases |s|
  {
    if s != [] {
      assert s[0] in s;
      RefinedAgrees(cmp, e.0, s[0].0);
      hide Refined, Earlier;
      InsertRefined(cmp, e, s[1..]);
    }
  }

  /** A stable sort of entries listed in order decides ties by the listing. */
  lemma {:induction false} SortRefined(cmp: Compare, es: seq<(string, Json)>)
    requires Enumerated(es)
    ensures Sort(cmp, es) == Sort(Refined(cmp), es)
    decreases |es|
  {
    if es != [] {
      SortRefined(cmp, es[1..]);
      var s := Sort(cmp, es[1..]);
      forall d | d in s
        ensures Earlier(es[0].0, d.0)
      {
        InSort(cmp, es[1..], d);
        var i :| 0 <= i < |es[1..]| && es[1..][i] == d;
        assert es[i + 1] == d;
      }
      hide Enumerated, Earlier, Refined;
      InsertRefined(cmp, es[0], s);
    }
  }

  lemma {:induction false} CanonEnumerated(cmp: Compare, entries: seq<(string, Json)>)
    requires Enumerated(entries)
    ensures Enumerated(CanonEntries(cmp, entries))
  {
    hide Canon, Earlier;
  }

  // ----- When a value has one text -----

  /** No two keys tie, array indices apart: the listing decides about those. */
  predicate NoTies(cmp: Compare, entries: seq<(string, Json)>) {
    forall i, j :: 0 <= i < j < |entries| && !IsIndex(entries[i].0) && !IsIndex(entries[j].0) ==>
      cmp(entries[i].0, entries[j].0) != 0
  }

  /** No object inside the value has two keys that the comparison ties and that are no array indices. */
  predicate KeysApart(cmp: Compare, v: Json) {
    match v
    case Arr(items) => forall i :: 0 <= i < |items| ==> KeysApart(cmp, items[i])
    case Obj(entries) =>
      NoTies(cmp, entries) && forall i :: 0 <= i < |entries| ==> KeysApart(cmp, entries[i].1)
    case _ => true
  }

  lemma {:induction false} NoTiesHere(cmp: Compare, entries: seq<(string, Json)>)
    requires IsOrder(cmp) && NoTies(cmp, entries)
    ensures TiesAreEqual(Refined(cmp), CanonEntries(cmp, entries))
  {
    var x := CanonEntries(cmp, entries);
    hide Refined, Canon, IsIndex;
    forall d, e | d in x && e in x && Refined(cmp)(d.0, e.0) == 0
      ensures d.0 == e.0
    {
      RefinedTies(cmp, d.0, e.0);
      var i :| 0 <= i < |x| && x[i] == d;
      var j :| 0 <= j < |x| && x[j] == e;
      assert cmp(entries[j].0, entries[i].0) == 0;
    }
  }

  lemma {:induction false} SameCanon(cmp: Compare, u: Json, v: Json)
    requires IsOrder(cmp) && KeysApart(cmp, u) && IsValue(u) && IsValue(v) && Same(u, v)
    ensures Canon(cmp, u) == Canon(cmp, v)
  {
    match u
    case Arr(items) =>
      forall i | 0 <= i < |items|
        ensures Canon(cmp, items[i]) == Canon(cmp, v.items[i])
      {
        SameCanon(cmp, items[i], v.items[i]);
      }
    case Obj(entries) =>
      var x, y := CanonEntries(cmp, entries), CanonEntries(cmp, v.entries);
      CanonOfObject(cmp, entries);
      CanonOfObject(cmp, v.entries);
      hide Enumerated, NoTies;
      forall i | 0 <= i < |entries|
        ensures x[i] in y
      {
        assert Corresponds(entries[i].0, entries[i].1, v.entries);
        var j :| 0 <= j < |v.entries| && v.entries[j].0 == entries[i].0 && Same(entries[i].1, v.entries[j].1);
        SameCanon(cmp, entries[i].1, v.entries[j].1);
        assert y[j] == x[i];
      }
      hide Canon, CanonEntries, WellFormed, Same, InOrder, IsOrder, KeysApart;
      CanonKeys(cmp, entries);
      CanonKeys(cmp, v.entries);
      CanonEnumerated(cmp, entries);
      CanonEnumerated(cmp, v.entries);
      NoTiesHere(cmp, entries);
      RefinedIsOrder(cmp);
      hide TiesAreEqual, Refined;
      SortRefined(cmp, x);
      SortRefined(cmp, y);
      SortsAgree(Refined(cmp), x, y);
    case _ =>
  }

  lemma {:induction false} SortContained(cmp: Compare, x: seq<(string, Json)>, y: seq<(string, Json)>)
    requires Contained(x, y)
    ensures Contained(Sort(cmp, x), Sort(cmp, y))
  {
    hide Sort;
    forall e | e in Sort(cmp, x)
      ensures e in Sort(cmp, y)
    {
      InSort(cmp, x, e);
      InSort(cmp, y, e);
    }
  }

  lemma {:induction false} SortTies(cmp: Compare, x: seq<(string, Json)>)
    requires TiesAreEqual(cmp, x)
    ensures TiesAreEqual(cmp, Sort(cmp, x))
  {
    hide Sort;
    forall d, e | d in Sort(cmp, x) && e in Sort(cmp, x) && cmp(d.0, e.0) == 0
      ensures d.0 == e.0
    {
      InSort(cmp, x, d);
      InSort(cmp, x, e);
    }
  }

  lemma {:induction false} SortsAgree(cmp: Compare, x: seq<(string, Json)>, y: seq<(string, Json)>)
    requires IsOrder(cmp) && TiesAreEqual(cmp, x) && DistinctKeys(x) && DistinctKeys(y) && |x| == |y|
    requires Contained(x, y)
    ensures Sort(cmp, x) == Sort(cmp, y)
  {
    SameMembers(x, y);
    SortContained(cmp, y, x);
    SortTies(cmp, x);
    SortMembers(cmp, x);
    SortMembers(cmp, y);
    SortDistinct(cmp, x);
    SortDistinct(cmp, y);
    SortSorts(cmp, x);
    SortSorts(cmp, y);
    hide *;
    SortedIsUnique(cmp, Sort(cmp, y), Sort(cmp, x));
  }

  /** A value without ties has the same text exactly as the values equal to it up to the order of entries. */
  lemma {:induction false} StringifyIsCanonical(cmp: Compare, u: Json, v: Json)
    requires IsOrder(cmp) && KeysApart(cmp, u) && IsValue(u) && IsValue(v)
    ensures Stringify(cmp, u) == Stringify(cmp, v) <==> Same(u, v)
  {
    StringifyPrints(cmp, u);
    StringifyPrints(cmp, v);
    hide Stringify, Print, Canon, WellFormed, InOrder, Same, IsOrder, KeysApart;
    if Stringify(cmp, u) == Stringify(cmp, v) {
      StringifyIsInjective(cmp, u, v);
    }
    if Same(u, v) {
      SameCanon(cmp, u, v);
    }
  }

  // ----- When it has several -----

  /** The entries whose keys tie with `key`, in order. */
  ghost function Tied(cmp: Compare, key: string, es: seq<(string, Json)>): (ts: seq<(string, Json)>)
    ensures forall e :: e in ts ==> e in es && cmp(e.0, key) == 0
  {
    if es == [] then []
    else (if cmp(es[0].0, key) == 0 then [es[0]] else []) + Tied(cmp, key, es[1..])
  }

  lemma {:induction false} TiesAreTransitive(cmp: Compare, key: string, a: string, b: string)
    requires IsOrder(cmp) && cmp(a, b) > 0
    ensures cmp(a, key) != 0 || cmp(b, key) != 0
  {
    assert cmp(b, key) == 0 ==> cmp(key, b) <= 0;
    assert cmp(a, key) <= 0 && cmp(key, b) <= 0 ==> cmp(a, b) <= 0;
  }

  /** The entry, if it ties with the key. */
  ghost function IfTied(cmp: Compare, key: string, e: (string, Json)): seq<(string, Json)> {
    if cmp(e.0, key) == 0 then [e] else []
  }

  lemma {:induction false} TiedCons(cmp: Compare, key: string, e: (string, Json), s: seq<(string, Json)>)
    ensures Tied(cmp, key, [e] + s) == IfTied(cmp, key, e) + Tied(cmp, key, s)
  {
    assert ([e] + s)[1..] == s;
  }

  lemma {:induction false} OneIsTied(cmp: Compare, key: string, a: (string, Json), b: (string, Json),
                                     ts: seq<(string, Json)>)
    requires cmp(a.0, key) != 0 || cmp(b.0, key) != 0
    ensures IfTied(cmp, key, b) + (IfTied(cmp, key, a) + ts) == IfTied(cmp, key, a) + (IfTied(cmp, key, b) + ts)
  {
  }

  lemma {:induction false} InsertIsStable(cmp: Compare, key: string, e: (string, Json), s: seq<(string, Json)>)
    requires IsOrder(cmp)
    ensures Tied(cmp, key, Insert(cmp, e, s)) == IfTied(cmp, key, e) + Tied(cmp, key, s)
    decreases |s|
  {
    hide IsOrder, Tied, IfTied;
    if s == [] || cmp(e.0, s[0].0) <= 0 {
      assert [e] + s == Insert(cmp, e, s);
      TiedCons(cmp, key, e, s);
    } else {
      TiesAreTransitive(cmp, key, e.0, s[0].0);
      InsertIsStable(cmp, key, e, s[1..]);
      TiedCons(cmp, key, s[0], Insert(cmp, e, s[1..]));
      TiedCons(cmp, key, s[0], s[1..]);
      assert s == [s[0]] + s[1..];
      OneIsTied(cmp, key, e, s[0], Tied(cmp, key, s[1..]));
    }
  }

  /** Sorting keeps the order of tied entries. */
  lemma {:induction false} SortIsStable(cmp: Compare, key: string, es: seq<(string, Json)>)
    requires IsOrder(cmp)
    ensures Tied(cmp, key, Sort(cmp, es)) == Tied(cmp, key, es)
    decreases |es|
  {
    if es != [] {
      hide IsOrder, Tied, Insert;
      SortIsStable(cmp, key, es[1..]);
      InsertIsStable(cmp, key, es[0], Sort(cmp, es[1..]));
      TiedCons(cmp, key, es[0], es[1..]);
      assert es == [es[0]] + es[1..];
    }
  }

  lemma {:induction false} FirstTied(cmp: Compare, key: string, es: seq<(string, Json)>, i: nat)
    requires i < |es| && cmp(es[i].0, key) == 0
    ensures Tied(cmp, key, es) != [] && Tied(cmp, key, es)[0] in es[..i + 1]
    decreases i
  {
    if cmp(es[0].0, key) != 0 {
      FirstTied(cmp, key, es[1..], i - 1);
      assert es[..i + 1] == [es[0]] + es[1..][..i];
    }
  }

  /** Entry `j` moved to position `p`. */
  function Promoted<T>(es: seq<T>, p: nat, j: nat): (ps: seq<T>)
    requires p <= j < |es|
    ensures |ps| == |es|
  {
    es[..p] + [es[j]] + es[p..j] + es[j + 1..]
  }

  lemma {:induction false} FirstIs(cmp: Compare, es: seq<(string, Json)>, p: nat)
    requires p < |es| && cmp(es[p].0, es[p].0) == 0 && forall k :: 0 <= k < p ==> cmp(es[k].0, es[p].0) != 0
    ensures Tied(cmp, es[p].0, es) != [] && Tied(cmp, es[p].0, es)[0] == es[p]
  {
    FirstTied(cmp, es[p].0, es, p);
    var first := Tied(cmp, es[p].0, es)[0];
    hide Tied;
    var k :| 0 <= k < p + 1 && es[..p + 1][k] == first;
    assert cmp(es[k].0, es[p].0) == 0;
  }

  /** Of two tied entries, the later one sorts first only once it has been moved before the first of its ties. */
  lemma {:induction false} PromotionShows(cmp: Compare, es: seq<(string, Json)>, p: nat, i: nat, j: nat)
    requires IsOrder(cmp) && DistinctKeys(es) && p <= i < j < |es| && cmp(es[i].0, es[j].0) == 0
    requires forall k :: 0 <= k < p ==> cmp(es[k].0, es[j].0) != 0
    ensures Sort(cmp, es) != Sort(cmp, Promoted(es, p, j))
  {
    var key, ps := es[j].0, Promoted(es, p, j);
    assert cmp(key, key) == 0;
    assert es[j] !in es[..i + 1];
    assert ps[p] == es[j] && forall k :: 0 <= k < p ==> ps[k] == es[k];
    hide Sort, Tied, IsOrder, Promoted;
    SortIsStable(cmp, key, es);
    SortIsStable(cmp, key, ps);
    FirstTied(cmp, key, es, i);
    FirstIs(cmp, ps, p);
  }

  lemma {:induction false} SameSelf(v: Json)
    ensures Same(v, v)
  {
    match v
    case Arr(items) =>
      forall i | 0 <= i < |items|
        ensures Same(items[i], items[i])
      {
        SameSelf(items[i]);
      }
    case Obj(entries) =>
      forall i | 0 <= i < |entries|
        ensures Corresponds(entries[i].0, entries[i].1, entries)
      {
        SameSelf(entries[i].1);
      }
    case _ =>
  }

  /** Where entry `i` is after the promotion of entry `j`. */
  function NewPlace(i: nat, p: nat, j: nat): nat {
    if i == j then p else if p <= i < j then i + 1 else i
  }

  function OldPlace(k: nat, p: nat, j: nat): nat {
    if k == p then j else if p < k <= j then k - 1 else k
  }

  lemma {:induction false} PromotedAt<T>(es: seq<T>, p: nat, j: nat)
    requires p <= j < |es|
    ensures forall i :: 0 <= i < |es| ==> NewPlace(i, p, j) < |es| && Promoted(es, p, j)[NewPlace(i, p, j)] == es[i]
    ensures forall k :: 0 <= k < |es| ==> OldPlace(k, p, j) < |es| && Promoted(es, p, j)[k] == es[OldPlace(k, p, j)]
  {
  }

  lemma {:induction false} PromotedDistinct(es: seq<(string, Json)>, p: nat, j: nat)
    requires p <= j < |es| && DistinctKeys(es)
    ensures DistinctKeys(Promoted(es, p, j))
  {
    PromotedAt(es, p, j);
    var ps := Promoted(es, p, j);
    hide Promoted;
    forall k, l | 0 <= k < l < |ps|
      ensures ps[k].0 != ps[l].0
    {
      PlacesDiffer(k, l, p, j);
    }
  }

  lemma {:induction false} PlacesDiffer(k: nat, l: nat, p: nat, j: nat)
    requires k != l && p <= j
    ensures OldPlace(k, p, j) != OldPlace(l, p, j)
  {
  }

  lemma {:induction false} PromotedValues(es: seq<(string, Json)>, p: nat, j: nat)
    requires p <= j < |es| && forall i :: 0 <= i < |es| ==> IsValue(es[i].1)
    ensures forall k :: 0 <= k < |es| ==> IsValue(Promoted(es, p, j)[k].1)
  {
    PromotedAt(es, p, j);
    hide Promoted, IsValue, OldPlace, NewPlace;
  }

  lemma {:induction false} PromotedHolds(es: seq<(string, Json)>, p: nat, j: nat, i: nat)
    requires p <= j < |es| && i < |es|
    ensures Corresponds(es[i].0, es[i].1, Promoted(es, p, j))
  {
    PromotedAt(es, p, j);
    SameSelf(es[i].1);
    hide Promoted, Same, NewPlace, OldPlace;
    assert Promoted(es, p, j)[NewPlace(i, p, j)] == es[i];
  }

  /** Keys from position `p` on are no indices, so that their order is free. */
  predicate OthersFrom(es: seq<(string, Json)>, p: nat) {
    forall k :: p <= k < |es| ==> !IsIndex(es[k].0)
  }

  lemma {:induction false} PromotedEnumerated(es: seq<(string, Json)>, p: nat, j: nat)
    requires p <= j < |es| && Enumerated(es) && OthersFrom(es, p)
    ensures Enumerated(Promoted(es, p, j))
  {
    PromotedAt(es, p, j);
    var ps := Promoted(es, p, j);
    hide Promoted, IsIndex, Number;
    forall k, l | 0 <= k < l < |ps|
      ensures Earlier(ps[k].0, ps[l].0)
    {
      if l >= p {
        assert !IsIndex(es[OldPlace(l, p, j)].0);
      } else {
        assert ps[k] == es[k] && ps[l] == es[l];
      }
    }
  }

  lemma {:induction false} ObjectIsValue(es: seq<(string, Json)>)
    ensures IsValue(Obj(es)) <==>
            DistinctKeys(es) && Enumerated(es) && forall k :: 0 <= k < |es| ==> IsValue(es[k].1)
  {
    hide DistinctKeys, Enumerated;
  }

  lemma {:induction false} PromotedIsSame(es: seq<(string, Json)>, p: nat, j: nat)
    requires p <= j < |es| && IsValue(Obj(es)) && OthersFrom(es, p)
    ensures IsValue(Obj(Promoted(es, p, j))) && Same(Obj(es), Obj(Promoted(es, p, j)))
  {
    ObjectIsValue(es);
    ObjectIsValue(Promoted(es, p, j));
    hide DistinctKeys, Enumerated, IsValue, OthersFrom;
    PromotedDistinct(es, p, j);
    PromotedEnumerated(es, p, j);
    PromotedValues(es, p, j);
    hide Promoted, Corresponds;
    forall i | 0 <= i < |es|
      ensures Corresponds(es[i].0, es[i].1, Promoted(es, p, j))
    {
      PromotedHolds(es, p, j, i);
    }
  }

  lemma {:induction false} PromotedCanon(cmp: Compare, es: seq<(string, Json)>, p: nat, j: nat)
    requires p <= j < |es|
    ensures CanonEntries(cmp, Promoted(es, p, j)) == Promoted(CanonEntries(cmp, es), p, j)
  {
    hide Canon;
  }

  /** How many entries have array indices for keys, if these come first. */
  function IndexCount(es: seq<(string, Json)>): (p: nat)
    ensures p <= |es|
  {
    if es != [] && IsIndex(es[0].0) then 1 + IndexCount(es[1..]) else 0
  }

  lemma {:induction false} IndicesFirst(es: seq<(string, Json)>)
    requires Enumerated(es)
    ensures OthersFrom(es, IndexCount(es)) && forall k :: 0 <= k < IndexCount(es) ==> IsIndex(es[k].0)
    decreases |es|
  {
    hide IsIndex, Number;
    if es != [] {
      if IsIndex(es[0].0) {
        IndicesFirst(es[1..]);
        assert forall k :: 0 < k < |es| ==> es[k] == es[1..][k - 1];
      } else {
        assert forall k :: 0 < k < |es| ==> Earlier(es[0].0, es[k].0);
      }
    }
  }

  /** Two keys tie, and neither is an array index. */
  predicate Tie(cmp: Compare, es: seq<(string, Json)>, i: nat, j: nat) {
    i < j < |es| && !IsIndex(es[i].0) && !IsIndex(es[j].0) && cmp(es[i].0, es[j].0) == 0
  }

  lemma {:induction false} TieRefined(cmp: Compare, es: seq<(string, Json)>, p: nat, i: nat, j: nat)
    requires Tie(cmp, es, i, j) && p <= |es| && forall k :: 0 <= k < p ==> IsIndex(es[k].0)
    ensures p <= i && Refined(cmp)(es[i].0, es[j].0) == 0
    ensures forall k :: 0 <= k < p ==> Refined(cmp)(es[k].0, es[j].0) != 0
  {
    forall k | 0 <= k < p
      ensures Refined(cmp)(es[k].0, es[j].0) != 0
    {
      IndexBeforeOther(cmp, es[k].0, es[j].0);
    }
    hide IsIndex;
  }

  /** An object with two tied keys is told from the same object with the later one first among its keys. */
  lemma {:induction false} TieHere(cmp: Compare, es: seq<(string, Json)>, p: nat, i: nat, j: nat)
    requires IsOrder(cmp) && IsValue(Obj(es)) && Tie(cmp, es, i, j) && p <= |es| && OthersFrom(es, p)
    requires forall k :: 0 <= k < p ==> IsIndex(es[k].0)
    ensures p <= i && Canon(cmp, Obj(es)) != Canon(cmp, Obj(Promoted(es, p, j)))
  {
    var x := CanonEntries(cmp, es);
    assert forall k :: 0 <= k < |es| ==> x[k].0 == es[k].0;
    ObjectIsValue(es);
    CanonOfObject(cmp, es);
    CanonKeys(cmp, es);
    RefinedIsOrder(cmp);
    hide Canon, CanonEntries, IsOrder, Refined, IsValue, IsIndex, Enumerated, DistinctKeys;
    TieRefined(cmp, es, p, i, j);
    CanonOfObject(cmp, Promoted(es, p, j));
    PromotedCanon(cmp, es, p, j);
    PromotedEnumerated(es, p, j);
    CanonEnumerated(cmp, es);
    CanonEnumerated(cmp, Promoted(es, p, j));
    SortRefined(cmp, x);
    SortRefined(cmp, Promoted(x, p, j));
    hide Promoted, OthersFrom;
    PromotionShows(Refined(cmp), x, p, i, j);
  }

  lemma {:induction false} ItemSplits(cmp: Compare, items: seq<Json>, i: nat, w: Json)
    requires i < |items| && IsValue(Arr(items)) && IsValue(w) && Same(items[i], w)
    requires Canon(cmp, items[i]) != Canon(cmp, w)
    ensures var v := Arr(items[i := w]);
            IsValue(v) && Same(Arr(items), v) && Canon(cmp, Arr(items)) != Canon(cmp, v)
  {
    var v := Arr(items[i := w]);
    forall k | 0 <= k < |items|
      ensures Same(items[k], v.items[k])
    {
      if k != i {
        SameSelf(items[k]);
      }
    }
    assert Canon(cmp, Arr(items)).items[i] != Canon(cmp, v).items[i];
  }

  lemma {:induction false} ReplacedIsValue(es: seq<(string, Json)>, i: nat, w: Json)
    requires i < |es| && IsValue(Obj(es)) && IsValue(w)
    ensures IsValue(Obj(es[i := (es[i].0, w)]))
  {
    ObjectIsValue(es);
    ObjectIsValue(es[i := (es[i].0, w)]);
    hide IsValue, Earlier;
  }

  lemma {:induction false} EntrySplits(cmp: Compare, es: seq<(string, Json)>, i: nat, w: Json)
    requires i < |es| && IsValue(Obj(es)) && IsValue(w) && Same(es[i].1, w)
    requires Canon(cmp, es[i].1) != Canon(cmp, w)
    ensures var v := Obj(es[i := (es[i].0, w)]);
            IsValue(v) && Same(Obj(es), v) && Canon(cmp, Obj(es)) != Canon(cmp, v)
  {
    var fs := es[i := (es[i].0, w)];
    ReplacedIsValue(es, i, w);
    forall k | 0 <= k < |es|
      ensures Corresponds(es[k].0, es[k].1, fs)
    {
      if k != i {
        SameSelf(es[k].1);
      }
      assert fs[k].0 == es[k].0 && Same(es[k].1, fs[k].1);
    }
    CanonOfObject(cmp, es);
    CanonOfObject(cmp, fs);
    hide Canon, Same, InOrder;
    EntryShows(cmp, es, fs, i);
  }

  lemma {:induction false} EntryShows(cmp: Compare, es: seq<(string, Json)>, fs: seq<(string, Json)>, i: nat)
    requires i < |es| == |fs| && DistinctKeys(fs) && es[i].0 == fs[i].0
    requires Canon(cmp, es[i].1) != Canon(cmp, fs[i].1)
    ensures Sort(cmp, CanonEntries(cmp, es)) != Sort(cmp, CanonEntries(cmp, fs))
  {
    var x, y := CanonEntries(cmp, es), CanonEntries(cmp, fs);
    hide Canon, Sort;
    forall j | 0 <= j < |y|
      ensures y[j] != x[i]
    {
      assert j != i ==> fs[j].0 != fs[i].0;
    }
    if Sort(cmp, x) == Sort(cmp, y) {
      InBoth(cmp, x, y, i);
    }
  }

  lemma {:induction false} FindTie(cmp: Compare, es: seq<(string, Json)>) returns (i: nat, j: nat)
    requires !NoTies(cmp, es)
    ensures Tie(cmp, es, i, j)
  {
    i, j :| i < j < |es| && !IsIndex(es[i].0) && !IsIndex(es[j].0) && cmp(es[i].0, es[j].0) == 0;
  }

  lemma {:induction false} CanonSplits(cmp: Compare, u: Json) returns (v: Json)
    requires IsOrder(cmp) && IsValue(u) && !KeysApart(cmp, u)
    ensures IsValue(v) && Same(u, v) && Canon(cmp, u) != Canon(cmp, v)
  {
    hide Canon, Same, IsOrder, NoTies, Tie;
    match u
    case Arr(items) =>
      var i :| 0 <= i < |items| && !KeysApart(cmp, items[i]);
      var w := CanonSplits(cmp, items[i]);
      ItemSplits(cmp, items, i, w);
      v := Arr(items[i := w]);
    case Obj(entries) =>
      if !NoTies(cmp, entries) {
        var i, j := FindTie(cmp, entries);
        v := Separated(cmp, entries, i, j);
      } else {
        var i :| 0 <= i < |entries| && !KeysApart(cmp, entries[i].1);
        var w := CanonSplits(cmp, entries[i].1);
        EntrySplits(cmp, entries, i, w);
        v := Obj(entries[i := (entries[i].0, w)]);
      }
  }

  lemma {:induction false} Separated(cmp: Compare, es: seq<(string, Json)>, i: nat, j: nat) returns (v: Json)
    requires IsOrder(cmp) && IsValue(Obj(es)) && Tie(cmp, es, i, j)
    ensures IsValue(v) && Same(Obj(es), v) && Canon(cmp, Obj(es)) != Canon(cmp, v)
  {
    var p := IndexCount(es);
    ObjectIsValue(es);
    hide IsOrder, IsValue, Canon, Same, IsIndex, OthersFrom;
    IndicesFirst(es);
    TieHere(cmp, es, p, i, j);
    PromotedIsSame(es, p, j);
    v := Obj(Promoted(es, p, j));
  }

  /** Tied keys stay in the order of insertion, so that a value with a tie is equal to one with another text. */
  lemma {:induction false} TieSplits(cmp: Compare, u: Json) returns (v: Json)
    requires IsOrder(cmp) && IsValue(u) && !KeysApart(cmp, u)
    ensures IsValue(v) && Same(u, v) && Stringify(cmp, u) != Stringify(cmp, v)
  {
    v := CanonSplits(cmp, u);
    StringifyPrints(cmp, u);
    StringifyPrints(cmp, v);
    CanonWellFormed(cmp, u);
    CanonWellFormed(cmp, v);
    hide Print, Canon, Stringify, WellFormed, InOrder, Same, IsOrder, KeysApart;
    if Stringify(cmp, u) == Stringify(cmp, v) {
      assert Print(Canon(cmp, u)) + "" == Print(Canon(cmp, v)) + "";
      ReadValue(Canon(cmp, u), Canon(cmp, v), "", "");
    }
  }

  /** So the text of a value does not depend on the order of entries if and only if none of its objects has a tie. */
  lemma {:induction false} CanonicalExactlyWhenApart(cmp: Compare, u: Json)
    requires IsOrder(cmp) && IsValue(u)
    ensures (forall v :: IsValue(v) && Same(u, v) ==> Stringify(cmp, u) == Stringify(cmp, v)) <==> KeysApart(cmp, u)
  {
    hide *;
    if KeysApart(cmp, u) {
      forall v | IsValue(v) && Same(u, v)
        ensures Stringify(cmp, u) == Stringify(cmp, v)
      {
        StringifyIsCanonical(cmp, u, v);
      }
    } else {
      var v := TieSplits(cmp, u);
    }
  }
}
