/** The order in which a JavaScript object lists its keys, and what a stable sort makes of it. */
module ObjectKeys {

  /** `localeCompare`: negative, zero or positive. */
  type Compare = (string, string) -> int

  /** What `localeCompare` is: a comparison whose sign reverses with its arguments, and which is transitive. */
  ghost predicate IsOrder(cmp: Compare) {
    && (forall a, b :: cmp(a, b) < 0 <==> cmp(b, a) > 0)
    && (forall a, b, c :: cmp(a, b) <= 0 && cmp(b, c) <= 0 ==> cmp(a, c) <= 0)
  }

  // ----- Array indices -----

  predicate IsDigit(c: char) {
    '0' <= c <= '9'
  }

  function Digit(c: char): nat {
    if IsDigit(c) then c as int - '0' as int else 0
  }

  function Number(s: string): nat {
    if s == "" then 0 else Number(s[..|s| - 1]) * 10 + Digit(s[|s| - 1])
  }

  /** A number without leading zeros. */
  predicate IsDecimal(s: string) {
    s != "" && (forall k :: 0 <= k < |s| ==> IsDigit(s[k])) && (s[0] == '0' ==> |s| == 1)
  }

  /** Array indices go up to 2^32 - 2. */
  predicate IsIndex(key: string) {
    IsDecimal(key) && Number(key) < 0xFFFF_FFFF
  }

  lemma {:induction false} NumberIsPositive(s: string)
    requires s != "" && IsDigit(s[0]) && s[0] != '0'
    ensures Number(s) > 0
  {
    if |s| > 1 {
      NumberIsPositive(s[..|s| - 1]);
    } else {
      assert s[..0] == "";
    }
  }

  lemma {:induction false} LongDecimal(s: string)
    requires IsDecimal(s) && |s| > 1
    ensures IsDecimal(s[..|s| - 1]) && Number(s[..|s| - 1]) > 0 && Number(s) >= 10
  {
    NumberIsPositive(s[..|s| - 1]);
  }

  lemma {:induction false} OneDigit(s: string)
    requires IsDecimal(s) && |s| == 1
    ensures Number(s) == Digit(s[0]) < 10
  {
    assert s[..0] == "";
    assert Number("") == 0;
  }

  /** Different indices are different numbers. */
  lemma {:induction false} NumberIsInjective(a: string, b: string)
    requires IsDecimal(a) && IsDecimal(b) && Number(a) == Number(b)
    ensures a == b
    decreases |a|
  {
    if |a| == 1 { OneDigit(a); } else { LongDecimal(a); }
    if |b| == 1 { OneDigit(b); } else { LongDecimal(b); }
    var m, n := |a| - 1, |b| - 1;
    assert IsDigit(a[m]) && IsDigit(b[n]);
    if m > 0 && n > 0 {
      SameTens(Number(a[..m]), Digit(a[m]), Number(b[..n]), Digit(b[n]));
      NumberIsInjective(a[..m], b[..n]);
      assert a == a[..m] + [a[m]] && b == b[..n] + [b[n]];
    }
  }

  lemma {:induction false} SameTens(x: nat, c: nat, y: nat, d: nat)
    requires c < 10 && d < 10 && x * 10 + c == y * 10 + d
    ensures x == y && c == d
  {
  }

  // ----- The order of keys -----

  /** `a` may be listed before `b`: array indices come first, ascending; the other keys as they were inserted. */
  predicate Earlier(a: string, b: string) {
    IsIndex(b) ==> IsIndex(a) && Number(a) < Number(b)
  }

  predicate Enumerated<T>(es: seq<(string, T)>) {
    forall i, j :: 0 <= i < j < |es| ==> Earlier(es[i].0, es[j].0)
  }

  /** How the listing decides between two keys; 0 when it depends on the insertion. */
  function KeyOrder(a: string, b: string): int {
    if IsIndex(a) && IsIndex(b) then Number(a) - Number(b)
    else if IsIndex(a) then -1
    else if IsIndex(b) then 1
    else 0
  }

  /** The comparison, with its ties decided by the listing. */
  function Refined(cmp: Compare): Compare {
    (a, b) => if cmp(a, b) != 0 then cmp(a, b) else KeyOrder(a, b)
  }

  lemma {:induction false} RefinedIsOrder(cmp: Compare)
    requires IsOrder(cmp)
    ensures IsOrder(Refined(cmp))
  {
    var ref := Refined(cmp);
    forall a, b
      ensures ref(a, b) < 0 <==> ref(b, a) > 0
    {
      assert cmp(b, a) < 0 <==> cmp(a, b) > 0;
      hide IsIndex, Number;
    }
    forall a, b, c | ref(a, b) <= 0 && ref(b, c) <= 0
      ensures ref(a, c) <= 0
    {
      RefinedIsTransitive(cmp, a, b, c);
    }
  }

  lemma {:induction false} RefinedIsTransitive(cmp: Compare, a: string, b: string, c: string)
    requires IsOrder(cmp) && Refined(cmp)(a, b) <= 0 && Refined(cmp)(b, c) <= 0
    ensures Refined(cmp)(a, c) <= 0
  {
    assert cmp(a, c) <= 0;
    if cmp(a, c) == 0 {
      assert cmp(c, a) == 0;
      assert cmp(c, a) <= 0 && cmp(a, b) <= 0 ==> cmp(c, b) <= 0;
      assert cmp(b, c) <= 0 && cmp(c, a) <= 0 ==> cmp(b, a) <= 0;
      hide IsIndex, Number, IsOrder;
    }
  }

  /** Ties the listing does not decide are between keys that are no indices, unless the keys are equal. */
  lemma {:induction false} RefinedTies(cmp: Compare, a: string, b: string)
    requires Refined(cmp)(a, b) == 0
    ensures cmp(a, b) == 0 && (a == b || (!IsIndex(a) && !IsIndex(b)))
  {
    assert cmp(a, b) == 0 && KeyOrder(a, b) == 0;
    if IsIndex(a) && IsIndex(b) {
      NumberIsInjective(a, b);
    }
  }

  lemma {:induction false} IndexBeforeOther(cmp: Compare, a: string, b: string)
    requires IsIndex(a) && !IsIndex(b)
    ensures Refined(cmp)(a, b) != 0
  {
    assert KeyOrder(a, b) < 0;
  }

  /** For a key listed earlier the two comparisons decide alike. */
  lemma {:induction false} RefinedAgrees(cmp: Compare, a: string, b: string)
    requires Earlier(a, b)
    ensures cmp(a, b) <= 0 <==> Refined(cmp)(a, b) <= 0
  {
    hide Number, IsIndex;
  }
}
