/**
 * Sums over the values of a `map<string, int>` and enumerations of its keys: the order in
 * which a Java `HashMap` hands out its keys is unspecified, so it is modelled as any
 * duplicate-free sequence of exactly the map's keys.
 */
module MapSum {

  /** `order` lists every key of `m` exactly once. */
  ghost predicate Enumerates(order: seq<string>, m: map<string, int>)
  {
    && (forall i, j :: 0 <= i < j < |order| ==> order[i] != order[j])
    && (forall k :: k in order <==> k in m)
  }

  ghost function Pick(m: map<string, int>): (k: string)
    requires m != map[]
    ensures k in m
  {
    assert m.Keys != {};
    var k :| k in m; k
  }

  /** The sum of the values of `m`, independent of any order. */
  ghost function Sum(m: map<string, int>): int
    decreases |m|
  {
    if m == map[] then 0 else m[Pick(m)] + Sum(m - {Pick(m)})
  }

  /** Any key can be taken out first. */
  lemma {:induction false} SumRemove(m: map<string, int>, k: string)
    requires k in m
    ensures Sum(m) == m[k] + Sum(m - {k})
    decreases |m|
  {
    var p := Pick(m);
    if p != k {
      SumRemove(m - {p}, k);
      SumRemove(m - {k}, p);
      assert m - {p} - {k} == m - {k} - {p};
    }
  }

  /** Replacing one value (or adding a key) changes the sum by exactly the difference. */
  lemma SumUpdate(m: map<string, int>, k: string, v: int)
    ensures Sum(m[k := v]) == Sum(m) - (if k in m then m[k] else 0) + v
  {
    SumRemove(m[k := v], k);
    assert m[k := v] - {k} == m - {k};
    if k in m {
      SumRemove(m, k);
    } else {
      assert m - {k} == m;
    }
  }

  predicate NonNegative(m: map<string, int>)
  {
    forall k :: k in m ==> m[k] >= 0
  }

  /** With no negative value, the sum is at least every single value (and so at least 0). */
  lemma {:induction false} SumBoundsValue(m: map<string, int>, k: string)
    requires NonNegative(m) && k in m
    ensures 0 <= m[k] <= Sum(m)
  {
    SumRemove(m, k);
    SumNonNegative(m - {k});
  }

  lemma {:induction false} SumNonNegative(m: map<string, int>)
    requires NonNegative(m)
    ensures Sum(m) >= 0
    decreases |m|
  {
    if m != map[] {
      SumNonNegative(m - {Pick(m)});
    }
  }

  /** Dropping the last key of an enumeration enumerates the map without that key. */
  lemma EnumeratesWithoutLast(order: seq<string>, m: map<string, int>)
    requires Enumerates(order, m) && order != []
    ensures order[|order| - 1] in m
    ensures Enumerates(order[..|order| - 1], m - {order[|order| - 1]})
  {
    var last := order[|order| - 1];
    var init := order[..|order| - 1];
    assert last in order;
    forall k
      ensures k in init <==> k in m - {last}
    {
      assert order == init + [last];
    }
  }

  /** The empty enumeration belongs to the empty map only. */
  lemma EmptyEnumeration(m: map<string, int>)
    requires Enumerates([], m)
    ensures m == map[]
  {
  }

  /** Every entry of `order` is a key of `m`. */
  predicate KeysIn(order: seq<string>, m: map<string, int>)
  {
    forall i :: 0 <= i < |order| ==> order[i] in m
  }

  lemma EnumerationKeysIn(order: seq<string>, m: map<string, int>)
    requires Enumerates(order, m)
    ensures KeysIn(order, m)
  {
    forall i | 0 <= i < |order|
      ensures order[i] in m
    {
      assert order[i] in order;
    }
  }

  /** The values at the keys of `order`, added up exactly, last key last. */
  ghost function SumOver(m: map<string, int>, order: seq<string>): int
    requires KeysIn(order, m)
  {
    if order == [] then 0 else SumOver(m, order[..|order| - 1]) + m[order[|order| - 1]]
  }

  /** Two maps that agree on the keys of `order` have the same sum over it. */
  lemma {:induction false} SumOverAgree(m1: map<string, int>, m2: map<string, int>, order: seq<string>)
    requires KeysIn(order, m1) && KeysIn(order, m2)
    requires forall i :: 0 <= i < |order| ==> m1[order[i]] == m2[order[i]]
    ensures SumOver(m1, order) == SumOver(m2, order)
  {
    if order != [] {
      SumOverAgree(m1, m2, order[..|order| - 1]);
    }
  }

  /** Summing along an enumeration gives the order-free sum. */
  lemma {:induction false} SumOverEnumeration(m: map<string, int>, order: seq<string>)
    requires Enumerates(order, m)
    ensures KeysIn(order, m) && SumOver(m, order) == Sum(m)
  {
    EnumerationKeysIn(order, m);
    if order == [] {
      EmptyEnumeration(m);
    } else {
      var last := order[|order| - 1];
      var init := order[..|order| - 1];
      EnumeratesWithoutLast(order, m);
      SumOverEnumeration(m - {last}, init);
      EnumerationKeysIn(init, m - {last});
      SumOverAgree(m, m - {last}, init);
      SumRemove(m, last);
    }
  }
}
