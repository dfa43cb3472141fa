/** Python's `dict`: its items in insertion order. Assigning to a key that is present
    updates the value where it stands; assigning to a new key appends it. */
module Dicts {
  import opened Wrappers

  type Dict<K, V> = seq<(K, V)>

  function Keys<K, V>(m: Dict<K, V>): (ks: seq<K>)
    ensures |ks| == |m| && forall i :: 0 <= i < |m| ==> ks[i] == m[i].0
  {
    if m == [] then [] else [m[0].0] + Keys(m[1..])
  }

  function Values<K, V>(m: Dict<K, V>): (vs: seq<V>)
    ensures |vs| == |m| && forall i :: 0 <= i < |m| ==> vs[i] == m[i].1
  {
    if m == [] then [] else [m[0].1] + Values(m[1..])
  }

  predicate Distinct<T(==)>(s: seq<T>) {
    forall i, j :: 0 <= i < j < |s| ==> s[i] != s[j]
  }

  /** What every Python dict satisfies: no key twice. */
  predicate IsDict<K(==), V>(m: Dict<K, V>) {
    Distinct(Keys(m))
  }

  /** `m.get(k)`. */
  function Get<K(==), V>(m: Dict<K, V>, k: K): (r: Option<V>)
    ensures r.None? <==> k !in Keys(m)
    ensures r.Some? ==> (k, r.value) in m
  {
    if m == [] then None else if m[0].0 == k then Some(m[0].1) else Get(m[1..], k)
  }

  /** `m[k]` on a dict with string keys: `KeyError` when the key is missing. */
  function Lookup<V>(m: Dict<string, V>, k: string): (r: Result<V>)
    ensures r.Err? <==> k !in Keys(m)
    ensures r.Err? ==> r.error == KeyError(k)
    ensures r.Ok? ==> Get(m, k) == Some(r.value)
  {
    match Get(m, k)
    case Some(v) => Ok(v)
    case None => Err(KeyError(k))
  }

  /** `m[k] = v`. */
  function Set<K(==), V>(m: Dict<K, V>, k: K, v: V): (r: Dict<K, V>)
    ensures Keys(r) == if k in Keys(m) then Keys(m) else Keys(m) + [k]
    ensures Get(r, k) == Some(v)
  {
    if m == [] then [(k, v)]
    else if m[0].0 == k then [(k, v)] + m[1..]
    else [m[0]] + Set(m[1..], k, v)
  }

  /** Assigning to one key leaves every other key's value as it was. */
  lemma {:induction false} SetGetOther<K, V>(m: Dict<K, V>, k: K, v: V, k': K)
    requires k' != k
    ensures Get(Set(m, k, v), k') == Get(m, k')
  {
    if m != [] && m[0].0 != k {
      SetGetOther(m[1..], k, v, k');
    }
  }

  /** Assigning keeps a dict a dict. */
  lemma SetIsDict<K, V>(m: Dict<K, V>, k: K, v: V)
    requires IsDict(m)
    ensures IsDict(Set(m, k, v))
  {
    var ks := Keys(m);
    if k !in ks {
      var ks' := ks + [k];
      forall i, j | 0 <= i < j < |ks'|
        ensures ks'[i] != ks'[j]
      {
        assert ks'[i] == ks[i];
      }
    }
  }

  /** Assigning a new key appends it at the end. */
  lemma SetNewKey<K, V>(m: Dict<K, V>, k: K, v: V)
    requires k !in Keys(m)
    ensures Set(m, k, v) == m + [(k, v)]
  {
    assert forall i :: 0 <= i < |m| ==> m[i].0 != k by {
      forall i | 0 <= i < |m|
        ensures m[i].0 != k
      {
        assert Keys(m)[i] == m[i].0;
      }
    }
    SetFreshKey(m, k, v);
  }

  lemma {:induction false} SetFreshKey<K, V>(m: Dict<K, V>, k: K, v: V)
    requires forall i :: 0 <= i < |m| ==> m[i].0 != k
    ensures Set(m, k, v) == m + [(k, v)]
  {
    if m != [] {
      assert m[0].0 != k;
      SetFreshKey(m[1..], k, v);
      assert [m[0]] + (m[1..] + [(k, v)]) == m + [(k, v)];
    }
  }

  /** `m.update(items)`: every item assigned in turn. */
  function Update<K(==), V>(m: Dict<K, V>, items: seq<(K, V)>): Dict<K, V>
    decreases |items|
  {
    if items == [] then m else Update(Set(m, items[0].0, items[0].1), items[1..])
  }

  /** `dict(items)`: an empty dict updated with the items. */
  function FromPairs<K(==), V>(items: seq<(K, V)>): Dict<K, V> {
    Update([], items)
  }

  /** Updating with two runs of items is updating with the first, then the second. */
  lemma {:induction false} UpdateAppend<K, V>(m: Dict<K, V>, a: seq<(K, V)>, b: seq<(K, V)>)
    ensures Update(m, a + b) == Update(Update(m, a), b)
    decreases |a|
  {
    if a == [] {
      assert a + b == b;
    } else {
      assert (a + b)[1..] == a[1..] + b;
      UpdateAppend(Set(m, a[0].0, a[0].1), a[1..], b);
    }
  }

  /** Updating with one more item sets that item's key last. */
  lemma UpdateSnoc<K, V>(m: Dict<K, V>, items: seq<(K, V)>, x: (K, V))
    ensures Update(m, items + [x]) == Set(Update(m, items), x.0, x.1)
  {
    UpdateAppend(m, items, [x]);
  }

  lemma {:induction false} UpdateIsDict<K, V>(m: Dict<K, V>, items: seq<(K, V)>)
    requires IsDict(m)
    ensures IsDict(Update(m, items))
    decreases |items|
  {
    if items != [] {
      SetIsDict(m, items[0].0, items[0].1);
      UpdateIsDict(Set(m, items[0].0, items[0].1), items[1..]);
    }
  }

  /** `dict(items)` has no duplicate key. */
  lemma FromPairsIsDict<K, V>(items: seq<(K, V)>)
    ensures IsDict(FromPairs(items))
  {
    UpdateIsDict([], items);
  }

  lemma KeysSnoc<K, V>(m: Dict<K, V>, x: (K, V))
    ensures Keys(m + [x]) == Keys(m) + [x.0]
  {
    assert forall i :: 0 <= i < |m| ==> (m + [x])[i] == m[i];
  }

  /** Updating with items whose keys are new and distinct appends them unchanged. */
  lemma {:induction false} UpdateFreshKeys<K, V>(m: Dict<K, V>, items: seq<(K, V)>)
    requires Distinct(Keys(items))
    requires forall i :: 0 <= i < |items| ==> items[i].0 !in Keys(m)
    ensures Update(m, items) == m + items
    decreases |items|
  {
    if items != [] {
      var (k, v) := items[0];
      var rest := items[1..];
      var m' := m + [(k, v)];
      assert m' + rest == m + items;
      SetNewKey(m, k, v);
      KeysSnoc(m, (k, v));
      FreshTail(m, items);
      UpdateFreshKeys(m', rest);
    }
  }

  /** The induction step of `UpdateFreshKeys`: the remaining items stay distinct and
      fresh once the first one is appended. */
  lemma FreshTail<K, V>(m: Dict<K, V>, items: seq<(K, V)>)
    requires items != []
    requires Distinct(Keys(items))
    requires forall i :: 0 <= i < |items| ==> items[i].0 !in Keys(m)
    ensures Distinct(Keys(items[1..]))
    ensures forall i :: 0 <= i < |items| - 1 ==> items[1..][i].0 !in Keys(m) + [items[0].0]
  {
    assert Keys(items[1..]) == Keys(items)[1..];
    forall i | 0 <= i < |items| - 1
      ensures items[1..][i].0 !in Keys(m) + [items[0].0]
    {
      assert items[1..][i].0 == Keys(items)[i + 1];
      assert items[0].0 == Keys(items)[0];
    }
  }

  /** `dict(items)` keeps items whose keys are already distinct, in their order: what a
      dict or a list of distinct name-value pairs comes back as. */
  lemma FromPairsOfDistinct<K, V>(items: seq<(K, V)>)
    requires Distinct(Keys(items))
    ensures FromPairs(items) == items
  {
    UpdateFreshKeys([], items);
  }

  /** The value the last item with key `k` carries, if any item has that key. */
  function LastValue<K(==), V>(items: seq<(K, V)>, k: K): Option<V> {
    if items == [] then None
    else match LastValue(items[1..], k)
      case Some(v) => Some(v)
      case None => if items[0].0 == k then Some(items[0].1) else None
  }

  /** No item with key `k`: no last value. */
  lemma {:induction false} LastValueAbsent<K, V>(items: seq<(K, V)>, k: K)
    requires forall j :: 0 <= j < |items| ==> items[j].0 != k
    ensures LastValue(items, k) == None
  {
    if items != [] {
      LastValueAbsent(items[1..], k);
    }
  }

  /** The value of item `i` is the last value of its key when no later item has it. */
  lemma {:induction false} LastValueAt<K, V>(items: seq<(K, V)>, i: nat)
    requires i < |items|
    requires forall j :: i < j < |items| ==> items[j].0 != items[i].0
    ensures LastValue(items, items[i].0) == Some(items[i].1)
  {
    if i == 0 {
      LastValueAbsent(items[1..], items[0].0);
    } else {
      LastValueAt(items[1..], i - 1);
    }
  }

  /** After an update, a key holds the value of its last item, or its old value when no
      item names it: later duplicates overwrite earlier ones. */
  lemma {:induction false} UpdateGet<K, V>(m: Dict<K, V>, items: seq<(K, V)>, k: K)
    ensures Get(Update(m, items), k) ==
            match LastValue(items, k) case Some(v) => Some(v) case None => Get(m, k)
    decreases |items|
  {
    if items != [] {
      UpdateGet(Set(m, items[0].0, items[0].1), items[1..], k);
      if items[0].0 != k {
        SetGetOther(m, items[0].0, items[0].1, k);
      }
    }
  }

  /** In a dict the last value of a key is its only value. */
  lemma {:induction false} LastValueOfDict<K, V>(m: Dict<K, V>, k: K)
    requires IsDict(m)
    ensures LastValue(m, k) == Get(m, k)
  {
    if m != [] {
      assert Keys(m[1..]) == Keys(m)[1..];
      LastValueOfDict(m[1..], k);
      if m[0].0 == k {
        LastValueAbsent(m[1..], k);
      }
    }
  }

  /** In a dict, the key of entry `i` holds the value of entry `i`. */
  lemma GetAt<K, V>(m: Dict<K, V>, i: nat)
    requires IsDict(m) && i < |m|
    ensures Get(m, m[i].0) == Some(m[i].1)
  {
    LastValueAt(m, i);
    LastValueOfDict(m, m[i].0);
  }

  /** Updating with a dict: its keys take its values, the other keys keep theirs. */
  lemma UpdateWithDict<K, V>(m: Dict<K, V>, d: Dict<K, V>, k: K)
    requires IsDict(d)
    ensures Get(Update(m, d), k) == if k in Keys(d) then Get(d, k) else Get(m, k)
  {
    UpdateGet(m, d, k);
    LastValueOfDict(d, k);
  }

  /** The keys of `xs` in the order of their first occurrence, appended to `ks`. */
  function AppendNew<T(==)>(ks: seq<T>, xs: seq<T>): seq<T>
    decreases |xs|
  {
    if xs == [] then ks else AppendNew(if xs[0] in ks then ks else ks + [xs[0]], xs[1..])
  }

  /** After an update, the old keys keep their places and the new keys follow in the
      order of their first item. */
  lemma {:induction false} UpdateKeys<K, V>(m: Dict<K, V>, items: seq<(K, V)>)
    ensures Keys(Update(m, items)) == AppendNew(Keys(m), Keys(items))
    decreases |items|
  {
    if items != [] {
      assert Keys(items)[1..] == Keys(items[1..]);
      UpdateKeys(Set(m, items[0].0, items[0].1), items[1..]);
    }
  }

  /** Membership in `AppendNew`: the old keys and the new ones, nothing else. */
  lemma {:induction false} AppendNewMembers<T>(ks: seq<T>, xs: seq<T>)
    ensures forall x :: x in AppendNew(ks, xs) <==> x in ks || x in xs
    decreases |xs|
  {
    if xs != [] {
      AppendNewMembers(if xs[0] in ks then ks else ks + [xs[0]], xs[1..]);
      assert xs == [xs[0]] + xs[1..];
    }
  }

  /** `AppendNew` never repeats an element when the old keys do not. */
  lemma {:induction false} AppendNewDistinct<T>(ks: seq<T>, xs: seq<T>)
    requires Distinct(ks)
    ensures Distinct(AppendNew(ks, xs))
    decreases |xs|
  {
    if xs != [] {
      AppendNewDistinct(if xs[0] in ks then ks else ks + [xs[0]], xs[1..]);
    }
  }
}
