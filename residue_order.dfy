/** Residue keys as CSV column names, and the order of residue columns: ascending
    `(number, insertion)` tuple order, as a `SortedSet` keeps them, or the IMGT order in
    which the insertions at positions 33, 61 and 112 run backwards. */
module ResidueOrder {
  import opened Wrappers
  import opened Dicts
  import opened PyStr
  import opened Records

  /** `str(num) + ins.strip()`: the column name of a residue key. */
  function KeyString(k: ResidueKey): (s: string)
    ensures |s| >= 1
    ensures s[0] == '-' || IsDigit(s[0])
  {
    IntToString(k.n) + Strip([k.ins])
  }

  /** A blank insertion gives the bare number. */
  lemma KeyStringBlank(k: ResidueKey)
    requires IsSpace(k.ins)
    ensures KeyString(k) == IntToString(k.n)
  {
    assert Strip([k.ins]) == [];
  }

  /** Any other insertion code follows the number. */
  lemma KeyStringInsertion(k: ResidueKey)
    requires !IsSpace(k.ins)
    ensures KeyString(k) == IntToString(k.n) + [k.ins]
  {
    assert Strip([k.ins]) == [k.ins];
  }

  /** The `(column name, residue letter)` pairs of a numbering, in order. */
  function ResiduePairs(numbering: Numbering): (ps: seq<(string, string)>)
    ensures |ps| == |numbering|
    ensures forall i :: 0 <= i < |ps| ==> ps[i] == (KeyString(numbering[i].0), numbering[i].1)
  {
    seq(|numbering|, i requires 0 <= i < |numbering| => (KeyString(numbering[i].0), numbering[i].1))
  }

  /** `numbered_sequence_dict`: the dict comprehension over a numbering. */
  function NumberedSequenceDict(numbering: Numbering): Dict<string, string> {
    FromPairs(ResiduePairs(numbering))
  }

  /** The column names come once each, in the order of their first residue; each holds
      the letter of the last residue with that name. A residue with a blank insertion
      that no later residue shares a name with is found under its bare number. */
  lemma NumberedSequenceDictSpec(numbering: Numbering)
    ensures var d := NumberedSequenceDict(numbering);
            && IsDict(d)
            && Keys(d) == AppendNew([], Keys(ResiduePairs(numbering)))
            && forall c :: Get(d, c) == LastValue(ResiduePairs(numbering), c)
  {
    var ps := ResiduePairs(numbering);
    FromPairsIsDict(ps);
    UpdateKeys([], ps);
    forall c
      ensures Get(FromPairs(ps), c) == LastValue(ps, c)
    {
      UpdateGet([], ps, c);
    }
  }

  /** The last residue with a blank insertion at number `n` gives the entry `str(n)`. */
  lemma BlankResidueEntry(numbering: Numbering, i: nat)
    requires i < |numbering| && IsSpace(numbering[i].0.ins)
    requires forall j :: i < j < |numbering| ==> KeyString(numbering[j].0) != KeyString(numbering[i].0)
    ensures Get(NumberedSequenceDict(numbering), IntToString(numbering[i].0.n)) == Some(numbering[i].1)
  {
    var ps := ResiduePairs(numbering);
    var c := KeyString(numbering[i].0);
    KeyStringBlank(numbering[i].0);
    NumberedSequenceDictSpec(numbering);
    LastValueAt(ps, i);
  }

  /** Python's tuple order on `(number, insertion)`. */
  predicate KeyLess(a: ResidueKey, b: ResidueKey) {
    a.n < b.n || (a.n == b.n && a.ins < b.ins)
  }

  /** The listing of a `SortedSet` of residue keys: strictly ascending. */
  predicate StrictlySorted(ks: seq<ResidueKey>) {
    forall i, j :: 0 <= i < j < |ks| ==> KeyLess(ks[i], ks[j])
  }

  /** `SortedSet.add`: the key goes where the order puts it, unless it is present. */
  function Insert(ss: seq<ResidueKey>, k: ResidueKey): (r: seq<ResidueKey>)
    ensures forall x :: x in r <==> x in ss || x == k
    ensures StrictlySorted(ss) ==> StrictlySorted(r)
  {
    if ss == [] then [k]
    else if ss[0] == k then ss
    else if KeyLess(k, ss[0]) then [k] + ss
    else
      var r := [ss[0]] + Insert(ss[1..], k);
      assert StrictlySorted(ss) ==> StrictlySorted(r) by {
        if StrictlySorted(ss) {
          forall j | 1 <= j < |r|
            ensures KeyLess(r[0], r[j])
          {
            assert r[j] in Insert(ss[1..], k);
          }
        }
      }
      r
  }

  /** `SortedSet.update`: every key added in turn. */
  function InsertAll(ss: seq<ResidueKey>, ks: seq<ResidueKey>): (r: seq<ResidueKey>)
    ensures forall x :: x in r <==> x in ss || x in ks
    ensures StrictlySorted(ss) ==> StrictlySorted(r)
    decreases |ks|
  {
    if ks == [] then ss
    else
      var r := InsertAll(Insert(ss, ks[0]), ks[1..]);
      assert forall x :: x in ks <==> x == ks[0] || x in ks[1..] by {
        assert ks == [ks[0]] + ks[1..];
      }
      r
  }

  /** Adding two runs of keys is adding their concatenation. */
  lemma {:induction false} InsertAllAppend(ss: seq<ResidueKey>, a: seq<ResidueKey>, b: seq<ResidueKey>)
    ensures InsertAll(ss, a + b) == InsertAll(InsertAll(ss, a), b)
    decreases |a|
  {
    if a == [] {
      assert a + b == b;
    } else {
      assert (a + b)[1..] == a[1..] + b;
      InsertAllAppend(Insert(ss, a[0]), a[1..], b);
    }
  }

  /** Two strictly ascending listings of the same keys are the same listing: a sorted
      set is determined by its members. */
  lemma {:induction false} SortedUnique(a: seq<ResidueKey>, b: seq<ResidueKey>)
    requires StrictlySorted(a) && StrictlySorted(b)
    requires forall x :: x in a <==> x in b
    ensures a == b
    decreases |a|
  {
    if b != [] {
      assert b[0] in b;
    }
    if a != [] {
      assert a[0] in a;
      var i :| 0 <= i < |b| && b[i] == a[0];
      var j :| 0 <= j < |a| && a[j] == b[0];
      if i != 0 && j != 0 {
        assert false;
      }
      assert a[0] == b[0];
      forall x
        ensures x in a[1..] <==> x in b[1..]
      {
        if x in a[1..] {
          var i :| 0 <= i < |a| - 1 && a[1..][i] == x;
          assert KeyLess(a[0], a[i + 1]);
          assert x in a;
          assert x in b;
          var k :| 0 <= k < |b| && b[k] == x;
          assert k != 0;
          assert b[1..][k - 1] == x;
        }
        if x in b[1..] {
          var i :| 0 <= i < |b| - 1 && b[1..][i] == x;
          assert KeyLess(b[0], b[i + 1]);
          assert x in b;
          assert x in a;
          var k :| 0 <= k < |a| && a[k] == x;
          assert k != 0;
          assert a[1..][k - 1] == x;
        }
      }
      SortedUnique(a[1..], b[1..]);
      assert a == [a[0]] + a[1..] && b == [b[0]] + b[1..];
    }
  }

  /** `(lo,) <= (n, ins)` and `(n, ins) < (hi,)`: a 1-tuple bound sorts before every key
      with its number, so the bounds select on the number alone. `None` is no bound. */
  predicate InRange(k: ResidueKey, lo: Option<int>, hi: Option<int>) {
    (lo.None? || lo.value <= k.n) && (hi.None? || k.n < hi.value)
  }

  /** The keys of `ss` inside the bounds, in the order of `ss`. */
  function Filter(ss: seq<ResidueKey>, lo: Option<int>, hi: Option<int>): seq<ResidueKey> {
    if ss == [] then []
    else if InRange(ss[0], lo, hi) then [ss[0]] + Filter(ss[1..], lo, hi)
    else Filter(ss[1..], lo, hi)
  }

  /** `Filter` keeps exactly the keys inside the bounds. */
  lemma {:induction false} FilterMembers(ss: seq<ResidueKey>, lo: Option<int>, hi: Option<int>)
    ensures forall x :: x in Filter(ss, lo, hi) <==> x in ss && InRange(x, lo, hi)
  {
    if ss != [] {
      FilterMembers(ss[1..], lo, hi);
      assert forall x :: x in ss <==> x == ss[0] || x in ss[1..] by {
        assert ss == [ss[0]] + ss[1..];
      }
    }
  }

  /** `Filter` keeps a sorted listing sorted. */
  lemma {:induction false} FilterSorted(ss: seq<ResidueKey>, lo: Option<int>, hi: Option<int>)
    requires StrictlySorted(ss)
    ensures StrictlySorted(Filter(ss, lo, hi))
  {
    if ss != [] {
      var rest := Filter(ss[1..], lo, hi);
      FilterSorted(ss[1..], lo, hi);
      FilterMembers(ss[1..], lo, hi);
      if InRange(ss[0], lo, hi) {
        var r := [ss[0]] + rest;
        forall i, j | 0 <= i < j < |r|
          ensures KeyLess(r[i], r[j])
        {
          assert r[j] == rest[j - 1];
          if i > 0 {
            assert r[i] == rest[i - 1];
          } else {
            assert r[j] in ss[1..];
          }
        }
      }
    }
  }

  function Reverse<T>(s: seq<T>): (r: seq<T>)
    ensures |r| == |s| && forall i :: 0 <= i < |s| ==> r[i] == s[|s| - 1 - i]
  {
    if s == [] then [] else Reverse(s[1..]) + [s[0]]
  }

  lemma {:induction false} ReverseMultiset<T>(s: seq<T>)
    ensures multiset(Reverse(s)) == multiset(s)
  {
    if s != [] {
      ReverseMultiset(s[1..]);
      assert s == [s[0]] + s[1..];
    }
  }

  /** `SortedSet.irange(minimum, maximum, inclusive=(True, False), reverse)`, the bounds
      being 1-tuples. */
  function IRange(ss: seq<ResidueKey>, lo: Option<int>, hi: Option<int>, reverse: bool): seq<ResidueKey> {
    if reverse then Reverse(Filter(ss, lo, hi)) else Filter(ss, lo, hi)
  }

  /** Splitting the bounds at `mid` splits the selected keys between the two halves. */
  lemma {:induction false} FilterSplit(ss: seq<ResidueKey>, lo: Option<int>, mid: int, hi: Option<int>)
    requires lo.None? || lo.value <= mid
    requires hi.None? || mid <= hi.value
    ensures multiset(Filter(ss, lo, Some(mid))) + multiset(Filter(ss, Some(mid), hi)) == multiset(Filter(ss, lo, hi))
  {
    if ss != [] {
      FilterSplit(ss[1..], lo, mid, hi);
      FilterStep(ss, lo, Some(mid));
      FilterStep(ss, Some(mid), hi);
      FilterStep(ss, lo, hi);
      var x := ss[0];
      if !InRange(x, lo, hi) {
        assert !InRange(x, lo, Some(mid)) && !InRange(x, Some(mid), hi);
      } else if x.n < mid {
        assert InRange(x, lo, Some(mid)) && !InRange(x, Some(mid), hi);
      } else {
        assert !InRange(x, lo, Some(mid)) && InRange(x, Some(mid), hi);
      }
    }
  }

  /** The first key counts once in the selection if it is inside the bounds. */
  lemma FilterStep(ss: seq<ResidueKey>, lo: Option<int>, hi: Option<int>)
    requires ss != []
    ensures multiset(Filter(ss, lo, hi))
            == (if InRange(ss[0], lo, hi) then multiset{ss[0]} else multiset{}) + multiset(Filter(ss[1..], lo, hi))
  {
    if InRange(ss[0], lo, hi) {
      assert multiset([ss[0]] + Filter(ss[1..], lo, hi)) == multiset{ss[0]} + multiset(Filter(ss[1..], lo, hi));
    }
  }

  /** Without bounds every key is selected. */
  lemma {:induction false} FilterAll(ss: seq<ResidueKey>)
    ensures Filter(ss, None, None) == ss
  {
    if ss != [] {
      FilterAll(ss[1..]);
    }
  }

  /** `imgt_reversed`: the positions whose insertions are numbered inwards. */
  const ImgtReversed: seq<int> := [33, 61, 112]

  predicate IsReversed(n: int) {
    n == 33 || n == 61 || n == 112
  }

  /** `(low + 1,) if low else None`: `0` and `None` both give no lower bound. */
  function LowBound(low: Option<int>): Option<int> {
    if low.Some? && low.value != 0 then Some(low.value + 1) else None
  }

  /** `_imgt_order_segments` from `low` on, over the remaining reversed positions: the
      keys up to the next reversed position in order, the keys at it backwards, and
      after the last one every key beyond it. */
  function OrderSegments(ss: seq<ResidueKey>, low: Option<int>, highs: seq<int>): seq<ResidueKey>
    requires |highs| >= 1
    decreases |highs|
  {
    var high := highs[0];
    var segs := IRange(ss, LowBound(low), Some(high), false) + IRange(ss, Some(high), Some(high + 1), true);
    if |highs| == 1 then segs + IRange(ss, Some(high + 1), None, false)
    else segs + OrderSegments(ss, Some(high), highs[1..])
  }

  /** `imgt_order`: the segments chained. */
  function ImgtOrder(ss: seq<ResidueKey>): seq<ResidueKey> {
    OrderSegments(ss, None, ImgtReversed)
  }

  /** The seven segments written out. */
  lemma ImgtOrderSegments(ss: seq<ResidueKey>)
    ensures ImgtOrder(ss) ==
      Filter(ss, None, Some(33)) + Reverse(Filter(ss, Some(33), Some(34))) +
      (Filter(ss, Some(34), Some(61)) + Reverse(Filter(ss, Some(61), Some(62))) +
       (Filter(ss, Some(62), Some(112)) + Reverse(Filter(ss, Some(112), Some(113))) +
        Filter(ss, Some(113), None)))
  {
    var f1, f2, f3, f4 := Filter(ss, None, Some(33)), Filter(ss, Some(34), Some(61)),
                          Filter(ss, Some(62), Some(112)), Filter(ss, Some(113), None);
    var r1, r2, r3 := Reverse(Filter(ss, Some(33), Some(34))), Reverse(Filter(ss, Some(61), Some(62))),
                      Reverse(Filter(ss, Some(112), Some(113)));
    var last := OrderSegments(ss, Some(61), [112]);
    assert last == f3 + r3 + f4;
    var middle := OrderSegments(ss, Some(33), [61, 112]);
    assert [61, 112][1..] == [112];
    assert middle == f2 + r2 + last;
    assert ImgtReversed[1..] == [61, 112];
    assert ImgtOrder(ss) == f1 + r1 + middle;
  }

  /** The IMGT order lists every key of the set exactly as often as the set does: it is
      a permutation, nothing added and nothing dropped. */
  lemma ImgtOrderPermutation(ss: seq<ResidueKey>)
    ensures multiset(ImgtOrder(ss)) == multiset(ss)
  {
    ImgtOrderSegments(ss);
    ReverseMultiset(Filter(ss, Some(33), Some(34)));
    ReverseMultiset(Filter(ss, Some(61), Some(62)));
    ReverseMultiset(Filter(ss, Some(112), Some(113)));
    FilterSplit(ss, None, 33, Some(34));
    FilterSplit(ss, None, 34, Some(61));
    FilterSplit(ss, None, 61, Some(62));
    FilterSplit(ss, None, 62, Some(112));
    FilterSplit(ss, None, 112, Some(113));
    FilterSplit(ss, None, 113, None);
    FilterAll(ss);
  }

  /** The IMGT column order: by number, then by insertion code, which runs backwards at
      the reversed positions, so there a blank insertion comes last. */
  predicate ImgtLess(a: ResidueKey, b: ResidueKey) {
    a.n < b.n || (a.n == b.n && (if IsReversed(a.n) then b.ins < a.ins else a.ins < b.ins))
  }

  predicate ImgtSorted(ks: seq<ResidueKey>) {
    forall i, j :: 0 <= i < j < |ks| ==> ImgtLess(ks[i], ks[j])
  }

  /** Every number in `a` is below `h` and every number in `b` at least `h`. */
  predicate SplitAt(a: seq<ResidueKey>, b: seq<ResidueKey>, h: int) {
    (forall x :: x in a ==> x.n < h) && (forall y :: y in b ==> h <= y.n)
  }

  lemma ConcatImgtSorted(a: seq<ResidueKey>, b: seq<ResidueKey>, h: int)
    requires ImgtSorted(a) && ImgtSorted(b) && SplitAt(a, b, h)
    ensures ImgtSorted(a + b)
  {
    forall i, j | 0 <= i < j < |a + b|
      ensures ImgtLess((a + b)[i], (a + b)[j])
    {
      if j < |a| {
        assert (a + b)[i] == a[i] && (a + b)[j] == a[j];
      } else if i >= |a| {
        assert (a + b)[i] == b[i - |a|] && (a + b)[j] == b[j - |a|];
      } else {
        assert (a + b)[i] in a && (a + b)[j] in b;
      }
    }
  }

  /** A segment away from the reversed positions keeps the tuple order. */
  lemma ForwardSegmentSorted(ss: seq<ResidueKey>, lo: Option<int>, hi: Option<int>)
    requires StrictlySorted(ss)
    requires forall k :: InRange(k, lo, hi) ==> !IsReversed(k.n)
    ensures ImgtSorted(Filter(ss, lo, hi))
  {
    var f := Filter(ss, lo, hi);
    FilterSorted(ss, lo, hi);
    FilterMembers(ss, lo, hi);
    forall i, j | 0 <= i < j < |f|
      ensures ImgtLess(f[i], f[j])
    {
      assert f[i] in f;
    }
  }

  /** The keys at a reversed position, backwards, run from the highest insertion code
      down. */
  lemma ReversedSegmentSorted(ss: seq<ResidueKey>, h: int)
    requires StrictlySorted(ss) && IsReversed(h)
    ensures ImgtSorted(Reverse(Filter(ss, Some(h), Some(h + 1))))
  {
    var f := Filter(ss, Some(h), Some(h + 1));
    FilterSorted(ss, Some(h), Some(h + 1));
    FilterMembers(ss, Some(h), Some(h + 1));
    var r := Reverse(f);
    forall i, j | 0 <= i < j < |r|
      ensures ImgtLess(r[i], r[j])
    {
      var i', j' := |f| - 1 - j, |f| - 1 - i;
      assert r[i] == f[j'] && r[j] == f[i'];
      assert f[i'] in f && f[j'] in f;
      assert KeyLess(f[i'], f[j']);
    }
  }

  /** The IMGT order of a sorted set is strictly ascending in `ImgtLess`: grouped by
      number in ascending order, insertions ascending except at 33, 61 and 112, where
      they descend and the blank comes last. */
  lemma ImgtOrderSorted(ss: seq<ResidueKey>)
    requires StrictlySorted(ss)
    ensures ImgtSorted(ImgtOrder(ss))
  {
    ImgtOrderSegments(ss);
    ForwardSegment(ss, None, Some(33));
    ReversedSegment(ss, 33);
    ForwardSegment(ss, Some(34), Some(61));
    ReversedSegment(ss, 61);
    ForwardSegment(ss, Some(62), Some(112));
    ReversedSegment(ss, 112);
    ForwardSegment(ss, Some(113), None);
    SegmentsSorted(Filter(ss, None, Some(33)), Reverse(Filter(ss, Some(33), Some(34))),
                   Filter(ss, Some(34), Some(61)), Reverse(Filter(ss, Some(61), Some(62))),
                   Filter(ss, Some(62), Some(112)), Reverse(Filter(ss, Some(112), Some(113))),
                   Filter(ss, Some(113), None));
  }

  /** Every key of `s` is inside the bounds. */
  predicate Within(s: seq<ResidueKey>, lo: Option<int>, hi: Option<int>) {
    forall x :: x in s ==> InRange(x, lo, hi)
  }

  lemma ForwardSegment(ss: seq<ResidueKey>, lo: Option<int>, hi: Option<int>)
    requires StrictlySorted(ss)
    requires forall k :: InRange(k, lo, hi) ==> !IsReversed(k.n)
    ensures ImgtSorted(Filter(ss, lo, hi)) && Within(Filter(ss, lo, hi), lo, hi)
  {
    ForwardSegmentSorted(ss, lo, hi);
    FilterMembers(ss, lo, hi);
  }

  lemma ReversedSegment(ss: seq<ResidueKey>, h: int)
    requires StrictlySorted(ss) && IsReversed(h)
    ensures var r := Reverse(Filter(ss, Some(h), Some(h + 1)));
            ImgtSorted(r) && Within(r, Some(h), Some(h + 1))
  {
    ReversedSegmentSorted(ss, h);
    FilterMembers(ss, Some(h), Some(h + 1));
    ReversedMembers(Filter(ss, Some(h), Some(h + 1)));
  }

  /** The seven segments, each in IMGT order and each below the next, chain into IMGT
      order. */
  lemma SegmentsSorted(s1: seq<ResidueKey>, s2: seq<ResidueKey>, s3: seq<ResidueKey>, s4: seq<ResidueKey>,
                       s5: seq<ResidueKey>, s6: seq<ResidueKey>, s7: seq<ResidueKey>)
    requires ImgtSorted(s1) && Within(s1, None, Some(33))
    requires ImgtSorted(s2) && Within(s2, Some(33), Some(34))
    requires ImgtSorted(s3) && Within(s3, Some(34), Some(61))
    requires ImgtSorted(s4) && Within(s4, Some(61), Some(62))
    requires ImgtSorted(s5) && Within(s5, Some(62), Some(112))
    requires ImgtSorted(s6) && Within(s6, Some(112), Some(113))
    requires ImgtSorted(s7) && Within(s7, Some(113), None)
    ensures ImgtSorted(s1 + s2 + (s3 + s4 + (s5 + s6 + s7)))
  {
    var t3 := s5 + s6 + s7;
    var t2 := s3 + s4 + t3;
    ConcatImgtSorted(s5, s6, 112);
    ConcatImgtSorted(s5 + s6, s7, 113);
    ConcatImgtSorted(s3, s4, 61);
    ConcatImgtSorted(s3 + s4, t3, 62);
    ConcatImgtSorted(s1, s2, 33);
    ConcatImgtSorted(s1 + s2, t2, 34);
  }

  lemma ReversedMembers<T>(s: seq<T>)
    ensures forall x :: x in Reverse(s) <==> x in s
  {
    var r := Reverse(s);
    forall x | x in s
      ensures x in r
    {
      var i :| 0 <= i < |s| && s[i] == x;
      assert r[|s| - 1 - i] == x;
    }
  }

  /** An example of the inward numbering: 111, 111A, 112, 112A, 112B, 113 in tuple order
      come out as 111, 111A, 112B, 112A, 112, 113. */
  lemma ImgtOrderExample()
    ensures ImgtOrder(ExampleKeys) == [ResidueKey(111, ' '), ResidueKey(111, 'A'), ResidueKey(112, 'B'),
                                       ResidueKey(112, 'A'), ResidueKey(112, ' '), ResidueKey(113, ' ')]
  {
    var ss := ExampleKeys;
    ImgtOrderSegments(ss);
    ExampleBelow112();
    ExampleFrom112();
    assert Reverse<ResidueKey>([]) == [];
    var r := [ResidueKey(112, 'B'), ResidueKey(112, 'A'), ResidueKey(112, ' ')];
    assert ImgtOrder(ss) == ss[..2] + r + ss[5..];
  }

  /** Insertions around position 112, sorted by `(number, insertion)`. */
  const ExampleKeys: seq<ResidueKey> :=
    [ResidueKey(111, ' '), ResidueKey(111, 'A'), ResidueKey(112, ' '),
     ResidueKey(112, 'A'), ResidueKey(112, 'B'), ResidueKey(113, ' ')]

  lemma ExampleBelow112()
    ensures Filter(ExampleKeys, None, Some(33)) == []
    ensures Filter(ExampleKeys, Some(33), Some(34)) == []
    ensures Filter(ExampleKeys, Some(34), Some(61)) == []
    ensures Filter(ExampleKeys, Some(61), Some(62)) == []
    ensures Filter(ExampleKeys, Some(62), Some(112)) == ExampleKeys[..2]
  {
    var ss := ExampleKeys;
    FilterNoneInRange(ss, None, Some(33));
    FilterNoneInRange(ss, Some(33), Some(34));
    FilterNoneInRange(ss, Some(34), Some(61));
    FilterNoneInRange(ss, Some(61), Some(62));
    assert Filter(ss, Some(62), Some(112)) == ss[..2];
  }

  lemma ExampleFrom112()
    ensures Filter(ExampleKeys, Some(112), Some(113)) == ExampleKeys[2..5]
    ensures Filter(ExampleKeys, Some(113), None) == ExampleKeys[5..]
    ensures Reverse(Filter(ExampleKeys, Some(112), Some(113)))
            == [ResidueKey(112, 'B'), ResidueKey(112, 'A'), ResidueKey(112, ' ')]
  {
  }

  /** Bounds that no key falls inside select nothing. */
  lemma {:induction false} FilterNoneInRange(ss: seq<ResidueKey>, lo: Option<int>, hi: Option<int>)
    requires forall i :: 0 <= i < |ss| ==> !InRange(ss[i], lo, hi)
    ensures Filter(ss, lo, hi) == []
  {
    if ss != [] {
      FilterNoneInRange(ss[1..], lo, hi);
    }
  }
}
