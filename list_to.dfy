/** The legacy table writer for the simple list output: one row per `(numbering,
    metadata)` element, Name, Chain and Score first, then the residue columns sorted by
    a `(number, capital letter)` key read off the column name. The DataFrame is the
    column list and the row dicts; a cell missing from a row is empty. */
module ListTo {
  import opened Wrappers
  import opened Dicts
  import opened PyStr
  import opened Records
  import opened ResidueOrder

  const FrameMeta: seq<string> := ["Name", "Chain", "Score"]

  /** One element of the simple output: a numbering and the metadata of its result,
      which names the sequence under `query_name`. */
  type Element = (Numbering, Dict<string, Value>)

  /** The columns in order and the row dicts of the DataFrame. */
  datatype Frame = Frame(columns: seq<string>, rows: seq<Dict<string, Value>>)

  /** The entries the residue loop writes: `str(n) + ins.strip()` to the stripped
      residue letter. */
  function ResidueEntries(nums: Numbering): (es: seq<(string, Value)>)
    ensures |es| == |nums|
  {
    seq(|nums|, i requires 0 <= i < |nums| => ResidueEntry(nums[i]))
  }

  /** The entry of one residue. */
  function ResidueEntry(res: NumberedResidue): (e: (string, Value))
    ensures e.0 == KeyString(res.0) && e.1 == Text(Strip(res.1))
  {
    (KeyString(res.0), Text(Strip(res.1)))
  }

  /** The row of one element: its name, chain and score looked up in that order (a
      missing one raises `KeyError`), then, unless the chain is `"F"`, the residues. */
  function LegacyRow(e: Element): (r: Result<Dict<string, Value>>)
    ensures r.Ok? <==> "query_name" in Keys(e.1) && "chain_type" in Keys(e.1) && "score" in Keys(e.1)
    ensures r.Err? ==> r.error.KeyError?
  {
    var name :- Lookup(e.1, "query_name");
    var chain :- Lookup(e.1, "chain_type");
    var score :- Lookup(e.1, "score");
    var head := LegacyHead(name, chain, score);
    if chain == Text("F") then Ok(head) else Ok(Update(head, ResidueEntries(e.0)))
  }

  /** The columns of `pd.DataFrame(rows)`: every key of every row, once, in the order
      of first appearance. */
  function FrameColumns(rows: seq<Dict<string, Value>>): seq<string> {
    if rows == [] then []
    else AppendNew(FrameColumns(rows[..|rows| - 1]), Keys(rows[|rows| - 1]))
  }

  /** `[col for col in columns if col not in {"Name", "Chain", "Score"}]`. */
  function NonMeta(columns: seq<string>): (r: seq<string>)
    ensures forall c :: c in r <==> c in columns && c !in FrameMeta
  {
    if columns == [] then []
    else
      var rest := NonMeta(columns[1..]);
      assert forall c :: c in columns <==> c == columns[0] || c in columns[1..];
      if columns[0] in FrameMeta then rest else [columns[0]] + rest
  }

  /** The sort key `split_key` gives a column: `(int(digits), capital letter or "")`
      when the name starts with digits, and `(inf, name)` otherwise. */
  datatype SortKey = Numbered(n: nat, letter: string) | Unnumbered(column: string)

  /** The digits the pattern `\d+` matches at the start of `s`. */
  function DigitPrefix(s: string): (d: string)
    ensures |d| <= |s| && d == s[..|d|] && AllDigits(d)
    ensures |d| < |s| ==> !IsDigit(s[|d|])
  {
    if s == [] || !IsDigit(s[0]) then [] else [s[0]] + DigitPrefix(s[1..])
  }

  /** `split_key`: `re.match(r"(\d+)([A-Z]?)", column)`. */
  function SplitKey(column: string): (k: SortKey)
    ensures k.Numbered? <==> column != [] && IsDigit(column[0])
    ensures k.Unnumbered? ==> k.column == column
    ensures k.Numbered? ==> |k.letter| <= 1 && forall i :: 0 <= i < |k.letter| ==> 'A' <= k.letter[i] <= 'Z'
    ensures k.Numbered? ==> k.n == DigitsValue(DigitPrefix(column))
    ensures k.Numbered? ==> var d := |DigitPrefix(column)|;
      k.letter == (if d < |column| && 'A' <= column[d] <= 'Z' then [column[d]] else [])
  {
    var d := DigitPrefix(column);
    if d == [] then Unnumbered(column)
    else
      var letter := if |d| < |column| && 'A' <= column[|d|] <= 'Z' then [column[|d|]] else [];
      Numbered(DigitsValue(d), letter)
  }

  /** Python's `<` on strings. */
  predicate StrLess(a: string, b: string) {
    StrLe(a, b) && a != b
  }

  /** Python's `<` on the key tuples: a finite number before infinity, then the second
      element. */
  predicate KeyLess(a: SortKey, b: SortKey) {
    match (a, b)
    case (Numbered(m, x), Numbered(n, y)) => m < n || (m == n && StrLess(x, y))
    case (Numbered(_, _), Unnumbered(_)) => true
    case (Unnumbered(_), Numbered(_, _)) => false
    case (Unnumbered(x), Unnumbered(y)) => StrLess(x, y)
  }

  lemma StrLessTransitive(a: string, b: string, c: string)
    requires StrLess(a, b) && StrLess(b, c)
    ensures StrLess(a, c)
  {
    StrLeTransitive(a, b, c);
    if a == c {
      StrLeAntisymmetric(a, b);
    }
  }

  lemma StrLessTotal(a: string, b: string)
    ensures StrLess(a, b) || StrLess(b, a) || a == b
  {
    StrLeTotal(a, b);
  }

  lemma StrLessIrreflexive(a: string, b: string)
    requires StrLess(a, b)
    ensures !StrLess(b, a)
  {
    if StrLess(b, a) {
      StrLeAntisymmetric(a, b);
    }
  }

  /** The key order is a strict total order: transitive, asymmetric, and any two keys
      are equal or comparable. */
  lemma KeyLessTransitive(a: SortKey, b: SortKey, c: SortKey)
    requires KeyLess(a, b) && KeyLess(b, c)
    ensures KeyLess(a, c)
  {
    if a.Numbered? && b.Numbered? && c.Numbered? && a.n == b.n == c.n {
      StrLessTransitive(a.letter, b.letter, c.letter);
    } else if a.Unnumbered? && b.Unnumbered? && c.Unnumbered? {
      StrLessTransitive(a.column, b.column, c.column);
    }
  }

  lemma KeyLessAsymmetric(a: SortKey, b: SortKey)
    requires KeyLess(a, b)
    ensures !KeyLess(b, a)
  {
    if a.Numbered? && b.Numbered? && a.n == b.n {
      StrLessIrreflexive(a.letter, b.letter);
    } else if a.Unnumbered? && b.Unnumbered? {
      StrLessIrreflexive(a.column, b.column);
    }
  }

  lemma KeyLessTotal(a: SortKey, b: SortKey)
    ensures KeyLess(a, b) || KeyLess(b, a) || a == b
  {
    if a.Numbered? && b.Numbered? {
      StrLessTotal(a.letter, b.letter);
    } else if a.Unnumbered? && b.Unnumbered? {
      StrLessTotal(a.column, b.column);
    }
  }

  /** Non-decreasing by key. */
  predicate SortedByKey(cs: seq<string>) {
    forall i, j :: 0 <= i < j < |cs| ==> !KeyLess(SplitKey(cs[j]), SplitKey(cs[i]))
  }

  /** Insert `c` after every column whose key is not greater than its key. */
  function InsertStable(cs: seq<string>, c: string): (r: seq<string>)
    ensures multiset(r) == multiset(cs) + multiset{c}
  {
    if cs == [] || !KeyLess(SplitKey(c), SplitKey(cs[|cs| - 1])) then cs + [c]
    else
      var init := cs[..|cs| - 1];
      assert cs == init + [cs[|cs| - 1]];
      InsertStable(init, c) + [cs[|cs| - 1]]
  }

  /** `sorted(columns, key=split_key)`: a stable sort, here by insertion. */
  function SortColumns(cs: seq<string>): (r: seq<string>)
    ensures multiset(r) == multiset(cs)
  {
    if cs == [] then []
    else
      var init := cs[..|cs| - 1];
      assert cs == init + [cs[|cs| - 1]];
      InsertStable(SortColumns(init), cs[|cs| - 1])
  }

  lemma {:induction false} InsertStableSorted(cs: seq<string>, c: string)
    requires SortedByKey(cs)
    ensures SortedByKey(InsertStable(cs, c))
  {
    var r := InsertStable(cs, c);
    if cs == [] {
    } else if !KeyLess(SplitKey(c), SplitKey(cs[|cs| - 1])) {
      var last := cs[|cs| - 1];
      forall i | 0 <= i < |cs|
        ensures !KeyLess(SplitKey(c), SplitKey(cs[i]))
      {
        if i < |cs| - 1 && KeyLess(SplitKey(c), SplitKey(cs[i])) {
          KeyLessTotal(SplitKey(cs[i]), SplitKey(last));
          if KeyLess(SplitKey(cs[i]), SplitKey(last)) {
            KeyLessTransitive(SplitKey(c), SplitKey(cs[i]), SplitKey(last));
          }
        }
      }
      assert forall i :: 0 <= i < |cs| ==> r[i] == cs[i];
    } else {
      var init := cs[..|cs| - 1];
      var last := cs[|cs| - 1];
      var s := InsertStable(init, c);
      InsertStableSorted(init, c);
      assert r == s + [last];
      forall i | 0 <= i < |s|
        ensures !KeyLess(SplitKey(last), SplitKey(s[i]))
      {
        assert s[i] in multiset(s);
        if s[i] != c {
          assert s[i] in multiset(init);
          var j :| 0 <= j < |init| && init[j] == s[i];
          assert cs[j] == s[i];
        } else {
          KeyLessAsymmetric(SplitKey(c), SplitKey(last));
        }
      }
    }
  }

  /** The sorted columns are ordered by key. */
  lemma {:induction false} SortColumnsSorted(cs: seq<string>)
    ensures SortedByKey(SortColumns(cs))
  {
    if cs != [] {
      SortColumnsSorted(cs[..|cs| - 1]);
      InsertStableSorted(SortColumns(cs[..|cs| - 1]), cs[|cs| - 1]);
    }
  }

  /** The columns whose key is `k`, in order. */
  function WithKey(cs: seq<string>, k: SortKey): seq<string> {
    if cs == [] then []
    else WithKey(cs[..|cs| - 1], k) + (if SplitKey(cs[|cs| - 1]) == k then [cs[|cs| - 1]] else [])
  }

  lemma WithKeySnoc(cs: seq<string>, c: string, k: SortKey)
    ensures WithKey(cs + [c], k) == WithKey(cs, k) + (if SplitKey(c) == k then [c] else [])
  {
    assert (cs + [c])[..|cs|] == cs;
  }

  lemma {:induction false} InsertStableWithKey(cs: seq<string>, c: string, k: SortKey)
    ensures WithKey(InsertStable(cs, c), k) == WithKey(cs, k) + (if SplitKey(c) == k then [c] else [])
  {
    if cs == [] || !KeyLess(SplitKey(c), SplitKey(cs[|cs| - 1])) {
      WithKeySnoc(cs, c, k);
    } else {
      var init := cs[..|cs| - 1];
      var last := cs[|cs| - 1];
      var s := InsertStable(init, c);
      assert InsertStable(cs, c) == s + [last];
      InsertStableWithKey(init, c, k);
      WithKeySnoc(s, last, k);
      var kc, kl := SplitKey(c), SplitKey(last);
      assert KeyLess(kc, kl);
      KeyLessAsymmetric(kc, kl);
      assert kc != kl;
      var fc := if kc == k then [c] else [];
      var fl := if kl == k then [last] else [];
      SwapEmpty(WithKey(init, k), fc, fl);
    }
  }

  /** Appending two sequences, one of them empty, in either order gives the same. */
  lemma SwapEmpty<T>(w: seq<T>, a: seq<T>, b: seq<T>)
    requires a == [] || b == []
    ensures w + a + b == w + b + a
  {
    if a == [] {
      assert w + a == w;
    } else {
      assert w + b == w;
    }
  }

  /** The sort is stable: the columns sharing a key keep their relative order. */
  lemma {:induction false} SortColumnsStable(cs: seq<string>, k: SortKey)
    ensures WithKey(SortColumns(cs), k) == WithKey(cs, k)
  {
    if cs != [] {
      var init := cs[..|cs| - 1];
      SortColumnsStable(init, k);
      InsertStableWithKey(SortColumns(init), cs[|cs| - 1], k);
    }
  }

  /** The DataFrame `write_csv` returns: the rows, one per element, and the columns
      Name, Chain, Score followed by the other columns sorted by `split_key`. With no
      element the frame has no column, and selecting the three raises `KeyError`. */
  function LegacyFrame(ls: seq<Element>): Result<Frame> {
    var rows :- MapResult(ls, LegacyRow);
    if rows == [] then Err(KeyError("Name"))
    else Ok(Frame(FrameMeta + SortColumns(NonMeta(FrameColumns(rows))), rows))
  }

  /** `list_to.write_csv`: the row loop, then the DataFrame with its columns sorted. */
  method LegacyWriteCsv(ls: seq<Element>) returns (r: Result<Frame>)
    ensures r == LegacyFrame(ls)
  {
    var rows: seq<Dict<string, Value>> := [];
    var i := 0;
    while i < |ls|
      invariant 0 <= i <= |ls|
      invariant MapResult(ls[..i], LegacyRow) == Ok(rows)
    {
      MapResultStep(ls, LegacyRow, i);
      var row := LegacyRowOf(ls[i]);
      if row.Err? {
        MapResultPrefixError(ls, LegacyRow, i + 1);
        return Err(row.error);
      }
      rows := rows + [row.value];
      i := i + 1;
    }
    assert ls[..i] == ls;
    if rows == [] {
      return Err(KeyError("Name"));
    }
    var columns := FrameMeta + SortColumns(NonMeta(FrameColumns(rows)));
    r := Ok(Frame(columns, rows));
  }

  /** The body of the row loop: the three lookups, then the residues unless the chain
      is `F`. */
  method LegacyRowOf(e: Element) returns (r: Result<Dict<string, Value>>)
    ensures r == LegacyRow(e)
  {
    var (nums, meta) := e;
    var name := Lookup(meta, "query_name");
    var chain := Lookup(meta, "chain_type");
    var score := Lookup(meta, "score");
    if name.Err? || chain.Err? || score.Err? {
      var err := if name.Err? then name.error else if chain.Err? then chain.error else score.error;
      return Err(err);
    }
    var rowDict := LegacyHead(name.value, chain.value, score.value);
    if chain.value != Text("F") {
      rowDict := AddResidues(rowDict, nums);
    }
    r := Ok(rowDict);
  }

  /** The residue loop: each residue's entry is set in turn, a repeated key overwriting
      the earlier value in place. */
  method AddResidues(row: Dict<string, Value>, nums: Numbering) returns (r: Dict<string, Value>)
    ensures r == Update(row, ResidueEntries(nums))
  {
    r := row;
    ghost var es := ResidueEntries(nums);
    ghost var done: seq<(string, Value)> := [];
    var k := 0;
    while k < |nums|
      invariant 0 <= k <= |nums|
      invariant done == es[..k]
      invariant r == Update(row, done)
    {
      var key := KeyString(nums[k].0);
      var value := Strip(nums[k].1);
      assert es[k] == (key, Text(value));
      UpdateStep(row, es, k);
      r := Set(r, key, Text(value));
      done := done + [es[k]];
      k := k + 1;
    }
    assert es[..k] == es;
  }

  lemma UpdateStep<K, V>(m: Dict<K, V>, items: seq<(K, V)>, k: nat)
    requires k < |items|
    ensures items[..k] + [items[k]] == items[..k + 1]
    ensures Update(m, items[..k + 1]) == Set(Update(m, items[..k]), items[k].0, items[k].1)
  {
    TakeSnoc(items, k);
    UpdateSnoc(m, items[..k], items[k]);
  }

  /** The first three entries of every row. */
  function LegacyHead(name: Value, chain: Value, score: Value): Dict<string, Value> {
    [("Name", name), ("Chain", chain), ("Score", score)]
  }

  lemma TakeSnoc<T>(s: seq<T>, k: nat)
    requires k < |s|
    ensures s[..k + 1] == s[..k] + [s[k]]
  {
  }

  /** A row is made exactly when the element's metadata has a query name, a chain type
      and a score. */
  lemma LegacyRowOk(e: Element)
    ensures LegacyRow(e).Ok? <==>
              "query_name" in Keys(e.1) && "chain_type" in Keys(e.1) && "score" in Keys(e.1)
  {
  }

  /** The row when the three are found: the head, then the residues unless the chain is
      `"F"`. */
  lemma LegacyRowValue(e: Element)
    requires LegacyRow(e).Ok?
    ensures var chain := Lookup(e.1, "chain_type").value;
            var head := LegacyHead(Lookup(e.1, "query_name").value, chain, Lookup(e.1, "score").value);
            LegacyRow(e).value == if chain == Text("F") then head else Update(head, ResidueEntries(e.0))
  {
  }

  /** A row's Name, Chain and Score are the element's query name, chain type and score.
      A failed (`"F"`) row has only these three columns; any other row adds one column
      per residue key, holding the stripped letter of the last residue with that key. */
  lemma LegacyRowSpec(e: Element, c: string)
    requires LegacyRow(e).Ok?
    ensures var row := LegacyRow(e).value;
            && Get(row, "Name") == Get(e.1, "query_name")
            && Get(row, "Chain") == Get(e.1, "chain_type")
            && Get(row, "Score") == Get(e.1, "score")
            && (Get(e.1, "chain_type") == Some(Text("F")) ==> Keys(row) == FrameMeta)
            && (Get(e.1, "chain_type") != Some(Text("F")) ==>
                  && Keys(row) == AppendNew(FrameMeta, Keys(ResidueEntries(e.0)))
                  && (c !in FrameMeta ==> Get(row, c) == LastValue(ResidueEntries(e.0), c)))
  {
    var name, chain, score := Lookup(e.1, "query_name").value, Lookup(e.1, "chain_type").value, Lookup(e.1, "score").value;
    var head := LegacyHead(name, chain, score);
    LegacyRowValue(e);
    LegacyHeadSpec(name, chain, score);
    if chain != Text("F") {
      LegacyResiduesKeys(head, e.0);
      if c !in FrameMeta {
        LegacyResiduesGet(head, e.0, c);
      }
    }
  }

  lemma LegacyHeadSpec(name: Value, chain: Value, score: Value)
    ensures var head := LegacyHead(name, chain, score);
            && Keys(head) == FrameMeta && IsDict(head)
            && Get(head, "Name") == Some(name)
            && Get(head, "Chain") == Some(chain)
            && Get(head, "Score") == Some(score)
  {
    var head := LegacyHead(name, chain, score);
    assert Keys(head) == FrameMeta;
    FrameMetaDistinct();
    GetAt(head, 0);
    GetAt(head, 1);
    GetAt(head, 2);
  }

  /** The residue entries keep the head's three entries and add the residue keys. */
  lemma LegacyResiduesKeys(head: Dict<string, Value>, nums: Numbering)
    requires Keys(head) == FrameMeta
    ensures Keys(Update(head, ResidueEntries(nums))) == AppendNew(FrameMeta, Keys(ResidueEntries(nums)))
    ensures forall m :: m in FrameMeta ==> Get(Update(head, ResidueEntries(nums)), m) == Get(head, m)
  {
    UpdateKeys(head, ResidueEntries(nums));
    forall m | m in FrameMeta
      ensures Get(Update(head, ResidueEntries(nums)), m) == Get(head, m)
    {
      MetaNotResidueShaped(m);
      ResiduesKeepOther(head, nums, m);
    }
  }

  /** Any other column holds the stripped letter of the last residue with that key. */
  lemma LegacyResiduesGet(head: Dict<string, Value>, nums: Numbering, c: string)
    requires Keys(head) == FrameMeta && c !in FrameMeta
    ensures Get(Update(head, ResidueEntries(nums)), c) == LastValue(ResidueEntries(nums), c)
  {
    var es := ResidueEntries(nums);
    UpdateGet(head, es, c);
    if LastValue(es, c).None? {
      assert c !in Keys(head);
    }
  }

  lemma FrameMetaDistinct()
    ensures Distinct(FrameMeta)
  {
    assert FrameMeta[1][0] != FrameMeta[2][0];
    assert |FrameMeta[0]| != |FrameMeta[1]|;
  }

  /** Residue keys start with a digit or a minus sign. */
  predicate ResidueShaped(c: string) {
    c != [] && (c[0] == '-' || IsDigit(c[0]))
  }

  lemma MetaNotResidueShaped(m: string)
    requires m in FrameMeta
    ensures !ResidueShaped(m)
  {
  }

  /** No residue entry has a name that is not residue-shaped, such as Name, Chain or
      Score. */
  lemma ResidueKeysShaped(nums: Numbering, m: string)
    requires !ResidueShaped(m)
    ensures forall j :: 0 <= j < |ResidueEntries(nums)| ==> ResidueEntries(nums)[j].0 != m
  {
    forall j | 0 <= j < |nums|
      ensures ResidueEntries(nums)[j].0 != m
    {
      assert ResidueEntries(nums)[j].0 == KeyString(nums[j].0);
    }
  }

  /** Updating with the residue entries leaves a column that is not residue-shaped as
      it was. */
  lemma ResiduesKeepOther(head: Dict<string, Value>, nums: Numbering, m: string)
    requires !ResidueShaped(m)
    ensures Get(Update(head, ResidueEntries(nums)), m) == Get(head, m)
  {
    var es := ResidueEntries(nums);
    UpdateGet(head, es, m);
    ResidueKeysShaped(nums, m);
    LastValueAbsent(es, m);
  }

  /** One row per element, in order, each the row of its element. */
  lemma LegacyFrameRows(ls: seq<Element>, i: nat)
    requires LegacyFrame(ls).Ok? && i < |ls|
    ensures |LegacyFrame(ls).value.rows| == |ls|
    ensures LegacyRow(ls[i]) == Ok(LegacyFrame(ls).value.rows[i])
  {
    var rows := MapResult(ls, LegacyRow);
    assert LegacyFrame(ls).value.rows == rows.value;
    MapResultOk(ls, LegacyRow);
  }

  /** The frame exists exactly when there is an element and every element has a query
      name, a chain type and a score. */
  lemma LegacyFrameOk(ls: seq<Element>)
    ensures LegacyFrame(ls).Ok? <==>
              && |ls| > 0
              && forall i :: 0 <= i < |ls| ==>
                   "query_name" in Keys(ls[i].1) && "chain_type" in Keys(ls[i].1) && "score" in Keys(ls[i].1)
  {
    MapResultOk(ls, LegacyRow);
    forall i | 0 <= i < |ls| {
      LegacyRowOk(ls[i]);
    }
  }

  /** Every key of every row is a column once. */
  lemma {:induction false} FrameColumnsSpec(rows: seq<Dict<string, Value>>)
    ensures Distinct(FrameColumns(rows))
    ensures forall c :: c in FrameColumns(rows) <==> exists i :: 0 <= i < |rows| && c in Keys(rows[i])
  {
    if rows != [] {
      var init := rows[..|rows| - 1];
      FrameColumnsSpec(init);
      AppendNewDistinct(FrameColumns(init), Keys(rows[|rows| - 1]));
      AppendNewMembers(FrameColumns(init), Keys(rows[|rows| - 1]));
      forall c | c in FrameColumns(rows)
        ensures exists i :: 0 <= i < |rows| && c in Keys(rows[i])
      {
        if c in FrameColumns(init) {
          var i :| 0 <= i < |init| && c in Keys(init[i]);
          assert rows[i] == init[i];
        }
      }
      forall c | exists i :: 0 <= i < |rows| && c in Keys(rows[i])
        ensures c in FrameColumns(rows)
      {
        var i :| 0 <= i < |rows| && c in Keys(rows[i]);
        if i < |rows| - 1 {
          assert init[i] == rows[i];
        }
      }
    }
  }

  /** The columns: Name, Chain, Score, then every other key of every row once, sorted
      by `split_key`. */
  lemma LegacyFrameColumns(ls: seq<Element>)
    requires LegacyFrame(ls).Ok?
    ensures var f := LegacyFrame(ls).value;
            && f.columns[..3] == FrameMeta
            && SortedByKey(f.columns[3..])
            && multiset(f.columns[3..]) == multiset(NonMeta(FrameColumns(f.rows)))
            && (forall c :: c in f.columns[3..] <==>
                  c !in FrameMeta && exists i :: 0 <= i < |f.rows| && c in Keys(f.rows[i]))
  {
    var f := LegacyFrame(ls).value;
    var rest := SortColumns(NonMeta(FrameColumns(f.rows)));
    assert f.columns == FrameMeta + rest;
    assert f.columns[3..] == rest;
    SortColumnsSorted(NonMeta(FrameColumns(f.rows)));
    FrameColumnsSpec(f.rows);
    assert forall c :: c in rest <==> c in multiset(rest);
    assert forall c :: c in NonMeta(FrameColumns(f.rows)) <==> c in multiset(NonMeta(FrameColumns(f.rows)));
  }

  /** In key-sorted columns, every column that does not start with a digit comes after
      every column that does. */
  lemma UnnumberedLast(cs: seq<string>, i: nat, j: nat)
    requires SortedByKey(cs) && i < j < |cs|
    requires cs[i] == [] || !IsDigit(cs[i][0])
    ensures cs[j] == [] || !IsDigit(cs[j][0])
  {
    assert !KeyLess(SplitKey(cs[j]), SplitKey(cs[i]));
  }

  /** A residue key with a non-negative number and a non-digit insertion sorts under
      its number and its insertion when that is a capital letter; a blank or lower-case
      insertion gives the bare number's key, so those columns rank before capitals and
      tie among themselves. */
  lemma SplitKeyOfResidue(k: ResidueKey)
    requires k.n >= 0 && !IsDigit(k.ins)
    ensures SplitKey(KeyString(k)) == Numbered(k.n, if 'A' <= k.ins <= 'Z' then [k.ins] else [])
  {
    var digits := NatToString(k.n);
    var s := KeyString(k);
    assert s == digits + Strip([k.ins]);
    DigitPrefixOf(digits, Strip([k.ins]));
    DigitsValueOfNatToString(k.n);
    if IsSpace(k.ins) {
      assert Strip([k.ins]) == [];
    } else {
      assert Strip([k.ins]) == [k.ins];
    }
  }

  lemma {:induction false} DigitPrefixOf(digits: string, rest: string)
    requires AllDigits(digits)
    requires rest == [] || !IsDigit(rest[0])
    ensures DigitPrefix(digits + rest) == digits
  {
    if digits != [] {
      assert (digits + rest)[1..] == digits[1..] + rest;
      DigitPrefixOf(digits[1..], rest);
    } else {
      assert digits + rest == rest;
    }
  }

  /** At every non-negative residue number the legacy order puts the bare number
      first and then the capital insertions ascending (`112`, `112A`, `112B`), unlike
      the IMGT order at 33, 61 and 112. */
  lemma LegacyOrderAscending(n: int)
    requires n >= 0
    ensures KeyLess(SplitKey(KeyString(ResidueKey(n, ' '))), SplitKey(KeyString(ResidueKey(n, 'A'))))
    ensures KeyLess(SplitKey(KeyString(ResidueKey(n, 'A'))), SplitKey(KeyString(ResidueKey(n, 'B'))))
  {
    SplitKeyOfResidue(ResidueKey(n, ' '));
    SplitKeyOfResidue(ResidueKey(n, 'A'));
    SplitKeyOfResidue(ResidueKey(n, 'B'));
    assert StrLess("", "A");
    assert StrLess("A", "B");
  }
}
