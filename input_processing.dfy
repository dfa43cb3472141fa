/** Input normalisation: the many shapes a user may hand to the numberer are coerced to
    one ordered name-to-sequence map, and paired sequences written with a delimiter are
    split into their parts. */
module InputProcessing {
  import opened Wrappers
  import opened PyStr
  import opened Dicts
  import opened Records

  /** One element of a list input: a bare sequence string or a `(name, sequence)` tuple. */
  datatype Item = Str(s: string) | Pair(name: string, sequence: string)

  /** The input shapes, one per Python type that `coerce_input` tells apart. `Other` is
      any value that is neither iterable nor a path. */
  datatype Input =
    | PathIn(path: string)
    | StrIn(s: string)
    | TupleIn(name: string, sequence: string)
    | ListIn(items: seq<Item>)
    | DictIn(entries: Dict<string, string>)
    | Other

  const FastaSuffixes: set<string> := {".fasta", ".fas", ".fsa", ".fa", ".faa", ".mpfa"}
  const PirSuffixes: set<string> := {".pir", ".nbrf", ".ali"}
  const SupportedExtensions: set<string> := FastaSuffixes + PirSuffixes

  /** The error for a file name with an unsupported extension: the supported suffixes
      in sorted order. */
  function UnsupportedExtension(name: string): string {
    name
    + " has an unsupported file extension.  These are supported:\n"
    + ".ali, .fa, .faa, .fas, .fasta, .fsa, .mpfa, .nbrf, .pir\n"
    + "and gzipped equivalents (*.gz, *.z)."
  }

  /** The paired-sequence delimiters `-`, `\` and `/`. */
  predicate IsDelimiter(c: char) {
    c == '-' || c == '\\' || c == '/'
  }

  /** `re.split` on a one-character class: the runs between separators, empty runs
      included. */
  function SplitWhere(s: string, sep: char -> bool): (parts: seq<string>)
    ensures |parts| >= 1
    decreases |s|
  {
    if s == [] then [""]
    else
      var rest := SplitWhere(s[1..], sep);
      if sep(s[0]) then [""] + rest else [[s[0]] + rest[0]] + rest[1..]
  }

  /** How many characters of `s` satisfy `p`. */
  function CountWhere(s: string, p: char -> bool): nat {
    if s == [] then 0 else (if p(s[0]) then 1 else 0) + CountWhere(s[1..], p)
  }

  /** The characters of `s` that do not satisfy `p`, in order. */
  function Without(s: string, p: char -> bool): string {
    if s == [] then [] else (if p(s[0]) then [] else [s[0]]) + Without(s[1..], p)
  }

  function Concat(parts: seq<string>): string {
    if parts == [] then [] else parts[0] + Concat(parts[1..])
  }

  predicate NoneWhere(s: string, p: char -> bool) {
    forall i :: 0 <= i < |s| ==> !p(s[i])
  }

  /** Splitting gives one part more than there are separators; no part holds a
      separator; and the parts laid end to end are the string without its separators. */
  lemma {:induction false} SplitWhereParts(s: string, sep: char -> bool)
    ensures |SplitWhere(s, sep)| == CountWhere(s, sep) + 1
    ensures forall i :: 0 <= i < |SplitWhere(s, sep)| ==> NoneWhere(SplitWhere(s, sep)[i], sep)
    ensures Concat(SplitWhere(s, sep)) == Without(s, sep)
    decreases |s|
  {
    if s != [] {
      var rest := SplitWhere(s[1..], sep);
      SplitWhereParts(s[1..], sep);
      if sep(s[0]) {
        assert SplitWhere(s, sep) == [""] + rest;
        assert Concat([""] + rest) == "" + Concat(rest);
        assert ([""] + rest)[1..] == rest;
      } else {
        var parts := [[s[0]] + rest[0]] + rest[1..];
        assert SplitWhere(s, sep) == parts;
        assert parts[1..] == rest[1..];
        assert Concat(rest) == rest[0] + Concat(rest[1..]);
        assert Concat(parts) == [s[0]] + rest[0] + Concat(rest[1..]);
        forall i | 0 <= i < |parts|
          ensures NoneWhere(parts[i], sep)
        {
          if i > 0 {
            assert parts[i] == rest[i];
          }
        }
      }
    }
  }

  /** A string with no separator is not split. */
  lemma {:induction false} SplitWhereNone(s: string, sep: char -> bool)
    requires NoneWhere(s, sep)
    ensures SplitWhere(s, sep) == [s]
    decreases |s|
  {
    if s != [] {
      SplitWhereNone(s[1..], sep);
      assert [s[0]] + s[1..] == s;
    }
  }

  // ---------------------------------------------------------------------------------
  // Paths

  predicate IsSlash(c: char) {
    c == '/'
  }

  predicate IsDot(c: char) {
    c == '.'
  }

  /** The components of a path string after `PurePath`: empty and `.` parts dropped. */
  function PathParts(path: string): seq<string> {
    Filtered(SplitWhere(path, IsSlash))
  }

  function Filtered(parts: seq<string>): seq<string> {
    if parts == [] then []
    else (if parts[0] == "" || parts[0] == "." then [] else [parts[0]]) + Filtered(parts[1..])
  }

  /** `PurePath(path).name`: the last component, or empty. */
  function PathName(path: string): string {
    var parts := PathParts(path);
    if parts == [] then "" else parts[|parts| - 1]
  }

  /** `name.rfind(c)`: the last index of `c`, or -1. */
  function RFind(name: string, c: char): (i: int)
    ensures -1 <= i < |name|
    ensures i >= 0 ==> name[i] == c
    ensures forall j :: i < j < |name| ==> name[j] != c
  {
    if name == [] then -1
    else if name[|name| - 1] == c then |name| - 1
    else RFind(name[..|name| - 1], c)
  }

  /** `PurePath.suffix` of a file name: from its last dot, unless that dot is the first
      or the last character. */
  function Suffix(name: string): (s: string)
    ensures s != [] ==> s[0] == '.' && |s| >= 2
  {
    var i := RFind(name, '.');
    if 0 < i < |name| - 1 then name[i..] else ""
  }

  /** `PurePath.suffixes` of a file name: none when it ends with a dot; otherwise one per
      dot after the leading dots are dropped, each with its dot. */
  function Suffixes(name: string): seq<string> {
    if name != [] && name[|name| - 1] == '.' then []
    else
      var parts := SplitWhere(TrimLeft(name, IsDot), IsDot);
      seq(|parts| - 1, i requires 0 <= i < |parts| - 1 => "." + parts[i + 1])
  }

  /** The check at the head of `file_input`: some suffix of the name is a FASTA or PIR
      suffix. */
  predicate Accepts(path: string) {
    var sfx := Suffixes(PathName(path));
    exists i :: 0 <= i < |sfx| && sfx[i] in SupportedExtensions
  }

  /** The entries with a non-empty header and a non-empty sequence, in file order. */
  function NonEmptyEntries(entries: seq<(string, string)>): (r: seq<(string, string)>)
    ensures forall i :: 0 <= i < |r| ==> r[i].0 != "" && r[i].1 != ""
    ensures forall e :: e in r <==> e in entries && e.0 != "" && e.1 != ""
  {
    if entries == [] then []
    else
      (if entries[0].0 != "" && entries[0].1 != "" then [entries[0]] else [])
      + NonEmptyEntries(entries[1..])
  }

  /** `file_input`: the file's `(header, sequence)` entries, read by `read`, filtered and
      gathered into a dict; or `ValueError` for an unsupported extension. */
  function FileInput(path: string, read: string -> seq<(string, string)>): (r: Result<SeqMap>)
    ensures r.Err? <==> !Accepts(path)
    ensures r.Err? ==> r.error == ValueError(UnsupportedExtension(PathName(path)))
  {
    if Accepts(path) then Ok(FromPairs(NonEmptyEntries(read(path))))
    else Err(ValueError(UnsupportedExtension(PathName(path))))
  }

  /** Every entry `file_input` keeps has a non-empty name and a non-empty sequence, and
      every such entry of the file is kept under its name. The keys are the kept headers in
      order of first appearance, and each holds the sequence of the last entry with that
      header, as building a dict entry by entry does. */
  lemma FileInputEntries(path: string, read: string -> seq<(string, string)>)
    requires Accepts(path)
    ensures FileInput(path, read).Ok?
    ensures var m := FileInput(path, read).value;
            && (forall i :: 0 <= i < |m| ==> m[i].0 != "" && m[i].1 != "")
            && (forall e :: e in read(path) && e.0 != "" && e.1 != "" ==> e.0 in Keys(m))
    ensures Keys(FileInput(path, read).value) == AppendNew([], Keys(NonEmptyEntries(read(path))))
    ensures forall k :: Get(FileInput(path, read).value, k) == LastValue(NonEmptyEntries(read(path)), k)
  {
    var kept := NonEmptyEntries(read(path));
    var m := FromPairs(kept);
    assert FileInput(path, read).value == m;
    UpdateKeys([], kept);
    forall k
      ensures Get(m, k) == LastValue(kept, k)
    {
      UpdateGet([], kept, k);
    }
    forall i | 0 <= i < |m|
      ensures m[i].0 != "" && m[i].1 != ""
    {
      FromPairsMembers(kept, m[i]);
    }
    forall e | e in read(path) && e.0 != "" && e.1 != ""
      ensures e.0 in Keys(m)
    {
      FromPairsKeys(kept, e);
    }
  }

  /** Every key of the items is a key of `dict(items)`. */
  lemma FromPairsKeys<K, V>(items: seq<(K, V)>, e: (K, V))
    requires e in items
    ensures e.0 in Keys(FromPairs(items))
  {
    UpdateKeys([], items);
    AppendNewMembers([], Keys(items));
    var j :| 0 <= j < |items| && items[j] == e;
    assert Keys(items)[j] == e.0;
  }

  /** Every item of `dict(items)` carries a key and a value some item carried. */
  lemma {:induction false} UpdateMembers<K, V>(m: Dict<K, V>, items: seq<(K, V)>, e: (K, V))
    requires e in Update(m, items)
    ensures e in m || e in items
    decreases |items|
  {
    if items != [] {
      var m' := Set(m, items[0].0, items[0].1);
      UpdateMembers(m', items[1..], e);
      if e in m' {
        SetMembers(m, items[0].0, items[0].1, e);
      }
    }
  }

  lemma {:induction false} SetMembers<K, V>(m: Dict<K, V>, k: K, v: V, e: (K, V))
    requires e in Set(m, k, v)
    ensures e in m || e == (k, v)
    decreases |m|
  {
    if m != [] && m[0].0 != k && e != m[0] {
      SetMembers(m[1..], k, v, e);
    }
  }

  lemma FromPairsMembers<K, V>(items: seq<(K, V)>, e: (K, V))
    requires e in FromPairs(items)
    ensures e in items
  {
    UpdateMembers([], items, e);
  }

  /** Splitting at a first separator: the run before it, then the split of the rest. */
  lemma SplitWhereAt(a: string, c: char, b: string, sep: char -> bool)
    requires NoneWhere(a, sep) && sep(c)
    ensures SplitWhere(a + [c] + b, sep) == [a] + SplitWhere(b, sep)
    decreases |a|
  {
    if a == [] {
      assert a + [c] + b == [c] + b;
      assert ([c] + b)[1..] == b;
    } else {
      var s := a + [c] + b;
      assert s[1..] == a[1..] + [c] + b;
      SplitWhereAt(a[1..], c, b, sep);
      assert [a[0]] + a[1..] == a;
    }
  }

  /** A path whose only suffix is not a FASTA or PIR suffix is refused with
      `ValueError`, naming the file. */
  lemma UnsupportedSuffixRefused(read: string -> seq<(string, string)>)
    ensures FileInput("a.txt", read) == Err(ValueError(UnsupportedExtension("a.txt")))
  {
    TxtRefused();
    PlainFileName("a.txt");
  }

  lemma TxtRefused()
    ensures !Accepts("a.txt")
  {
    PlainFileName("a.txt");
    TxtSuffixes();
    TxtUnsupported();
  }

  lemma TxtUnsupported()
    ensures ".txt" !in SupportedExtensions
  {
    assert ".txt"[1] == 't';
  }

  lemma PlainFileName(name: string)
    requires NoneWhere(name, IsSlash) && name != "" && name != "."
    ensures PathName(name) == name
  {
    SplitWhereNone(name, IsSlash);
    assert [name][1..] == [];
    assert Filtered([name]) == [name] + Filtered([]);
  }

  lemma TxtSuffixes()
    ensures Suffixes("a.txt") == [".txt"]
  {
    assert TrimLeft("a.txt", IsDot) == "a.txt";
    SplitWhereNone("txt", IsDot);
    assert "a.txt" == "a" + ['.'] + "txt";
    SplitWhereAt("a", '.', "txt", IsDot);
    var parts := SplitWhere("a.txt", IsDot);
    assert parts == ["a", "txt"];
    var sfx := Suffixes("a.txt");
    assert |sfx| == 1 && sfx[0] == "." + parts[1];
    assert "." + "txt" == ".txt";
  }

  /** A gzipped FASTA file in a directory is accepted: any of the name's suffixes may be
      the supported one. */
  lemma GzippedFastaAccepted()
    ensures Accepts("d/a.fa.gz")
  {
    NestedFileName();
    GzSuffixes();
    assert ".fa" in SupportedExtensions;
  }

  lemma NestedFileName()
    ensures PathName("d/a.fa.gz") == "a.fa.gz"
  {
    NestedSplit();
    FilteredKeeps(["d", "a.fa.gz"]);
  }

  lemma NestedSplit()
    ensures SplitWhere("d/a.fa.gz", IsSlash) == ["d", "a.fa.gz"]
  {
    SplitWhereNone("a.fa.gz", IsSlash);
    SplitWhereAt("d", '/', "a.fa.gz", IsSlash);
    NestedPathJoined();
  }

  lemma NestedPathJoined()
    ensures "d" + ['/'] + "a.fa.gz" == "d/a.fa.gz"
  {
  }

  /** Parts that are neither empty nor `.` are all kept. */
  lemma {:induction false} FilteredKeeps(parts: seq<string>)
    requires forall i :: 0 <= i < |parts| ==> |parts[i]| > 0 && parts[i] != "."
    ensures Filtered(parts) == parts
  {
    if parts != [] {
      FilteredKeeps(parts[1..]);
      assert [parts[0]] + parts[1..] == parts;
    }
  }

  lemma GzSuffixes()
    ensures |Suffixes("a.fa.gz")| == 2 && Suffixes("a.fa.gz")[0] == ".fa"
  {
    assert TrimLeft("a.fa.gz", IsDot) == "a.fa.gz";
    GzParts();
    var sfx := Suffixes("a.fa.gz");
    assert |sfx| == 2 && sfx[0] == "." + "fa";
    assert "." + "fa" == ".fa";
  }

  lemma GzParts()
    ensures SplitWhere("a.fa.gz", IsDot) == ["a", "fa", "gz"]
  {
    SplitWhereNone("gz", IsDot);
    assert "fa.gz" == "fa" + ['.'] + "gz";
    SplitWhereAt("fa", '.', "gz", IsDot);
    assert "a.fa.gz" == "a" + ['.'] + "fa.gz";
    SplitWhereAt("a", '.', "fa.gz", IsDot);
  }

  // ---------------------------------------------------------------------------------
  // coerce_input

  /** Whether `dict()` can take the item as one name-sequence pair: a tuple, or a string
      of exactly two characters. */
  predicate PairLike(item: Item) {
    item.Pair? || |item.s| == 2
  }

  /** The pair `dict()` reads from a pair-like item. */
  function AsPair(item: Item): (string, string)
    requires PairLike(item)
  {
    match item
    case Pair(name, sequence) => (name, sequence)
    case Str(s) => ([s[0]], [s[1]])
  }

  function AsPairs(items: seq<Item>): seq<(string, string)>
    requires forall i :: 0 <= i < |items| ==> PairLike(items[i])
  {
    seq(|items|, i requires 0 <= i < |items| => AsPair(items[i]))
  }

  /** The name `coerce_input` gives the i-th (from 1) of `count` bare strings. */
  function SequenceName(i: nat, count: nat): string {
    "Sequence " + ZeroPad(i, Width(count))
  }

  /** The list branch: `{f"Sequence {i:0{width}d}": seq for i, seq in enumerate(items, 1)}`. */
  function NameSequences(items: seq<Item>): SeqMap
    requires forall i :: 0 <= i < |items| ==> items[i].Str?
  {
    FromPairs(NamedPairs(items))
  }

  function NamedPairs(items: seq<Item>): seq<(string, string)>
    requires forall i :: 0 <= i < |items| ==> items[i].Str?
  {
    seq(|items|, i requires 0 <= i < |items| => (SequenceName(i + 1, |items|), items[i].s))
  }

  /** The names given to a list's strings are distinct. */
  lemma NamedPairsDistinct(items: seq<Item>)
    requires forall i :: 0 <= i < |items| ==> items[i].Str?
    ensures Distinct(Keys(NamedPairs(items)))
  {
    var names := Keys(NamedPairs(items));
    assert forall i :: 0 <= i < |names| ==> names[i] == SequenceName(i + 1, |items|);
    forall i, j | 0 <= i < j < |names|
      ensures names[i] != names[j]
    {
      SequenceNamesDistinct(i + 1, j + 1, |items|);
    }
  }

  /** A list `dict()` cannot read, because some item is a string that is not two
      characters long, which still holds a tuple: the tuple reaches the sequence
      splitter, which calls `strip` on it. */
  predicate MixedList(items: seq<Item>) {
    && (exists i :: 0 <= i < |items| && !PairLike(items[i]))
    && (exists i :: 0 <= i < |items| && items[i].Pair?)
  }

  /** The empty string names no file, so it has no suffix. */
  lemma EmptyNameHasNoSuffix()
    ensures Suffix(PathName("")) == []
  {
    assert SplitWhere("", IsSlash) == [""];
    assert Filtered([""]) == [] + Filtered([]);
  }

  /** `coerce_input`. `dict(input)` is tried first; only when it raises does the input's
      type choose a branch: `TypeError` for a path (read as a file) or for anything else
      (refused), `ValueError` for a string, a tuple or a list. */
  function CoerceInput(input: Input, read: string -> seq<(string, string)>): (r: Result<SeqMap>)
  {
    match input
    case DictIn(entries) => Ok(FromPairs(entries))
    case PathIn(path) => FileInput(path, read)
    case Other => Err(TypeError("Invalid input type."))
    case StrIn(s) =>
      if s == [] then Ok([])
      else if Suffix(PathName(s)) != [] then FileInput(s, read)
      else Ok([("Sequence", s)])
    case TupleIn(name, sequence) =>
      if |name| == 2 && |sequence| == 2 then
        Ok(FromPairs([([name[0]], [name[1]]), ([sequence[0]], [sequence[1]])]))
      else Ok([(name, sequence)])
    case ListIn(items) =>
      if forall i :: 0 <= i < |items| ==> PairLike(items[i]) then Ok(FromPairs(AsPairs(items)))
      else if exists i :: 0 <= i < |items| && items[i].Pair? then
        Err(AttributeError("'tuple' object has no attribute 'strip'"))
      else Ok(NameSequences(items))
  }

  /** Coercion fails exactly for a value of no recognised type (`TypeError`), for a
      path, or a string with a suffix, none of whose suffixes is a FASTA or PIR one
      (`ValueError` naming the file), and for a list mixing tuples with strings that
      are not two characters long (`AttributeError`). Dicts, tuples, suffix-less
      strings and every other list are accepted. */
  lemma CoerceInputErrors(input: Input, read: string -> seq<(string, string)>)
    ensures var r := CoerceInput(input, read);
            r.Err? <==>
              || input.Other?
              || (input.PathIn? && !Accepts(input.path))
              || (input.StrIn? && Suffix(PathName(input.s)) != [] && !Accepts(input.s))
              || (input.ListIn? && MixedList(input.items))
    ensures input.Other? ==> CoerceInput(input, read) == Err(TypeError("Invalid input type."))
    ensures var r := CoerceInput(input, read);
            input.PathIn? && r.Err? ==> r.error == ValueError(UnsupportedExtension(PathName(input.path)))
    ensures var r := CoerceInput(input, read);
            input.StrIn? && r.Err? ==> r.error == ValueError(UnsupportedExtension(PathName(input.s)))
    ensures var r := CoerceInput(input, read);
            input.ListIn? && r.Err? ==> r.error.AttributeError?
  {
    if input.StrIn? && input.s == [] {
      EmptyNameHasNoSuffix();
    }
  }

  /** A dict is returned as it is: same pairs, same order. */
  lemma CoerceDict(entries: Dict<string, string>, read: string -> seq<(string, string)>)
    requires IsDict(entries)
    ensures CoerceInput(DictIn(entries), read) == Ok(entries)
  {
    FromPairsOfDistinct(entries);
  }

  /** A list of name-sequence tuples with distinct names is returned as those pairs, in
      list order. */
  lemma CoerceListOfPairs(items: seq<Item>, read: string -> seq<(string, string)>)
    requires forall i :: 0 <= i < |items| ==> items[i].Pair?
    requires forall i, j :: 0 <= i < j < |items| ==> items[i].name != items[j].name
    ensures CoerceInput(ListIn(items), read).Ok?
    ensures var m := CoerceInput(ListIn(items), read).value;
            |m| == |items| && forall i :: 0 <= i < |items| ==> m[i] == (items[i].name, items[i].sequence)
  {
    var pairs := AsPairs(items);
    assert Distinct(Keys(pairs)) by {
      forall i, j | 0 <= i < j < |pairs|
        ensures Keys(pairs)[i] != Keys(pairs)[j]
      {
        assert Keys(pairs)[i] == items[i].name && Keys(pairs)[j] == items[j].name;
      }
    }
    FromPairsOfDistinct(pairs);
  }

  /** A non-empty string without a suffix is one sequence named `Sequence`; a string
      with a suffix is read as a file path. */
  lemma CoerceString(s: string, read: string -> seq<(string, string)>)
    requires s != []
    ensures Suffix(PathName(s)) == [] ==> CoerceInput(StrIn(s), read) == Ok([("Sequence", s)])
    ensures Suffix(PathName(s)) != [] ==> CoerceInput(StrIn(s), read) == FileInput(s, read)
    ensures Suffix(PathName(s)) != [] && !Accepts(s) ==>
              CoerceInput(StrIn(s), read) == Err(ValueError(UnsupportedExtension(PathName(s))))
  {
  }

  /** A peptide string with a dot inside it has a suffix, so it is taken for a file
      name and refused: it is never numbered as a sequence. */
  lemma DottedSequenceRefused(read: string -> seq<(string, string)>)
    ensures CoerceInput(StrIn("EVQL.VES"), read) == Err(ValueError(UnsupportedExtension("EVQL.VES")))
  {
    DottedName();
    DottedSuffixes();
    DottedUnsupported();
  }

  lemma DottedName()
    ensures PathName("EVQL.VES") == "EVQL.VES"
    ensures Suffix("EVQL.VES") == ".VES"
  {
    PlainFileName("EVQL.VES");
    assert RFind("EVQL.VES", '.') == 4;
  }

  lemma DottedUnsupported()
    ensures ".VES" !in SupportedExtensions
  {
    assert ".VES"[1] == 'V';
  }

  lemma DottedSuffixes()
    ensures Suffixes("EVQL.VES") == [".VES"]
  {
    DottedParts();
    var parts := SplitWhere(TrimLeft("EVQL.VES", IsDot), IsDot);
    assert "EVQL.VES"[7] != '.';
    var sfx := Suffixes("EVQL.VES");
    assert |sfx| == 1 && sfx[0] == "." + parts[1];
    assert "." + "VES" == ".VES";
  }

  lemma DottedParts()
    ensures SplitWhere(TrimLeft("EVQL.VES", IsDot), IsDot) == ["EVQL", "VES"]
  {
    assert TrimLeft("EVQL.VES", IsDot) == "EVQL.VES";
    SplitWhereNone("VES", IsDot);
    assert "EVQL.VES" == "EVQL" + ['.'] + "VES";
    SplitWhereAt("EVQL", '.', "VES", IsDot);
  }

  /** A single tuple is a one-entry map, unless both its strings have two characters,
      in which case `dict()` reads each string as a pair of one-character strings: the
      first characters are the keys, and when they are equal the second string's pair
      overwrites the first. */
  lemma CoerceTuple(name: string, sequence: string, read: string -> seq<(string, string)>)
    ensures !(|name| == 2 && |sequence| == 2) ==>
              CoerceInput(TupleIn(name, sequence), read) == Ok([(name, sequence)])
    ensures |name| == 2 && |sequence| == 2 && name[0] != sequence[0] ==>
              CoerceInput(TupleIn(name, sequence), read) ==
              Ok([([name[0]], [name[1]]), ([sequence[0]], [sequence[1]])])
    ensures |name| == 2 && |sequence| == 2 && name[0] == sequence[0] ==>
              CoerceInput(TupleIn(name, sequence), read) == Ok([([sequence[0]], [sequence[1]])])
  {
    if |name| == 2 && |sequence| == 2 {
      var items := [([name[0]], [name[1]]), ([sequence[0]], [sequence[1]])];
      var first := Set([], items[0].0, items[0].1);
      assert first == [items[0]];
      var both := Set(first, items[1].0, items[1].1);
      assert items[1..][1..] == [];
      assert FromPairs(items) == Update(first, items[1..]) == Update(both, []) == both;
      if name[0] == sequence[0] {
        assert both == [items[1]];
      } else {
        assert [name[0]] != [sequence[0]];
        assert both == [items[0]] + Set([], items[1].0, items[1].1) == items;
      }
    }
  }

  /** Two two-character strings with the same first character make a one-entry map. */
  lemma TupleSharedKey(read: string -> seq<(string, string)>)
    ensures CoerceInput(TupleIn("ab", "ac"), read) == Ok([("a", "c")])
  {
    CoerceTuple("ab", "ac", read);
    assert "ab"[0] == "ac"[0];
    assert ["ac"[0]] == "a" && ["ac"[1]] == "c";
  }

  /** A list of bare strings, one of which is not two characters long, is named
      `Sequence i` in list order, with `i` from 1 zero-padded to the digit width of the
      list's length. */
  lemma CoerceListOfStrings(items: seq<Item>, read: string -> seq<(string, string)>)
    requires forall i :: 0 <= i < |items| ==> items[i].Str?
    requires exists i :: 0 <= i < |items| && |items[i].s| != 2
    ensures CoerceInput(ListIn(items), read).Ok?
    ensures var m := CoerceInput(ListIn(items), read).value;
            && |m| == |items|
            && forall i :: 0 <= i < |items| ==> m[i] == (SequenceName(i + 1, |items|), items[i].s)
  {
    var named := NamedPairs(items);
    NamedPairsDistinct(items);
    FromPairsOfDistinct(named);
    CoerceStrings(items, read);
  }

  /** A list of bare strings, one of which is not two characters long, is named. */
  lemma CoerceStrings(items: seq<Item>, read: string -> seq<(string, string)>)
    requires forall i :: 0 <= i < |items| ==> items[i].Str?
    requires exists i :: 0 <= i < |items| && |items[i].s| != 2
    ensures CoerceInput(ListIn(items), read) == Ok(NameSequences(items))
  {
  }

  /** Different positions of a list get different names. */
  lemma SequenceNamesDistinct(i: nat, j: nat, count: nat)
    requires i != j
    ensures SequenceName(i, count) != SequenceName(j, count)
  {
    var a := ZeroPad(i, Width(count));
    var b := ZeroPad(j, Width(count));
    if SequenceName(i, count) == SequenceName(j, count) {
      assert a == SequenceName(i, count)[9..];
      assert b == SequenceName(j, count)[9..];
      ZeroPadInjective(i, j, Width(count));
    }
  }

  /** Where the code and its tests disagree: the code names a lone string `Sequence`,
      where the tests expect `sequence`. */
  lemma LoneStringNameDiffersFromTests(read: string -> seq<(string, string)>)
    ensures CoerceInput(StrIn("test"), read) == Ok([("Sequence", "test")])
    ensures CoerceInput(StrIn("test"), read) != Ok([("sequence", "test")])
  {
    PlainFileName("test");
    assert RFind("test", '.') == -1;
    assert "Sequence"[0] != "sequence"[0];
  }

  /** Where the code and its tests disagree: the code names the strings of a list
      `Sequence 1`, ..., where the tests expect `sequence-1`, .... */
  lemma ListNamesDifferFromTests(read: string -> seq<(string, string)>)
    ensures CoerceInput(ListIn([Str("test")]), read) == Ok([("Sequence 1", "test")])
    ensures CoerceInput(ListIn([Str("test")]), read) != Ok([("sequence-1", "test")])
  {
    assert !PairLike(Str("test"));
    assert [Str("test")][0].s == "test";
    CoerceListOfStrings([Str("test")], read);
    var m := CoerceInput(ListIn([Str("test")]), read).value;
    assert m == [m[0]];
    assert NatToString(1) == "1";
    assert ZeroPad(1, Width(1)) == "1";
    assert SequenceName(1, 1) == "Sequence 1";
    assert "Sequence 1"[0] != "sequence-1"[0];
  }

  /** Because `dict()` is tried first, a list of two-character strings is read as
      one-character name-sequence pairs. */
  lemma TwoCharacterStringsReadAsPairs(read: string -> seq<(string, string)>)
    ensures CoerceInput(ListIn([Str("AB"), Str("CD")]), read) == Ok([("A", "B"), ("C", "D")])
  {
    var items := [Str("AB"), Str("CD")];
    assert PairLike(items[0]) && PairLike(items[1]);
    CoercePairLike(items, read);
    assert AsPairs(items) == [("A", "B"), ("C", "D")];
    assert Keys([("A", "B"), ("C", "D")]) == ["A", "C"];
    FromPairsOfDistinct([("A", "B"), ("C", "D")]);
  }

  /** A list whose items `dict()` can all read as pairs is read as those pairs. */
  lemma CoercePairLike(items: seq<Item>, read: string -> seq<(string, string)>)
    requires forall i :: 0 <= i < |items| ==> PairLike(items[i])
    ensures CoerceInput(ListIn(items), read) == Ok(FromPairs(AsPairs(items)))
  {
  }

  // ---------------------------------------------------------------------------------
  // split_sequence / split_sequences

  /** The name of part `i` (from 1) of `count` parts of the sequence `name`. */
  function PartName(name: string, i: nat, count: nat): string {
    name + "-" + ZeroPad(i, Width(count))
  }

  /** `split_sequence`: delimiters are stripped from both ends; a sequence that still
      holds one is split on every delimiter into named parts, otherwise it keeps its
      name. */
  function SplitSequence(name: string, sequence: string): (r: seq<(string, string)>)
    ensures |r| >= 1
  {
    var s := StripBy(sequence, IsDelimiter);
    if exists i :: 0 <= i < |s| && IsDelimiter(s[i]) then
      var parts := SplitWhere(s, IsDelimiter);
      seq(|parts|, i requires 0 <= i < |parts| => (PartName(name, i + 1, |parts|), parts[i]))
    else [(name, s)]
  }

  /** Without an inner delimiter the entry stays one pair under its own name, its
      sequence the stripped one. With one, the parts are as many as the inner delimiters
      plus one, named `name-i` in order, and laid end to end they give the stripped
      sequence without its delimiters (empty parts included). Either way no delimiter is
      left in any sequence produced. */
  lemma SplitSequenceSpec(name: string, sequence: string)
    ensures var s := StripBy(sequence, IsDelimiter);
            var r := SplitSequence(name, sequence);
            && (forall i :: 0 <= i < |r| ==> NoneWhere(r[i].1, IsDelimiter))
            && (NoneWhere(s, IsDelimiter) ==> r == [(name, s)])
            && (!NoneWhere(s, IsDelimiter) ==>
                  && |r| == CountWhere(s, IsDelimiter) + 1
                  && (forall i :: 0 <= i < |r| ==> r[i].0 == PartName(name, i + 1, |r|))
                  && Concat(Values(r)) == Without(s, IsDelimiter))
  {
    var s := StripBy(sequence, IsDelimiter);
    var r := SplitSequence(name, sequence);
    var parts := SplitWhere(s, IsDelimiter);
    SplitWhereParts(s, IsDelimiter);
    if !NoneWhere(s, IsDelimiter) {
      assert Values(r) == parts;
    }
  }

  /** What remains after stripping neither starts nor ends with a delimiter. */
  lemma StrippedEnds(sequence: string)
    ensures var s := StripBy(sequence, IsDelimiter);
            s != [] ==> !IsDelimiter(s[0]) && !IsDelimiter(s[|s| - 1])
  {
    StripByEnds(sequence, IsDelimiter);
  }

  /** The parts of a split sequence have distinct names. */
  lemma PartNamesDistinct(name: string, i: nat, j: nat, count: nat)
    requires i != j
    ensures PartName(name, i, count) != PartName(name, j, count)
  {
    var a := ZeroPad(i, Width(count));
    var b := ZeroPad(j, Width(count));
    if PartName(name, i, count) == PartName(name, j, count) {
      assert a == PartName(name, i, count)[|name| + 1..];
      assert b == PartName(name, j, count)[|name| + 1..];
      ZeroPadInjective(i, j, Width(count));
    }
  }

  /** Every entry's pairs, laid end to end in entry order. */
  function SplitAll(m: SeqMap): seq<(string, string)> {
    if m == [] then [] else SplitSequence(m[0].0, m[0].1) + SplitAll(m[1..])
  }

  /** `split_sequences`: the split pairs of every entry gathered into one dict. */
  function SplitSequences(m: SeqMap): (r: SeqMap)
    ensures IsDict(r)
  {
    FromPairsIsDict(SplitAll(m));
    FromPairs(SplitAll(m))
  }

  lemma {:induction false} SplitAllAppend(a: SeqMap, b: SeqMap)
    ensures SplitAll(a + b) == SplitAll(a) + SplitAll(b)
    decreases |a|
  {
    if a == [] {
      assert a + b == b;
    } else {
      assert (a + b)[1..] == a[1..] + b;
      SplitAllAppend(a[1..], b);
    }
  }

  /** The input order is kept: the parts of each entry are inserted, in order, after
      everything that came from the entries before it. */
  lemma SplitSequencesAppend(m: SeqMap, name: string, sequence: string)
    ensures SplitSequences(m + [(name, sequence)]) ==
            Update(SplitSequences(m), SplitSequence(name, sequence))
  {
    var tail := SplitSequence(name, sequence);
    SplitAllAppend(m, [(name, sequence)]);
    assert SplitAll([(name, sequence)]) == tail by {
      assert [(name, sequence)][1..] == [];
      assert tail + [] == tail;
    }
    UpdateAppend([], SplitAll(m), tail);
  }

  /** When no two produced names clash, the result is exactly the parts of each entry in
      entry order. */
  lemma SplitSequencesInOrder(m: SeqMap)
    requires Distinct(Keys(SplitAll(m)))
    ensures SplitSequences(m) == SplitAll(m)
  {
    FromPairsOfDistinct(SplitAll(m));
  }
}
