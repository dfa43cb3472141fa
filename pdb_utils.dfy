/** Helpers for structure files: the residue-code table and the count of long repeated
    stretches in a sequence. */
module PdbUtils {
  import opened Wrappers
  import opened Dicts

  /** `THREE_TO_ONE`: the twenty standard amino acids, three-letter code to one-letter
      code. */
  const ThreeToOne: Dict<string, string> := [
    ("ALA", "A"), ("CYS", "C"), ("ASP", "D"), ("GLU", "E"), ("PHE", "F"),
    ("GLY", "G"), ("HIS", "H"), ("ILE", "I"), ("LYS", "K"), ("LEU", "L"),
    ("MET", "M"), ("ASN", "N"), ("PRO", "P"), ("GLN", "Q"), ("ARG", "R"),
    ("SER", "S"), ("THR", "T"), ("VAL", "V"), ("TRP", "W"), ("TYR", "Y")
  ]

  /** The shortest stretch counted as a repeat. */
  const MinSequenceLength: nat := 50

  /** The table has twenty entries with distinct three-letter codes, as the keys of a
      dict are. */
  lemma ThreeToOneIsDict()
    ensures |ThreeToOne| == 20
    ensures forall i :: 0 <= i < 20 ==> |ThreeToOne[i].0| == 3
    ensures IsDict(ThreeToOne)
  {
    ThreeLetterCodesDistinct();
    DistinctColumns(ThreeToOne);
  }

  /** Its one-letter codes are distinct too, so the table is injective: no two
      three-letter codes give the same residue letter. */
  lemma ThreeToOneInjective()
    ensures forall i :: 0 <= i < 20 ==> |ThreeToOne[i].1| == 1
    ensures Distinct(Values(ThreeToOne))
  {
    OneLetterCodesDistinct();
    DistinctColumns(ThreeToOne);
  }

  /** Pairs whose first components differ from each other form a dict, and so do pairs
      whose second components differ: `Keys` and `Values` list them in order. */
  lemma DistinctColumns<K, V>(m: Dict<K, V>)
    ensures (forall i, j :: 0 <= i < j < |m| ==> m[i].0 != m[j].0) ==> IsDict(m)
    ensures (forall i, j :: 0 <= i < j < |m| ==> m[i].1 != m[j].1) ==> Distinct(Values(m))
  {
    var keys := Keys(m);
    var values := Values(m);
  }

  /** The one-letter codes of the table are distinct: they increase alphabetically. */
  lemma OneLetterCodesDistinct()
    ensures forall i :: 0 <= i < 20 ==> |ThreeToOne[i].1| == 1
    ensures forall i, j :: 0 <= i < j < 20 ==> ThreeToOne[i].1 != ThreeToOne[j].1
  {
    var firsts := OneLetterCodes();
    IncreasingIsStrict(firsts);
    forall i, j | 0 <= i < j < 20
      ensures ThreeToOne[i].1 != ThreeToOne[j].1
    {
      assert firsts[i] < firsts[j];
    }
  }

  /** The one-letter codes, in table order, increase alphabetically. */
  function OneLetterCodes(): (cs: seq<char>)
    ensures |cs| == 20
    ensures forall i :: 0 <= i < 20 ==> |ThreeToOne[i].1| == 1 && ThreeToOne[i].1[0] == cs[i]
    ensures forall i :: 0 <= i < |cs| - 1 ==> cs[i] < cs[i + 1]
  {
    "ACDEFGHIKLMNPQRSTVWY"
  }

  /** A three-letter code read as a base-256 number; different numbers mean different
      codes. */
  function CodeNumber(code: string): int
    requires |code| == 3
  {
    (code[0] as int) * 65536 + (code[1] as int) * 256 + code[2] as int
  }

  /** The three-letter codes of the table are distinct: their numbers are. */
  lemma ThreeLetterCodesDistinct()
    ensures forall i :: 0 <= i < 20 ==> |ThreeToOne[i].0| == 3
    ensures forall i, j :: 0 <= i < j < 20 ==> ThreeToOne[i].0 != ThreeToOne[j].0
  {
    var ns := seq(20, i requires 0 <= i < 20 => CodeNumber(ThreeToOne[i].0));
    assert ns == [4279361, 4413779, 4281168, 4672597, 5261381, 4672601, 4737363, 4803653, 5003603, 4998485,
                  5064020, 4281166, 5263951, 4672590, 4280903, 5457234, 5523538, 5652812, 5526096, 5527890];
    forall i | 0 <= i < 20
      ensures CodeIndex(ns[i]) == i
    {
    }
    forall i, j | 0 <= i < j < 20
      ensures ThreeToOne[i].0 != ThreeToOne[j].0
    {
      assert CodeIndex(ns[i]) != CodeIndex(ns[j]);
    }
  }

  /** The table position of a code number, or -1: one code number per position. */
  function CodeIndex(n: int): int {
    if n == 4279361 then 0
    else if n == 4413779 then 1
    else if n == 4281168 then 2
    else if n == 4672597 then 3
    else if n == 5261381 then 4
    else if n == 4672601 then 5
    else if n == 4737363 then 6
    else if n == 4803653 then 7
    else if n == 5003603 then 8
    else if n == 4998485 then 9
    else if n == 5064020 then 10
    else if n == 4281166 then 11
    else if n == 5263951 then 12
    else if n == 4672590 then 13
    else if n == 4280903 then 14
    else if n == 5457234 then 15
    else if n == 5523538 then 16
    else if n == 5652812 then 17
    else if n == 5526096 then 18
    else if n == 5527890 then 19
    else -1
  }

  /** Characters that increase from each to the next increase throughout. */
  lemma {:induction false} IncreasingIsStrict(cs: seq<char>)
    requires forall i :: 0 <= i < |cs| - 1 ==> cs[i] < cs[i + 1]
    ensures forall i, j :: 0 <= i < j < |cs| ==> cs[i] < cs[j]
  {
    if |cs| > 1 {
      IncreasingIsStrict(cs[1..]);
      forall j | 1 <= j < |cs|
        ensures cs[0] < cs[j]
      {
        assert cs[0] < cs[1];
        if j > 1 {
          assert cs[1..][0] < cs[1..][j - 1];
        }
      }
      forall i, j | 0 <= i < j < |cs|
        ensures cs[i] < cs[j]
      {
        if i > 0 {
          assert cs[1..][i - 1] < cs[1..][j - 1];
        }
      }
    }
  }

  /** No newline in `s[a..b]`: the regular expression's `.` matches everything else. */
  predicate NoNewline(s: string, a: nat, b: nat)
    requires a <= b <= |s|
  {
    forall k :: a <= k < b ==> s[k] != '\n'
  }

  /** `s[i..i+L]` is matched by the group `(.{50,})` and found again by the lookahead
      `(?=.*?\1)`: a copy starts at some `j` at or after its end, with no newline in
      between. */
  predicate Qualifies(s: string, i: nat, len: nat) {
    && len >= MinSequenceLength
    && i + len <= |s|
    && NoNewline(s, i, i + len)
    && exists j :: i + len <= j <= |s| - len && CopyAt(s, i, len, j)
  }

  /** `s[j..j+len]` repeats `s[i..i+len]`, starting at or after its end with no newline
      in between. */
  predicate CopyAt(s: string, i: nat, len: nat, j: int) {
    i + len <= j && j + len <= |s| && NoNewline(s, i + len, j) && s[j..j + len] == s[i..i + len]
  }

  /** The greedy group backing off: the longest qualifying length at `i` that is at most
      `len`. */
  function LongestFrom(s: string, i: nat, len: nat): (r: Option<nat>)
    requires i + len <= |s|
    ensures r.Some? ==> MinSequenceLength <= r.value <= len
    decreases len
  {
    if len < MinSequenceLength then None
    else if Qualifies(s, i, len) then Some(len)
    else LongestFrom(s, i, len - 1)
  }

  /** What the greedy group finds qualifies, and no longer stretch up to `len` does;
      when it finds nothing, no stretch up to `len` qualifies. */
  lemma {:induction false} LongestFromSpec(s: string, i: nat, len: nat)
    requires i + len <= |s|
    ensures var r := LongestFrom(s, i, len);
            && (r.Some? ==> Qualifies(s, i, r.value))
            && (r.Some? ==> forall l: nat :: r.value < l <= len ==> !Qualifies(s, i, l))
            && (r.None? ==> forall l: nat :: l <= len ==> !Qualifies(s, i, l))
    decreases len
  {
    if len >= MinSequenceLength && !Qualifies(s, i, len) {
      LongestFromSpec(s, i, len - 1);
    }
  }

  /** The matches `findall` reports from position `i` on, as `(start, length)`: at each
      position the longest qualifying stretch is taken and the search resumes after it;
      where none qualifies, it resumes at the next position. */
  function Scan(s: string, i: nat): seq<(nat, nat)>
    requires i <= |s|
    decreases |s| - i
  {
    if i == |s| then []
    else
      match LongestFrom(s, i, |s| - i)
      case Some(len) => [(i, len)] + Scan(s, i + len)
      case None => Scan(s, i + 1)
  }

  /** `find_repeated_sequences`: how many matches `findall` reports. */
  function FindRepeatedSequences(s: string): (count: nat)
    ensures count * MinSequenceLength <= |s|
  {
    ScanCount(s, 0);
    |Scan(s, 0)|
  }

  /** The matches from `i` on, as the greedy group finds them at their starts. */
  predicate GreedyAt(s: string, i: nat, m: seq<(nat, nat)>) {
    forall k :: 0 <= k < |m| ==>
      && i <= m[k].0 && m[k].0 + m[k].1 <= |s|
      && LongestFrom(s, m[k].0, |s| - m[k].0) == Some(m[k].1)
  }

  /** Matches that do not overlap and come left to right. */
  predicate Disjoint(m: seq<(nat, nat)>) {
    forall k :: 0 <= k < |m| - 1 ==> m[k].0 + m[k].1 <= m[k + 1].0
  }

  /** Every match from `i` on starts at or after `i`, fits in the sequence and is what
      the greedy group finds at its start. */
  lemma {:induction false} ScanGreedy(s: string, i: nat)
    requires i <= |s|
    ensures GreedyAt(s, i, Scan(s, i))
    decreases |s| - i
  {
    if i < |s| {
      var r := LongestFrom(s, i, |s| - i);
      if r.Some? {
        var len := r.value;
        ScanGreedy(s, i + len);
        var rest := Scan(s, i + len);
        var m := [(i, len)] + rest;
        assert Scan(s, i) == m;
        forall k | 0 <= k < |m|
          ensures i <= m[k].0 && m[k].0 + m[k].1 <= |s|
          ensures LongestFrom(s, m[k].0, |s| - m[k].0) == Some(m[k].1)
        {
          if k > 0 {
            assert m[k] == rest[k - 1];
          }
        }
        assert GreedyAt(s, i, m);
      } else {
        ScanGreedy(s, i + 1);
        assert Scan(s, i) == Scan(s, i + 1);
      }
    }
  }

  /** Every match from `i` on starts at or after `i`. */
  lemma {:induction false} ScanStarts(s: string, i: nat)
    requires i <= |s|
    ensures forall k :: 0 <= k < |Scan(s, i)| ==> i <= Scan(s, i)[k].0
    decreases |s| - i
  {
    if i < |s| {
      var r := LongestFrom(s, i, |s| - i);
      if r.Some? {
        ScanStarts(s, i + r.value);
      } else {
        ScanStarts(s, i + 1);
      }
    }
  }

  /** The matches do not overlap and come left to right. */
  lemma {:induction false} ScanOrdered(s: string, i: nat)
    requires i <= |s|
    ensures Disjoint(Scan(s, i))
    decreases |s| - i
  {
    if i < |s| {
      var r := LongestFrom(s, i, |s| - i);
      if r.Some? {
        var len := r.value;
        ScanOrdered(s, i + len);
        ScanStarts(s, i + len);
        var rest := Scan(s, i + len);
        assert Scan(s, i) == [(i, len)] + rest;
        DisjointCons(i, len, rest);
      } else {
        ScanOrdered(s, i + 1);
        assert Scan(s, i) == Scan(s, i + 1);
      }
    }
  }

  /** A match ending before every later match starts can be put in front of them. */
  lemma DisjointCons(i: nat, len: nat, rest: seq<(nat, nat)>)
    requires Disjoint(rest)
    requires forall k :: 0 <= k < |rest| ==> i + len <= rest[k].0
    ensures Disjoint([(i, len)] + rest)
  {
    var m := [(i, len)] + rest;
    forall k | 0 <= k < |m| - 1
      ensures m[k].0 + m[k].1 <= m[k + 1].0
    {
      assert m[k + 1] == rest[k];
      if k > 0 {
        assert m[k] == rest[k - 1];
      }
    }
  }

  /** The stretch `s[p..p+len]` is one `findall` counts at `p`: at least 50 long, found
      again at or after its own end, and the longest such stretch starting at `p`. */
  predicate CountedAt(s: string, p: nat, len: nat) {
    && len >= MinSequenceLength
    && Qualifies(s, p, len)
    && forall l: nat :: len < l <= |s| - p ==> !Qualifies(s, p, l)
  }

  /** Every counted stretch is at least 50 long, is found again at or after its own
      end, and is the longest such stretch at its start. */
  lemma ScanMatches(s: string)
    ensures forall k :: 0 <= k < |Scan(s, 0)| ==> CountedAt(s, Scan(s, 0)[k].0, Scan(s, 0)[k].1)
  {
    var m := Scan(s, 0);
    ScanGreedy(s, 0);
    forall k | 0 <= k < |m|
      ensures CountedAt(s, m[k].0, m[k].1)
    {
      var p := m[k].0;
      assert p + m[k].1 <= |s|;
      LongestFromSpec(s, p, |s| - p);
    }
  }

  /** The search is leftmost: no position before the first match, nor any position at
      all when there is no match, has a qualifying stretch. */
  lemma {:induction false} ScanLeftmost(s: string, i: nat)
    requires i <= |s|
    ensures var m := Scan(s, i);
            forall p: nat, l: nat :: i <= p < (if m == [] then |s| else m[0].0) ==> !Qualifies(s, p, l)
    decreases |s| - i
  {
    if i < |s| {
      match LongestFrom(s, i, |s| - i)
      case Some(len) =>
      case None =>
        ScanLeftmost(s, i + 1);
        LongestFromSpec(s, i, |s| - i);
        assert Scan(s, i) == Scan(s, i + 1);
        forall l: nat | Qualifies(s, i, l)
          ensures false
        {
        }
    }
  }

  /** A qualifying stretch and its copy need at least twice 50 residues, so a sequence
      shorter than 100 residues has no repeat. */
  lemma ShortSequenceHasNoRepeat(s: string)
    requires |s| < 2 * MinSequenceLength
    ensures FindRepeatedSequences(s) == 0
  {
    ScanMatches(s);
    var m := Scan(s, 0);
    if m != [] {
      CountedNeedsRoom(s, m[0].0, m[0].1);
    }
  }

  /** A counted stretch and its copy fit side by side in the sequence. */
  lemma CountedNeedsRoom(s: string, p: nat, len: nat)
    requires CountedAt(s, p, len)
    ensures 2 * MinSequenceLength <= 2 * len <= |s| - p
  {
    var j :| p + len <= j <= |s| - len && CopyAt(s, p, len, j);
  }

  /** Each match uses up at least 50 positions, so there are at most `|s| / 50`. */
  lemma {:induction false} ScanCount(s: string, i: nat)
    requires i <= |s|
    ensures |Scan(s, i)| * MinSequenceLength <= |s| - i
    decreases |s| - i
  {
    if i < |s| {
      match LongestFrom(s, i, |s| - i)
      case Some(len) =>
        ScanCount(s, i + len);
      case None =>
        ScanCount(s, i + 1);
    }
  }
}
