/** Windowing of long sequences: fixed-size sliding windows, and the token lists handed
    to the window-scoring model, one per sequence. */
module InputUtils {
  import opened Wrappers

  /** Python's `a // b`: division rounded towards minus infinity. */
  function FloorDiv(a: int, b: int): (q: int)
    requires b != 0
    ensures b > 0 ==> q * b <= a < q * b + b
    ensures b < 0 ==> q * b >= a > q * b + b
  {
    if b > 0 then a / b
    else
      var q := (-a) / (-b);
      assert (-a) == q * (-b) + (-a) % (-b);
      q
  }

  /** Where a Python slice bound lands in a string of length `n`: negative bounds count
      from the end, and both are clamped to `0..n`. */
  function SliceBound(i: int, n: nat): (k: nat)
    ensures k <= n
    ensures 0 <= i <= n ==> k == i
  {
    if i < 0 then (if n + i < 0 then 0 else n + i)
    else if i > n then n
    else i
  }

  /** `s[lo:hi]`. */
  function PySlice(s: string, lo: int, hi: int): string {
    var a := SliceBound(lo, |s|);
    var b := SliceBound(hi, |s|);
    if a <= b then s[a..b] else []
  }

  /** `split_seq`: the windows `seq[jump*x : jump*x + window_size]` for
      `x in range((len(seq) - window_size) // jump)`; a zero jump divides by zero. */
  function SplitSeq(s: string, nJump: int, windowSize: int): (r: Result<seq<string>>)
    ensures r.Err? <==> nJump == 0
    ensures r.Err? ==> r.error == ZeroDivisionError
  {
    if nJump == 0 then Err(ZeroDivisionError)
    else
      var num := FloorDiv(|s| - windowSize, nJump);
      var count := if num < 0 then 0 else num;
      Ok(seq(count, x requires 0 <= x < count => PySlice(s, nJump * x, nJump * x + windowSize)))
  }

  /** With a positive jump and a non-negative window size, there are
      `max(0, (len(seq) - window_size) // jump)` windows; window `x` starts at `jump*x`
      and is exactly `window_size` residues long. */
  lemma SplitSeqWindows(s: string, nJump: int, windowSize: int)
    requires nJump > 0 && windowSize >= 0
    ensures SplitSeq(s, nJump, windowSize).Ok?
    ensures var w := SplitSeq(s, nJump, windowSize).value;
            var num := FloorDiv(|s| - windowSize, nJump);
            && |w| == (if num < 0 then 0 else num)
            && forall x :: 0 <= x < |w| ==>
                 && nJump * x + windowSize <= |s|
                 && w[x] == s[nJump * x..nJump * x + windowSize]
                 && |w[x]| == windowSize
  {
    var w := SplitSeq(s, nJump, windowSize).value;
    var num := FloorDiv(|s| - windowSize, nJump);
    forall x | 0 <= x < |w|
      ensures 0 <= nJump * x && nJump * x + windowSize <= |s|
      ensures w[x] == s[nJump * x..nJump * x + windowSize]
    {
      WindowFits(nJump, x, num, |s| - windowSize);
      assert w[x] == PySlice(s, nJump * x, nJump * x + windowSize);
    }
  }

  /** `0 <= x < num` and `num * jump <= room` put window `x` inside the room:
      `0 <= jump*x` and `jump*x + jump <= room`. */
  lemma WindowFits(jump: int, x: int, num: int, room: int)
    requires jump > 0 && 0 <= x < num && num * jump <= room
    ensures 0 <= jump * x && jump * x + jump <= room
  {
    assert jump * x + jump == jump * (x + 1);
    assert x + 1 <= num;
    MulMonotone(jump, x + 1, num);
    MulMonotone(jump, 0, x);
  }

  lemma MulMonotone(k: int, a: int, b: int)
    requires k > 0 && a <= b
    ensures k * a <= k * b
  {
    assert k * b - k * a == k * (b - a);
  }

  /** A window size longer than the sequence gives no window. */
  lemma SplitSeqTooShort(s: string, nJump: int, windowSize: int)
    requires nJump > 0 && windowSize > |s|
    ensures SplitSeq(s, nJump, windowSize) == Ok([])
  {
    var num := FloorDiv(|s| - windowSize, nJump);
    assert num < 0 by {
      if num >= 0 {
        MulMonotone(nJump, 0, num);
      }
    }
    assert |SplitSeq(s, nJump, windowSize).value| == 0;
  }

  /** One entry of the token list: the encoding of a sequence, or the empty list put in
      its place when the encoder raises `KeyError` on an unknown residue. */
  datatype TokenEntry = Encoded(ids: seq<int>) | Empty

  /** `[start] + list(seq) + [end]`: the start token, each residue as a one-character
      token, then the end token. */
  function Bookend(start: string, s: string, end: string): (t: seq<string>)
    ensures |t| == |s| + 2 && t[0] == start && t[|t| - 1] == end
    ensures forall i :: 0 <= i < |s| ==> t[i + 1] == [s[i]]
  {
    [start] + seq(|s|, i requires 0 <= i < |s| => [s[i]]) + [end]
  }

  /** The token entry for one sequence; `None` from `encode` stands for its `KeyError`. */
  function EntryFor(start: string, end: string, encode: seq<string> -> Option<seq<int>>, s: string): TokenEntry {
    match encode(Bookend(start, s, end))
    case Some(ids) => Encoded(ids)
    case None => Empty
  }

  /** The token list `pick_windows` builds, one entry appended per sequence. */
  function TokenList(start: string, end: string, encode: seq<string> -> Option<seq<int>>, seqs: seq<string>): (r: seq<TokenEntry>)
    ensures |r| == |seqs|
    ensures forall i :: 0 <= i < |seqs| ==> r[i] == EntryFor(start, end, encode, seqs[i])
  {
    if seqs == [] then []
    else TokenList(start, end, encode, seqs[..|seqs| - 1]) + [EntryFor(start, end, encode, seqs[|seqs| - 1])]
  }

  /** `pick_windows`: build the token list, one entry per sequence, then ask the window
      model (`model`, with the `fallback` flag) for the best window. */
  method PickWindows<R>(seqs: seq<string>, start: string, end: string,
                        encode: seq<string> -> Option<seq<int>>,
                        model: (seq<TokenEntry>, bool) -> R, fallback: bool)
    returns (maxIndex: R)
    ensures maxIndex == model(TokenList(start, end, encode, seqs), fallback)
  {
    var ls: seq<TokenEntry> := [];
    var i := 0;
    while i < |seqs|
      invariant 0 <= i <= |seqs|
      invariant ls == TokenList(start, end, encode, seqs[..i])
    {
      var bookendSeq := Bookend(start, seqs[i], end);
      match encode(bookendSeq) {
        case Some(ids) =>
          ls := ls + [Encoded(ids)];
        case None =>
          ls := ls + [Empty];
      }
      assert seqs[..i + 1][..i] == seqs[..i];
      i := i + 1;
    }
    assert seqs[..i] == seqs;
    maxIndex := model(ls, fallback);
  }
}
