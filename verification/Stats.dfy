/** The statistics of the cycle-read program: insertion sort, order statistics and the histogram. */
module Stats {
  import opened Words
  import opened Numerals

  // ---------- Deltas ----------

  function Sub(a: Word, b: Word): (d: Word) {
    if a >= b then a - b else a + 0x1_0000_0000_0000_0000 - b
  }

  /** The machine's subtraction: adding the difference back gives the minuend, whichever is larger. */
  lemma SubUndoes(a: Word, b: Word)
    ensures Add(b, Sub(a, b)) == a
    ensures a >= b ==> Sub(a, b) == a - b
  {
  }

  /** Delta k belongs to burst k / 26, whose reads start at 27 * (k / 26): the difference of two
      consecutive reads of one burst, never across bursts. */
  function DeltaAt(samples: seq<Word>, k: nat): (d: Word)
    requires k + k / 26 + 1 < |samples|
  {
    Sub(samples[k + k / 26 + 1], samples[k + k / 26])
  }

  lemma DeltaIndex(k: nat, b: nat, i: nat)
    requires k == 26 * b + i && i < 26
    ensures k / 26 == b && k + k / 26 == 27 * b + i
  {
  }

  method ExtractDeltas(samples: array<Word>, bursts: nat) returns (delta: array<Word>)
    requires samples.Length == 27 * bursts
    ensures delta.Length == 26 * bursts && fresh(delta)
    ensures forall k :: 0 <= k < delta.Length ==> k + k / 26 + 1 < samples.Length && delta[k] == DeltaAt(samples[..], k)
    ensures forall k :: 0 <= k < delta.Length ==>
              k + k / 26 + 1 < samples.Length && Add(samples[k + k / 26], delta[k]) == samples[k + k / 26 + 1]
  {
    delta := new Word[26 * bursts];
    var k := 0;
    for b := 0 to bursts
      invariant k == 26 * b
      invariant forall j :: 0 <= j < k ==> j + j / 26 + 1 < samples.Length && delta[j] == DeltaAt(samples[..], j)
      invariant forall j :: 0 <= j < k ==>
                  j + j / 26 + 1 < samples.Length && Add(samples[j + j / 26], delta[j]) == samples[j + j / 26 + 1]
    {
      for i := 0 to 26
        invariant k == 26 * b + i
        invariant forall j :: 0 <= j < k ==> j + j / 26 + 1 < samples.Length && delta[j] == DeltaAt(samples[..], j)
        invariant forall j :: 0 <= j < k ==>
                    j + j / 26 + 1 < samples.Length && Add(samples[j + j / 26], delta[j]) == samples[j + j / 26 + 1]
      {
        DeltaIndex(k, b, i);
        SubUndoes(samples[27 * b + i + 1], samples[27 * b + i]);
        delta[k] := Sub(samples[27 * b + i + 1], samples[27 * b + i]);
        k := k + 1;
      }
    }
  }

  // ---------- Sorting ----------

  predicate Sorted(s: seq<Word>) {
    forall i, j :: 0 <= i <= j < |s| ==> s[i] <= s[j]
  }

  /** x after the last element that is not greater. */
  function Insert(s: seq<Word>, x: Word): (r: seq<Word>)
    ensures |r| == |s| + 1
  {
    if s != [] && s[|s| - 1] > x then Insert(s[..|s| - 1], x) + [s[|s| - 1]] else s + [x]
  }

  function Sort(s: seq<Word>): (r: seq<Word>)
    ensures |r| == |s|
  {
    if s == [] then [] else Insert(Sort(s[..|s| - 1]), s[|s| - 1])
  }

  predicate Bounded(s: seq<Word>, b: Word) {
    forall i :: 0 <= i < |s| ==> s[i] <= b
  }

  lemma {:induction false} InsertBounded(s: seq<Word>, x: Word, b: Word)
    requires Bounded(s, b) && x <= b
    ensures Bounded(Insert(s, x), b)
    decreases |s|
  {
    if s != [] && s[|s| - 1] > x {
      InsertBounded(s[..|s| - 1], x, b);
    }
  }

  lemma {:induction false} InsertSorted(s: seq<Word>, x: Word)
    requires Sorted(s)
    ensures Sorted(Insert(s, x))
    decreases |s|
  {
    if s != [] && s[|s| - 1] > x {
      InsertSorted(s[..|s| - 1], x);
      InsertBounded(s[..|s| - 1], x, s[|s| - 1]);
    }
  }

  lemma {:induction false} InsertPermutes(s: seq<Word>, x: Word)
    ensures multiset(Insert(s, x)) == multiset(s) + multiset{x}
    decreases |s|
  {
    if s != [] && s[|s| - 1] > x {
      InsertPermutes(s[..|s| - 1], x);
      assert s == s[..|s| - 1] + [s[|s| - 1]];
    }
  }

  /** Where the element goes. */
  lemma {:induction false} InsertAt(s: seq<Word>, x: Word, j: nat)
    requires j <= |s| && (forall k :: j <= k < |s| ==> s[k] > x) && (j > 0 ==> s[j - 1] <= x)
    ensures Insert(s, x) == s[..j] + [x] + s[j..]
    decreases |s|
  {
    if j < |s| {
      var n := |s| - 1;
      InsertAt(s[..n], x, j);
      assert s[..n][..j] == s[..j] && s[..n][j..] + [s[n]] == s[j..];
    } else {
      assert s[..j] == s && s[j..] == [];
    }
  }

  /** A sorted permutation. */
  lemma {:induction false} SortSorts(s: seq<Word>)
    ensures Sorted(Sort(s)) && multiset(Sort(s)) == multiset(s)
    decreases |s|
  {
    if s != [] {
      var front := s[..|s| - 1];
      SortSorts(front);
      InsertSorted(Sort(front), s[|s| - 1]);
      InsertPermutes(Sort(front), s[|s| - 1]);
      assert s == front + [s[|s| - 1]];
    }
  }

  /** The shifting loop: makes room for key and puts it there. */
  method InsertInPlace(a: array<Word>, i: nat)
    requires i < a.Length
    modifies a
    ensures a[..i + 1] == Insert(old(a[..i]), old(a[i]))
    ensures forall k :: i < k < a.Length ==> a[k] == old(a[k])
  {
    var key := a[i];
    var j := i;
    ghost var p := a[..i];
    while j > 0 && a[j - 1] > key
      invariant 0 <= j <= i
      invariant forall k :: 0 <= k < j ==> a[k] == p[k]
      invariant forall k :: j < k <= i ==> a[k] == p[k - 1]
      invariant forall k :: i < k < a.Length ==> a[k] == old(a[k])
      invariant forall k :: j <= k < i ==> p[k] > key
    {
      a[j] := a[j - 1];
      j := j - 1;
    }
    a[j] := key;
    InsertAt(p, key, j);
    assert a[..i + 1] == p[..j] + [key] + p[j..];
  }

  method SortCopy(delta: array<Word>, sorted: array<Word>)
    requires delta.Length == sorted.Length && delta != sorted
    modifies sorted
    ensures sorted[..] == Sort(delta[..])
  {
    var n := delta.Length;
    for i := 0 to n
      invariant forall k :: 0 <= k < i ==> sorted[k] == delta[k]
    {
      sorted[i] := delta[i];
    }
    ghost var d := delta[..];
    var i := 1;
    assert n > 0 ==> d[..1] == [d[0]] && d[..1][..0] == [] && sorted[..1] == [d[0]];
    while i < n
      invariant 1 <= i && (n > 0 ==> i <= n && sorted[..i] == Sort(d[..i]))
      invariant forall k :: i <= k < n ==> sorted[k] == d[k]
    {
      assert d[..i + 1][..i] == d[..i];
      InsertInPlace(sorted, i);
      i := i + 1;
    }
    assert n > 0 ==> d[..n] == d && sorted[..n] == sorted[..];
  }

  // ---------- Order statistics ----------

  function Less(s: seq<Word>, v: Word): (n: nat) {
    if s == [] then 0 else Less(s[..|s| - 1], v) + if s[|s| - 1] < v then 1 else 0
  }

  function AtMost(s: seq<Word>, v: Word): (n: nat) {
    if s == [] then 0 else AtMost(s[..|s| - 1], v) + if s[|s| - 1] <= v then 1 else 0
  }

  /** v is the element of rank k: at most k elements are smaller, more than k are not greater. */
  predicate IsRank(s: seq<Word>, k: nat, v: Word) {
    Less(s, v) <= k < AtMost(s, v)
  }

  lemma LessAtMostLast(s: seq<Word>, x: Word, v: Word)
    ensures Less(s + [x], v) == Less(s, v) + (if x < v then 1 else 0)
    ensures AtMost(s + [x], v) == AtMost(s, v) + (if x <= v then 1 else 0)
  {
    assert (s + [x])[..|s|] == s;
  }

  lemma {:induction false} InsertCounts(s: seq<Word>, x: Word, v: Word)
    ensures Less(Insert(s, x), v) == Less(s, v) + (if x < v then 1 else 0)
    ensures AtMost(Insert(s, x), v) == AtMost(s, v) + (if x <= v then 1 else 0)
    decreases |s|
  {
    if s != [] && s[|s| - 1] > x {
      InsertCounts(s[..|s| - 1], x, v);
      LessAtMostLast(Insert(s[..|s| - 1], x), s[|s| - 1], v);
    } else {
      LessAtMostLast(s, x, v);
    }
  }

  lemma {:induction false} SortCounts(s: seq<Word>, v: Word)
    ensures Less(Sort(s), v) == Less(s, v) && AtMost(Sort(s), v) == AtMost(s, v)
    decreases |s|
  {
    if s != [] {
      SortCounts(s[..|s| - 1], v);
      InsertCounts(Sort(s[..|s| - 1]), s[|s| - 1], v);
    }
  }

  /** In a sorted sequence the counts are positions. */
  lemma {:induction false} SortedCounts(t: seq<Word>, k: nat, v: Word)
    requires Sorted(t) && k < |t| && v == t[k]
    ensures Less(t, v) <= k < AtMost(t, v)
    decreases |t|
  {
    var n := |t| - 1;
    var front := t[..n];
    if k < n {
      SortedCounts(front, k, v);
    } else {
      CountsBounded(front, v);
      AllAtMost(front, v);
    }
  }

  lemma {:induction false} CountsBounded(s: seq<Word>, v: Word)
    ensures Less(s, v) <= AtMost(s, v) <= |s|
    decreases |s|
  {
    if s != [] {
      CountsBounded(s[..|s| - 1], v);
    }
  }

  lemma {:induction false} AllAtMost(s: seq<Word>, v: Word)
    requires forall i :: 0 <= i < |s| ==> s[i] <= v
    ensures AtMost(s, v) == |s|
    decreases |s|
  {
    if s != [] {
      AllAtMost(s[..|s| - 1], v);
    }
  }

  lemma {:induction false} AtMostAll(s: seq<Word>, v: Word)
    requires AtMost(s, v) == |s|
    ensures Bounded(s, v)
    decreases |s|
  {
    if s != [] {
      CountsBounded(s[..|s| - 1], v);
      AtMostAll(s[..|s| - 1], v);
    }
  }

  lemma {:induction false} AtMostBelowLess(s: seq<Word>, v: Word, w: Word)
    requires v < w
    ensures AtMost(s, v) <= Less(s, w)
    decreases |s|
  {
    if s != [] {
      AtMostBelowLess(s[..|s| - 1], v, w);
    }
  }

  /** Position k of the sorted copy holds the element of rank k, and nothing else has that rank:
      the first is the minimum, the last the maximum, the middle one the median. */
  lemma SortedPositionIsRank(s: seq<Word>, k: nat, v: Word)
    requires k < |s|
    ensures IsRank(s, k, v) <==> v == Sort(s)[k]
  {
    var w := Sort(s)[k];
    SortSorts(s);
    SortCounts(s, w);
    SortedCounts(Sort(s), k, w);
    if v < w {
      AtMostBelowLess(s, v, w);
    } else if w < v {
      AtMostBelowLess(s, w, v);
    }
  }

  // ---------- The histogram ----------

  const BINS: nat := 16

  /** RISC-V divu: dividing by zero gives all ones. */
  function DivU(a: Word, b: Word): (q: Word) {
    if b == 0 then 0xffff_ffff_ffff_ffff else a / b
  }

  /** width as the program computes it; the sum may wrap. */
  function Width(max: Word): (w: Word) {
    Add(max, 16) / 16
  }

  function BinOf(d: Word, width: Word): (b: nat)
    ensures b < BINS
  {
    var bin := DivU(d, width);
    if bin >= BINS then BINS - 1 else bin
  }

  function CountBin(s: seq<Word>, width: Word, b: nat): (n: nat) {
    if s == [] then 0 else CountBin(s[..|s| - 1], width, b) + if BinOf(s[|s| - 1], width) == b then 1 else 0
  }

  function Total(h: seq<nat>): (n: nat) {
    if h == [] then 0 else Total(h[..|h| - 1]) + h[|h| - 1]
  }

  method Histogram(delta: array<Word>, max: Word) returns (hist: array<nat>)
    ensures hist.Length == BINS
    ensures forall b :: 0 <= b < BINS ==> hist[b] == CountBin(delta[..], Width(max), b)
  {
    var width := Width(max);
    hist := new nat[16];
    for i := 0 to 16
      invariant forall b :: 0 <= b < i ==> hist[b] == 0
    {
      hist[i] := 0;
    }
    assert delta[..0] == [];
    for i := 0 to delta.Length
      invariant forall b :: 0 <= b < BINS ==> hist[b] == CountBin(delta[..i], width, b)
    {
      assert delta[..i + 1][..i] == delta[..i];
      var bin := DivU(delta[i], width);
      if bin >= BINS {
        bin := BINS - 1;
      }
      hist[bin] := hist[bin] + 1;
    }
    assert delta[..delta.Length] == delta[..];
  }

  /** For every delta up to the maximum: the bin's printed range contains it and the clamp does not
      fire, exactly if max + 16 does not wrap. When it wraps, the width is 0. */
  lemma BinRanges(d: Word, max: Word, b: nat)
    requires d <= max && b < BINS
    ensures var w := Width(max);
            && (max + 16 < WORD_SIZE <==> w > 0)
            && (w > 0 ==> d / w < BINS && 16 * w < WORD_SIZE && (BinOf(d, w) == b <==> b * w <= d <= (b + 1) * w - 1))
            && (w == 0 ==> BinOf(d, w) == BINS - 1)
  {
    var w := Width(max);
    if w > 0 {
      DivMod(d, w);
      DivBelow(d, w, 16);
      DivBelow(d, w, b);
      DivBelow(d, w, b + 1);
    }
  }

  function Counts(s: seq<Word>, width: Word, n: nat): (h: seq<nat>)
    ensures |h| == n
  {
    if n == 0 then [] else Counts(s, width, n - 1) + [CountBin(s, width, n - 1)]
  }

  /** A bin after one more delta. */
  lemma CountBinLast(s: seq<Word>, x: Word, width: Word, b: nat)
    ensures CountBin(s + [x], width, b) == CountBin(s, width, b) + if BinOf(x, width) == b then 1 else 0
  {
    assert (s + [x])[..|s|] == s;
  }

  lemma TotalCounts(s: seq<Word>, width: Word, n: nat)
    requires n > 0
    ensures Total(Counts(s, width, n)) == Total(Counts(s, width, n - 1)) + CountBin(s, width, n - 1)
  {
    TotalLast(Counts(s, width, n - 1), CountBin(s, width, n - 1));
  }

  lemma {:induction false} CountsLast(s: seq<Word>, x: Word, width: Word, n: nat)
    ensures Total(Counts(s + [x], width, n)) == Total(Counts(s, width, n)) + if BinOf(x, width) < n then 1 else 0
    decreases n
  {
    if n > 0 {
      CountsLast(s, x, width, n - 1);
      CountBinLast(s, x, width, n - 1);
      TotalCounts(s, width, n);
      TotalCounts(s + [x], width, n);
    }
  }

  lemma {:induction false} CountsAt(s: seq<Word>, width: Word, n: nat, b: nat)
    requires b < n
    ensures Counts(s, width, n)[b] == CountBin(s, width, b)
    decreases n
  {
    if b < n - 1 {
      CountsAt(s, width, n - 1, b);
    }
  }

  lemma TotalLast(h: seq<nat>, x: nat)
    ensures Total(h + [x]) == Total(h) + x
  {
    assert (h + [x])[..|h|] == h;
  }

  lemma {:induction false} NoCounts(s: seq<Word>, width: Word, n: nat)
    requires |s| == 0
    ensures Total(Counts(s, width, n)) == 0
    decreases n
  {
    if n > 0 {
      NoCounts(s, width, n - 1);
      TotalCounts(s, width, n);
    }
  }

  /** The bins together hold every delta once, whether or not the width is right. */
  lemma {:induction false} BinsHoldAll(s: seq<Word>, width: Word)
    ensures Total(Counts(s, width, BINS)) == |s|
    decreases |s|
  {
    if s == [] {
      NoCounts(s, width, BINS);
    } else {
      BinsHoldAll(s[..|s| - 1], width);
      CountsLast(s[..|s| - 1], s[|s| - 1], width, BINS);
      assert s == s[..|s| - 1] + [s[|s| - 1]];
    }
  }

  // ---------- The whole analysis ----------

  predicate IsBad(d: Word) {
    d == 0 || d > 0x100_0000_0000
  }

  function CountBad(s: seq<Word>): (n: nat) {
    if s == [] then 0 else CountBad(s[..|s| - 1]) + if IsBad(s[|s| - 1]) then 1 else 0
  }

  lemma {:induction false} NoneBad(s: seq<Word>)
    ensures CountBad(s) == 0 <==> forall i :: 0 <= i < |s| ==> !IsBad(s[i])
    decreases |s|
  {
    if s != [] {
      NoneBad(s[..|s| - 1]);
      assert forall i :: 0 <= i < |s| - 1 ==> s[..|s| - 1][i] == s[i];
    }
  }

  method CountBadDeltas(delta: array<Word>) returns (bad: nat)
    ensures bad == CountBad(delta[..])
  {
    bad := 0;
    assert delta[..0] == [];
    for i := 0 to delta.Length
      invariant bad == CountBad(delta[..i])
    {
      assert delta[..i + 1][..i] == delta[..i];
      if delta[i] == 0 || delta[i] > 0x100_0000_0000 {
        bad := bad + 1;
      }
    }
    assert delta[..delta.Length] == delta[..];
  }

  /** Where the width is right, the bin a delta is counted in prints a range that contains it. */
  predicate InPrintedRange(d: Word, width: Word) {
    BinOf(d, width) * width <= d <= (BinOf(d, width) + 1) * width - 1
  }

  /** What the printed histogram of the deltas s, with maximum max, says. */
  lemma HistogramMeans(s: seq<Word>, max: Word, hist: seq<nat>)
    requires Bounded(s, max) && |hist| == BINS
    requires forall b :: 0 <= b < BINS ==> hist[b] == CountBin(s, Width(max), b)
    ensures Total(hist) == |s|
    ensures max + 16 < WORD_SIZE ==> forall k :: 0 <= k < |s| ==> InPrintedRange(s[k], Width(max))
  {
    var w := Width(max);
    forall b | 0 <= b < BINS
      ensures hist[b] == Counts(s, w, BINS)[b]
    {
      CountsAt(s, w, BINS, b);
    }
    assert hist == Counts(s, w, BINS);
    BinsHoldAll(s, w);
    if max + 16 < WORD_SIZE {
      forall k | 0 <= k < |s|
        ensures InPrintedRange(s[k], w)
      {
        BinRanges(s[k], max, BinOf(s[k], w));
      }
    }
  }

  lemma MaximumBounds(s: seq<Word>, max: Word)
    requires s != [] && IsRank(s, |s| - 1, max)
    ensures Bounded(s, max)
  {
    CountsBounded(s, max);
    AtMostAll(s, max);
  }

  /** The printed summary of any reads: the order statistics, a histogram that accounts for every
      delta and, unless its width wraps, prints a true range for each, and a verdict that is PASS
      exactly if every delta is positive and at most 2^40. */
  method Summarize(samples: array<Word>, bursts: nat)
    returns (delta: array<Word>, min: Word, median: Word, max: Word, hist: array<nat>, bad: nat)
    requires bursts > 0 && samples.Length == 27 * bursts
    ensures delta.Length == 26 * bursts
    ensures forall k :: 0 <= k < delta.Length ==> k + k / 26 + 1 < samples.Length && delta[k] == DeltaAt(samples[..], k)
    ensures IsRank(delta[..], 0, min) && IsRank(delta[..], delta.Length / 2, median)
    ensures IsRank(delta[..], delta.Length - 1, max) && Bounded(delta[..], max)
    ensures hist.Length == BINS && Total(hist[..]) == delta.Length
    ensures forall b :: 0 <= b < BINS ==> hist[b] == CountBin(delta[..], Width(max), b)
    ensures max + 16 < WORD_SIZE ==> forall k :: 0 <= k < delta.Length ==> InPrintedRange(delta[k], Width(max))
    ensures bad == 0 <==> forall k :: 0 <= k < delta.Length ==> 0 < delta[k] <= 0x100_0000_0000
  {
    delta := ExtractDeltas(samples, bursts);
    min, median, max := OrderStatistics(delta);
    MaximumBounds(delta[..], max);
    hist := Histogram(delta, max);
    HistogramMeans(delta[..], max, hist[..]);
    bad := CountBadDeltas(delta);
    NoneBad(delta[..]);
    assert forall k :: 0 <= k < delta.Length ==> delta[..][k] == delta[k];
  }

  method OrderStatistics(delta: array<Word>) returns (min: Word, median: Word, max: Word)
    requires delta.Length > 0
    ensures IsRank(delta[..], 0, min) && IsRank(delta[..], delta.Length / 2, median)
    ensures IsRank(delta[..], delta.Length - 1, max)
  {
    var n := delta.Length;
    var sorted := new Word[n];
    SortCopy(delta, sorted);
    min, max, median := sorted[0], sorted[n - 1], sorted[n / 2];
    SortedPositionIsRank(delta[..], 0, min);
    SortedPositionIsRank(delta[..], n / 2, median);
    SortedPositionIsRank(delta[..], n - 1, max);
  }
}
