/** The Kasiski examination of `find_key_length`, as functions: block lengths
    from 20 down to 3; for each, the blocks of the scanner's table in order
    of first appearance that occur more than 10 times; for each such block,
    candidate key lengths from 30 down to 4, the first one dividing every gap
    between consecutive occurrence positions being the answer. */
module Kasiski {
  import opened Results
  import opened Tallies
  import opened Repetitions

  const LONGEST_BLOCK: nat := 20
  const SHORTEST_BLOCK: nat := 3
  /** A block is considered only when it occurs more than this many times. */
  const REPETITION_THRESHOLD: nat := 10
  const LONGEST_KEY: nat := 30
  const SHORTEST_KEY: nat := 4

  /** What the examination settled on: the block whose occurrences were
      examined and the key length their gaps gave. */
  datatype Finding = Finding(block: string, keyLength: nat)

  /** The distance from the previous position to position `i`. */
  function Gap(positions: seq<nat>, i: nat): int
    requires 1 <= i < |positions|
  {
    (positions[i] as int) - (positions[i - 1] as int)
  }

  /** Every gap between consecutive positions is a multiple of `k`; with
      fewer than two positions there is no gap, and the test passes. */
  predicate GapsDivisible(positions: seq<nat>, k: nat): (divisible: bool)
    requires k > 0
    ensures |positions| <= 1 ==> divisible
  {
    forall i :: 1 <= i < |positions| ==> Gap(positions, i) % k == 0
  }

  /** The candidate key lengths `k`, `k` - 1, ..., SHORTEST_KEY tried in turn. */
  function LargestDivisor(positions: seq<nat>, k: int): (r: Option<nat>)
    ensures r.Some? ==> SHORTEST_KEY <= r.value <= k && GapsDivisible(positions, r.value)
    decreases k
  {
    if k < SHORTEST_KEY then None
    else if GapsDivisible(positions, k) then Some(k)
    else LargestDivisor(positions, k - 1)
  }

  /** The candidate found is the largest in [SHORTEST_KEY, k] dividing every
      gap; none is found exactly when no candidate in that range does. */
  lemma {:induction false} LargestDivisorSpec(positions: seq<nat>, k: int)
    ensures var r := LargestDivisor(positions, k);
      (r.Some? ==> SHORTEST_KEY <= r.value <= k && GapsDivisible(positions, r.value)) &&
      (r.Some? ==> forall d :: r.value < d <= k ==> !GapsDivisible(positions, d)) &&
      (r.None? ==> forall d :: SHORTEST_KEY <= d <= k ==> !GapsDivisible(positions, d))
    decreases k
  {
    if k >= SHORTEST_KEY && !GapsDivisible(positions, k) {
      LargestDivisorSpec(positions, k - 1);
    }
  }

  /** The key length one block gives when it occurs `count` times: none when
      it is not repeated often enough. */
  function BlockKeyLength(text: string, block: string, count: nat): (r: Option<nat>)
    ensures r.Some? ==> count > REPETITION_THRESHOLD && SHORTEST_KEY <= r.value <= LONGEST_KEY
  {
    if count > REPETITION_THRESHOLD then LargestDivisor(OccurrencePositions(text, block, count), LONGEST_KEY)
    else None
  }

  /** The first of `blocks` that gives a key length, with their counts taken
      from `table`. */
  function ScanBlocks(text: string, table: Tally<string>, blocks: seq<string>): (r: Option<Finding>)
    ensures r.Some? ==> SHORTEST_KEY <= r.value.keyLength <= LONGEST_KEY
    decreases |blocks|
  {
    if blocks == [] then None
    else match BlockKeyLength(text, blocks[0], table.Get(blocks[0]))
      case Some(k) => Some(Finding(blocks[0], k))
      case None => ScanBlocks(text, table, blocks[1..])
  }

  /** A first block giving no key length, followed by `n` - 1 more that give
      none, makes `n` blocks that give none. */
  lemma NoneBefore(text: string, table: Tally<string>, blocks: seq<string>, n: nat)
    requires 0 < n <= |blocks|
    requires BlockKeyLength(text, blocks[0], table.Get(blocks[0])).None?
    requires forall j :: 0 <= j < n - 1 ==> BlockKeyLength(text, blocks[1..][j], table.Get(blocks[1..][j])).None?
    ensures forall j :: 0 <= j < n ==> BlockKeyLength(text, blocks[j], table.Get(blocks[j])).None?
  {
    forall j | 0 < j < n ensures BlockKeyLength(text, blocks[j], table.Get(blocks[j])).None? {
      assert blocks[j] == blocks[1..][j - 1];
    }
  }

  /** A finding of the scan names the first of the blocks that gives a key
      length, and that key length; without one, none of the blocks gives a
      key length. */
  lemma {:induction false} ScanBlocksFirst(text: string, table: Tally<string>, blocks: seq<string>)
    ensures var r := ScanBlocks(text, table, blocks);
      (r.Some? ==>
        BlockKeyLength(text, r.value.block, table.Get(r.value.block)) == Some(r.value.keyLength) &&
        exists i :: 0 <= i < |blocks| && blocks[i] == r.value.block &&
          forall j :: 0 <= j < i ==> BlockKeyLength(text, blocks[j], table.Get(blocks[j])).None?) &&
      (r.None? ==> forall j :: 0 <= j < |blocks| ==> BlockKeyLength(text, blocks[j], table.Get(blocks[j])).None?)
    decreases |blocks|
  {
    if blocks != [] {
      if BlockKeyLength(text, blocks[0], table.Get(blocks[0])).None? {
        var rest := blocks[1..];
        ScanBlocksFirst(text, table, rest);
        var r := ScanBlocks(text, table, rest);
        if r.Some? {
          var i :| 0 <= i < |rest| && rest[i] == r.value.block &&
            forall j :: 0 <= j < i ==> BlockKeyLength(text, rest[j], table.Get(rest[j])).None?;
          NoneBefore(text, table, blocks, i + 1);
          assert blocks[i + 1] == r.value.block;
        } else {
          NoneBefore(text, table, blocks, |blocks|);
        }
      } else {
        assert blocks[0] == ScanBlocks(text, table, blocks).value.block;
      }
    }
  }

  /** The scan for one block length, over its table in insertion order;
      nothing is found when the block is longer than the text, whose table
      is then empty. */
  function ScanLength(text: string, len: nat): (r: Option<Finding>)
    ensures len > |text| ==> r.None?
    ensures r.Some? ==> SHORTEST_KEY <= r.value.keyLength <= LONGEST_KEY
  {
    ScanBlocks(text, TallyOf(Windows(text, len)), TallyOf(Windows(text, len)).keys)
  }

  /** The examination for block lengths `len`, `len` - 1, ..., SHORTEST_BLOCK. */
  function SearchFrom(text: string, len: int): (r: Option<Finding>)
    ensures r.Some? ==> SHORTEST_KEY <= r.value.keyLength <= LONGEST_KEY
    decreases len
  {
    if len < SHORTEST_BLOCK then None
    else
      match ScanLength(text, len)
      case Some(f) => Some(f)
      case None => SearchFrom(text, len - 1)
  }

  /** The whole examination, from the longest block length down. */
  function Search(text: string): (r: Option<Finding>)
    ensures r.Some? ==> SHORTEST_KEY <= r.value.keyLength <= LONGEST_KEY
  {
    SearchFrom(text, LONGEST_BLOCK)
  }

  /** What `find_key_length` returns or raises. */
  function KeyLengthResult(text: string): (r: Result<nat>)
    ensures r.Ok? ==> SHORTEST_KEY <= r.value <= LONGEST_KEY
  {
    match Search(text)
    case Some(f) => Ok(f.keyLength)
    case None => Err(KeyLengthNotFound)
  }

  /** One step of the examination: the scan for `len` decides unless it
      finds nothing, in which case the next shorter length is examined. */
  lemma SearchFromStep(text: string, len: int)
    requires len >= SHORTEST_BLOCK
    ensures SearchFrom(text, len) == if ScanLength(text, len).Some? then ScanLength(text, len)
      else SearchFrom(text, len - 1)
  {
  }

  /** The key-length result, seen from block length `len` once every longer
      length has found nothing: the scan for `len` decides it when it finds
      something, and below SHORTEST_BLOCK the result is the failure. */
  lemma KeyLengthResultFrom(text: string, len: int)
    requires Search(text) == SearchFrom(text, len)
    ensures len < SHORTEST_BLOCK ==> KeyLengthResult(text) == Err(KeyLengthNotFound)
    ensures len >= SHORTEST_BLOCK && ScanLength(text, len).Some? ==>
      KeyLengthResult(text) == Ok(ScanLength(text, len).value.keyLength)
    ensures len >= SHORTEST_BLOCK && ScanLength(text, len).None? ==>
      Search(text) == SearchFrom(text, len - 1)
  {
    if len >= SHORTEST_BLOCK {
      SearchFromStep(text, len);
    }
  }

  /** The key length a block gives with its count from the scanner's table
      for its own length. */
  function BlockFinding(text: string, block: string): (r: Option<nat>)
    ensures r.Some? ==> SHORTEST_KEY <= r.value <= LONGEST_KEY
  {
    BlockKeyLength(text, block, TallyOf(Windows(text, |block|)).Get(block))
  }

  /** A finding of the scan for one block length names one of that length's
      blocks. */
  lemma ScanTableFound(text: string, len: nat)
    requires ScanLength(text, len).Some?
    ensures var f := ScanLength(text, len).value;
      |f.block| == len && f.block in Windows(text, len) && BlockFinding(text, f.block) == Some(f.keyLength)
  {
    var w := Windows(text, len);
    ScanBlocksFirst(text, TallyOf(w), TallyOf(w).keys);
    TallyOfCounts(w);
  }

  /** Without a finding of the scan for one block length, none of that
      length's blocks gives a key length. */
  lemma ScanTableNone(text: string, len: nat, block: string)
    requires ScanLength(text, len).None?
    requires block in Windows(text, len)
    ensures BlockFinding(text, block).None?
  {
    var w := Windows(text, len);
    var i :| 0 <= i < |w| && w[i] == block;
    assert |block| == len;
    var table := TallyOf(w);
    ScanBlocksFirst(text, table, table.keys);
    TallyOfCounts(w);
    assert block in table.counts;
    var j :| 0 <= j < |table.keys| && table.keys[j] == block;
  }

  /** A finding for block lengths up to `len`: the block has a length in
      [SHORTEST_BLOCK, len] and, with its count in the scanner's table for
      that length, gives the finding's key length. */
  lemma {:induction false} SearchFromFound(text: string, len: int)
    requires SearchFrom(text, len).Some?
    ensures var f := SearchFrom(text, len).value;
      SHORTEST_BLOCK <= |f.block| <= len && f.block in Windows(text, |f.block|) &&
      BlockFinding(text, f.block) == Some(f.keyLength)
    decreases len
  {
    if ScanLength(text, len).None? {
      SearchFromFound(text, len - 1);
    } else {
      ScanTableFound(text, len);
    }
  }

  /** Scans that found nothing for every length in (l, len - 1] and for
      `len` found nothing for every length in (l, len]. */
  lemma NothingLonger(text: string, len: nat, l: nat)
    requires ScanLength(text, len).None?
    requires forall m: nat :: l < m <= len - 1 ==> ScanLength(text, m).None?
    ensures forall m: nat :: l < m <= len ==> ScanLength(text, m).None?
  {
  }

  /** The finding for block lengths up to `len` is the scan of the longest
      block length whose scan finds something: every longer length up to
      `len` found nothing. */
  lemma {:induction false} SearchFromLongest(text: string, len: int)
    requires SearchFrom(text, len).Some?
    ensures var f := SearchFrom(text, len).value;
      exists l: nat :: SHORTEST_BLOCK <= l <= len && ScanLength(text, l) == Some(f) &&
        forall m: nat :: l < m <= len ==> ScanLength(text, m).None?
    decreases len
  {
    var f := SearchFrom(text, len).value;
    SearchFromStep(text, len);
    if ScanLength(text, len).None? {
      assert SearchFrom(text, len - 1) == Some(f);
      SearchFromLongest(text, len - 1);
      var l: nat :| SHORTEST_BLOCK <= l <= len - 1 && ScanLength(text, l) == Some(f) &&
        forall m: nat :: l < m <= len - 1 ==> ScanLength(text, m).None?;
      NothingLonger(text, len, l);
    } else {
      assert ScanLength(text, len) == Some(f);
    }
  }

  /** Without a finding for block lengths up to `len`, no block of any length
      in [SHORTEST_BLOCK, len] gives a key length. */
  lemma {:induction false} SearchFromNone(text: string, len: int, block: string)
    requires SearchFrom(text, len).None?
    requires SHORTEST_BLOCK <= |block| <= len && block in Windows(text, |block|)
    ensures BlockFinding(text, block).None?
    decreases len
  {
    if |block| == len {
      ScanTableNone(text, len, block);
    } else {
      SearchFromNone(text, len - 1, block);
    }
  }

  /** A repeated block of length `len` is in the scanner's table for `len`. */
  lemma RepeatedBlockIsWindow(text: string, block: string)
    requires |Matches(text, block)| > 0
    ensures block in Windows(text, |block|)
  {
    var w := Windows(text, |block|);
    WindowCount(text, block);
    TallyOfCounts(w);
  }

  /** Key-length result, when it succeeds: the key length lies in [4, 30]
      and divides every gap between consecutive occurrences of a block of
      length in [3, 20] that occurs more than 10 times; no larger candidate
      up to 30 divides them all. */
  lemma SearchSound(text: string)
    requires Search(text).Some?
    ensures var f := Search(text).value;
      SHORTEST_BLOCK <= |f.block| <= LONGEST_BLOCK &&
      |Matches(text, f.block)| > REPETITION_THRESHOLD &&
      SHORTEST_KEY <= f.keyLength <= LONGEST_KEY &&
      GapsDivisible(Matches(text, f.block), f.keyLength) &&
      forall d :: f.keyLength < d <= LONGEST_KEY ==> !GapsDivisible(Matches(text, f.block), d)
  {
    var f := Search(text).value;
    SearchFromFound(text, LONGEST_BLOCK);
    OccurrencesOfScannedCount(text, f.block);
    LargestDivisorSpec(Matches(text, f.block), LONGEST_KEY);
  }

  /** Key-length result, when it fails: it fails exactly when no block of
      length in [3, 20] occurring more than 10 times has its gaps all
      divisible by some candidate in [4, 30]. */
  lemma SearchFailsExactly(text: string)
    ensures Search(text).None? <==> forall block: string, k: nat ::
      (SHORTEST_BLOCK <= |block| <= LONGEST_BLOCK && |Matches(text, block)| > REPETITION_THRESHOLD &&
       SHORTEST_KEY <= k <= LONGEST_KEY) ==> !GapsDivisible(Matches(text, block), k)
  {
    if Search(text).None? {
      forall block: string, k: nat | SHORTEST_BLOCK <= |block| <= LONGEST_BLOCK &&
        |Matches(text, block)| > REPETITION_THRESHOLD && SHORTEST_KEY <= k <= LONGEST_KEY
        ensures !GapsDivisible(Matches(text, block), k)
      {
        RepeatedBlockIsWindow(text, block);
        SearchFromNone(text, LONGEST_BLOCK, block);
        OccurrencesOfScannedCount(text, block);
        LargestDivisorSpec(Matches(text, block), LONGEST_KEY);
      }
    } else {
      SearchSound(text);
    }
  }

  /** A positive multiple of `k` is at least `k`. */
  lemma MultipleAtLeast(g: int, k: nat)
    requires k > 0 && g > 0 && g % k == 0
    ensures g >= k
  {
  }

  /** Starts that are strictly ascending with gaps divisible by `k` spread at
      least `k` apart. */
  lemma {:induction false} SpreadAtLeast(m: seq<nat>, k: nat, j: nat)
    requires k > 0 && j < |m|
    requires forall a, b :: 0 <= a < b < |m| ==> m[a] < m[b]
    requires GapsDivisible(m, k)
    ensures m[j] >= j * k
  {
    if j > 0 {
      SpreadAtLeast(m, k, j - 1);
      assert Gap(m, j) % k == 0;
      MultipleAtLeast(Gap(m, j), k);
      assert (j - 1) * k + k == j * k;
    }
  }

  /** The key length found always fits in the text more than ten times, so
      every column of the key recoverer is non-empty. */
  lemma KeyLengthFits(text: string)
    requires Search(text).Some?
    ensures REPETITION_THRESHOLD * Search(text).value.keyLength + |Search(text).value.block| <= |text|
  {
    var f := Search(text).value;
    var m := Matches(text, f.block);
    SearchSound(text);
    MatchesExact(text, f.block);
    SpreadAtLeast(m, f.keyLength, REPETITION_THRESHOLD);
    assert m[REPETITION_THRESHOLD] in m;
  }
}
