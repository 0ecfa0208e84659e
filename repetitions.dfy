/** Repeated blocks of the ciphertext: the sliding window behind
    `find_block_repetitions`, the leftmost-match search of Ruby's
    `String#index(block, position)`, and the positions at which a block
    starts, as collected by `find_occurrencies_position`. */
module Repetitions {
  import opened Results
  import opened Tallies

  /** The blocks of length `len` at offsets 0, 1, ..., |text| - len, in order;
      none when the block is longer than the text. */
  function Windows(text: string, len: nat): (w: seq<string>)
    ensures |w| == if len <= |text| then |text| - len + 1 else 0
  {
    if len <= |text| then seq(|text| - len + 1, i requires 0 <= i <= |text| - len => text[i..i + len])
    else []
  }

  /** `block` starts at offset `i` of `text`. */
  predicate IsMatchAt(text: string, block: string, i: nat) {
    i + |block| <= |text| && text[i..i + |block|] == block
  }

  /** Ruby's `text.index(block, pos)`: the leftmost start of `block` at or
      after `pos`, or None (Ruby's nil) when there is none. */
  function IndexFrom(text: string, block: string, pos: nat): (r: Option<nat>)
    ensures r.Some? ==> pos <= r.value && IsMatchAt(text, block, r.value)
    ensures r.Some? ==> forall i :: pos <= i < r.value ==> !IsMatchAt(text, block, i)
    ensures r.None? ==> forall i :: pos <= i ==> !IsMatchAt(text, block, i)
    decreases |text| + 1 - pos
  {
    if pos > |text| then None
    else if IsMatchAt(text, block, pos) then Some(pos)
    else IndexFrom(text, block, pos + 1)
  }

  /** The offsets below `hi` at which `block` starts, in ascending order. */
  function MatchesBelow(text: string, block: string, hi: nat): seq<nat>
    decreases hi
  {
    if hi == 0 then []
    else MatchesBelow(text, block, hi - 1) + (if IsMatchAt(text, block, hi - 1) then [hi - 1] else [])
  }

  /** Every offset at which `block` starts, in ascending order; overlapping
      occurrences are all included. */
  function Matches(text: string, block: string): seq<nat> {
    MatchesBelow(text, block, |text| + 1)
  }

  /** The result of `find_occurrencies_position(block, count)`: the first
      `count` starts of `block`, or all of them when there are fewer. */
  function OccurrencePositions(text: string, block: string, count: nat): (positions: seq<nat>)
    ensures |positions| <= count && positions <= Matches(text, block)
    ensures |positions| < count ==> positions == Matches(text, block)
  {
    var m := Matches(text, block);
    if count <= |m| then m[..count] else m
  }

  /** MatchesBelow lists exactly the starts of `block` below `hi`, strictly
      ascending. */
  lemma {:induction false} MatchesBelowExact(text: string, block: string, hi: nat)
    ensures forall k :: 0 <= k < |MatchesBelow(text, block, hi)| ==>
      MatchesBelow(text, block, hi)[k] < hi && IsMatchAt(text, block, MatchesBelow(text, block, hi)[k])
    ensures forall k1, k2 :: 0 <= k1 < k2 < |MatchesBelow(text, block, hi)| ==>
      MatchesBelow(text, block, hi)[k1] < MatchesBelow(text, block, hi)[k2]
    ensures forall i :: 0 <= i < hi && IsMatchAt(text, block, i) ==> i in MatchesBelow(text, block, hi)
  {
    if hi > 0 {
      MatchesBelowExact(text, block, hi - 1);
    }
  }

  /** Without a start of `block` in [lo, hi), the starts below `hi` are the
      starts below `lo`. */
  lemma {:induction false} MatchesBelowSkip(text: string, block: string, lo: nat, hi: nat)
    requires lo <= hi
    requires forall i :: lo <= i < hi ==> !IsMatchAt(text, block, i)
    ensures MatchesBelow(text, block, hi) == MatchesBelow(text, block, lo)
    decreases hi
  {
    if lo < hi {
      MatchesBelowSkip(text, block, lo, hi - 1);
    }
  }

  /** The starts below `lo` are a prefix of the starts below `hi`. */
  lemma {:induction false} MatchesBelowPrefix(text: string, block: string, lo: nat, hi: nat)
    requires lo <= hi
    ensures MatchesBelow(text, block, lo) <= MatchesBelow(text, block, hi)
    decreases hi
  {
    if lo < hi {
      MatchesBelowPrefix(text, block, lo, hi - 1);
    }
  }

  /** Occurrence positions: `Matches` holds every start of `block` and
      nothing else, strictly ascending, overlapping occurrences included. */
  lemma MatchesExact(text: string, block: string)
    ensures forall i :: i in Matches(text, block) <==> IsMatchAt(text, block, i)
    ensures forall k1, k2 :: 0 <= k1 < k2 < |Matches(text, block)| ==>
      Matches(text, block)[k1] < Matches(text, block)[k2]
  {
    MatchesBelowExact(text, block, |text| + 1);
  }

  /** Occurrence positions: at most `count` of them, strictly ascending, each
      a start of `block`, and no start of `block` up to the last one left
      out, so overlapping occurrences are included. */
  lemma OccurrencePositionsExact(text: string, block: string, count: nat)
    ensures var p := OccurrencePositions(text, block, count);
      |p| <= count &&
      (forall k :: 0 <= k < |p| ==> IsMatchAt(text, block, p[k])) &&
      (forall k1, k2 :: 0 <= k1 < k2 < |p| ==> p[k1] < p[k2]) &&
      (forall i :: |p| > 0 && i <= p[|p| - 1] && IsMatchAt(text, block, i) ==> i in p)
  {
    var m := Matches(text, block);
    var p := OccurrencePositions(text, block, count);
    MatchesExact(text, block);
    assert forall k :: 0 <= k < |p| ==> p[k] == m[k];
    forall i | |p| > 0 && i <= p[|p| - 1] && IsMatchAt(text, block, i) ensures i in p {
      var k :| 0 <= k < |m| && m[k] == i;
      assert p[k] == i;
    }
  }

  /** Among the first `hi` windows, `block` occurs as often as it starts
      below `hi`. */
  lemma {:induction false} WindowsPrefixCount(text: string, block: string, hi: nat)
    requires hi <= |Windows(text, |block|)|
    ensures multiset(Windows(text, |block|)[..hi])[block] == |MatchesBelow(text, block, hi)|
  {
    if hi > 0 {
      WindowsPrefixCount(text, block, hi - 1);
      WindowStep(text, block, hi);
    }
  }

  /** The window at offset `hi` - 1 adds one to the count of `block` exactly
      when `block` starts there. */
  lemma WindowStep(text: string, block: string, hi: nat)
    requires 0 < hi <= |Windows(text, |block|)|
    ensures multiset(Windows(text, |block|)[..hi])[block] ==
      multiset(Windows(text, |block|)[..hi - 1])[block] + (if IsMatchAt(text, block, hi - 1) then 1 else 0)
  {
    var w := Windows(text, |block|);
    var x := w[hi - 1];
    assert w[..hi] == w[..hi - 1] + [x];
    assert multiset(w[..hi]) == multiset(w[..hi - 1]) + multiset{x};
    assert x == text[hi - 1..hi - 1 + |block|];
  }

  /** Block counts: the scanner's count for `block` is the number of offsets
      at which it starts. */
  lemma WindowCount(text: string, block: string)
    ensures TallyOf(Windows(text, |block|)).Get(block) == |Matches(text, block)|
  {
    var w := Windows(text, |block|);
    WindowsPrefixCount(text, block, |w|);
    assert w[..|w|] == w;
    forall i | |w| <= i < |text| + 1 ensures !IsMatchAt(text, block, i) {
    }
    MatchesBelowSkip(text, block, |w|, |text| + 1);
    TallyOfCounts(w);
    assert TallyOf(w).Get(block) == multiset(w)[block];
  }

  /** Block counts: the counts of the scanner's table add up to the number of
      windows, |text| - len + 1, and the table is empty when the block is
      longer than the text. */
  lemma ScanTotal(text: string, len: nat)
    ensures len <= |text| ==>
      Total(TallyOf(Windows(text, len)), TallyOf(Windows(text, len)).keys) == |text| - len + 1
    ensures len > |text| ==> TallyOf(Windows(text, len)) == Tally([], map[])
  {
    TallyOfTotal(Windows(text, len));
  }

  /** Given the scanner's count, collecting occurrence positions returns
      every start of the block: exactly `count` positions. */
  lemma OccurrencesOfScannedCount(text: string, block: string)
    ensures OccurrencePositions(text, block, TallyOf(Windows(text, |block|)).Get(block)) == Matches(text, block)
    ensures |Matches(text, block)| == TallyOf(Windows(text, |block|)).Get(block)
  {
    WindowCount(text, block);
  }

  /** Counting one more element is one Bump of the table. */
  lemma TallyOfSnoc<T>(s: seq<T>, x: T)
    ensures TallyOf(s + [x]) == TallyOf(s).Bump(x)
  {
    assert (s + [x])[..|s|] == s;
  }

  /** The window at offset `i` is `block` when the letters there are. */
  lemma WindowIs(text: string, len: nat, i: nat, block: string)
    requires |block| == len && i + len <= |text|
    requires forall k :: 0 <= k < len ==> text[i + k] == block[k]
    ensures Windows(text, len)[i] == block
  {
    assert text[i..i + len] == block;
  }

  lemma ExampleWindows()
    ensures Windows("abcdabcdabcd", 4) ==
      ["abcd", "bcda", "cdab", "dabc", "abcd", "bcda", "cdab", "dabc", "abcd"]
  {
    var text := "abcdabcdabcd";
    WindowIs(text, 4, 0, "abcd");
    WindowIs(text, 4, 1, "bcda");
    WindowIs(text, 4, 2, "cdab");
    WindowIs(text, 4, 3, "dabc");
    WindowIs(text, 4, 4, "abcd");
    WindowIs(text, 4, 5, "bcda");
    WindowIs(text, 4, 6, "cdab");
    WindowIs(text, 4, 7, "dabc");
    WindowIs(text, 4, 8, "abcd");
  }

  /** Bumping four distinct values one after the other. */
  lemma BumpRound<T>(t: Tally<T>, a: T, b: T, c: T, d: T, n: nat)
    requires a != b && a != c && a != d && b != c && b != d && c != d
    requires t.keys == [a, b, c, d] && t.counts == map[a := n, b := n, c := n, d := n]
    ensures t.Bump(a).Bump(b).Bump(c).Bump(d) == Tally([a, b, c, d], map[a := n + 1, b := n + 1, c := n + 1, d := n + 1])
  {
  }

  lemma {:induction false} TallyOfSnocs<T>(s: seq<T>, a: T, b: T, c: T, d: T)
    ensures TallyOf(s + [a, b, c, d]) == TallyOf(s).Bump(a).Bump(b).Bump(c).Bump(d)
  {
    TallyOfSnoc(s, a);
    TallyOfSnoc(s + [a], b);
    TallyOfSnoc(s + [a] + [b], c);
    TallyOfSnoc(s + [a] + [b] + [c], d);
    assert s + [a] + [b] + [c] + [d] == s + [a, b, c, d];
  }

  lemma TallyOfFour<T>(a: T, b: T, c: T, d: T)
    requires a != b && a != c && a != d && b != c && b != d && c != d
    ensures TallyOf([a, b, c, d]) == Tally([a, b, c, d], map[a := 1, b := 1, c := 1, d := 1])
  {
    TallyOfSnocs([], a, b, c, d);
    assert [] + [a, b, c, d] == [a, b, c, d];
  }

  lemma TallyOfEight<T>(a: T, b: T, c: T, d: T)
    requires a != b && a != c && a != d && b != c && b != d && c != d
    ensures TallyOf([a, b, c, d, a, b, c, d]) == Tally([a, b, c, d], map[a := 2, b := 2, c := 2, d := 2])
  {
    TallyOfFour(a, b, c, d);
    TallyOfSnocs([a, b, c, d], a, b, c, d);
    assert [a, b, c, d] + [a, b, c, d] == [a, b, c, d, a, b, c, d];
    BumpRound(TallyOf([a, b, c, d]), a, b, c, d, 1);
  }

  /** Counting a, b, c, d, a, b, c, d, a for four distinct values. */
  lemma TallyOfCycle<T>(a: T, b: T, c: T, d: T)
    requires a != b && a != c && a != d && b != c && b != d && c != d
    ensures TallyOf([a, b, c, d, a, b, c, d, a]) == Tally([a, b, c, d], map[a := 3, b := 2, c := 2, d := 2])
  {
    TallyOfEight(a, b, c, d);
    TallyOfSnoc([a, b, c, d, a, b, c, d], a);
    assert [a, b, c, d, a, b, c, d] + [a] == [a, b, c, d, a, b, c, d, a];
  }

  /** Scanning "abcdabcdabcd" with blocks of four letters: the table holds
      "abcd" three times and each of its three rotations twice, in order of
      first appearance. */
  lemma ScanExample()
    ensures TallyOf(Windows("abcdabcdabcd", 4)) ==
      Tally(["abcd", "bcda", "cdab", "dabc"], map["abcd" := 3, "bcda" := 2, "cdab" := 2, "dabc" := 2])
  {
    ExampleWindows();
    var a, b, c, d := "abcd", "bcda", "cdab", "dabc";
    assert a[0] != b[0] && a[0] != c[0] && a[0] != d[0] && b[0] != c[0] && b[0] != d[0] && c[0] != d[0];
    TallyOfCycle(a, b, c, d);
  }
}
