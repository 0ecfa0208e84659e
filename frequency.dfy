/** The frequency analysis of `find_key`: the column of ciphertext letters a
    key position encrypts, its most frequent letter, and the shift that takes
    'e' to that letter. */
module Frequency {
  import opened Alphabet
  import opened Tallies
  import opened Vigenere

  /** The letter assumed to be the most frequent one of the plaintext. */
  const BASE_CHAR: char := 'e'

  /** The letters of `text` at positions p, p + k, p + 2k, ... below its
      length, in ascending order of position. */
  function Column(text: string, p: nat, k: nat): (column: seq<char>)
    requires k > 0
    ensures p <= |text| ==> |column| <= |text| - p
    decreases |text| - p
  {
    if p >= |text| then [] else [text[p]] + Column(text, p + k, k)
  }

  /** Column slice: element j of the column is the letter at p + j*k, and the
      next position after the last one is past the end of the text. */
  lemma {:induction false} ColumnAt(text: string, p: nat, k: nat)
    requires k > 0
    ensures forall j :: 0 <= j < |Column(text, p, k)| ==>
      p + j * k < |text| && Column(text, p, k)[j] == text[p + j * k]
    ensures p + |Column(text, p, k)| * k >= |text|
    ensures p < |text| ==> |Column(text, p, k)| > 0
    decreases |text| - p
  {
    if p < |text| {
      var rest := Column(text, p + k, k);
      ColumnAt(text, p + k, k);
      forall j | 0 < j <= |rest| ensures p + j * k == (p + k) + (j - 1) * k {
        assert j * k == k + (j - 1) * k;
      }
      assert (1 + |rest|) * k == k + |rest| * k;
    }
  }

  /** Every letter of a column is a letter of the text. */
  lemma ColumnOfText(text: string, p: nat, k: nat)
    requires k > 0 && IsText(text)
    ensures IsText(Column(text, p, k))
  {
    ColumnAt(text, p, k);
  }

  /** The position of the first occurrence of `x` in `s`. */
  function FirstIndexOf(s: seq<char>, x: char): (i: nat)
    requires x in s
    ensures i < |s| && s[i] == x
    ensures forall j :: 0 <= j < i ==> s[j] != x
  {
    if s[0] == x then 0 else 1 + FirstIndexOf(s[1..], x)
  }

  /** Ruby's `max_by` over the counts of `s`, with the keys in order of first
      appearance: a letter of `s` that occurs at least as often as any other,
      and more often than every letter whose first appearance comes before
      its own. */
  function MostFrequent(s: seq<char>): (c: char)
    requires |s| > 0
    ensures c in s
    ensures forall d :: multiset(s)[d] <= multiset(s)[c]
    ensures forall d :: d in s && FirstIndexOf(s, d) < FirstIndexOf(s, c) ==> multiset(s)[d] < multiset(s)[c]
  {
    var t := TallyOf(s);
    TallyOfCounts(s);
    assert s[0] in t.counts;
    var j := MaxBy(t, |t.keys|);
    FirstMaximum(s, j);
    t.keys[j]
  }

  /** The key chosen by MaxBy has the properties MostFrequent promises. */
  lemma FirstMaximum(s: seq<char>, j: nat)
    requires 0 < |TallyOf(s).keys| && j == MaxBy(TallyOf(s), |TallyOf(s).keys|)
    ensures TallyOf(s).keys[j] in s
    ensures forall d :: multiset(s)[d] <= multiset(s)[TallyOf(s).keys[j]]
    ensures forall d :: d in s && FirstIndexOf(s, d) < FirstIndexOf(s, TallyOf(s).keys[j]) ==>
      multiset(s)[d] < multiset(s)[TallyOf(s).keys[j]]
  {
    var t := TallyOf(s);
    var c := t.keys[j];
    TallyOfCounts(s);
    forall d ensures multiset(s)[d] <= multiset(s)[c] {
      if d in s {
        assert d in t.counts;
        var i :| 0 <= i < |t.keys| && t.keys[i] == d;
      }
    }
    forall d | d in s && FirstIndexOf(s, d) < FirstIndexOf(s, c) ensures multiset(s)[d] < multiset(s)[c] {
      EarlierKey(s, j, d);
    }
  }

  /** A letter first appearing before the key chosen by MaxBy comes before it
      in the tally's order, hence occurs fewer times. */
  lemma EarlierKey(s: seq<char>, j: nat, d: char)
    requires 0 < |TallyOf(s).keys| && j == MaxBy(TallyOf(s), |TallyOf(s).keys|)
    requires d in s && TallyOf(s).keys[j] in s
    requires FirstIndexOf(s, d) < FirstIndexOf(s, TallyOf(s).keys[j])
    ensures multiset(s)[d] < multiset(s)[TallyOf(s).keys[j]]
  {
    var t := TallyOf(s);
    var c := t.keys[j];
    var k := FirstIndexOf(s, d);
    var fc := FirstIndexOf(s, c);
    var prefix := s[..k + 1];
    assert c !in prefix by {
      forall m | 0 <= m < |prefix| ensures prefix[m] != c {
        assert m < fc;
        assert prefix[m] == s[m];
      }
    }
    assert prefix[k] == d;
    TallyOfCounts(s);
    assert d in t.counts;
    var i :| 0 <= i < |t.keys| && t.keys[i] == d;
    KeyOrder(s, k + 1, i, j);
    assert t.Get(d) < t.Get(c);
    TallyOfCounts(s);
  }

  /** The key letter that takes BASE_CHAR to `c`:
      (index(c) - index('e') + 26) mod 26. */
  function Shift(c: char): (shift: int)
    requires IsLetter(c)
    ensures 0 <= shift < SIZE
    ensures EncryptChar(BASE_CHAR, shift) == c
  {
    var shift := (Index(c) - Index(BASE_CHAR) + SIZE) % SIZE;
    assert (Index(BASE_CHAR) + shift) % SIZE == Index(c) by {
      var q := (Index(c) - Index(BASE_CHAR) + SIZE) / SIZE;
      assert Index(c) - Index(BASE_CHAR) + SIZE == SIZE * q + shift;
      ModUnique(Index(BASE_CHAR) + shift, 1 - q, Index(c));
    }
    shift
  }

  /** The key `find_key` recovers for key length `k`: entry p is the shift
      of the most frequent letter of column p. Every column is non-empty
      because the key is no longer than the text. */
  function RecoveredKey(text: string, k: nat): (key: seq<int>)
    requires IsText(text) && k <= |text|
    ensures |key| == k
    ensures forall p :: 0 <= p < k ==> 0 <= key[p] < SIZE
  {
    seq(k, p requires 0 <= p < k => ColumnKey(text, p, k))
  }

  /** The key entry for column `p`. */
  function ColumnKey(text: string, p: nat, k: nat): (shift: int)
    requires IsText(text) && p < k <= |text|
    ensures 0 <= shift < SIZE
    ensures EncryptChar(BASE_CHAR, shift) == MostFrequent(Column(text, p, k))
  {
    ColumnAt(text, p, k);
    ColumnOfText(text, p, k);
    Shift(MostFrequent(Column(text, p, k)))
  }

  /** Frequency analysis undone: decrypting with the recovered key turns the
      most frequent letter of every column into BASE_CHAR, wherever it
      occurs in the text. */
  lemma RecoveredKeyDecryptsToBase(text: string, k: nat, i: nat)
    requires IsText(text) && 0 < k <= |text| && i < |text|
    requires text[i] == MostFrequent(Column(text, i % k, k))
    ensures Decipher(text, RecoveredKey(text, k))[i] == BASE_CHAR
  {
    var key := RecoveredKey(text, k);
    var p := i % k;
    var shift := key[p];
    assert shift == ColumnKey(text, p, k);
    assert EncryptChar(BASE_CHAR, shift) == text[i];
    DecryptEncryptChar(BASE_CHAR, shift);
    assert Decipher(text, key)[i] == DecryptChar(text[i], shift);
  }
}
