/** The breaker object: it holds the ciphertext and caches the key length and
    the key (None until found) across calls to Decrypt. Each Ruby method
    that loops or changes the object is a method here, proved against the
    functions of the other modules; `find_more_frequent_char` is the
    function `Frequency.MostFrequent`. */
module CodeBreakers {
  import opened Alphabet
  import opened Results
  import opened Tallies
  import opened Repetitions
  import opened Kasiski
  import opened Vigenere
  import opened Frequency

  /** What decrypting `text` yields: KeyLengthNotFound when the Kasiski
      examination finds nothing, otherwise the decryption under the key that
      frequency analysis recovers for the key length found. */
  function DecryptResult(text: string): (r: Result<string>)
    requires IsText(text)
    ensures r.Ok? ==> |r.value| == |text| && IsText(r.value)
  {
    match Search(text)
    case None => Err(KeyLengthNotFound)
    case Some(f) =>
      SearchSound(text);
      KeyLengthFits(text);
      Ok(Decipher(text, RecoveredKey(text, f.keyLength)))
  }

  /** What decrypt returns: an error exactly when the examination finds no
      key length; otherwise a plaintext of the ciphertext's length that the
      recovered key encrypts back into the ciphertext. */
  lemma DecryptResultSound(text: string)
    requires IsText(text)
    ensures DecryptResult(text).Err? <==> Search(text).None?
    ensures DecryptResult(text).Err? ==> DecryptResult(text).error == KeyLengthNotFound
    ensures DecryptResult(text).Ok? ==>
      var k := Search(text).value.keyLength;
      SHORTEST_KEY <= k <= LONGEST_KEY && k <= |text| &&
      |DecryptResult(text).value| == |text| &&
      Encipher(DecryptResult(text).value, RecoveredKey(text, k)) == text
  {
    if Search(text).Some? {
      SearchSound(text);
      KeyLengthFits(text);
      var k := Search(text).value.keyLength;
      EncipherDecipher(text, RecoveredKey(text, k));
    }
  }

  class CodeBreaker {
    var cipherText: string
    var keyLength: Option<nat>
    var key: Option<seq<int>>

    /** The cached values, once present, are the ones the analysis of the
        ciphertext gives, and a key is only ever cached with its length. */
    ghost predicate Valid()
      reads this
    {
      IsText(cipherText) &&
      (keyLength.Some? ==> KeyLengthResult(cipherText) == Ok(keyLength.value)) &&
      (key.Some? ==> (keyLength.Some? && keyLength.value <= |cipherText| &&
                      key.value == RecoveredKey(cipherText, keyLength.value)))
    }

    constructor (text: string)
      requires IsText(text)
      ensures Valid()
      ensures cipherText == text && keyLength == None && key == None
    {
      cipherText := text;
      keyLength := None;
      key := None;
    }

    /** Finds the key length unless it is cached, then the key unless it is
        cached, and decrypts. A cached value is never recomputed, and a
        failure leaves the object as it was. */
    method Decrypt() returns (r: Result<string>)
      requires Valid()
      modifies this`keyLength, this`key
      ensures Valid()
      ensures r == DecryptResult(cipherText)
      ensures old(keyLength).Some? ==> keyLength == old(keyLength)
      ensures old(key).Some? ==> key == old(key)
      ensures r.Ok? ==> keyLength.Some? && key.Some?
      ensures r.Err? ==> keyLength == old(keyLength) && key == old(key)
    {
      if keyLength.None? {
        var found := FindKeyLength();
        if found.Err? {
          return Err(found.error);
        }
        keyLength := Some(found.value);
      }
      SearchSound(cipherText);
      KeyLengthFits(cipherText);
      if key.None? {
        var recovered := FindKey();
        key := Some(recovered);
      }
      var plainText := FindPlainText();
      return Ok(plainText);
    }

    /** The Kasiski examination: block lengths 20 down to 3, the blocks
        occurring more than 10 times in the table's order, candidate key
        lengths 30 down to 4; the first candidate dividing every gap between
        consecutive occurrences is returned. */
    method FindKeyLength() returns (r: Result<nat>)
      ensures r == KeyLengthResult(cipherText)
    {
      var blockLength := LONGEST_BLOCK;
      while blockLength >= SHORTEST_BLOCK
        invariant SHORTEST_BLOCK - 1 <= blockLength <= LONGEST_BLOCK
        invariant Search(cipherText) == SearchFrom(cipherText, blockLength)
      {
        var found := ExamineBlockLength(blockLength);
        KeyLengthResultFrom(cipherText, blockLength);
        if found.Some? {
          return Ok(found.value.keyLength);
        }
        blockLength := blockLength - 1;
      }
      KeyLengthResultFrom(cipherText, blockLength);
      return Err(KeyLengthNotFound);
    }

    /** One block length of the examination: the table of its blocks, then
        the scan of that table. */
    method ExamineBlockLength(blockLength: nat) returns (found: Option<Finding>)
      ensures found == ScanLength(cipherText, blockLength)
    {
      var blocks := FindBlockRepetitions(blockLength);
      found := ScanTable(blocks);
    }

    /** One block length of the examination: the blocks of the table in its
        order, each occurring more than 10 times examined in turn, until one
        gives a key length. */
    method ScanTable(blocks: Tally<string>) returns (r: Option<Finding>)
      ensures r == ScanBlocks(cipherText, blocks, blocks.keys)
    {
      var j := 0;
      while j < |blocks.keys|
        invariant 0 <= j <= |blocks.keys|
        invariant ScanBlocks(cipherText, blocks, blocks.keys) == ScanBlocks(cipherText, blocks, blocks.keys[j..])
      {
        var block := blocks.keys[j];
        var occurrences := blocks.Get(block);
        assert blocks.keys[j..][1..] == blocks.keys[j + 1..];
        if occurrences > REPETITION_THRESHOLD {
          var positions := FindOccurrencePositions(block, occurrences);
          var possibleKeyLength := FindDivisor(positions);
          if possibleKeyLength.Some? {
            return Some(Finding(block, possibleKeyLength.value));
          }
        }
        j := j + 1;
      }
      assert blocks.keys[j..] == [];
      return None;
    }

    /** Frequency analysis per key position: entry p is the shift taking 'e'
        to the most frequent letter of column p. */
    method FindKey() returns (recovered: seq<int>)
      requires IsText(cipherText) && keyLength.Some? && keyLength.value <= |cipherText|
      ensures recovered == RecoveredKey(cipherText, keyLength.value)
      ensures |recovered| == keyLength.value
      ensures forall p :: 0 <= p < |recovered| ==> (0 <= recovered[p] < SIZE &&
        EncryptChar(BASE_CHAR, recovered[p]) == MostFrequent(Column(cipherText, p, keyLength.value)))
    {
      var k := keyLength.value;
      recovered := [];
      var keyPosition := 0;
      while keyPosition < k
        invariant 0 <= keyPosition <= k
        invariant |recovered| == keyPosition
        invariant forall p :: 0 <= p < keyPosition ==> recovered[p] == ColumnKey(cipherText, p, k)
      {
        var shift := FindKeyEntry(keyPosition);
        recovered := recovered + [shift];
        keyPosition := keyPosition + 1;
      }
    }

    /** One step of the frequency analysis: the slice of the column, its most
        frequent letter, and the shift that takes 'e' to it. */
    method FindKeyEntry(keyPosition: nat) returns (shift: int)
      requires IsText(cipherText) && keyLength.Some? && keyPosition < keyLength.value <= |cipherText|
      ensures shift == ColumnKey(cipherText, keyPosition, keyLength.value)
    {
      var slice := BuildCipherTextSlice(keyPosition);
      ColumnAt(cipherText, keyPosition, keyLength.value);
      ColumnOfText(cipherText, keyPosition, keyLength.value);
      var encryptedE := MostFrequent(slice);
      shift := Shift(encryptedE);
    }

    /** Decrypts every position with the key letter of its column. */
    method FindPlainText() returns (plainText: string)
      requires IsText(cipherText) && key.Some? && (|cipherText| > 0 ==> |key.value| > 0)
      ensures plainText == Decipher(cipherText, key.value)
    {
      var k := key.value;
      plainText := "";
      var i := 0;
      while i < |cipherText|
        invariant 0 <= i <= |cipherText|
        invariant plainText == Decipher(cipherText, k)[..i]
      {
        var idxKey := k[i % |k|];
        var idxCipherChar := Index(cipherText[i]);
        var idxPlain := (idxCipherChar - idxKey + SIZE) % SIZE;
        plainText := plainText + [LETTERS[idxPlain]];
        i := i + 1;
      }
      assert Decipher(cipherText, k)[..i] == Decipher(cipherText, k);
    }

    /** Slides a window of `blockLength` letters over the ciphertext and
        counts every distinct block; a new block is stored at the end of the
        table's order. */
    method FindBlockRepetitions(blockLength: nat) returns (blocks: Tally<string>)
      ensures blocks == TallyOf(Windows(cipherText, blockLength))
    {
      ghost var w := Windows(cipherText, blockLength);
      blocks := Tally([], map[]);
      var i := 0;
      while i <= |cipherText| - blockLength
        invariant 0 <= i <= |w|
        invariant blocks == TallyOf(w[..i])
      {
        var block := cipherText[i..i + blockLength];
        var c := if block in blocks.counts then blocks.counts[block] + 1 else 1;
        if block !in blocks.counts {
          blocks := blocks.(keys := blocks.keys + [block]);
        }
        blocks := blocks.(counts := blocks.counts[block := c]);
        assert w[..i + 1][..i] == w[..i];
        i := i + 1;
      }
      assert w[..i] == w;
    }

    /** Collects the starts of `block` from left to right with
        `String#index`, resuming one past each match so that overlapping
        occurrences count, until `occurrences` are found or none is left. */
    method FindOccurrencePositions(block: string, occurrences: nat) returns (positions: seq<nat>)
      ensures positions == OccurrencePositions(cipherText, block, occurrences)
      ensures occurrences == TallyOf(Windows(cipherText, |block|)).Get(block) ==>
        positions == Matches(cipherText, block) && |positions| == occurrences
    {
      positions := [];
      var position: nat := 0;
      var idx := 0;
      while idx < occurrences
        invariant idx == |positions| <= occurrences
        invariant position <= |cipherText| + 1
        invariant positions == MatchesBelow(cipherText, block, position)
      {
        var found := IndexFrom(cipherText, block, position);
        if found.None? {
          break;
        }
        MatchesBelowSkip(cipherText, block, position, found.value);
        positions := positions + [found.value];
        idx := idx + 1;
        position := found.value + 1;
      }
      var all := Matches(cipherText, block);
      MatchesBelowPrefix(cipherText, block, position, |cipherText| + 1);
      if idx < occurrences {
        MatchesBelowSkip(cipherText, block, position, |cipherText| + 1);
      }
      OccurrencesOfScannedCount(cipherText, block);
    }

    /** The letters at keyPosition, keyPosition + K, keyPosition + 2K, ...
        for the cached key length K. */
    method BuildCipherTextSlice(position: nat) returns (slice: string)
      requires keyLength.Some? && keyLength.value > 0
      ensures slice == Column(cipherText, position, keyLength.value)
      ensures forall j :: 0 <= j < |slice| ==>
        position + j * keyLength.value < |cipherText| && slice[j] == cipherText[position + j * keyLength.value]
      ensures position + |slice| * keyLength.value >= |cipherText|
    {
      var k := keyLength.value;
      slice := "";
      var i := position;
      while i < |cipherText|
        invariant position <= i
        invariant slice + Column(cipherText, i, k) == Column(cipherText, position, k)
        decreases |cipherText| - i
      {
        assert Column(cipherText, i, k) == [cipherText[i]] + Column(cipherText, i + k, k);
        assert slice + [cipherText[i]] + Column(cipherText, i + k, k) == slice + Column(cipherText, i, k);
        slice := slice + [cipherText[i]];
        i := i + k;
      }
      assert slice == slice + Column(cipherText, i, k);
      ColumnAt(cipherText, position, k);
    }
  }

  /** The candidate key lengths 30 down to 4 tried in turn on the
      occurrence positions of one block; the first that divides every gap is
      the answer. */
  method FindDivisor(positions: seq<nat>) returns (r: Option<nat>)
    ensures r == LargestDivisor(positions, LONGEST_KEY)
  {
    var possibleKeyLength := LONGEST_KEY;
    while possibleKeyLength >= SHORTEST_KEY
      invariant SHORTEST_KEY - 1 <= possibleKeyLength <= LONGEST_KEY
      invariant LargestDivisor(positions, LONGEST_KEY) == LargestDivisor(positions, possibleKeyLength)
    {
      var divisible := true;
      var i := |positions| - 1;
      while i >= 1
        invariant -1 <= i < |positions|
        invariant forall m :: i < m < |positions| && m >= 1 ==> Gap(positions, m) % possibleKeyLength == 0
      {
        if Gap(positions, i) % possibleKeyLength != 0 {
          divisible := false;
          break;
        }
        i := i - 1;
      }
      if divisible {
        return Some(possibleKeyLength);
      }
      possibleKeyLength := possibleKeyLength - 1;
    }
    return None;
  }

  /** Decrypting twice with one breaker: the second call reuses the cached
      key length and key and returns the same result as the first. */
  method DecryptTwice(text: string) returns (first: Result<string>, second: Result<string>)
    requires IsText(text)
    ensures first == DecryptResult(text)
    ensures second == first
  {
    var breaker := new CodeBreaker(text);
    first := breaker.Decrypt();
    second := breaker.Decrypt();
  }
}
