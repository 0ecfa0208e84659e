# Vigenère code breaker, modelled in Dafny

This project models `CodeBreaker` (`app/controllers/code_breaker.rb`). It
breaks a Vigenère cipher over the alphabet `"abcdefghijklmnopqrstuvwxyz"` in
four stages:

1. **Block scan** (`find_block_repetitions`): a window of length L slides over
   the ciphertext, and every distinct block is counted in an
   insertion-ordered hash.
2. **Kasiski examination** (`find_key_length`, `find_occurrencies_position`):
   - block lengths run from 20 down to 3;
   - only blocks occurring more than 10 times are examined, in the hash's
     order;
   - candidate key lengths run from 30 down to 4, and the first one that
     divides every gap between consecutive occurrence positions is returned;
   - when nothing qualifies, the method raises.
3. **Frequency analysis** (`find_key`, `build_cipher_text_slice`,
   `find_more_frequent_char`): for each key position p, the letters at p,
   p + K, p + 2K, … form a column. The most frequent letter of the column is
   taken to be the encryption of `'e'`.
4. **Decryption** (`find_plain_text`): every letter is shifted back by the
   key entry of its column.

`decrypt` runs these stages and caches the key length and the key on the
object.

## Structure

- `alphabet.dfy` (`Alphabet`): the alphabet, and `Index` and `Letter` between
  letters and 0..25.
- `results.dfy` (`Results`): `Option`, and `Result` with the error
  `KeyLengthNotFound`, which stands for the `raise`.
- `tallies.dfy` (`Tallies`): Ruby's insertion-ordered counting `Hash` as a
  `Tally`. It holds the keys in order of first insertion plus a map of counts.
  `TallyOf` is the fold that bumps one element at a time. `MaxBy` is Ruby's
  `max_by`, which keeps the first maximum.
- `repetitions.dfy` (`Repetitions`): the windows of a text, `String#index`
  (`IndexFrom`), the starts of a block (`Matches`), and the prefix of them
  that `find_occurrencies_position` collects.
- `kasiski.dfy` (`Kasiski`): the key-length search as functions, with the
  constants 20, 3, 10, 30 and 4.
- `vigenere.dfy` (`Vigenere`): the per-letter shift formulas and the
  decryption of a whole text, with encryption as its inverse.
- `frequency.dfy` (`Frequency`): columns, the most frequent letter,
  the shift that takes `'e'` to it, and the key those shifts make up.
- `code_breaker.dfy` (`CodeBreakers`): the class `CodeBreaker`. Its fields
  are `cipherText`, `keyLength` and `key`, with `None` standing for Ruby's
  `nil`. Each Ruby method that loops or changes the object is an imperative
  method, proved against the functions above. `find_more_frequent_char` has
  no loop of its own, so it is the function `Frequency.MostFrequent`, which
  `FindKeyEntry` calls.
  - `find_key_length` has four nested loops. The model keeps the two outer
    ones in `FindKeyLength` and `ScanTable`; `ExamineBlockLength` is the
    body of the outer one. The two inner ones, key lengths 30 down to 4 and
    the gap check, are in `FindDivisor`. Each early `return` becomes a
    returned value.
  - `FindKeyEntry` is the body of the loop in `find_key` (lines 86-92).

Ruby's `%` with a positive modulus gives the same result as Dafny's. Ruby
integers are unbounded, as Dafny's are, so no width is modelled.

Two consequences of the code are worth spelling out:

- **Scanning counts every window.** Scanning `"abcdabcdabcd"` with L = 4
  counts every window at offsets 0..8. So besides `"abcd"` (count 3) the
  table holds `"bcda"`, `"cdab"` and `"dabc"` (count 2 each).
  `Repetitions.ScanExample` proves the table.
- **Ties go to the earliest letter.** Among the letters with the highest
  count, the one that appears earliest in the column wins. This is because
  Ruby's `max_by` keeps the first maximum, and the hash it runs over is
  filled in order of first appearance.

## Model

| member | source | states |
|---|---|---|
| Alphabet.Index | app/controllers/code_breaker.rb:29 | a letter's index is its position in the alphabet, in [0, 26) |
| Tallies.TallyOf | app/controllers/code_breaker.rb:132-133 | the hash built by counting left to right, one bump per element with a new key appended at the end; each element adds at most one key |
| Tallies.TallyOfCounts | app/controllers/code_breaker.rb:171 | the counting fold yields a well-formed hash: distinct keys, the keys are exactly the elements, and each count is the element's number of occurrences |
| Tallies.TallyOfPrefix | app/controllers/code_breaker.rb:132-133 | a new key is only ever appended, so counting a prefix gives a prefix of the key order |
| Tallies.KeyOrder | app/controllers/code_breaker.rb:39 | the hash enumerates keys in order of first appearance: a key seen in the first m elements comes before one not seen there |
| Tallies.TallyOfTotal | app/controllers/code_breaker.rb:126-137 | the counts add up to the number of elements counted |
| Tallies.MaxBy | app/controllers/code_breaker.rb:175 | `max_by` picks a key whose count is at least every other key's, and strictly above that of every key enumerated before it |
| Repetitions.Windows | app/controllers/code_breaker.rb:129-130 | there are n - L + 1 windows, or none when L > n |
| Repetitions.IndexFrom | app/controllers/code_breaker.rb:146 | `index(block, pos)` returns the leftmost start at or after pos; nil means there is no start at or after pos |
| Repetitions.OccurrencePositions | app/controllers/code_breaker.rb:140-155 | the collected positions are a prefix of the block's starts, at most `count` of them, and all of the starts when fewer than `count` were collected |
| Repetitions.MatchesExact | app/controllers/code_breaker.rb:140-155 | the list of starts holds every offset where the block starts and nothing else, strictly ascending, overlaps included |
| Repetitions.OccurrencePositionsExact | app/controllers/code_breaker.rb:140-155 | the collected positions: at most `count` of them, each a start of the block, strictly ascending, and no start up to the last one skipped |
| Repetitions.WindowCount | app/controllers/code_breaker.rb:126-137 | a block's count in the scan's hash equals the number of offsets where it starts |
| Repetitions.ScanTotal | app/controllers/code_breaker.rb:126-137 | the counts sum to n - L + 1, and the hash is empty when L > n |
| Repetitions.OccurrencesOfScannedCount | app/controllers/code_breaker.rb:39-45 | asked for the scan's own count, the collector returns every start of the block: exactly that many positions |
| Repetitions.ScanExample | app/controllers/code_breaker.rb:126-137 | scanning "abcdabcdabcd" with L = 4 gives abcd: 3, then bcda, cdab and dabc: 2 each, in that order |
| Kasiski.GapsDivisible | app/controllers/code_breaker.rb:50-57 | the `divisable` test: every gap between consecutive positions is a multiple of the candidate; with fewer than two positions the downto loop is empty and the test passes |
| Kasiski.LargestDivisor | app/controllers/code_breaker.rb:49-65 | the candidate lengths tried from k down to 4; a candidate returned lies in [4, k] and divides every gap |
| Kasiski.LargestDivisorSpec | app/controllers/code_breaker.rb:49-65 | the candidate returned is the largest in [4, 30] dividing every gap; none is returned exactly when no candidate in that range divides them all |
| Kasiski.BlockKeyLength | app/controllers/code_breaker.rb:42-65 | one block with its count: a key length only when the count exceeds 10, and then in [4, 30] |
| Kasiski.ScanBlocks | app/controllers/code_breaker.rb:39-67 | the blocks examined in the hash's order, stopping at the first that gives a key length; a key length found lies in [4, 30] |
| Kasiski.ScanBlocksFirst | app/controllers/code_breaker.rb:39-67 | the scan of one hash returns the first block in the hash's order that gives a key length, with that key length: every block before it gives none; on failure, no block of the hash gives one |
| Kasiski.ScanLength | app/controllers/code_breaker.rb:36-39 | one block length's hash walked in order; nothing is found when the block is longer than the text, and a key length found lies in [4, 30] |
| Kasiski.SearchFrom | app/controllers/code_breaker.rb:34-68 | block lengths tried from `len` down to 3, stopping at the first whose scan finds something; a key length found lies in [4, 30] |
| Kasiski.Search | app/controllers/code_breaker.rb:34 | the examination from block length 20 down; a key length found lies in [4, 30] |
| Kasiski.KeyLengthResult | app/controllers/code_breaker.rb:63-70 | what `find_key_length` returns or raises; a key length it returns lies in [4, 30] |
| Kasiski.KeyLengthResultFrom | app/controllers/code_breaker.rb:34-70 | once every longer block length has found nothing, the scan for the current one returns its key length when it finds something, and below length 3 the method raises |
| Kasiski.BlockFinding | app/controllers/code_breaker.rb:36-45 | a block examined with its own count from the scan of its length; a key length it gives lies in [4, 30] |
| Kasiski.SearchFromFound | app/controllers/code_breaker.rb:34-68 | a finding comes from a block of length between 3 and the starting length that is a window of the text and gives the finding's key length |
| Kasiski.SearchFromLongest | app/controllers/code_breaker.rb:34-68 | the finding is the scan of one block length in [3, len], and the scans of all longer lengths up to `len` found nothing: the longest block length that finds something wins |
| Kasiski.SearchFromNone | app/controllers/code_breaker.rb:34-68 | without a finding, no window of any examined length gives a key length |
| Kasiski.SearchSound | app/controllers/code_breaker.rb:31-71 | a key length found lies in [4, 30]; it divides every gap between consecutive starts of a block with length in [3, 20] that occurs more than 10 times; no larger candidate up to 30 does |
| Kasiski.SearchFailsExactly | app/controllers/code_breaker.rb:31-71 | the search fails if and only if no block of length in [3, 20] occurring more than 10 times has all gaps divisible by some candidate in [4, 30] |
| Kasiski.SpreadAtLeast | app/controllers/code_breaker.rb:52-53 | ascending starts whose gaps are all multiples of k lie at least j * k apart after j gaps |
| Kasiski.KeyLengthFits | app/controllers/code_breaker.rb:42-63 | for the key length K found, 10 * K plus the block length is at most the text length, so every column is non-empty |
| Vigenere.DecryptChar | app/controllers/code_breaker.rb:116 | the letter shifted back is a letter; `EncryptDecryptChar` shows the same shift forward restores the ciphertext letter |
| Vigenere.Decipher | app/controllers/code_breaker.rb:104-123 | the plaintext has the ciphertext's length and is all letters |
| Vigenere.DecryptEncryptChar | app/controllers/code_breaker.rb:116 | shifting a letter forward and then back by the same amount restores it |
| Vigenere.EncryptDecryptChar | app/controllers/code_breaker.rb:116 | shifting a letter back and then forward by the same amount restores it |
| Vigenere.DecipherEncipher | app/controllers/code_breaker.rb:104-123 | decrypting an encryption under the same key gives back the plaintext |
| Vigenere.EncipherDecipher | app/controllers/code_breaker.rb:104-123 | encrypting a decryption under the same key gives back the ciphertext, so decryption under a fixed key is one-to-one |
| Frequency.Column | app/controllers/code_breaker.rb:158-166 | the letters at p, p + K, p + 2K, … below n; the column is no longer than the text from p on |
| Frequency.ColumnAt | app/controllers/code_breaker.rb:158-166 | element j of a column is the letter at p + j * K, below the text length, and the column reaches the end of the text |
| Frequency.MostFrequent | app/controllers/code_breaker.rb:169-176 | the letter chosen occurs in the non-empty column, occurs at least as often as every letter, and strictly more often than every letter that first appears before it |
| Frequency.FirstMaximum | app/controllers/code_breaker.rb:175 | the key that `max_by` picks from the column's hash has the maximal count |
| Frequency.EarlierKey | app/controllers/code_breaker.rb:175 | a letter that first appears before the one `max_by` picks occurs fewer times |
| Frequency.Shift | app/controllers/code_breaker.rb:92 | the key entry lies in [0, 26) and shifts 'e' to the most frequent letter |
| Frequency.ColumnKey | app/controllers/code_breaker.rb:86-92 | the key entry for column p lies in [0, 26) and shifts 'e' to the column's most frequent letter |
| Frequency.RecoveredKey | app/controllers/code_breaker.rb:74-101 | the recovered key has exactly K entries, each in [0, 26) |
| Frequency.RecoveredKeyDecryptsToBase | app/controllers/code_breaker.rb:78-92 | decrypting with the recovered key turns the most frequent letter of each column into 'e' wherever it occurs |
| CodeBreakers.DecryptResult | app/controllers/code_breaker.rb:14-24 | what decrypt returns; a plaintext it returns consists of letters and has the ciphertext's length (`DecryptResultSound` gives the error case and the round trip) |
| CodeBreakers.DecryptResultSound | app/controllers/code_breaker.rb:14-24 | decrypt fails exactly when no key length is found; otherwise the key length is in [4, 30] and at most the text length, and the plaintext has the ciphertext's length and encrypts back into it under the recovered key |
| CodeBreakers.CodeBreaker.constructor | app/controllers/code_breaker.rb:10-12 | a new breaker holds the ciphertext with nothing cached |
| CodeBreakers.CodeBreaker.Decrypt | app/controllers/code_breaker.rb:14-24 | returns the decryption result; a cached key length or key is kept, not recomputed; success leaves both cached; failure changes nothing; the cached values stay those of the ciphertext |
| CodeBreakers.CodeBreaker.FindKeyLength | app/controllers/code_breaker.rb:31-71 | the nested search returns the key length of the examination, or KeyLengthNotFound where the source raises |
| CodeBreakers.CodeBreaker.ExamineBlockLength | app/controllers/code_breaker.rb:36-67 | one block length: the scan's hash, then its examination, equal to the scan of that length |
| CodeBreakers.CodeBreaker.ScanTable | app/controllers/code_breaker.rb:39-67 | walking the hash in order returns the first block occurring more than 10 times whose gaps give a key length |
| CodeBreakers.FindDivisor | app/controllers/code_breaker.rb:49-65 | trying 30 down to 4 with the gap loop returns the first candidate dividing every gap, as LargestDivisorSpec characterises it |
| CodeBreakers.CodeBreaker.FindKey | app/controllers/code_breaker.rb:74-101 | exactly K entries; entry p is in [0, 26) and shifts 'e' to the most frequent letter of column p |
| CodeBreakers.CodeBreaker.FindKeyEntry | app/controllers/code_breaker.rb:86-92 | one key position: the slice's most frequent letter and the shift taking 'e' to it, equal to the column's key entry |
| CodeBreakers.CodeBreaker.FindPlainText | app/controllers/code_breaker.rb:104-123 | the plaintext is the decryption of the ciphertext under the cached key, position by position |
| CodeBreakers.CodeBreaker.FindBlockRepetitions | app/controllers/code_breaker.rb:126-137 | the hash built in place is the counting fold over the windows, so WindowCount and ScanTotal apply to it |
| CodeBreakers.CodeBreaker.FindOccurrencePositions | app/controllers/code_breaker.rb:140-155 | the loop collects the first `occurrences` starts, resuming one past each match; asked for the scan's count, it returns every start, exactly that many |
| CodeBreakers.CodeBreaker.BuildCipherTextSlice | app/controllers/code_breaker.rb:158-166 | the slice is the column at the position: element j is the letter at position + j * K, and no position below the text length is missed |
| CodeBreakers.DecryptTwice | app/controllers/code_breaker.rb:14-24 | a second decrypt on the same breaker returns the same result as the first |

## Left out

- The `puts` diagnostics at `app/controllers/code_breaker.rb:62` and `:98`, and the key string built at `:97`. They are output only.
- The message of the exception raised at `app/controllers/code_breaker.rb:70`. It becomes the error `KeyLengthNotFound`.
- `app/controllers/welcome_controller.rb` is not part of this model. It is HTTP plumbing with no algorithmic content.
- The `attr_accessor` writers (line 8). Ruby code outside the class can overwrite the three fields. In the model only the constructor and `Decrypt` write them, which lets `Valid` tie the caches to the ciphertext.
- Characters outside the alphabet. The constructor requires every character to be a letter. In Ruby, `@@ALPHABET.index` returns nil for such a character and the subtractions at lines 92 and 116 raise. That case is not modelled as an error.
- CodeBreakers.CodeBreaker.FindKey: requires the cached key length to be at most the text length. Otherwise some column is empty, and `max_by` on an empty hash yields nil, which crashes at line 175. `Decrypt` always meets this requirement, by `Kasiski.KeyLengthFits`.
- CodeBreakers.CodeBreaker.FindPlainText: requires a non-empty key when the text is non-empty. In Ruby, `i % @key.length` raises on an empty key.
- CodeBreakers.CodeBreaker.BuildCipherTextSlice: requires a positive key length. In Ruby, `step(0)` raises.
- The assignment `@key = Array.new` inside `find_key` (line 76) and the slot-by-slot `@key[key_position] =` writes. The model builds the key as a sequence, in the same ascending order, and `Decrypt` stores it once it is complete. The field's content after a call is the same.
- Any claim that frequency analysis finds the true key, or that the examination finds the true period. These are statistical heuristics; only the deterministic behaviour is proved.
- Ruby `Hash` and `String#index` internals beyond what is used: enumeration in insertion order, and the leftmost match at or after a position.
