/** The decryption `find_plain_text` performs, a shift back by the key
    letter of each position's column, and the encryption it inverts. */
module Vigenere {
  import opened Alphabet

  /** One ciphertext letter shifted back by `shift`:
      ALPHABET[(index(c) - shift + 26) mod 26]. */
  function DecryptChar(c: char, shift: int): (p: char)
    requires IsLetter(c)
    ensures IsLetter(p)
  {
    Letter((Index(c) - shift + SIZE) % SIZE)
  }

  /** One plaintext letter shifted forward by `shift`. */
  function EncryptChar(p: char, shift: int): (c: char)
    requires IsLetter(p)
    ensures IsLetter(c)
  {
    Letter((Index(p) + shift) % SIZE)
  }

  /** The plaintext of `text` under `key`: position i is shifted back by
      key[i mod |key|]. A key is needed only when there is text to decrypt. */
  function Decipher(text: string, key: seq<int>): (plain: string)
    requires IsText(text) && (|text| > 0 ==> |key| > 0)
    ensures |plain| == |text| && IsText(plain)
  {
    seq(|text|, i requires 0 <= i < |text| => DecryptChar(text[i], key[i % |key|]))
  }

  /** The ciphertext of `plain` under `key`. */
  function Encipher(plain: string, key: seq<int>): (text: string)
    requires IsText(plain) && (|plain| > 0 ==> |key| > 0)
    ensures |text| == |plain| && IsText(text)
  {
    seq(|plain|, i requires 0 <= i < |plain| => EncryptChar(plain[i], key[i % |key|]))
  }

  /** The remainder modulo SIZE of any quotient-remainder split. */
  lemma ModUnique(a: int, q: int, r: int)
    requires 0 <= r < SIZE && a == SIZE * q + r
    ensures a % SIZE == r
  {
  }

  /** Shifting a letter forward and back by the same amount restores it. */
  lemma DecryptEncryptChar(p: char, shift: int)
    requires IsLetter(p)
    ensures DecryptChar(EncryptChar(p, shift), shift) == p
  {
    var x := Index(p);
    var y := (x + shift) % SIZE;
    var q := (x + shift) / SIZE;
    assert x + shift == SIZE * q + y;
    ModUnique(y - shift + SIZE, 1 - q, x);
    assert Index(EncryptChar(p, shift)) == y;
  }

  /** Shifting a letter back and forward by the same amount restores it. */
  lemma EncryptDecryptChar(c: char, shift: int)
    requires IsLetter(c)
    ensures EncryptChar(DecryptChar(c, shift), shift) == c
  {
    var x := Index(c);
    var y := (x - shift + SIZE) % SIZE;
    var q := (x - shift + SIZE) / SIZE;
    assert x - shift + SIZE == SIZE * q + y;
    ModUnique(y + shift, 1 - q, x);
    assert Index(DecryptChar(c, shift)) == y;
  }

  /** Round trip: decrypting an encryption under the same key gives back the
      plaintext at every position. */
  lemma DecipherEncipher(plain: string, key: seq<int>)
    requires IsText(plain) && (|plain| > 0 ==> |key| > 0)
    ensures Decipher(Encipher(plain, key), key) == plain
  {
    var text := Encipher(plain, key);
    forall i | 0 <= i < |plain| ensures Decipher(text, key)[i] == plain[i] {
      DecryptEncryptChar(plain[i], key[i % |key|]);
    }
  }

  /** Round trip the other way: every ciphertext is the encryption of its
      decryption, so decryption under a fixed key is one-to-one. */
  lemma EncipherDecipher(text: string, key: seq<int>)
    requires IsText(text) && (|text| > 0 ==> |key| > 0)
    ensures Encipher(Decipher(text, key), key) == text
  {
    var plain := Decipher(text, key);
    forall i | 0 <= i < |text| ensures Encipher(plain, key)[i] == text[i] {
      EncryptDecryptChar(text[i], key[i % |key|]);
    }
  }
}
