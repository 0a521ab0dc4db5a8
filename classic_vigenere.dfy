/**
 * The classic 26-letter Vigenère cipher of vigenere_cipher.py.  The key is stored
 * upper-cased; the text is upper-cased, each letter is shifted by the key letter
 * that the letters before it have reached, and everything else is copied.  The
 * case-restoring variants lower-case the output letters whose input letters were
 * lower-case.  ASCII only, as in PyStr.
 */
module ClassicVigenere {
  import opened Wrappers
  import opened PyStr
  import Arith

  // ---------------------------------------------------------------------------
  // Key expansion

  /** The number of letters in s. */
  function LetterCount(s: string): (r: nat)
    ensures r <= |s|
  {
    if s == [] then 0 else LetterCount(s[..|s| - 1]) + (if IsAlpha(s[|s| - 1]) then 1 else 0)
  }

  /** The letters of s, in order. */
  function Letters(s: string): (r: string)
    ensures |r| == LetterCount(s)
  {
    if s == [] then [] else Letters(s[..|s| - 1]) + (if IsAlpha(s[|s| - 1]) then [s[|s| - 1]] else [])
  }

  /** The key repeated to length n. */
  function Cycle(key: string, n: nat): (r: string)
    requires key != []
    ensures |r| == n
  {
    seq(n, k requires 0 <= k < n => key[k % |key|])
  }

  /** What the constructor leaves in `self.key`: upper-case letters, at least one. */
  predicate IsUpperKey(key: string)
  {
    |key| > 0 && forall i :: 0 <= i < |key| ==> IsUpper(key[i])
  }

  /** `_expand_key`: at every letter the key letter its letter count has reached; other characters copied. */
  function ExpandedKey(key: string, text: string): (r: string)
    requires key != []
  {
    seq(|text|, i requires 0 <= i < |text| => if IsAlpha(text[i]) then key[LetterCount(text[..i]) % |key|] else text[i])
  }

  lemma ExpandedKeySnoc(key: string, text: string, c: char)
    requires key != []
    ensures ExpandedKey(key, text + [c])
            == ExpandedKey(key, text) + [if IsAlpha(c) then key[LetterCount(text) % |key|] else c]
  {
    var t := text + [c];
    assert t[..|text|] == text;
    forall i | 0 <= i < |text|
      ensures t[..i] == text[..i]
    {
    }
  }

  /**
   * The expanded key has the text's length and copies its non-letters; its letters,
   * read in order, are the key repeated once per letter of the text.
   */
  lemma {:induction false} ExpandedKeyCycles(key: string, text: string)
    requires IsUpperKey(key)
    ensures |ExpandedKey(key, text)| == |text|
    ensures forall i :: 0 <= i < |text| && !IsAlpha(text[i]) ==> ExpandedKey(key, text)[i] == text[i]
    ensures Letters(ExpandedKey(key, text)) == Cycle(key, LetterCount(text))
    decreases |text|
  {
    if text != [] {
      var init, c := text[..|text| - 1], text[|text| - 1];
      assert text == init + [c];
      ExpandedKeyCycles(key, init);
      ExpandedKeySnoc(key, init, c);
      var e := ExpandedKey(key, text);
      assert e[..|e| - 1] == ExpandedKey(key, init);
      var n := LetterCount(init);
      if IsAlpha(c) {
        assert IsAlpha(key[n % |key|]);
        assert Cycle(key, n + 1) == Cycle(key, n) + [key[n % |key|]];
      }
    }
  }

  /** Two texts with letters in the same places and the same non-letters have the same expanded key. */
  lemma SameShapeSameKey(key: string, a: string, b: string)
    requires key != [] && SameShape(a, b)
    ensures ExpandedKey(key, a) == ExpandedKey(key, b)
  {
    forall i | 0 <= i < |a|
      ensures LetterCount(a[..i]) == LetterCount(b[..i])
    {
      SameShapeCount(a[..i], b[..i]);
    }
  }

  /** Letters at the same positions, and equal characters wherever there is no letter. */
  predicate SameShape(a: string, b: string)
  {
    |a| == |b| && forall i :: 0 <= i < |a| ==> IsAlpha(a[i]) == IsAlpha(b[i]) && (!IsAlpha(a[i]) ==> a[i] == b[i])
  }

  lemma {:induction false} SameShapeCount(a: string, b: string)
    requires |a| == |b| && forall i :: 0 <= i < |a| ==> IsAlpha(a[i]) == IsAlpha(b[i])
    ensures LetterCount(a) == LetterCount(b)
    decreases |a|
  {
    if a != [] {
      SameShapeCount(a[..|a| - 1], b[..|b| - 1]);
    }
  }

  // ---------------------------------------------------------------------------
  // One letter

  /** `chr((ord(p) - ord('A') + shift) % 26 + ord('A'))` with shift the key letter's offset from 'A'. */
  function EncryptLetter(p: char, k: char): (r: char)
    requires IsUpper(p) && IsUpper(k)
    ensures IsUpper(r)
  {
    ((p as int - 'A' as int + (k as int - 'A' as int)) % 26 + 'A' as int) as char
  }

  /** `chr((ord(c) - ord('A') - shift) % 26 + ord('A'))`; Python's `%` and Dafny's agree for the modulus 26. */
  function DecryptLetter(c: char, k: char): (r: char)
    requires IsUpper(c) && IsUpper(k)
    ensures IsUpper(r)
  {
    ((c as int - 'A' as int - (k as int - 'A' as int)) % 26 + 'A' as int) as char
  }

  /** Shifting back by the key letter undoes shifting forward, and the other way round. */
  lemma LetterRoundTrip(x: char, k: char)
    requires IsUpper(x) && IsUpper(k)
    ensures DecryptLetter(EncryptLetter(x, k), k) == x
    ensures EncryptLetter(DecryptLetter(x, k), k) == x
  {
    var v, s := x as int - 'A' as int, k as int - 'A' as int;
    Arith.AddSubMod(v, s, 26);
  }

  // ---------------------------------------------------------------------------
  // Texts

  /** `encrypt`: the upper-cased text with every letter shifted by its expanded-key letter. */
  function Encrypted(key: string, plaintext: string): (r: string)
    requires IsUpperKey(key)
  {
    var up := UpperString(plaintext);
    var ek := ExpandedKey(key, up);
    seq(|up|, i requires 0 <= i < |up| => if IsAlpha(up[i]) then EncryptLetter(up[i], ek[i]) else up[i])
  }

  /** `decrypt`: the upper-cased text with every letter shifted back by its expanded-key letter. */
  function Decrypted(key: string, ciphertext: string): (r: string)
    requires IsUpperKey(key)
  {
    var up := UpperString(ciphertext);
    var ek := ExpandedKey(key, up);
    seq(|up|, i requires 0 <= i < |up| => if IsAlpha(up[i]) then DecryptLetter(up[i], ek[i]) else up[i])
  }

  /** Lower-cases the output letters whose input characters were lower-case, as both case-restoring variants do. */
  function RestoreCase(original: string, out: string): (r: string)
    requires |original| == |out|
  {
    seq(|out|, i requires 0 <= i < |out| => if IsLower(original[i]) && IsAlpha(out[i]) then Lower(out[i]) else out[i])
  }

  /** `encrypt_lowercase` */
  function EncryptedLowercase(key: string, plaintext: string): (r: string)
    requires IsUpperKey(key)
  {
    RestoreCase(plaintext, Encrypted(key, UpperString(plaintext)))
  }

  /** `decrypt_lowercase` */
  function DecryptedLowercase(key: string, ciphertext: string): (r: string)
    requires IsUpperKey(key)
  {
    RestoreCase(ciphertext, Decrypted(key, UpperString(ciphertext)))
  }

  /** Upper-casing twice is upper-casing once. */
  lemma UpperIdempotent(s: string)
    ensures UpperString(UpperString(s)) == UpperString(s)
  {
  }

  /**
   * Encryption keeps the length and every non-letter (upper-cased, which for a
   * non-letter changes nothing); each letter becomes an upper-case letter.
   * Decryption does the same.
   */
  lemma CryptShape(key: string, text: string)
    requires IsUpperKey(key)
    ensures SameShape(Encrypted(key, text), text) && SameShape(Decrypted(key, text), text)
    ensures forall i :: 0 <= i < |text| && IsAlpha(text[i]) ==> IsUpper(Encrypted(key, text)[i]) && IsUpper(Decrypted(key, text)[i])
  {
  }

  /** Decryption undoes encryption, up to the upper-casing encryption applies first. */
  lemma DecryptEncrypt(key: string, plaintext: string)
    requires IsUpperKey(key)
    ensures Decrypted(key, Encrypted(key, plaintext)) == UpperString(plaintext)
  {
    var up := UpperString(plaintext);
    var e := Encrypted(key, plaintext);
    assert UpperString(e) == e;
    assert SameShape(e, up);
    SameShapeSameKey(key, e, up);
    var ek := ExpandedKey(key, up);
    forall i | 0 <= i < |up| && IsAlpha(up[i])
      ensures DecryptLetter(e[i], ek[i]) == up[i]
    {
      LetterRoundTrip(up[i], ek[i]);
    }
  }

  /** Encryption undoes decryption in the same way. */
  lemma EncryptDecrypt(key: string, ciphertext: string)
    requires IsUpperKey(key)
    ensures Encrypted(key, Decrypted(key, ciphertext)) == UpperString(ciphertext)
  {
    var up := UpperString(ciphertext);
    var d := Decrypted(key, ciphertext);
    assert UpperString(d) == d;
    assert SameShape(d, up);
    SameShapeSameKey(key, d, up);
    var ek := ExpandedKey(key, up);
    forall i | 0 <= i < |up| && IsAlpha(up[i])
      ensures EncryptLetter(d[i], ek[i]) == up[i]
    {
      LetterRoundTrip(up[i], ek[i]);
    }
  }

  /** Each output letter of the case-restoring encryption is lower-case exactly when its input letter was. */
  lemma LowercaseKeepsCase(key: string, plaintext: string)
    requires IsUpperKey(key)
    ensures |EncryptedLowercase(key, plaintext)| == |plaintext|
    ensures forall i :: 0 <= i < |plaintext| ==>
              (IsLower(EncryptedLowercase(key, plaintext)[i]) <==> IsLower(plaintext[i]))
              && (IsUpper(EncryptedLowercase(key, plaintext)[i]) <==> IsUpper(plaintext[i]))
  {
    CryptShape(key, UpperString(plaintext));
  }

  /** The case-restoring variants are exact inverses: the text comes back with its case. */
  lemma LowercaseRoundTrip(key: string, plaintext: string)
    requires IsUpperKey(key)
    ensures DecryptedLowercase(key, EncryptedLowercase(key, plaintext)) == plaintext
  {
    var up := UpperString(plaintext);
    var e := Encrypted(key, up);
    CryptShape(key, up);
    var el := RestoreCase(plaintext, e);
    assert UpperString(el) == e;
    DecryptEncrypt(key, up);
    UpperIdempotent(plaintext);
    assert Decrypted(key, UpperString(el)) == up;
  }

  // ---------------------------------------------------------------------------
  // The class

  /** Why construction fails: `ValueError` for an empty or non-alphabetic key. */
  datatype KeyError = InvalidKey

  class VigenereCipher {
    /** The key, upper-cased. */
    const key: string

    constructor (key: string)
      requires IsAlphaString(key)
      ensures this.key == UpperString(key) && IsUpperKey(this.key)
    {
      this.key := UpperString(key);
    }

    /** Construction: a key that is empty or holds a non-letter is refused. */
    static method Create(key: string) returns (r: Result<VigenereCipher, KeyError>)
      ensures r.Success? <==> IsAlphaString(key)
      ensures r.Success? ==> fresh(r.value) && r.value.key == UpperString(key) && IsUpperKey(r.value.key)
    {
      if !IsAlphaString(key) {
        return Failure(InvalidKey);
      }
      var cipher := new VigenereCipher(key);
      return Success(cipher);
    }

    /** `_expand_key`, with `key_index` counting the letters seen so far. */
    method ExpandKey(text: string) returns (expanded: string)
      requires IsUpperKey(key)
      ensures expanded == ExpandedKey(key, text)
    {
      var keyIndex := 0;
      expanded := [];
      for i := 0 to |text|
        invariant keyIndex == LetterCount(text[..i])
        invariant expanded == ExpandedKey(key, text[..i])
      {
        var ch := text[i];
        assert text[..i + 1] == text[..i] + [ch];
        ExpandedKeySnoc(key, text[..i], ch);
        if IsAlpha(ch) {
          expanded := expanded + [key[keyIndex % |key|]];
          keyIndex := keyIndex + 1;
        } else {
          expanded := expanded + [ch];
        }
      }
      assert text[..|text|] == text;
    }

    /** `encrypt` */
    method Encrypt(plaintext: string) returns (ciphertext: string)
      requires IsUpperKey(key)
      ensures ciphertext == Encrypted(key, plaintext)
    {
      var up := UpperString(plaintext);
      var expanded := ExpandKey(up);
      var out: string := [];
      for i := 0 to |up|
        invariant out == Encrypted(key, plaintext)[..i]
      {
        var ch := up[i];
        if IsAlpha(ch) {
          out := out + [EncryptLetter(ch, expanded[i])];
        } else {
          out := out + [ch];
        }
      }
      ciphertext := out;
    }

    /** `decrypt` */
    method Decrypt(ciphertext: string) returns (plaintext: string)
      requires IsUpperKey(key)
      ensures plaintext == Decrypted(key, ciphertext)
    {
      var up := UpperString(ciphertext);
      var expanded := ExpandKey(up);
      var out: string := [];
      for i := 0 to |up|
        invariant out == Decrypted(key, ciphertext)[..i]
      {
        var ch := up[i];
        if IsAlpha(ch) {
          out := out + [DecryptLetter(ch, expanded[i])];
        } else {
          out := out + [ch];
        }
      }
      plaintext := out;
    }

    /** `encrypt_lowercase` */
    method EncryptLowercase(plaintext: string) returns (ciphertext: string)
      requires IsUpperKey(key)
      ensures ciphertext == EncryptedLowercase(key, plaintext)
    {
      var encrypted := Encrypt(UpperString(plaintext));
      ciphertext := RestoreCaseLoop(plaintext, encrypted);
    }

    /** `decrypt_lowercase` */
    method DecryptLowercase(ciphertext: string) returns (plaintext: string)
      requires IsUpperKey(key)
      ensures plaintext == DecryptedLowercase(key, ciphertext)
    {
      var decrypted := Decrypt(UpperString(ciphertext));
      plaintext := RestoreCaseLoop(ciphertext, decrypted);
    }
  }

  /** The loop over `zip(original, out)` that restores lower case. */
  method RestoreCaseLoop(original: string, out: string) returns (result: string)
    requires |original| == |out|
    ensures result == RestoreCase(original, out)
  {
    result := [];
    for i := 0 to |out|
      invariant result == RestoreCase(original, out)[..i]
    {
      if IsLower(original[i]) && IsAlpha(out[i]) {
        result := result + [Lower(out[i])];
      } else {
        result := result + [out[i]];
      }
    }
  }
}
