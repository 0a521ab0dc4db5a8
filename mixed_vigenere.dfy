/**
 * The case-sensitive Vigenère cipher over a 95-symbol, optionally shuffled
 * alphabet (src/vigenere_cipher.py).  Row i of the Vigenère square is the
 * alphabet rotated left by i; symbols outside the alphabet pass through and do
 * not advance the key.
 */
module MixedVigenere {
  import opened Wrappers
  import opened SeqPerm
  import PyRandom
  import opened Arith

  /** The characters with code points lo, lo + 1, ..., hi - 1. */
  function CodeRange(lo: nat, hi: nat): (r: string)
    requires lo <= hi <= 0x80
  {
    seq(hi - lo, i requires 0 <= i < hi - lo => (lo + i) as char)
  }

  /** A code range is duplicate-free and holds exactly the characters whose code point lies in it. */
  lemma CodeRangeMembers(lo: nat, hi: nat)
    requires lo <= hi <= 0x80
    ensures |CodeRange(lo, hi)| == hi - lo && Distinct(CodeRange(lo, hi))
    ensures forall c :: c in CodeRange(lo, hi) <==> lo <= c as int < hi
  {
    var r := CodeRange(lo, hi);
    forall c: char | lo <= c as int < hi
      ensures c in r
    {
      assert r[c as int - lo] == c;
    }
  }

  /** string.ascii_lowercase */
  const Lowercase: string := CodeRange('a' as nat, 'z' as nat + 1)
  /** string.ascii_uppercase */
  const Uppercase: string := CodeRange('A' as nat, 'Z' as nat + 1)
  /** string.digits */
  const Digits: string := CodeRange('0' as nat, '9' as nat + 1)
  /** string.punctuation */
  const Punctuation: string := "!\"#$%&'()*+,-./:;<=>?@[\\]^_`{|}~"

  /** The default alphabet CHARSET: letters, digits, punctuation and the space. */
  const Charset: string := Lowercase + Uppercase + Digits + Punctuation + " "

  /** string.punctuation is the printable ASCII that is no letter, digit or space. */
  lemma PunctuationRanges()
    ensures Punctuation == CodeRange(33, 48) + CodeRange(58, 65) + CodeRange(91, 97) + CodeRange(123, 127)
  {
  }

  /** Two duplicate-free sequences without a common element concatenate to a duplicate-free one. */
  lemma DistinctConcat<T>(a: seq<T>, b: seq<T>)
    requires Distinct(a) && Distinct(b)
    requires forall x :: x in a ==> x !in b
    ensures Distinct(a + b)
  {
    var s := a + b;
    forall i, j | 0 <= i < j < |s|
      ensures s[i] != s[j]
    {
      if j >= |a| && i < |a| {
        assert s[i] in a && s[j] in b;
      } else if i >= |a| {
        assert s[i] == b[i - |a|] && s[j] == b[j - |a|];
      }
    }
  }

  /** The printable ASCII symbols, from the space to the tilde. */
  predicate IsCharsetSymbol(c: char)
  {
    ' ' <= c <= '~'
  }

  /** CHARSET as code ranges, string.punctuation split where letters and digits interrupt it. */
  lemma CharsetRanges()
    ensures Charset == Lowercase + Uppercase + Digits + CodeRange(33, 48) + CodeRange(58, 65)
                       + CodeRange(91, 97) + CodeRange(123, 127) + " "
  {
    PunctuationRanges();
  }

  /** CHARSET holds 95 symbols, each once. */
  lemma CharsetDistinct()
    ensures |Charset| == 95
    ensures Distinct(Charset)
  {
    CharsetRanges();
    var p1, p2, p3, p4 := CodeRange(33, 48), CodeRange(58, 65), CodeRange(91, 97), CodeRange(123, 127);
    CodeRangeMembers('a' as nat, 'z' as nat + 1);
    CodeRangeMembers('A' as nat, 'Z' as nat + 1);
    CodeRangeMembers('0' as nat, '9' as nat + 1);
    CodeRangeMembers(33, 48);
    CodeRangeMembers(58, 65);
    CodeRangeMembers(91, 97);
    CodeRangeMembers(123, 127);
    var s := Lowercase;
    DistinctConcat(s, Uppercase);
    s := s + Uppercase;
    DistinctConcat(s, Digits);
    s := s + Digits;
    DistinctConcat(s, p1);
    s := s + p1;
    DistinctConcat(s, p2);
    s := s + p2;
    DistinctConcat(s, p3);
    s := s + p3;
    DistinctConcat(s, p4);
    s := s + p4;
    DistinctConcat(s, " ");
  }

  /** CHARSET's symbols are exactly the printable ASCII symbols. */
  lemma CharsetMembers()
    ensures forall c :: c in Charset <==> IsCharsetSymbol(c)
  {
    CharsetRanges();
    CodeRangeMembers('a' as nat, 'z' as nat + 1);
    CodeRangeMembers('A' as nat, 'Z' as nat + 1);
    CodeRangeMembers('0' as nat, '9' as nat + 1);
    CodeRangeMembers(33, 48);
    CodeRangeMembers(58, 65);
    CodeRangeMembers(91, 97);
    CodeRangeMembers(123, 127);
  }

  // ---------------------------------------------------------------------------
  // The alphabet

  /**
   * The alphabet for an optional mix key.  Without one it is CHARSET; with one
   * it is CHARSET shuffled by the random.Random instance the mix key seeds,
   * given here as the word stream that instance produces.
   */
  function MixedAlphabet(mix: Option<PyRandom.Gen>): string
  {
    match mix
    case None => Charset
    case Some(g) => PyRandom.Shuffled(Charset, g).0
  }

  /** a holds the 95 printable ASCII symbols, each once, in some order. */
  predicate IsCharsetOrder(a: string)
  {
    |a| == 95 && Distinct(a) && forall c :: c in a <==> IsCharsetSymbol(c)
  }

  /** Every alphabet holds CHARSET's symbols, each once, in some order. */
  lemma MixedAlphabetPermutes(mix: Option<PyRandom.Gen>)
    ensures IsCharsetOrder(MixedAlphabet(mix))
  {
    CharsetDistinct();
    CharsetMembers();
    match mix
    case None =>
    case Some(g) => ShuffledRearranges(Charset, g);
  }

  lemma ShuffledRearranges(s: string, g: PyRandom.Gen)
    requires IsCharsetOrder(s)
    ensures IsCharsetOrder(PyRandom.Shuffled(s, g).0)
  {
    PyRandom.ShuffledPermutes(s, g);
    Rearranged(PyRandom.Shuffled(s, g).0, s);
  }

  /** An order of CHARSET is a rearrangement of it. */
  lemma CharsetOrderPermutes(a: string)
    requires IsCharsetOrder(a)
    ensures multiset(a) == multiset(Charset)
  {
    CharsetDistinct();
    CharsetMembers();
    SameMembersPermutes(a, Charset);
  }

  /** A rearrangement of a duplicate-free sequence has its length, its members and no duplicates. */
  lemma Rearranged<T>(a: seq<T>, b: seq<T>)
    requires multiset(a) == multiset(b) && Distinct(b)
    ensures |a| == |b| && Distinct(a)
    ensures forall c :: c in a <==> c in b
  {
    assert |a| == |multiset(a)|;
    DistinctPermutation(a, b);
    forall c
      ensures c in a <==> c in b
    {
      assert c in a <==> c in multiset(a);
      assert c in b <==> c in multiset(b);
    }
  }

  /** Builds the alphabet by shuffling a list of CHARSET's symbols in place. */
  method GenerateMixedAlphabet(mix: Option<PyRandom.Gen>) returns (alphabet: string)
    ensures alphabet == MixedAlphabet(mix)
    ensures mix.None? ==> alphabet == Charset
    ensures IsCharsetOrder(alphabet)
  {
    MixedAlphabetPermutes(mix);
    var letters := NewArray(Charset);
    if mix.Some? {
      var _ := PyRandom.Shuffle(letters, mix.value);
    }
    alphabet := letters[..];
  }

  /** A fresh array holding the symbols of s, as list(s) does. */
  method NewArray(s: string) returns (a: array<char>)
    ensures fresh(a) && a[..] == s
  {
    a := new char[|s|](i requires 0 <= i < |s| => s[i]);
  }

  /** Position of the first occurrence of c in s, as str.index returns it. */
  function IndexOf(s: string, c: char): (r: nat)
    requires c in s
    ensures r < |s| && s[r] == c && c !in s[..r]
  {
    if s[0] == c then 0 else 1 + IndexOf(s[1..], c)
  }

  /** In a duplicate-free sequence the position of the symbol at k is k. */
  lemma IndexOfDistinct(s: string, k: nat)
    requires Distinct(s) && k < |s|
    ensures IndexOf(s, s[k]) == k
  {
  }

  // ---------------------------------------------------------------------------
  // The square

  /** Row i of the square is the alphabet rotated left by i, as a table of entries. */
  ghost predicate IsSquare(square: seq<string>, alphabet: string)
  {
    |square| == |alphabet|
    && forall i :: 0 <= i < |square| ==>
      |square[i]| == |alphabet|
      && forall j :: 0 <= j < |alphabet| ==> square[i][j] == alphabet[(i + j) % |alphabet|]
  }

  /** Builds the square row by row from slices of the alphabet. */
  method BuildSquare(alphabet: string) returns (square: seq<string>)
    ensures IsSquare(square, alphabet)
  {
    square := [];
    var n := |alphabet|;
    for i := 0 to n
      invariant |square| == i
      invariant forall k :: 0 <= k < i ==> |square[k]| == n
      invariant forall k, j :: 0 <= k < i && 0 <= j < n ==> square[k][j] == alphabet[(k + j) % n]
    {
      var row := alphabet[i..] + alphabet[..i];
      RotationEntries(alphabet, i);
      square := square + [row];
    }
  }

  lemma RotationEntries(alphabet: string, i: nat)
    requires i < |alphabet|
    ensures forall j :: 0 <= j < |alphabet| ==>
      (alphabet[i..] + alphabet[..i])[j] == alphabet[(i + j) % |alphabet|]
  {
    var n := |alphabet|;
    forall j | 0 <= j < n
      ensures (alphabet[i..] + alphabet[..i])[j] == alphabet[(i + j) % n]
    {
      if i + j < n {
        ModSmall(i + j, n);
      } else {
        ModSmall(i + j - n, n);
        ModShift(i + j - n, n);
      }
    }
  }

  // ---------------------------------------------------------------------------
  // Retained symbols and the key position

  /** The symbols of s that lie in the alphabet, in their original order. */
  function Retained(alphabet: string, s: string): (r: string)
    ensures |r| <= |s|
  {
    if s == [] then [] else (if s[0] in alphabet then [s[0]] else []) + Retained(alphabet, s[1..])
  }

  /** The retained symbols are exactly the symbols of s that lie in the alphabet. */
  lemma {:induction false} RetainedMembers(alphabet: string, s: string)
    ensures forall c :: c in Retained(alphabet, s) <==> c in s && c in alphabet
  {
    if s != [] {
      RetainedMembers(alphabet, s[1..]);
      assert s == [s[0]] + s[1..];
    }
  }

  /** Filtering distributes over concatenation, so it keeps the retained symbols in order. */
  lemma {:induction false} RetainedConcat(alphabet: string, a: string, b: string)
    ensures Retained(alphabet, a + b) == Retained(alphabet, a) + Retained(alphabet, b)
  {
    if a != [] {
      assert (a + b)[1..] == a[1..] + b;
      RetainedConcat(alphabet, a[1..], b);
    } else {
      assert a + b == b;
    }
  }

  /** A string made only of alphabet symbols is retained whole. */
  lemma {:induction false} RetainedAll(alphabet: string, s: string)
    requires forall c :: c in s ==> c in alphabet
    ensures Retained(alphabet, s) == s
  {
    if s != [] {
      RetainedAll(alphabet, s[1..]);
    }
  }

  /** Appending one symbol. */
  lemma RetainedSnoc(alphabet: string, s: string, c: char)
    ensures Retained(alphabet, s + [c]) == Retained(alphabet, s) + (if c in alphabet then [c] else [])
  {
    RetainedConcat(alphabet, s, [c]);
  }

  /** The key position after the prefix s: the number of alphabet symbols in it. */
  function KeyPosition(alphabet: string, s: string): nat
  {
    |Retained(alphabet, s)|
  }

  // ---------------------------------------------------------------------------
  // The cipher on one symbol and on a text

  /** The conditions the constructor establishes for the alphabet and the clean key. */
  predicate IsKeyed(alphabet: string, key: string)
  {
    |alphabet| > 0 && key != [] && forall c :: c in key ==> c in alphabet
  }

  /** The key symbol used at key position pos. */
  function KeySymbol(alphabet: string, key: string, pos: nat): (k: char)
    requires IsKeyed(alphabet, key)
    ensures k in alphabet
  {
    key[pos % |key|]
  }

  /** Encryption of one symbol at key position pos: the entry in the key symbol's row and the symbol's column. */
  function EncryptSymbol(alphabet: string, key: string, c: char, pos: nat): (r: char)
    requires IsKeyed(alphabet, key)
  {
    if c !in alphabet then c
    else alphabet[(IndexOf(alphabet, c) + IndexOf(alphabet, KeySymbol(alphabet, key, pos))) % |alphabet|]
  }

  /** Decryption of one symbol at key position pos: the column where it sits in the key symbol's row. */
  function DecryptSymbol(alphabet: string, key: string, c: char, pos: nat): (r: char)
    requires IsKeyed(alphabet, key)
  {
    if c !in alphabet then c
    else alphabet[(IndexOf(alphabet, c) - IndexOf(alphabet, KeySymbol(alphabet, key, pos))) % |alphabet|]
  }

  /** Each symbol is encrypted at the key position reached by the alphabet symbols before it. */
  function Encrypted(alphabet: string, key: string, text: string): (r: string)
    requires IsKeyed(alphabet, key)
  {
    seq(|text|, i requires 0 <= i < |text| => EncryptSymbol(alphabet, key, text[i], KeyPosition(alphabet, text[..i])))
  }

  /** Each symbol is decrypted at the key position reached by the alphabet symbols before it. */
  function Decrypted(alphabet: string, key: string, text: string): (r: string)
    requires IsKeyed(alphabet, key)
  {
    seq(|text|, i requires 0 <= i < |text| => DecryptSymbol(alphabet, key, text[i], KeyPosition(alphabet, text[..i])))
  }

  /** Symbols outside the alphabet are copied; symbols inside it are mapped into it. */
  lemma EncryptSymbolStaysInside(alphabet: string, key: string, c: char, pos: nat)
    requires IsKeyed(alphabet, key)
    ensures c !in alphabet ==> EncryptSymbol(alphabet, key, c, pos) == c
    ensures c in alphabet ==> EncryptSymbol(alphabet, key, c, pos) in alphabet
    ensures c in alphabet <==> DecryptSymbol(alphabet, key, c, pos) in alphabet
  {
  }

  /** Decrypting an encrypted symbol at the same key position gives it back. */
  lemma DecryptEncryptSymbol(alphabet: string, key: string, c: char, pos: nat)
    requires IsKeyed(alphabet, key) && Distinct(alphabet)
    ensures DecryptSymbol(alphabet, key, EncryptSymbol(alphabet, key, c, pos), pos) == c
  {
    if c in alphabet {
      var n := |alphabet|;
      var x := IndexOf(alphabet, c);
      var k := IndexOf(alphabet, KeySymbol(alphabet, key, pos));
      var e := EncryptSymbol(alphabet, key, c, pos);
      IndexOfDistinct(alphabet, (x + k) % n);
      AddSubMod(x, k, n);
      IndexOfDistinct(alphabet, x);
    }
  }

  /** Encryption keeps the length, copies outside symbols and maps inside symbols into the alphabet. */
  lemma EncryptedShape(alphabet: string, key: string, text: string)
    requires IsKeyed(alphabet, key)
    ensures |Encrypted(alphabet, key, text)| == |text|
    ensures forall i :: 0 <= i < |text| && text[i] !in alphabet ==> Encrypted(alphabet, key, text)[i] == text[i]
    ensures forall i :: 0 <= i < |text| && text[i] in alphabet ==> Encrypted(alphabet, key, text)[i] in alphabet
  {
    forall i | 0 <= i < |text|
      ensures text[i] in alphabet <==> Encrypted(alphabet, key, text)[i] in alphabet
    {
      EncryptSymbolStaysInside(alphabet, key, text[i], KeyPosition(alphabet, text[..i]));
    }
  }

  /** Appending one symbol to the text appends its encryption at the key position the text reaches. */
  lemma EncryptedSnoc(alphabet: string, key: string, text: string, c: char)
    requires IsKeyed(alphabet, key)
    ensures Encrypted(alphabet, key, text + [c])
            == Encrypted(alphabet, key, text) + [EncryptSymbol(alphabet, key, c, KeyPosition(alphabet, text))]
  {
    var t := text + [c];
    assert t[..|text|] == text;
    forall i | 0 <= i < |text|
      ensures t[..i] == text[..i]
    {
    }
  }

  /** Appending one symbol to the text appends its decryption at the key position the text reaches. */
  lemma DecryptedSnoc(alphabet: string, key: string, text: string, c: char)
    requires IsKeyed(alphabet, key)
    ensures Decrypted(alphabet, key, text + [c])
            == Decrypted(alphabet, key, text) + [DecryptSymbol(alphabet, key, c, KeyPosition(alphabet, text))]
  {
    var t := text + [c];
    assert t[..|text|] == text;
    forall i | 0 <= i < |text|
      ensures t[..i] == text[..i]
    {
    }
  }

  /** The square entry in the key symbol's row and the symbol's column is the symbol's encryption. */
  lemma SquareEncrypts(square: seq<string>, alphabet: string, key: string, c: char, pos: nat)
    requires IsSquare(square, alphabet) && IsKeyed(alphabet, key) && c in alphabet
    ensures square[IndexOf(alphabet, KeySymbol(alphabet, key, pos))][IndexOf(alphabet, c)]
            == EncryptSymbol(alphabet, key, c, pos)
  {
  }

  /**
   * Symbols outside the alphabet do not shift the key: dropping them before
   * encryption or after it gives the same result.
   */
  lemma {:induction false} RetainedEncrypted(alphabet: string, key: string, text: string)
    requires IsKeyed(alphabet, key)
    ensures Retained(alphabet, Encrypted(alphabet, key, text)) == Encrypted(alphabet, key, Retained(alphabet, text))
  {
    if text == [] {
      assert Encrypted(alphabet, key, text) == [];
      return;
    }
    var q, c := text[..|text| - 1], text[|text| - 1];
    assert text == q + [c];
    var e := EncryptSymbol(alphabet, key, c, KeyPosition(alphabet, q));
    var rq := Retained(alphabet, q);
    EncryptedSnoc(alphabet, key, q, c);
    RetainedSnoc(alphabet, Encrypted(alphabet, key, q), e);
    RetainedEncrypted(alphabet, key, q);
    RetainedSnoc(alphabet, q, c);
    EncryptSymbolStaysInside(alphabet, key, c, KeyPosition(alphabet, q));
    if c in alphabet {
      RetainedMembers(alphabet, q);
      RetainedAll(alphabet, rq);
      EncryptedSnoc(alphabet, key, rq, c);
      calc {
        Retained(alphabet, Encrypted(alphabet, key, text));
        Retained(alphabet, Encrypted(alphabet, key, q)) + [e];
        Encrypted(alphabet, key, rq) + [e];
        { assert KeyPosition(alphabet, rq) == KeyPosition(alphabet, q); }
        Encrypted(alphabet, key, rq + [c]);
        Encrypted(alphabet, key, Retained(alphabet, text));
      }
    } else {
      assert rq + [] == rq;
      assert Retained(alphabet, text) == rq;
    }
  }

  /** Encryption keeps, at every prefix, the number of alphabet symbols. */
  lemma {:induction false} EncryptedKeyPosition(alphabet: string, key: string, text: string, i: nat)
    requires IsKeyed(alphabet, key) && i <= |text|
    ensures KeyPosition(alphabet, Encrypted(alphabet, key, text)[..i]) == KeyPosition(alphabet, text[..i])
  {
    if i > 0 {
      var e := Encrypted(alphabet, key, text);
      EncryptedKeyPosition(alphabet, key, text, i - 1);
      assert e[..i] == e[..i - 1] + [e[i - 1]];
      assert text[..i] == text[..i - 1] + [text[i - 1]];
      RetainedSnoc(alphabet, e[..i - 1], e[i - 1]);
      RetainedSnoc(alphabet, text[..i - 1], text[i - 1]);
      EncryptSymbolStaysInside(alphabet, key, text[i - 1], KeyPosition(alphabet, text[..i - 1]));
    }
  }

  /** Decryption undoes encryption for every text, given a duplicate-free alphabet. */
  lemma DecryptEncrypt(alphabet: string, key: string, text: string)
    requires IsKeyed(alphabet, key) && Distinct(alphabet)
    ensures Decrypted(alphabet, key, Encrypted(alphabet, key, text)) == text
  {
    var e := Encrypted(alphabet, key, text);
    forall i | 0 <= i < |text|
      ensures Decrypted(alphabet, key, e)[i] == text[i]
    {
      EncryptedKeyPosition(alphabet, key, text, i);
      DecryptEncryptSymbol(alphabet, key, text[i], KeyPosition(alphabet, text[..i]));
    }
  }

  /** The column of symbol c in row k of the square: the lookup always finds c, k places before it in the alphabet. */
  lemma RowLookup(square: seq<string>, alphabet: string, k: nat, c: char)
    requires IsSquare(square, alphabet) && Distinct(alphabet) && k < |alphabet| && c in alphabet
    ensures c in square[k]
    ensures IndexOf(square[k], c) == (IndexOf(alphabet, c) - k) % |alphabet|
  {
    var n := |alphabet|;
    var x := IndexOf(alphabet, c);
    AddSubMod(x, k, n);
    assert square[k][(x - k) % n] == c;
    var r := IndexOf(square[k], c);
    assert alphabet[(k + r) % n] == c;
    IndexOfDistinct(alphabet, (k + r) % n);
    AddSubMod(r, k, n);
  }

  // ---------------------------------------------------------------------------
  // The cipher object

  /** Why construction fails. */
  datatype KeyError = EmptyKey | NoValidSymbols

  class VigenereCipher {
    /** The key as given, case-sensitive. */
    const key: string
    /** CHARSET in the order the mix key chose. */
    const alphabet: string
    /** Row i is the alphabet rotated left by i. */
    const square: seq<string>
    /** The key's symbols that lie in the alphabet. */
    const cleanKey: string

    /** What a successfully constructed cipher guarantees. */
    ghost predicate Valid()
    {
      |alphabet| == 95 && Distinct(alphabet) && IsSquare(square, alphabet)
      && cleanKey == Retained(alphabet, key) && IsKeyed(alphabet, cleanKey)
    }

    /** Sets the fields; the checks that can reject the key are in Create. */
    constructor (key: string, mix: Option<PyRandom.Gen>)
      ensures this.key == key && alphabet == MixedAlphabet(mix) && IsCharsetOrder(alphabet)
      ensures IsSquare(square, alphabet) && cleanKey == Retained(alphabet, key)
      ensures forall c :: c in cleanKey <==> c in key && c in alphabet
    {
      this.key := key;
      var a := GenerateMixedAlphabet(mix);
      alphabet := a;
      var sq := BuildSquare(a);
      square := sq;
      cleanKey := Retained(a, key);
      RetainedMembers(a, key);
    }

    /**
     * Construction: an empty key is refused first; a key none of whose
     * symbols lies in CHARSET is refused after the fields are set.
     */
    static method Create(key: string, mix: Option<PyRandom.Gen>) returns (r: Result<VigenereCipher, KeyError>)
      ensures key == [] ==> r == Failure(EmptyKey)
      ensures key != [] && (forall c :: c in key ==> c !in Charset) ==> r == Failure(NoValidSymbols)
      ensures (exists c :: c in key && c in Charset) ==>
        r.Success? && fresh(r.value) && r.value.Valid() && r.value.key == key
        && r.value.alphabet == MixedAlphabet(mix) && IsCharsetOrder(r.value.alphabet)
    {
      if key == [] {
        return Failure(EmptyKey);
      }
      var cipher := new VigenereCipher(key, mix);
      CharsetMembers();
      if cipher.cleanKey == [] {
        return Failure(NoValidSymbols);
      }
      assert cipher.cleanKey[0] in key && cipher.cleanKey[0] in Charset;
      return Success(cipher);
    }

    /** Encrypts the text; symbols outside the alphabet pass through and do not advance the key. */
    method EncryptLowercase(plaintext: string) returns (ciphertext: string)
      requires Valid()
      ensures ciphertext == Encrypted(alphabet, cleanKey, plaintext)
    {
      var out: string := [];
      var keyLen := |cleanKey|;
      var keyPos := 0;
      for i := 0 to |plaintext|
        invariant keyPos == KeyPosition(alphabet, plaintext[..i])
        invariant out == Encrypted(alphabet, cleanKey, plaintext[..i])
      {
        var ch := plaintext[i];
        assert plaintext[..i + 1] == plaintext[..i] + [ch];
        RetainedSnoc(alphabet, plaintext[..i], ch);
        EncryptedSnoc(alphabet, cleanKey, plaintext[..i], ch);
        if ch !in alphabet {
          out := out + [ch];
        } else {
          var pIdx := IndexOf(alphabet, ch);
          var kChar := cleanKey[keyPos % keyLen];
          var kIdx := IndexOf(alphabet, kChar);
          var c := square[kIdx][pIdx];
          SquareEncrypts(square, alphabet, cleanKey, ch, keyPos);
          out := out + [c];
          keyPos := keyPos + 1;
        }
      }
      assert plaintext[..|plaintext|] == plaintext;
      ciphertext := out;
    }

    /** Decrypts the text, looking each symbol up in the row of the current key symbol. */
    method DecryptLowercase(ciphertext: string) returns (plaintext: string)
      requires Valid()
      ensures plaintext == Decrypted(alphabet, cleanKey, ciphertext)
    {
      var out: string := [];
      var keyLen := |cleanKey|;
      var keyPos := 0;
      for i := 0 to |ciphertext|
        invariant keyPos == KeyPosition(alphabet, ciphertext[..i])
        invariant out == Decrypted(alphabet, cleanKey, ciphertext[..i])
      {
        var ch := ciphertext[i];
        assert ciphertext[..i + 1] == ciphertext[..i] + [ch];
        RetainedSnoc(alphabet, ciphertext[..i], ch);
        DecryptedSnoc(alphabet, cleanKey, ciphertext[..i], ch);
        if ch !in alphabet {
          out := out + [ch];
        } else {
          var kChar := cleanKey[keyPos % keyLen];
          var kIdx := IndexOf(alphabet, kChar);
          var row := square[kIdx];
          RowLookup(square, alphabet, kIdx, ch);
          var pIdx := IndexOf(row, ch);
          out := out + [alphabet[pIdx]];
          keyPos := keyPos + 1;
        }
      }
      assert ciphertext[..|ciphertext|] == ciphertext;
      plaintext := out;
    }
  }
}
