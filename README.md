# Cryptology: a verified model of the cipher core

This project models the cipher core of the Cryptology repository and proves
properties of it. The core is:

- the case-sensitive Vigenère cipher over a 95-symbol alphabet that a mix key can
  shuffle (src/vigenere_cipher.py);
- the block transposition, the chaff layer and the nonce marker of src/cli.py;
- the classic 26-letter Vigenère cipher (vigenere_cipher.py);
- the transposition "inverses", the candidate generators and the scoring of the
  cracking tools (src/brf.py, src/brute-force.py);
- the Kasiski key-length estimate (src/vigenere_analysis.py).

Modules, one per concern:

| module | file | models |
|---|---|---|
| `MixedVigenere` | mixed_vigenere.dfy | CHARSET, the mixed alphabet, the square, the cipher class of src/vigenere_cipher.py |
| `PyRandom` | py_random.dfy | `randint`, `choice` and `shuffle` of Python's `random.Random`, on top of the generator's 32-bit output words |
| `Transposition` | transposition.dfy | `validate_code`, `permute_text`, `inverse_permute_text` |
| `Chaff` | chaff.dfy | `apply_dynamic_chaff`, `remove_dynamic_chaff` |
| `NonceMarker` | nonce_marker.dfy | `_encode_with_nonce_marker`, `_extract_nonce_from_prefixed` |
| `ClassicVigenere` | classic_vigenere.dfy | the class of vigenere_cipher.py |
| `Brf` | brf.dfy | the probing `inverse_permute_text` and `score_text` of src/brf.py |
| `BruteForce` | brute_force.dfy | the slot-filling `inverse_permute_text` of src/brute-force.py |
| `Enumerate` | enumerate.dfy | `generate_keys`, `generate_codes` and the count estimates |
| `VigenereAnalysis` | vigenere_analysis.dfy | `find_key_length` |
| `PyStr`, `SeqPerm`, `Arith`, `Wrappers` | py_str.dfy, seq_perm.dfy, arith.dfy, wrappers.dfy | ASCII string primitives, rearrangements, modular arithmetic, Option/Result |

Each loop of the imperative functions is a method with a loop. Its `ensures` ties the
result to a specification function. The properties are proved about those functions
as lemmas. The generators `generate_keys` and `generate_codes` and the `all(...)` test
of `validate_code` are pure enumerations or tests, and they are modelled as functions.
The cipher objects are classes whose constructor sets the fields. Python's `raise
ValueError` becomes a `Result` that a static `Create` method returns.

Randomness is modelled at the level of the generator's output. A `PyRandom.Gen` is
the list of 32-bit words the Mersenne Twister core would output, plus a read
position. `getrandbits`, `_randbelow`, `randint`, `choice` and `shuffle` are then
modelled exactly as CPython computes them from those words.

src/examples.py:61 expects `LXFOPVEFRNHR` for `ATTACKATDAWN` under key
`VIGENERECIPHER`. That is the ciphertext for the textbook key LEMON, and the code does
not produce it, so the model asserts nothing about it.

src/brute-force.py:83-92 repeats `generate_keys` and `generate_codes` of
src/brf.py:83-93 word for word. The `Enumerate` members model both copies.

## Model

| member | source | states |
|---|---|---|
| MixedVigenere.CharsetDistinct | src/vigenere_cipher.py:8 | CHARSET has 95 symbols and none occurs twice |
| MixedVigenere.CharsetMembers | src/vigenere_cipher.py:8 | a character is in CHARSET exactly when it is printable ASCII (space to tilde) |
| MixedVigenere.PunctuationRanges | src/vigenere_cipher.py:8 | `string.punctuation` is the four runs of printable ASCII that are not letters, digits or the space |
| MixedVigenere.MixedAlphabetPermutes | src/vigenere_cipher.py:28-42 | with or without a mix key, and whatever the generator's words, the alphabet holds each of CHARSET's 95 symbols exactly once |
| MixedVigenere.ShuffledRearranges | src/vigenere_cipher.py:41 | shuffling an ordering of CHARSET gives an ordering of CHARSET |
| MixedVigenere.GenerateMixedAlphabet | src/vigenere_cipher.py:33-42 | shuffling a list of CHARSET in place gives the specified alphabet; with no mix key it is CHARSET itself |
| MixedVigenere.BuildSquare | src/vigenere_cipher.py:44-54 | the square has n rows of n symbols, and row i, column j holds alphabet[(i + j) mod n] |
| MixedVigenere.RotationEntries | src/vigenere_cipher.py:52 | `alphabet[i:] + alphabet[:i]` holds alphabet[(i + j) mod n] at j |
| MixedVigenere.IndexOf | src/vigenere_cipher.py:81-83 | `str.index`: the position holds the symbol and no earlier position does |
| MixedVigenere.IndexOfDistinct | src/vigenere_cipher.py:81-83 | in a duplicate-free alphabet, the index of the symbol at k is k |
| MixedVigenere.RetainedMembers | src/vigenere_cipher.py:24 | the clean key holds exactly the key symbols that lie in the alphabet |
| MixedVigenere.RetainedConcat | src/vigenere_cipher.py:24 | the clean key keeps the retained symbols in their original order (filtering distributes over concatenation) |
| MixedVigenere.RetainedAll | src/vigenere_cipher.py:24 | a string made only of alphabet symbols is kept whole |
| MixedVigenere.EncryptSymbolStaysInside | src/vigenere_cipher.py:77-85 | a symbol outside the alphabet is copied; a symbol inside it encrypts to an alphabet symbol; decryption maps inside to inside and outside to outside |
| MixedVigenere.SquareEncrypts | src/vigenere_cipher.py:81-84 | the square entry in the key symbol's row and the plaintext symbol's column is the symbol's encryption at that key position |
| MixedVigenere.RowLookup | src/vigenere_cipher.py:103-106 | `row.index(char)` always finds the symbol, at (p - k) mod n for a symbol at alphabet index p in row k |
| MixedVigenere.DecryptEncryptSymbol | src/vigenere_cipher.py:81-107 | over a duplicate-free alphabet, decrypting a symbol's encryption at the same key position gives the symbol back |
| MixedVigenere.EncryptedShape | src/vigenere_cipher.py:76-87 | encryption keeps the length, copies symbols outside the alphabet and maps symbols inside it into it |
| MixedVigenere.EncryptedKeyPosition | src/vigenere_cipher.py:76-86 | every prefix of the ciphertext holds as many alphabet symbols as the same prefix of the plaintext, so both directions reach the same key position |
| MixedVigenere.RetainedEncrypted | src/vigenere_cipher.py:76-87 | dropping the pass-through symbols before or after encryption gives the same result: they do not advance the key |
| MixedVigenere.DecryptEncrypt | src/vigenere_cipher.py:66-109 | `decrypt_lowercase(encrypt_lowercase(p)) == p` for every text p and every duplicate-free alphabet |
| MixedVigenere.VigenereCipher.constructor | src/vigenere_cipher.py:19-24 | stores the key; the alphabet is the mixed alphabet (an ordering of CHARSET); the square is the rotation table; the clean key is the key's alphabet symbols in order |
| MixedVigenere.VigenereCipher.Create | src/vigenere_cipher.py:16-26 | an empty key fails with EmptyKey; a key with no CHARSET symbol fails with NoValidSymbols; any other key gives a valid cipher |
| MixedVigenere.VigenereCipher.EncryptLowercase | src/vigenere_cipher.py:66-87 | the loop's output is the specified encryption of the text under the alphabet and clean key |
| MixedVigenere.VigenereCipher.DecryptLowercase | src/vigenere_cipher.py:89-109 | the loop's output is the specified decryption of the text under the alphabet and clean key |
| PyRandom.RandBelow | src/cli.py:127 | `_randbelow(n)` returns a value below n, reads the same word list, and moves the read position forward |
| PyRandom.RandInt | src/cli.py:127 | `randint(a, b)` returns a value in [a, b] |
| PyRandom.Choice | src/cli.py:129 | `choice(s)` returns an element of s |
| PyRandom.ShuffledPermutes | src/vigenere_cipher.py:41 | whatever the generator's words, `shuffle` only rearranges the list |
| PyRandom.Shuffle | src/vigenere_cipher.py:41 | the in-place Fisher-Yates loop leaves the array as the specified shuffle of its old contents and returns the generator after it |
| Chaff.FakeCount | src/cli.py:127 | each fake count lies in [0, 3] |
| Chaff.FakeSymbol | src/cli.py:129 | each fake symbol is a CHARSET symbol |
| Chaff.FakesAreSymbols | src/cli.py:128-129 | all drawn fake symbols are CHARSET symbols |
| Chaff.ChaffedLength | src/cli.py:126-131 | the chaffed text is between one and four times as long as the ciphertext |
| Chaff.ChaffedSymbols | src/cli.py:126-131 | every output symbol is a ciphertext character or a CHARSET symbol |
| Chaff.ChaffedOntoIsChaffed | src/cli.py:125-131 | the loop's accumulator, extended from position k, is the accumulator followed by the chaffed rest |
| Chaff.ApplyChaff | src/cli.py:118-131 | the insertion loop's output is the specified chaffed text |
| Chaff.RandIntStep | src/cli.py:127 | one count draw, in [0, 3] |
| Chaff.DrawFakes | src/cli.py:128-129 | the inner loop draws the specified k fake symbols, in draw order |
| Chaff.RemovedSubsequence | src/cli.py:134-151 | removal returns an order-preserving selection of its input and is never longer than the input |
| Chaff.RemoveChaff | src/cli.py:134-151 | the removal loop as written returns removal that draws only the counts |
| Chaff.RemoveLoop | src/cli.py:137-151 | the removal loop returns the specified removal, with or without replaying the symbol draws |
| Chaff.SkipFakes | src/cli.py:142-146 | skipping stops at min(i + count, n) |
| Chaff.StreamMisread | src/cli.py:127-141 | for any draws whose first count is 1 and whose next draw reads as the symbol 'G' or as the count 2, with count 0 after it: "xy" chaffs to "Gxy"; removal as written returns "x"; the replaying removal returns "xy" |
| Chaff.RemovalAsWrittenLosesText | src/cli.py:141 | with generator words 2^29, 2^30, 0, insertion turns "xy" into "Gxy"; removal as written returns "x"; the replaying removal returns "xy" |
| Chaff.ReplayUndoesChaff | src/cli.py:126-150 | for any pair of draws, removal that replays insertion's draws returns exactly the ciphertext that was chaffed |
| Chaff.ChaffRoundTrip | src/cli.py:118-151 | removal that replays the symbol draws, started from the generator insertion used, restores the ciphertext |
| Chaff.RemoveChaffReplaying | src/cli.py:134-151 | the corrected removal loop returns the replaying removal |
| NonceMarker.Encode | src/cli.py:183-184 | the marked text starts with `[NONCE:`, has the nonce's and payload's length plus the marker, and holds `]` right after the nonce |
| NonceMarker.Find | src/cli.py:193 | `str.find`: the first position holding the character, or none exactly when it is absent |
| NonceMarker.ExtractEncode | src/cli.py:183-198 | extraction recovers the nonce and payload whenever the nonce holds no `]` |
| NonceMarker.ExtractFinds | src/cli.py:187-198 | a nonce comes back exactly when the text starts with `[NONCE:` and holds a `]`; otherwise the text comes back unchanged |
| NonceMarker.EncodeExtract | src/cli.py:187-198 | whatever extraction splits off holds no `]` and re-encodes to the original text |
| Transposition.DigitValues | src/cli.py:35 | one value per code character |
| Transposition.MaxOf | src/cli.py:36 | `max`: a member that bounds every element |
| Transposition.ValidateNeedsDigits | src/cli.py:32-34 | `validate_code` rejects the empty string and any string with a non-digit |
| Transposition.ZeroCodeValidates | src/cli.py:32-37 | the code "0" passes `validate_code`, because the range 1..0 is empty |
| Transposition.ValidateCodeCovers | src/cli.py:32-37 | for a code of digits 1-9, `validate_code` holds exactly when every offset below the block size occurs in the code |
| Transposition.DigitsAndIndices | src/cli.py:44-45 | each digit value is its offset plus one, and so is the maximum |
| Transposition.CodeIndices | src/cli.py:44 | one offset per digit, each below 9 |
| Transposition.BlockSize | src/cli.py:45 | the block size is positive and exceeds every offset |
| Transposition.PermutationBlockSize | src/cli.py:45 | for a code using each of 1..n once, the block size is n |
| Transposition.BelowMembers | src/cli.py:69 | the filtered offsets are exactly the code's offsets below the bound |
| Transposition.BelowGrows | src/cli.py:79 | a larger width keeps at least as many offsets, and strictly more when an offset lies between the two widths |
| Transposition.PermuteText | src/cli.py:40-53 | `permute_text` returns the specified block permutation of the text |
| Transposition.PermuteBlocks | src/cli.py:47-53 | the block loop's output is the specified permutation |
| Transposition.GatherStep | src/cli.py:48-52 | one pass appends the gathered block, so the output so far followed by the output for the rest is still the whole output |
| Transposition.GatherBlock | src/cli.py:50-52 | the inner loop emits the block's characters at the code's offsets in code order, skipping offsets past a short block's end |
| Transposition.PermutedOntoIsPermuted | src/cli.py:47-53 | the accumulating block loop from position i gives the accumulator followed by the output for the text from i on |
| Transposition.PermutedFromChunk | src/cli.py:48-52 | the output from i on is the gathered block at i, then the output from the next block on |
| Transposition.GatherRearranges | src/cli.py:49-52 | with a code using each of 1..n once, every block, a short final one included, comes out rearranged |
| Transposition.PermuteRearranges | src/cli.py:44-53 | with a code using each of 1..n once, `permute_text` rearranges its input and keeps its length |
| Transposition.Joined | src/cli.py:103 | `''.join` over slots where an empty slot holds `''` is no longer than the slots |
| Transposition.JoinedAppend | src/cli.py:72 | joining the extended slot list is joining each part in turn |
| Transposition.Scattered | src/cli.py:68-71 | a fresh slot list of width b |
| Transposition.ScatterBlock | src/cli.py:68-71 | the scatter loop fills the specified slots |
| Transposition.ScatterPlaces | src/cli.py:69-71 | characters read from a source at the given positions are put back at those positions; other slots stay empty |
| Transposition.GatherScatter | src/cli.py:50-71 | a block gathered by a code covering all its positions scatters and joins back to the block |
| Transposition.FirstFit | src/cli.py:78-89 | the width search returns a width from its start up to the block size whose offsets number exactly the remainder's length |
| Transposition.FirstFitFinds | src/cli.py:78-89 | the search stops at the first width that fits |
| Transposition.BelowStrict | src/cli.py:79-80 | for a covering code, the offset count grows strictly with the width, so each count is reached by one width |
| Transposition.InversePermuteText | src/cli.py:56-103 | `inverse_permute_text` returns the specified inverse of the text |
| Transposition.InverseBlocks | src/cli.py:57-103 | the full-chunk loop followed by the remainder branch gives the specified inverse |
| Transposition.ScatterChunk | src/cli.py:66-73 | one pass appends a full chunk's slots, so the slots so far followed by the slots for the rest are still all the slots |
| Transposition.ChunkStepFrom | src/cli.py:66-73 | the slots from position j are the scattered full chunk at j, then the slots after it |
| Transposition.RemainderAppended | src/cli.py:75-101 | once less than a full chunk is left, the remainder's slots, if any, complete the slot list |
| Transposition.InverseTail | src/cli.py:75-101 | the remainder branch's width search and its fallback fill the specified slots |
| Transposition.InverseFullBlock | src/cli.py:66-73 | when the text holds at least a full block and the inverse restores the text after the first block, the inverse restores the whole text: the first block's gathered characters form one full chunk, which scatters back to the block |
| Transposition.InverseShortBlock | src/cli.py:75-89 | for a text shorter than one block, the width search finds the text's own length and the inverse restores it |
| Transposition.InverseUndoesPermute | src/cli.py:40-103 | the inverse undoes the permutation for every covering code, including repeated digits and a short final block |
| Transposition.InversePermuteRoundTrip | src/cli.py:40-103 | `inverse_permute_text(permute_text(t, c), c) == t` for every code c of digits 1-9 that passes `validate_code` |
| ClassicVigenere.VigenereCipher.Create | vigenere_cipher.py:24-27 | for an ASCII key: construction succeeds exactly when the key is non-empty and all letters; the stored key is the upper-cased key, so keys differing only in case give the same cipher |
| ClassicVigenere.VigenereCipher.constructor | vigenere_cipher.py:27 | the stored key is the upper-cased key, made of upper-case letters |
| ClassicVigenere.ExpandedKeyCycles | vigenere_cipher.py:40-51 | the expanded key has the text's length and copies its non-letters; its letters, in order, are the key repeated once per letter of the text |
| ClassicVigenere.SameShapeSameKey | vigenere_cipher.py:43-49 | the expanded key depends only on where the letters are and on the non-letters, so upper-casing the text first changes nothing |
| ClassicVigenere.VigenereCipher.ExpandKey | vigenere_cipher.py:40-51 | the loop with `key_index` produces the specified expanded key |
| ClassicVigenere.EncryptLetter | vigenere_cipher.py:73 | an upper-case letter shifted by the key letter is an upper-case letter |
| ClassicVigenere.DecryptLetter | vigenere_cipher.py:101 | an upper-case letter shifted back by the key letter is an upper-case letter |
| ClassicVigenere.LetterRoundTrip | vigenere_cipher.py:70-101 | shifting back by the key letter undoes shifting forward, and the other way round |
| ClassicVigenere.UpperIdempotent | vigenere_cipher.py:119-120 | upper-casing an upper-cased text changes nothing |
| ClassicVigenere.CryptShape | vigenere_cipher.py:63-107 | encryption and decryption keep the length and every non-letter, and make every letter an upper-case letter |
| ClassicVigenere.DecryptEncrypt | vigenere_cipher.py:53-107 | for ASCII text, `decrypt(encrypt(p)) == p.upper()` |
| ClassicVigenere.EncryptDecrypt | vigenere_cipher.py:53-107 | for ASCII text, `encrypt(decrypt(c)) == c.upper()` |
| ClassicVigenere.VigenereCipher.Encrypt | vigenere_cipher.py:53-79 | the loop produces the specified encryption |
| ClassicVigenere.VigenereCipher.Decrypt | vigenere_cipher.py:81-107 | the loop produces the specified decryption |
| ClassicVigenere.LowercaseKeepsCase | vigenere_cipher.py:109-130 | the case-restoring encryption keeps the length, and each output letter is lower-case exactly when its input letter was |
| ClassicVigenere.LowercaseRoundTrip | vigenere_cipher.py:109-153 | for ASCII text, `decrypt_lowercase(encrypt_lowercase(p)) == p`: the text comes back with its case |
| ClassicVigenere.VigenereCipher.EncryptLowercase | vigenere_cipher.py:109-130 | the method produces the specified case-restoring encryption |
| ClassicVigenere.VigenereCipher.DecryptLowercase | vigenere_cipher.py:132-153 | the method produces the specified case-restoring decryption |
| ClassicVigenere.RestoreCaseLoop | vigenere_cipher.py:123-130 | the loop over `zip(original, out)` lower-cases exactly the output letters whose input was lower-case |
| Brf.FreeOffset | src/brf.py:28-31 | while fewer offsets than the block length are used, an unused offset exists, so the wrap-around probe stops inside the block |
| Brf.FirstFreeSkips | src/brf.py:26-27 | the forward probe stops at the first unused offset from its start, or runs off the block |
| Brf.ProbeAtMeaning | src/brf.py:25-31 | while an offset is free, the probe returns a free offset: the first one at or after the code offset when there is one (so an unused in-range code offset is kept), otherwise the first one in the block |
| Brf.Probe | src/brf.py:25-31 | the two probing loops return exactly the probed offset: unused, inside the block, the first free one from the start, else the first free one from 0 |
| Brf.ProbedOffsets | src/brf.py:22-33 | the offsets the slots take, in slot order, all inside the block |
| Brf.ShortBlockProbed | src/brf.py:22-32 | under code "231" the short block "de" comes out as "ed": slot 1's offset 2 is past the block, so the probe restarts at 0 |
| Brf.FillSlot | src/brf.py:22-33 | one pass of the slot loop takes the probed offset, marks it used, and writes its character to slot idx |
| Brf.AllTaken | src/brf.py:18-33 | once every slot is filled, each offset was taken once, so the block is rearranged |
| Brf.ProbeBlock | src/brf.py:18-33 | the block loop's output is exactly the probed block: slot k holds the character at the k-th probed offset; the block comes out rearranged; when the offsets are a permutation of the block's positions, slot k holds the character at `code[k] - 1` |
| Brf.ProbeStep | src/brf.py:17-35 | one pass appends the probed block, so the output so far followed by the output for the rest is the whole output; the output so far rearranges the text so far, and with a permutation code it follows `permute_text` |
| Brf.ProbedFromChunk | src/brf.py:17-35 | the output from i on is the probed block at i, then the output from the next block on |
| Brf.ProbeBlocks | src/brf.py:12-37 | the output is the blockwise probe of the text, a short final block included; it rearranges the text; with a permutation code on whole blocks it equals `permute_text`'s output |
| Brf.InversePermuteText | src/brf.py:12-37 | `inverse_permute_text` returns the blockwise probe of the text, a rearrangement of it; with a permutation code on whole blocks it equals `permute_text`'s output |
| Brf.CountFrom | src/brf.py:71 | non-overlapping occurrences of a non-empty word fit in the remaining text |
| Brf.Count | src/brf.py:71 | `str.count`: occurrences of a non-empty word fit in the text; the empty word counts `len(text) + 1` |
| Brf.CountChar | src/brf.py:74 | counting a letter gives its number of occurrences |
| Brf.WordHitsAppend | src/brf.py:70-71 | summing over two word lists in turn is summing over their concatenation |
| Brf.WordHitsAnyOrder | src/brf.py:70-71 | the sum of word counts is the same in whatever order the word set is walked |
| Brf.LetterHitsAreOccurrences | src/brf.py:73-74 | each frequent letter contributes its number of occurrences |
| Brf.ScoreMeaning | src/brf.py:62-76 | for ASCII text, the score is ten per word occurrence plus one per occurrence of a letter of "etaoinshrdlu", in the lower-cased text, for any walking order of the words |
| Brf.ScoreText | src/brf.py:62-76 | the two accumulation loops compute the specified score |
| BruteForce.Slots | src/brute-force.py:21-25 | one slot per position of the block |
| BruteForce.SlotsGather | src/brute-force.py:21-27 | the filled slots, joined, are the block gathered at the code's offsets |
| BruteForce.FillBlock | src/brute-force.py:19-25 | one block's slots, joined, gather the block at the first `len(block)` offsets; a slot whose offset falls outside the block stays empty |
| BruteForce.FillStep | src/brute-force.py:18-27 | one pass appends the filled block, at most a block's worth, so the output so far followed by the output for the rest is the whole output |
| BruteForce.FilledFromChunk | src/brute-force.py:18-27 | the output from i on is the block at i gathered at its first `len(block)` offsets, then the output from the next block on |
| BruteForce.FilledIsPermuted | src/brute-force.py:13-29 | with a permutation code on whole blocks, the blockwise fill equals `permute_text`'s output |
| BruteForce.ShortBlockLoses | src/brute-force.py:19-25 | under code "231", "abcde" comes out as "bcae": in the short block "de" slot 1's offset 2 is outside the block, so 'd' is dropped |
| BruteForce.ShortBlockExample | src/brute-force.py:19-25 | under code "231", the short block "de" alone comes out as "e" |
| BruteForce.WholeBlockExample | src/brute-force.py:23-25 | under code "231", the whole block "abc" comes out as "bca" |
| BruteForce.FillBlocks | src/brute-force.py:13-29 | the output is exactly the blockwise fill of the text, a short final block included, and never longer than the text; with a permutation code on whole blocks it equals `permute_text`'s output |
| BruteForce.InversePermuteText | src/brute-force.py:13-29 | `inverse_permute_text` returns the blockwise fill of the text, never longer than it; with a permutation code on whole blocks it equals `permute_text`'s output |
| BruteForce.OneBlock | src/brute-force.py:23-25 | with a permutation code, a text of one whole block is read at the code's offsets |
| BruteForce.CodeExample | src/cli.py:32-37 | the code "231" passes `validate_code` and uses each of 1, 2, 3 once |
| BruteForce.PermutedExample | src/cli.py:40-53 | under code "231", a three-character text comes out as its characters 2, 3 and 1 |
| BruteForce.GatherIsNotInverse | src/brute-force.py:23-25 | with code "231", "abc" permutes to "bca"; the cracking tools' inverse turns "bca" into "cab"; the inverse of src/cli.py turns it back into "abc" |
| Enumerate.ProductMembers | src/brf.py:86 | `itertools.product(letters, repeat=k)` yields exactly the words of length k over the letters |
| Enumerate.ProductLength | src/brf.py:86 | there are \|alphabet\|^k of them |
| Enumerate.ProductDistinct | src/brf.py:86 | over a duplicate-free alphabet none is yielded twice |
| Enumerate.LowercaseMembers | src/brf.py:84 | `string.ascii_lowercase` holds exactly the lower-case letters |
| Enumerate.KeysMembers | src/brf.py:83-87 | `generate_keys(m)` yields exactly the lower-case words of length 1..m |
| Enumerate.KeysByLength | src/brf.py:85-87 | shorter keys come first, and none is longer than m |
| Enumerate.KeysCount | src/brute-force.py:119 | no key is yielded twice, and there are `sum(26 ** i for i in 1..m)` of them, the estimate's count |
| Enumerate.PermutationsLength | src/brf.py:92 | `itertools.permutations(s)` yields \|s\|! orderings |
| Enumerate.PermutationsRearrange | src/brf.py:92 | every ordering yielded rearranges s |
| Enumerate.PermutationsComplete | src/brf.py:92 | every rearrangement of s is yielded |
| Enumerate.PermutationsDistinct | src/brf.py:92 | over a duplicate-free s, no ordering is yielded twice |
| Enumerate.SpelledDigits | src/brf.py:93 | an ordering of values 1-9 is written with one digit per entry |
| Enumerate.SpelledInjective | src/brf.py:93 | two orderings of values 1-9 with the same spelling are equal |
| Enumerate.CodeOfOrdering | src/brf.py:93 | a spelled ordering of 1..L, for L up to 9, is an L-digit code that passes `validate_code` and uses each offset once |
| Enumerate.OrderingOfCode | src/brf.py:92-93 | conversely, a code of digits 1-9 using each offset once spells an ordering of 1..len(code) |
| Enumerate.CodesCount | src/brute-force.py:120 | `generate_codes(m)` yields `sum(factorial(i) for i in 2..m)` codes, the estimate's count |
| Enumerate.CodesSound | src/brf.py:90-93 | up to length 9, every code yielded has 2..m digits, passes `validate_code` and uses each digit once |
| Enumerate.CodesComplete | src/brf.py:90-93 | every code of 2..m digits 1-9 that uses each of 1..L once is yielded |
| Enumerate.CodesDistinct | src/brf.py:90-93 | up to length 9, no code is yielded twice |
| VigenereAnalysis.Strip | src/vigenere_analysis.py:75 | `replace(c, "")` keeps exactly the characters other than c, and is no longer than the input |
| VigenereAnalysis.StripUpper | src/vigenere_analysis.py:75 | removing a non-letter commutes with upper-casing |
| VigenereAnalysis.CleanedMeaning | src/vigenere_analysis.py:75 | the searched text is the input upper-cased with spaces and newlines removed, in order; it holds no space, newline or lower-case letter |
| VigenereAnalysis.MatchesBelowMembers | src/vigenere_analysis.py:83-85 | the inner loop records a distance exactly when the sequence at i recurs that far on, below the loop's bound |
| VigenereAnalysis.InnerMembers | src/vigenere_analysis.py:83-85 | over a whole inner loop, every recurrence of the sequence at i is recorded |
| VigenereAnalysis.StartsBelowMembers | src/vigenere_analysis.py:81-85 | the loops over starts below k record exactly the recurrence distances of those starts |
| VigenereAnalysis.DistancesOfMembers | src/vigenere_analysis.py:80-85 | a distance is recorded for a length exactly when some sequence of that length recurs that far on |
| VigenereAnalysis.DistancesMeaning | src/vigenere_analysis.py:78-85 | the recorded distances are exactly the gaps between two occurrences of a 3-gram or a 4-gram; each is at least 3 and leaves room for the second occurrence |
| VigenereAnalysis.GcdDivides | src/vigenere_analysis.py:91 | `gcd` is positive unless both arguments are 0, and divides both |
| VigenereAnalysis.GcdGreatest | src/vigenere_analysis.py:91 | every common divisor divides the gcd |
| VigenereAnalysis.GcdAllDivides | src/vigenere_analysis.py:91 | `reduce(gcd, distances)` of positive distances is positive and divides each of them |
| VigenereAnalysis.GcdAllGreatest | src/vigenere_analysis.py:91 | every common divisor of the distances divides the fold |
| VigenereAnalysis.DividesGcdAll | src/vigenere_analysis.py:91-96 | x divides the fold exactly when it divides every distance, and then x is at most the fold |
| VigenereAnalysis.DivisorsBelowMeaning | src/vigenere_analysis.py:94-97 | exactly the divisors of g from 2 to bound - 1 are listed, in strictly ascending order |
| VigenereAnalysis.KeyLengthsMeaning | src/vigenere_analysis.py:87-99 | x is returned exactly when some distance was recorded, 2 <= x <= max_length, and x divides every distance (so x is at most their gcd); the list is strictly ascending, so `sorted` leaves it unchanged |
| VigenereAnalysis.NoRepeatNoLengths | src/vigenere_analysis.py:87-88 | a text where no 3-gram or 4-gram occurs twice gives the empty list |
| VigenereAnalysis.FindKeyLength | src/vigenere_analysis.py:64-99 | the nested loops, the fold and the divisor loop return the specified list |
| VigenereAnalysis.RepeatDistances | src/vigenere_analysis.py:80-85 | the two nested loops for one sequence length append the recorded distances, in order |
| VigenereAnalysis.Recurrences | src/vigenere_analysis.py:83-85 | the inner loop appends the distances to the later occurrences of the sequence at i |

## Left out

- Terminal and file I/O are not modelled: the menus, `main`, the encrypt/decrypt/txt modes, the re-prompting `get_*` functions, the data directory created at import, the root cli.py and src/setup.py.
- SHA-256 is not modelled: neither the seed derivation `_derive_seed` (src/cli.py:106-115) nor the mix-key hashing (src/vigenere_cipher.py:37-39). The seeded generator is a parameter, given as the words it outputs.
- The Mersenne Twister core is not modelled. The model takes its output words as a list, and words past the end of the list read as 0.
- `secrets.token_hex` (src/cli.py:180) is not modelled: the nonce is a parameter.
- Floating-point analysis is not modelled: frequency analysis, index of coincidence, chi-squared, single-character attack, and the coverage ratio of `analyze_text`.
- The multiprocessing pool, timing, printing, `worker` and the `brute_force` drivers are not modelled. The loaded word list is a parameter, given as a sequence. Its order does not matter (Brf.WordHitsAnyOrder).
- Character classes and case mapping cover ASCII only. Python's `isalpha`, `upper`, `lower` and `isdigit` also act on other Unicode characters, and some of those change length. VigenereAnalysis.FindKeyLength accepts any text, but upper-cases only ASCII letters.
- Transposition codes with the digit 0, or with other non-digits, are outside `IsCode`. Digit 0 gives offset -1, which Python reads as the block's last character, and the code "0" gives block size 0. `validate_code` itself is modelled for every string, and Transposition.ZeroCodeValidates shows that it accepts "0".
- Enumerate.CodesSound and Enumerate.CodesDistinct are proved only for `max_len` up to 9. From 10 on, a code spells multi-digit numbers, which the model's codes of digits 1-9 do not cover.
- ClassicVigenere.DecryptEncrypt, ClassicVigenere.EncryptDecrypt and ClassicVigenere.LowercaseRoundTrip are proved for every string, but only over ASCII do they describe the program. Python's `upper` and `isalpha` treat other letters differently: `encrypt_lowercase` maps 'é' to an ASCII letter, so its round trip fails.
- ClassicVigenere.VigenereCipher.Create describes the program only for ASCII keys, because Python's `isalpha` also accepts other letters.
- Brf.ScoreMeaning describes the program only for ASCII text, because Python's `lower` also maps other letters.
- Authenticated encryption (HMAC key evolution, tags, envelopes) is not modelled. The test and demo scripts call it, but no file of the repository implements it.

## Findings

| source | as written | input that shows it | evidently intended | confidence | as-written member | corrected member |
|---|---|---|---|---|---|---|
| src/cli.py:141 | removal draws only `randint(0, 3)` per kept character; insertion also drew one `choice(ALPHABET)` per fake symbol (src/cli.py:129), so removal reads a different part of the stream | generator words 2^29, 2^30, 0 and ciphertext "xy": insertion gives "Gxy"; removal returns "x" | removal replays the symbol draws too, and so returns the ciphertext | not executed | Chaff.RemovalAsWrittenLosesText | Chaff.ChaffRoundTrip |
| src/brute-force.py:23-25 | the cracking tools' `inverse_permute_text` fills slot idx from offset `code[idx] - 1`; this is the gather of `permute_text`, not its inverse (src/brf.py:25-32 does the same for permutation codes) | code "231", text "abc": `permute_text` gives "bca"; this inverse gives "cab" | slot `code[k] - 1` receives the k-th character, as in src/cli.py:56-103 | not executed | BruteForce.GatherIsNotInverse | Transposition.InversePermuteRoundTrip |
