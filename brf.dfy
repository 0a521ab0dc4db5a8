/**
 * The transposition "inverse" and the scoring of src/brf.py.  The inverse cuts the
 * text into blocks of `len(code)` characters and fills slot idx of each block from
 * offset `code[idx] - 1`, probing forward (and then from the start) past offsets an
 * earlier slot already took, so every block comes out rearranged.
 */
module Brf {
  import opened SeqPerm
  import opened PyStr
  import Transposition
  import Arith

  // ---------------------------------------------------------------------------
  // The probing inverse

  /** A duplicate-free list of offsets below n that is shorter than n misses one of them. */
  lemma {:induction false} FreeOffset(src: seq<nat>, n: nat) returns (free: nat)
    requires Distinct(src) && |src| < n && forall k :: 0 <= k < |src| ==> src[k] < n
    ensures free < n && free !in src
  {
    if forall k :: 0 <= k < n ==> k in src {
      Transposition.DistinctCoverLength(src, n);
      assert false;
    }
    free :| 0 <= free < n && free !in src;
  }

  /** The first offset from p on that `used` leaves free; p itself once p is past the block. */
  function FirstFree(used: seq<bool>, p: nat): (r: nat)
    decreases |used| - p
  {
    if p >= |used| || !used[p] then p else FirstFree(used, p + 1)
  }

  /**
   * The offset a slot whose code offset is `start` takes: the first free offset from
   * `start` on, and when that runs off the block, the first free offset from 0.
   */
  function ProbeAt(used: seq<bool>, start: nat): nat
  {
    var forward := FirstFree(used, start);
    if forward < |used| then forward else FirstFree(used, 0)
  }

  lemma {:induction false} FirstFreeSkips(used: seq<bool>, p: nat)
    ensures p <= FirstFree(used, p)
    ensures FirstFree(used, p) < |used| ==> !used[FirstFree(used, p)]
    ensures forall q :: p <= q < FirstFree(used, p) && q < |used| ==> used[q]
    ensures p <= |used| ==> FirstFree(used, p) <= |used|
    decreases |used| - p
  {
    if p < |used| && used[p] {
      FirstFreeSkips(used, p + 1);
    }
  }

  /**
   * What the probe promises: while some offset is free, it returns a free offset;
   * that is the first free one at or after `start` when there is one (so a free
   * in-range `start` is kept), and otherwise the first free one in the block.
   */
  lemma ProbeAtMeaning(used: seq<bool>, start: nat, free: nat)
    requires free < |used| && !used[free]
    ensures ProbeAt(used, start) < |used| && !used[ProbeAt(used, start)]
    ensures (exists q :: start <= q < |used| && !used[q]) ==>
              start <= ProbeAt(used, start) && forall q :: start <= q < ProbeAt(used, start) ==> used[q]
    ensures (forall q :: start <= q < |used| ==> used[q]) ==>
              forall q :: 0 <= q < ProbeAt(used, start) ==> used[q]
  {
    FirstFreeSkips(used, start);
    FirstFreeSkips(used, 0);
  }

  /**
   * The offsets the slots from idx on take, given the offsets `used` so far; slots
   * from `len(block)` on are skipped.  |used| is the block's length.
   */
  function ProbedOffsets(idxs: seq<nat>, idx: nat, used: seq<bool>): (r: seq<nat>)
    ensures forall k :: 0 <= k < |r| ==> r[k] < |used|
    decreases |used| - idx
  {
    if idx >= |used| || idx >= |idxs| then []
    else
      var pos := ProbeAt(used, idxs[idx]);
      if pos < |used| then [pos] + ProbedOffsets(idxs, idx + 1, used[pos := true]) else []
  }

  /** One block of `inverse_permute_text`: slot k holds the character at the k-th probed offset. */
  function ProbedBlock(block: string, idxs: seq<nat>): string
  {
    Pick(block, ProbedOffsets(idxs, 0, seq(|block|, _ => false)))
  }

  /** The whole "inverse": blocks of `len(code)` characters, the last one possibly shorter, each probed. */
  function Probed(text: string, idxs: seq<nat>): string
    requires |idxs| > 0
    decreases |text|
  {
    if text == [] then []
    else
      var b := Min(|idxs|, |text|);
      ProbedBlock(text[..b], idxs) + Probed(text[b..], idxs)
  }

  /** The output for the text from position i on. */
  function ProbedFrom(text: string, i: nat, idxs: seq<nat>): string
    requires |idxs| > 0
  {
    Probed(text[Min(i, |text|)..], idxs)
  }

  /** The output from i on: the block from i to e probed, then the output from the next block on. */
  lemma ProbedFromChunk(text: string, i: nat, e: nat, idxs: seq<nat>)
    requires |idxs| > 0 && i < |text| && e == Min(i + |idxs|, |text|)
    ensures ProbedFrom(text, i, idxs) == ProbedBlock(text[i..e], idxs) + ProbedFrom(text, i + |idxs|, idxs)
  {
    var rest := text[i..];
    var b := e - i;
    assert Min(i, |text|) == i;
    assert |rest| == |text| - i && b == Min(|idxs|, |rest|);
    assert Probed(rest, idxs) == ProbedBlock(rest[..b], idxs) + Probed(rest[b..], idxs);
    Transposition.DropThenSplit(text, i, b, e);
    ProbedSameBlocks(rest[..b], text[i..e], rest[b..], text[e..], idxs);
    EqTrans(Probed(text[i..], idxs), ProbedBlock(rest[..b], idxs) + Probed(rest[b..], idxs),
                          ProbedBlock(text[i..e], idxs) + Probed(text[e..], idxs));
  }

  // Only guides the solver: `ProbedBlock` of a block followed by `Probed`, applied to equal
  // arguments, gives equal results.
  lemma ProbedSameBlocks(x: string, y: string, u: string, v: string, idxs: seq<nat>)
    requires |idxs| > 0 && x == y && u == v
    ensures ProbedBlock(x, idxs) + Probed(u, idxs) == ProbedBlock(y, idxs) + Probed(v, idxs)
  {
  }

  /** One slot: the offset it probes is appended to those taken so far, and marked used. */
  lemma ProbedOffsetsStep(idxs: seq<nat>, idx: nat, used: seq<bool>, pos: nat, src: seq<nat>, whole: seq<nat>)
    requires idx < |used| && idx < |idxs| && pos == ProbeAt(used, idxs[idx]) && pos < |used|
    requires src + ProbedOffsets(idxs, idx, used) == whole
    ensures (src + [pos]) + ProbedOffsets(idxs, idx + 1, used[pos := true]) == whole
  {
    Transposition.ChunkAppended(src, [pos], src + [pos], ProbedOffsets(idxs, idx, used),
                                ProbedOffsets(idxs, idx + 1, used[pos := true]), whole);
  }

  /**
   * One block of `inverse_permute_text`: slot idx takes the block character at the
   * offset the probe finds for `code[idx] - 1`.  Every offset is taken exactly once,
   * so the block is rearranged; when the offsets are a permutation of the block's
   * positions no probing happens and slot k holds the character at offset `code[k] - 1`.
   */
  method ProbeBlock(block: string, idxs: seq<nat>) returns (orig: string)
    requires |block| <= |idxs|
    ensures orig == ProbedBlock(block, idxs)
    ensures |orig| == |block| && multiset(orig) == multiset(block)
    ensures IsIndexPermutation(idxs, |block|) ==> orig == Pick(block, idxs)
  {
    var n := |block|;
    var out := new char[n];
    var used := new bool[n](_ => false);
    ghost var src: seq<nat> := [];
    ghost var perm := IsIndexPermutation(idxs, n);
    ghost var whole := ProbedOffsets(idxs, 0, seq(n, _ => false));
    assert used[..] == seq(n, _ => false);
    for idx := 0 to |idxs|
      invariant |src| == Min(idx, n)
      invariant Taken(block, src, used[..], out[..])
      invariant perm ==> src == idxs[..Min(idx, n)]
      invariant src + ProbedOffsets(idxs, Min(idx, n), used[..]) == whole
    {
      if idx >= n {
        assert Min(idx + 1, n) == Min(idx, n);
        continue;
      }
      src := FillSlot(block, idxs, idx, out, used, src, perm, whole);
    }
    orig := out[..];
    AllTaken(block, src, used[..], orig);
    assert src == whole;
  }

  /** One pass of the slot loop: slot idx takes the character at the offset the probe finds. */
  method FillSlot(block: string, idxs: seq<nat>, idx: nat, out: array<char>, used: array<bool>,
                  ghost src: seq<nat>, ghost perm: bool, ghost whole: seq<nat>)
    returns (ghost taken: seq<nat>)
    requires idx < |block| <= |idxs| && |src| == idx
    requires Taken(block, src, used[..], out[..])
    requires perm == IsIndexPermutation(idxs, |block|) && (perm ==> src == idxs[..idx])
    requires src + ProbedOffsets(idxs, idx, used[..]) == whole
    modifies out, used
    ensures |taken| == idx + 1 && Taken(block, taken, used[..], out[..])
    ensures perm ==> taken == idxs[..idx + 1]
    ensures taken + ProbedOffsets(idxs, idx + 1, used[..]) == whole
  {
    var n := |block|;
    ghost var before := used[..];
    ghost var written := out[..];
    var pos := idxs[idx];
    ghost var free := FreeOffset(src, n);
    if perm {
      PermutationNextFree(idxs, n, idx, before);
    }
    pos := Probe(used, pos, free);
    out[idx] := block[pos];
    used[pos] := true;
    assert used[..] == before[pos := true];
    assert out[..] == written[idx := block[pos]];
    TakeSlot(block, src, before, written, pos);
    ProbedOffsetsStep(idxs, idx, before, pos, src, whole);
    if perm {
      assert idxs[..idx + 1] == idxs[..idx] + [idxs[idx]];
    }
    taken := src + [pos];
  }

  /** Once every slot is filled, the output picks the block at the offsets taken, and so rearranges it. */
  lemma AllTaken(block: string, src: seq<nat>, used: seq<bool>, out: seq<char>)
    requires Taken(block, src, used, out) && |src| == |block|
    ensures out == Pick(block, src) && multiset(out) == multiset(block)
  {
    DistinctFullCovers(src, |block|);
    ReindexPermutes(block, src);
  }

  /** The state after some slots are filled: `src` lists the offsets taken, `used` marks them, `out` holds their characters. */
  ghost predicate Taken(block: string, src: seq<nat>, used: seq<bool>, out: seq<char>)
  {
    |used| == |block| && |out| == |block| && |src| <= |block|
    && Distinct(src) && (forall k :: 0 <= k < |src| ==> src[k] < |block|)
    && (forall p :: 0 <= p < |block| ==> (used[p] <==> p in src))
    && (forall k :: 0 <= k < |src| ==> out[k] == block[src[k]])
  }

  /** Filling the next slot from a free offset keeps the state consistent. */
  lemma TakeSlot(block: string, src: seq<nat>, used: seq<bool>, out: seq<char>, pos: nat)
    requires Taken(block, src, used, out) && |src| < |block| && pos < |block| && !used[pos]
    ensures Taken(block, src + [pos], used[pos := true], out[|src| := block[pos]])
  {
    var src' := src + [pos];
    assert forall k :: 0 <= k < |src| ==> src'[k] == src[k];
    assert Distinct(src') by {
      assert pos !in src;
    }
  }

  /** With a permutation code, the slot's own offset is free while the earlier slots took the earlier offsets. */
  lemma PermutationNextFree(idxs: seq<nat>, n: nat, idx: nat, used: seq<bool>)
    requires IsIndexPermutation(idxs, n) && idx < n && |used| == n
    requires forall p :: 0 <= p < n ==> (used[p] <==> p in idxs[..idx])
    ensures idxs[idx] < n && !used[idxs[idx]]
  {
  }

  /**
   * The two probing loops: from `start` forward past used offsets, and if that runs
   * off the block, again from offset 0.  `free` witnesses an unused offset, so the
   * second loop stops inside the block.
   */
  method Probe(used: array<bool>, start: nat, ghost free: nat) returns (pos: nat)
    requires free < used.Length && !used[free]
    ensures pos == ProbeAt(used[..], start)
    ensures pos < used.Length && !used[pos]
    ensures start < used.Length && !used[start] ==> pos == start
    ensures (exists q :: start <= q < used.Length && !used[q]) ==> start <= pos && forall q :: start <= q < pos ==> used[q]
    ensures start <= pos || forall q :: 0 <= q < pos ==> used[q]
  {
    var n := used.Length;
    ghost var u := used[..];
    pos := start;
    while pos < n && used[pos]
      invariant start <= pos
      invariant FirstFree(u, pos) == FirstFree(u, start)
      invariant forall q :: start <= q < pos && q < n ==> used[q]
      decreases n - pos
    {
      pos := pos + 1;
    }
    if pos >= n {
      assert forall q :: start <= q < n ==> used[q];
      pos := 0;
      while used[pos]
        invariant pos <= free
        invariant FirstFree(u, pos) == FirstFree(u, 0)
        invariant forall q :: 0 <= q < pos ==> used[q]
        decreases n - pos
      {
        pos := pos + 1;
      }
    }
  }

  /** One pass of the block loop: the block at i probed and appended. */
  method ProbeStep(text: string, idxs: seq<nat>, i: nat, result: string,
                   ghost full: bool, ghost pending: string, ghost whole: string,
                   ghost probing: string, ghost probed: string)
    returns (next: string, ghost after: string, ghost probingAfter: string, j: nat)
    requires |idxs| > 0 && i < |text| && i % |idxs| == 0
    requires |result| == i && multiset(result) == multiset(text[..i])
    requires full == (IsIndexPermutation(idxs, |idxs|) && |text| % |idxs| == 0)
    requires pending == Transposition.PermutedFrom(text, i, idxs)
    requires full ==> result + pending == whole
    requires probing == ProbedFrom(text, i, idxs) && result + probing == probed
    ensures j == i + |idxs| && j % |idxs| == 0
    ensures |next| == Min(j, |text|)
    ensures multiset(next) == multiset(text[..Min(j, |text|)])
    ensures after == Transposition.PermutedFrom(text, j, idxs)
    ensures full ==> next + after == whole
    ensures probingAfter == ProbedFrom(text, j, idxs) && next + probingAfter == probed
  {
    var e := Min(i + |idxs|, |text|);
    var block := text[i..e];
    var orig := ProbeBlock(block, idxs);
    assert text[..e] == text[..i] + block;
    next := result + orig;
    Arith.ModShift(i, |idxs|);
    j := i + |idxs|;
    after := Transposition.PermutedFrom(text, j, idxs);
    probingAfter := ProbedFrom(text, j, idxs);
    ProbedFromChunk(text, i, e, idxs);
    Transposition.ChunkAppended(result, orig, next, probing, probingAfter, probed);
    if full {
      Transposition.PermutationBlockSize(idxs);
      Arith.NextMultiple(i, |text|, |idxs|);
      Transposition.BelowAll(idxs, |block|);
      Transposition.PermutedFromChunk(text, i, e, idxs);
      Transposition.ChunkAppended(result, Transposition.Gather(block, idxs), next, pending, after, whole);
    }
  }

  /** `inverse_permute_text` of src/brf.py, for a code of digits 1-9. */
  method InversePermuteText(text: string, code: string) returns (r: string)
    requires Transposition.IsCode(code)
    ensures r == Probed(text, Transposition.CodeIndices(code))
    ensures |r| == |text| && multiset(r) == multiset(text)
    ensures IsIndexPermutation(Transposition.CodeIndices(code), |code|) && |text| % |code| == 0
            ==> r == Transposition.Permuted(text, Transposition.CodeIndices(code))
  {
    r := ProbeBlocks(text, Transposition.CodeIndices(code));
  }

  /**
   * The block loop: blocks of `len(code)` characters, the last one possibly shorter,
   * each probed.  The output rearranges the text.  For a permutation code and a text
   * of whole blocks it is exactly what `permute_text` of src/cli.py produces: the
   * forward permutation, not its inverse.
   */
  method ProbeBlocks(text: string, idxs: seq<nat>) returns (r: string)
    requires |idxs| > 0
    ensures r == Probed(text, idxs)
    ensures |r| == |text| && multiset(r) == multiset(text)
    ensures IsIndexPermutation(idxs, |idxs|) && |text| % |idxs| == 0 ==> r == Transposition.Permuted(text, idxs)
  {
    var n := |idxs|;
    ghost var full := IsIndexPermutation(idxs, n) && |text| % n == 0;
    var result: string := [];
    var i := 0;
    assert text[Min(0, |text|)..] == text;
    ghost var whole := Transposition.Permuted(text, idxs);
    ghost var pending := Transposition.PermutedFrom(text, 0, idxs);
    ghost var probed := Probed(text, idxs);
    ghost var probing := ProbedFrom(text, 0, idxs);
    while i < |text|
      invariant i % n == 0
      invariant |result| == Min(i, |text|)
      invariant multiset(result) == multiset(text[..Min(i, |text|)])
      invariant pending == Transposition.PermutedFrom(text, i, idxs)
      invariant full ==> result + pending == whole
      invariant probing == ProbedFrom(text, i, idxs) && result + probing == probed
      decreases |text| - i
    {
      result, pending, probing, i := ProbeStep(text, idxs, i, result, full, pending, whole, probing, probed);
    }
    assert text[..|text|] == text;
    assert text[Min(i, |text|)..] == [];
    r := result;
  }

  /**
   * A short final block under code "231": slot 0 of "de" takes its free offset 1
   * ('e'); slot 1 wants offset 2, past the block, so the probe restarts at 0 ('d').
   */
  lemma ShortBlockProbed()
    ensures ProbedBlock("de", [1, 2, 0]) == "ed"
  {
    var idxs: seq<nat> := [1, 2, 0];
    var u0: seq<bool> := [false, false];
    assert seq(2, _ => false) == u0;
    assert FirstFree(u0, 1) == 1;
    assert u0[1 := true] == [false, true];
    assert FirstFree([false, true], 2) == 2 && FirstFree([false, true], 0) == 0;
    assert [false, true][0 := true] == [true, true];
    assert ProbedOffsets(idxs, 2, [true, true]) == [];
    assert ProbedOffsets(idxs, 1, [false, true]) == [0];
    assert ProbedOffsets(idxs, 0, u0) == [1, 0];
  }

  // ---------------------------------------------------------------------------
  // Scoring

  /** `text.count(word)` from position i on, for a non-empty word: non-overlapping occurrences, left to right. */
  function CountFrom(text: string, word: string, i: nat): (r: nat)
    requires |word| > 0
    ensures i <= |text| ==> r * |word| <= |text| - i
    decreases |text| - i
  {
    if i + |word| > |text| then 0
    else if text[i..i + |word|] == word then
      var rest := CountFrom(text, word, i + |word|);
      assert (1 + rest) * |word| == |word| + rest * |word|;
      1 + rest
    else CountFrom(text, word, i + 1)
  }

  /** `text.count(word)`: Python counts the empty word once per position, `len(text) + 1` times. */
  function Count(text: string, word: string): (r: nat)
    ensures |word| > 0 ==> r * |word| <= |text|
    ensures word == [] ==> r == |text| + 1
  {
    if word == [] then |text| + 1 else CountFrom(text, word, 0)
  }

  /** Counting a single character counts its occurrences. */
  lemma {:induction false} CountFromChar(text: string, c: char, i: nat)
    requires i <= |text|
    ensures CountFrom(text, [c], i) == multiset(text[i..])[c]
    decreases |text| - i
  {
    if i < |text| {
      CountFromChar(text, c, i + 1);
      assert text[i..] == [text[i]] + text[i + 1..];
      assert text[i..i + 1] == [text[i]];
    }
  }

  lemma CountChar(text: string, c: char)
    ensures Count(text, [c]) == multiset(text)[c]
  {
    CountFromChar(text, c, 0);
    assert text[0..] == text;
  }

  /** The summed counts of the words, in the order the word collection is walked. */
  function WordHits(text: string, words: seq<string>): (r: nat)
  {
    if words == [] then 0 else WordHits(text, words[..|words| - 1]) + Count(text, words[|words| - 1])
  }

  lemma {:induction false} WordHitsAppend(text: string, a: seq<string>, b: seq<string>)
    ensures WordHits(text, a + b) == WordHits(text, a) + WordHits(text, b)
    decreases |b|
  {
    if b != [] {
      var init := b[..|b| - 1];
      WordHitsAppend(text, a, init);
      assert (a + b)[..|a + b| - 1] == a + init;
    } else {
      assert a + b == a;
    }
  }

  /**
   * The word list is a Python set, walked in an order the program does not fix; the
   * sum of counts is the same in every order.
   */
  lemma {:induction false} WordHitsAnyOrder(text: string, a: seq<string>, b: seq<string>)
    requires multiset(a) == multiset(b)
    ensures WordHits(text, a) == WordHits(text, b)
    decreases |a|
  {
    if a != [] {
      var init, x := a[..|a| - 1], a[|a| - 1];
      assert a == init + [x];
      assert x in multiset(b);
      var j :| 0 <= j < |b| && b[j] == x;
      var rest := b[..j] + b[j + 1..];
      SameMultisetRemove(a, b, j);
      assert b == b[..j] + [x] + b[j + 1..];
      WordHitsAnyOrder(text, init, rest);
      WordHitsAppend(text, b[..j] + [x], b[j + 1..]);
      WordHitsAppend(text, b[..j], [x]);
      WordHitsAppend(text, b[..j], b[j + 1..]);
      assert WordHits(text, [x]) == Count(text, x) by {
        assert [x][..0] == [];
      }
    } else {
      assert |b| == |multiset(b)| == 0;
    }
  }

  /** The letters whose occurrences add one point each. */
  const Frequent: string := "etaoinshrdlu"

  /** The summed occurrences of the given letters. */
  function LetterHits(text: string, letters: string): (r: nat)
  {
    if letters == [] then 0 else LetterHits(text, letters[..|letters| - 1]) + Count(text, [letters[|letters| - 1]])
  }

  /** Each letter contributes its multiplicity in the text. */
  lemma {:induction false} LetterHitsAreOccurrences(text: string, letters: string)
    ensures LetterHits(text, letters) == Occurrences(text, letters)
    decreases |letters|
  {
    if letters != [] {
      LetterHitsAreOccurrences(text, letters[..|letters| - 1]);
      CountChar(text, letters[|letters| - 1]);
    }
  }

  /** The multiplicities in the text of the given letters, summed. */
  function Occurrences(text: string, letters: string): (r: nat)
  {
    if letters == [] then 0 else Occurrences(text, letters[..|letters| - 1]) + multiset(text)[letters[|letters| - 1]]
  }

  /** `score_text`, with the word list as a parameter. */
  function Score(text: string, words: seq<string>): (r: nat)
  {
    var t := LowerString(text);
    10 * WordHits(t, words) + LetterHits(t, Frequent)
  }

  /**
   * The score is ten points per word occurrence plus one per occurrence of a frequent
   * letter in the lower-cased text, and does not depend on the order the words are walked.
   */
  lemma ScoreMeaning(text: string, words: seq<string>, reordered: seq<string>)
    requires multiset(words) == multiset(reordered)
    ensures Score(text, words) == 10 * WordHits(LowerString(text), reordered) + Occurrences(LowerString(text), Frequent)
  {
    WordHitsAnyOrder(LowerString(text), words, reordered);
    LetterHitsAreOccurrences(LowerString(text), Frequent);
  }

  /** `score_text`: the two accumulation loops. */
  method ScoreText(text: string, words: seq<string>) returns (score: nat)
    ensures score == Score(text, words)
  {
    var t := LowerString(text);
    score := 0;
    for k := 0 to |words|
      invariant score == 10 * WordHits(t, words[..k])
    {
      assert words[..k + 1][..k] == words[..k];
      score := score + Count(t, words[k]) * 10;
    }
    assert words[..|words|] == words;
    for k := 0 to |Frequent|
      invariant score == 10 * WordHits(t, words) + LetterHits(t, Frequent[..k])
    {
      assert Frequent[..k + 1][..k] == Frequent[..k];
      score := score + Count(t, [Frequent[k]]);
    }
    assert Frequent[..|Frequent|] == Frequent;
  }
}
