/**
 * The transposition "inverse" of src/brute-force.py.  The text is cut into blocks of
 * `len(code)` characters; slot idx of a block receives the character at offset
 * `code[idx] - 1` when both lie inside the block, and every other slot stays empty
 * and vanishes from the joined output.  That is the gather `permute_text` of
 * src/cli.py performs, restricted to the first `len(block)` code entries.
 */
module BruteForce {
  import opened Wrappers
  import opened SeqPerm
  import Transposition
  import Arith

  /** The slots of one block: slot p holds the character at offset `idxs[p]` when that lies inside the block. */
  function Slots(block: string, idxs: seq<nat>, q: nat): (r: seq<Option<char>>)
    requires q <= |block| && q <= |idxs|
    ensures |r| == q
  {
    seq(q, p requires 0 <= p < q => if idxs[p] < |block| then Some(block[idxs[p]]) else None)
  }

  /** The filled slots, joined, are the block gathered at the first q code offsets. */
  lemma {:induction false} SlotsGather(block: string, idxs: seq<nat>, q: nat)
    requires q <= |block| && q <= |idxs|
    ensures Transposition.Joined(Slots(block, idxs, q)) == Transposition.Gather(block, idxs[..q])
    decreases q
  {
    if q > 0 {
      SlotsGather(block, idxs, q - 1);
      var prev := Slots(block, idxs, q - 1);
      var last := Slots(block, idxs, q)[q - 1];
      assert Slots(block, idxs, q) == prev + [last];
      Transposition.JoinedAppend(prev, [last]);
      assert idxs[..q][..q - 1] == idxs[..q - 1];
      assert Transposition.Joined([last]) == (if last.Some? then [last.value] else []) by {
        assert [last][1..] == [];
      }
      if idxs[q - 1] < |block| {
        Transposition.PickSnoc(block, Transposition.Below(idxs[..q - 1], |block|), idxs[q - 1]);
      }
    } else {
      assert idxs[..0] == [];
    }
  }

  /** One block: `orig = [''] * block_len`, then `orig[idx] = block[code_idx]` where both are inside the block. */
  method FillBlock(block: string, idxs: seq<nat>) returns (orig: seq<Option<char>>)
    requires |block| <= |idxs|
    ensures |orig| == |block|
    ensures Transposition.Joined(orig) == Transposition.Gather(block, idxs[..|block|])
  {
    var n := |block|;
    var slots := new Option<char>[n](_ => None);
    for idx := 0 to |idxs|
      invariant forall p :: 0 <= p < n ==> slots[p] == if p < idx && idxs[p] < n then Some(block[idxs[p]]) else None
    {
      if idx < n && idxs[idx] < n {
        slots[idx] := Some(block[idxs[idx]]);
      }
    }
    orig := slots[..];
    assert orig == Slots(block, idxs, n);
    SlotsGather(block, idxs, n);
  }

  /**
   * The whole "inverse": the text cut into blocks of `len(code)` characters, the
   * last one possibly shorter, and each block gathered at its first `len(block)`
   * code offsets, dropping the offsets that fall outside a short block.
   */
  function Filled(text: string, idxs: seq<nat>): (r: string)
    requires |idxs| > 0
    decreases |text|
  {
    if text == [] then []
    else
      var b := Min(|idxs|, |text|);
      Transposition.Gather(text[..b], idxs[..b]) + Filled(text[b..], idxs)
  }

  /** The output for the text from position i on. */
  function FilledFrom(text: string, i: nat, idxs: seq<nat>): string
    requires |idxs| > 0
  {
    Filled(text[Min(i, |text|)..], idxs)
  }

  /** The output from i on: the block from i to e filled, then the output from the next block on. */
  lemma FilledFromChunk(text: string, i: nat, e: nat, idxs: seq<nat>)
    requires |idxs| > 0 && i < |text| && e == Min(i + |idxs|, |text|)
    ensures FilledFrom(text, i, idxs) == Transposition.Gather(text[i..e], idxs[..e - i]) + FilledFrom(text, i + |idxs|, idxs)
  {
    var rest := text[i..];
    var b := e - i;
    assert Min(i, |text|) == i;
    assert |rest| == |text| - i && b == Min(|idxs|, |rest|);
    assert Filled(rest, idxs) == Transposition.Gather(rest[..b], idxs[..b]) + Filled(rest[b..], idxs);
    Transposition.DropThenSplit(text, i, b, e);
    FilledSameBlocks(rest[..b], text[i..e], rest[b..], text[e..], idxs[..b], idxs);
    EqTrans(Filled(text[i..], idxs), Transposition.Gather(rest[..b], idxs[..b]) + Filled(rest[b..], idxs),
                          Transposition.Gather(text[i..e], idxs[..b]) + Filled(text[e..], idxs));
  }

  // Only guides the solver: `Gather` of a block followed by `Filled`, applied to equal
  // arguments, gives equal results.
  lemma FilledSameBlocks(x: string, y: string, u: string, v: string, p: seq<nat>, idxs: seq<nat>)
    requires |idxs| > 0 && x == y && u == v
    ensures Transposition.Gather(x, p) + Filled(u, idxs) == Transposition.Gather(y, p) + Filled(v, idxs)
  {
  }

  /**
   * For a permutation code on a text of whole blocks, every block is gathered at all
   * of the code's offsets, so the "inverse" is exactly `permute_text` of src/cli.py.
   */
  lemma {:induction false} FilledIsPermuted(text: string, idxs: seq<nat>)
    requires |idxs| > 0 && IsIndexPermutation(idxs, |idxs|) && |text| % |idxs| == 0
    ensures Filled(text, idxs) == Transposition.Permuted(text, idxs)
    decreases |text|
  {
    if text != [] {
      var n := |idxs|;
      Transposition.PermutationBlockSize(idxs);
      Arith.NextMultiple(0, |text|, n);
      Arith.ModShift(|text| - n, n);
      assert idxs[..n] == idxs;
      FilledIsPermuted(text[n..], idxs);
      assert Filled(text, idxs) == Transposition.Gather(text[..n], idxs) + Filled(text[n..], idxs);
    }
  }

  /** `inverse_permute_text` of src/brute-force.py, for a code of digits 1-9. */
  method InversePermuteText(text: string, code: string) returns (r: string)
    requires Transposition.IsCode(code)
    ensures r == Filled(text, Transposition.CodeIndices(code)) && |r| <= |text|
    ensures IsIndexPermutation(Transposition.CodeIndices(code), |code|) && |text| % |code| == 0
            ==> r == Transposition.Permuted(text, Transposition.CodeIndices(code))
  {
    r := FillBlocks(text, Transposition.CodeIndices(code));
  }

  /**
   * The block loop.  The output is the blockwise fill, never longer than the text;
   * for a permutation code and a text of whole blocks it is what `permute_text` of
   * src/cli.py produces.
   */
  method FillBlocks(text: string, idxs: seq<nat>) returns (r: string)
    requires |idxs| > 0
    ensures r == Filled(text, idxs) && |r| <= |text|
    ensures IsIndexPermutation(idxs, |idxs|) && |text| % |idxs| == 0 ==> r == Transposition.Permuted(text, idxs)
  {
    var n := |idxs|;
    var result: string := [];
    var i := 0;
    assert text[Min(0, |text|)..] == text;
    ghost var whole := Filled(text, idxs);
    ghost var pending := FilledFrom(text, 0, idxs);
    while i < |text|
      invariant i % n == 0
      invariant |result| <= Min(i, |text|)
      invariant pending == FilledFrom(text, i, idxs)
      invariant result + pending == whole
      decreases |text| - i
    {
      result, pending, i := FillStep(text, idxs, i, result, pending, whole);
    }
    assert text[Min(i, |text|)..] == [];
    r := result;
    if IsIndexPermutation(idxs, n) && |text| % n == 0 {
      FilledIsPermuted(text, idxs);
    }
  }

  /** One pass of the block loop: the block at i filled, its slots joined and appended. */
  method FillStep(text: string, idxs: seq<nat>, i: nat, result: string,
                  ghost pending: string, ghost whole: string)
    returns (next: string, ghost after: string, j: nat)
    requires |idxs| > 0 && i < |text| && i % |idxs| == 0
    requires |result| <= i
    requires pending == FilledFrom(text, i, idxs) && result + pending == whole
    ensures j == i + |idxs| && j % |idxs| == 0
    ensures |next| <= Min(j, |text|)
    ensures after == FilledFrom(text, j, idxs) && next + after == whole
  {
    var e := Min(i + |idxs|, |text|);
    var block := text[i..e];
    var orig := FillBlock(block, idxs);
    next := result + Transposition.Joined(orig);
    Arith.ModShift(i, |idxs|);
    j := i + |idxs|;
    after := FilledFrom(text, j, idxs);
    FilledFromChunk(text, i, e, idxs);
    Transposition.ChunkAppended(result, Transposition.Gather(block, idxs[..|block|]), next, pending, after, whole);
  }

  /**
   * A short final block loses characters: under code "231", "abcde" comes out as
   * "bcae".  Slot 0 of the block "de" takes offset 1 ('e'); slot 1 wants offset 2,
   * which lies outside the block, so it stays empty and 'd' is dropped.
   */
  lemma ShortBlockLoses()
    ensures Filled("abcde", [1, 2, 0]) == "bcae"
  {
    var idxs: seq<nat> := [1, 2, 0];
    var text := "abcde";
    WholeBlockExample();
    ShortBlockExample();
    assert text[..3] == "abc" && text[3..] == "de" && idxs[..3] == idxs;
    assert Filled(text, idxs) == Transposition.Gather("abc", idxs) + Filled("de", idxs);
  }

  lemma WholeBlockExample()
    ensures Transposition.Gather("abc", [1, 2, 0]) == "bca"
  {
    Transposition.BelowAll([1, 2, 0], 3);
  }

  lemma ShortBlockExample()
    ensures Filled("de", [1, 2, 0]) == "e"
  {
    var idxs: seq<nat> := [1, 2, 0];
    assert [1, 2][..1] == [1] && [1][..0] == [];
    assert Transposition.Below([1, 2], 2) == [1];
    assert "de"[..2] == "de" && "de"[2..] == [] && idxs[..2] == [1, 2];
    assert Filled("de", idxs) == Transposition.Gather("de", [1, 2]) + Filled([], idxs);
  }

  /**
   * With code "231" the cracking tools' inverse does not undo `permute_text`: "abc"
   * permutes to "bca", and the inverse above (which equals the forward gather on a
   * whole block) turns "bca" into "cab" rather than back into "abc".  The inverse of
   * src/cli.py does return "abc" (Transposition.InversePermuteRoundTrip).
   */
  lemma GatherIsNotInverse()
    ensures Transposition.CodeIndices("231") == [1, 2, 0]
    ensures IsIndexPermutation([1, 2, 0], 3)
    ensures Transposition.Permuted("abc", [1, 2, 0]) == "bca"
    ensures Transposition.Permuted("bca", [1, 2, 0]) == "cab"
    ensures Transposition.Inverted("bca", [1, 2, 0]) == "abc"
  {
    CodeExample();
    PermutedExample("abc", "bca");
    PermutedExample("bca", "cab");
    Transposition.InversePermuteRoundTrip("abc", "231");
  }

  /** Code "231" passes `validate_code` and uses each of 1, 2, 3 once. */
  lemma CodeExample()
    ensures Transposition.CodeIndices("231") == [1, 2, 0]
    ensures Transposition.IsCode("231") && Transposition.ValidateCode("231")
    ensures IsIndexPermutation([1, 2, 0], 3)
  {
    var idxs: seq<nat> := [1, 2, 0];
    assert Transposition.CodeIndices("231") == idxs;
    assert Transposition.DigitValues("231") == [2, 3, 1];
    assert Transposition.MaxOf([2, 3, 1]) == 3;
    OffsetsExample();
  }

  /** The offsets 1, 2, 0 list each of 0, 1, 2 once. */
  lemma OffsetsExample()
    ensures IsIndexPermutation([1, 2, 0], 3)
  {
    var idxs: seq<nat> := [1, 2, 0];
    assert idxs[0] == 1 && idxs[1] == 2 && idxs[2] == 0;
    assert 0 in idxs && 1 in idxs && 2 in idxs;
  }

  /** A three-character text under code "231": the characters at offsets 1, 2, 0. */
  lemma PermutedExample(text: string, out: string)
    requires |text| == 3 && out == [text[1], text[2], text[0]]
    ensures Transposition.Permuted(text, [1, 2, 0]) == out
  {
    OffsetsExample();
    OneBlock(text, [1, 2, 0]);
  }

  /** A text of exactly one whole block, for a permutation code, is gathered at the code's offsets. */
  lemma OneBlock(text: string, idxs: seq<nat>)
    requires |idxs| > 0 && IsIndexPermutation(idxs, |idxs|) && |text| == |idxs|
    ensures Transposition.Permuted(text, idxs) == Pick(text, idxs)
  {
    Transposition.PermutationBlockSize(idxs);
    Transposition.BelowAll(idxs, |text|);
    assert text[|text|..] == [];
    assert text[..|text|] == text;
  }
}
