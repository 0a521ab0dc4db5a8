/**
 * The block transposition of src/cli.py.  A code such as "3124" names, for each
 * output position of a block, the (1-based) offset in the block it is read
 * from; the block size is the largest digit.  The inverse scatters each block
 * back into slots, guessing the size of a short final block from its length.
 */
module Transposition {
  import opened Wrappers
  import opened PyStr
  import opened SeqPerm

  // ---------------------------------------------------------------------------
  // Codes

  /** `validate_code`: all digits, and every value from 1 to the largest digit occurs. */
  function ValidateCode(code: string): (r: bool)
  {
    IsDigitString(code)
    && var digits := DigitValues(code);
       forall i :: 1 <= i <= MaxOf(digits) ==> i in digits
  }

  /** `[int(c) for c in code]` */
  function DigitValues(code: string): (r: seq<nat>)
    requires forall i :: 0 <= i < |code| ==> IsDigit(code[i])
    ensures |r| == |code|
  {
    seq(|code|, i requires 0 <= i < |code| => DigitValue(code[i]))
  }

  /** The largest element, as `max` returns it. */
  function MaxOf(s: seq<nat>): (r: nat)
    requires |s| > 0
    ensures r in s && forall i :: 0 <= i < |s| ==> s[i] <= r
  {
    if |s| == 1 then s[0]
    else var m := MaxOf(s[1..]); if s[0] >= m then s[0] else m
  }

  /** The codes the transposition is modelled for: non-empty, digits 1 to 9 only. */
  predicate IsCode(code: string)
  {
    |code| > 0 && forall i :: 0 <= i < |code| ==> '1' <= code[i] <= '9'
  }

  /** `[int(c) - 1 for c in code]`: the 0-based block offsets. */
  function CodeIndices(code: string): (r: seq<nat>)
    requires IsCode(code)
    ensures |r| == |code| && forall i :: 0 <= i < |r| ==> r[i] < 9
  {
    seq(|code|, i requires 0 <= i < |code| => DigitValue(code[i]) - 1)
  }

  /** `max(code_indices) + 1` */
  function BlockSize(idxs: seq<nat>): (b: nat)
    requires |idxs| > 0
    ensures b > 0 && forall i :: 0 <= i < |idxs| ==> idxs[i] < b
  {
    MaxOf(idxs) + 1
  }

  /** Every offset below the block size occurs in the code. */
  predicate Covers(idxs: seq<nat>)
  {
    |idxs| > 0 && forall k :: 0 <= k < BlockSize(idxs) ==> k in idxs
  }

  // ---------------------------------------------------------------------------
  // The forward permutation

  /** `[idx for idx in code_indices if idx < b]`: the offsets below b, in code order. */
  function Below(idxs: seq<nat>, b: nat): (r: seq<nat>)
    ensures |r| <= |idxs|
    ensures forall i :: 0 <= i < |r| ==> r[i] < b
  {
    if idxs == [] then []
    else Below(idxs[..|idxs| - 1], b) + (if idxs[|idxs| - 1] < b then [idxs[|idxs| - 1]] else [])
  }

  /** One block's output: the characters at the code's offsets that lie inside the block, in code order. */
  function Gather(block: string, idxs: seq<nat>): (r: string)
  {
    Pick(block, Below(idxs, |block|))
  }

  /** `permute_text`: the text cut into blocks of the block size (the last one possibly shorter), each block gathered. */
  function Permuted(text: string, idxs: seq<nat>): (r: string)
    requires |idxs| > 0
    decreases |text|
  {
    if text == [] then []
    else
      var b := Min(BlockSize(idxs), |text|);
      Gather(text[..b], idxs) + Permuted(text[b..], idxs)
  }

  lemma PickSnoc(s: string, p: seq<nat>, x: nat)
    requires (forall i :: 0 <= i < |p| ==> p[i] < |s|) && x < |s|
    ensures Pick(s, p + [x]) == Pick(s, p) + [s[x]]
  {
  }

  /** The blocks from position i on gathered onto the output `acc` already holds, the way the loop builds it. */
  function PermutedOnto(text: string, i: nat, idxs: seq<nat>, acc: string): (r: string)
    requires |idxs| > 0
    decreases |text| - i
  {
    if i >= |text| then acc
    else PermutedOnto(text, i + BlockSize(idxs), idxs, acc + Gather(text[i..Min(i + BlockSize(idxs), |text|)], idxs))
  }

  /** The output for the text from position i on. */
  function PermutedFrom(text: string, i: nat, idxs: seq<nat>): string
    requires |idxs| > 0
  {
    Permuted(text[Min(i, |text|)..], idxs)
  }

  lemma {:induction false} PermutedOntoIsPermuted(text: string, i: nat, idxs: seq<nat>, acc: string)
    requires |idxs| > 0
    ensures PermutedOnto(text, i, idxs, acc) == acc + PermutedFrom(text, i, idxs)
    decreases |text| - i
  {
    if i < |text| {
      var k, next := PermutedOntoStep(text, i, idxs, acc);
      PermutedOntoIsPermuted(text, k, idxs, next);
    } else {
      assert text[Min(i, |text|)..] == [];
      AppendEmpty(acc);
    }
  }

  /** One block of the induction above: the loop moves on to the next block with that block's output appended. */
  lemma PermutedOntoStep(text: string, i: nat, idxs: seq<nat>, acc: string) returns (k: nat, next: string)
    requires |idxs| > 0 && i < |text|
    ensures i < k && PermutedOnto(text, i, idxs, acc) == PermutedOnto(text, k, idxs, next)
    ensures acc + PermutedFrom(text, i, idxs) == next + PermutedFrom(text, k, idxs)
  {
    var j := Min(i + BlockSize(idxs), |text|);
    k, next := i + BlockSize(idxs), acc + Gather(text[i..j], idxs);
    PermutedOntoUnfold(text, i, j, idxs, acc);
    PermutedFromAdvance(text, i, j, idxs, acc);
  }

  /** The output from i on, after `acc`, regrouped as the block at i appended to `acc`, then the output after it. */
  lemma PermutedFromAdvance(text: string, i: nat, j: nat, idxs: seq<nat>, acc: string)
    requires |idxs| > 0 && i < |text| && j == Min(i + BlockSize(idxs), |text|)
    ensures acc + PermutedFrom(text, i, idxs) == (acc + Gather(text[i..j], idxs)) + PermutedFrom(text, i + BlockSize(idxs), idxs)
  {
    var g, later := Gather(text[i..j], idxs), PermutedFrom(text, i + BlockSize(idxs), idxs);
    PermutedFromChunk(text, i, j, idxs);
    AppendAssoc(acc, g, later);
  }

  lemma PermutedOntoUnfold(text: string, i: nat, j: nat, idxs: seq<nat>, acc: string)
    requires |idxs| > 0 && i < |text| && j == Min(i + BlockSize(idxs), |text|)
    ensures PermutedOnto(text, i, idxs, acc) == PermutedOnto(text, i + BlockSize(idxs), idxs, acc + Gather(text[i..j], idxs))
  {
  }

  /** The output from i on: the block from i to j gathered, then the output from the next block on. */
  lemma PermutedFromChunk(text: string, i: nat, j: nat, idxs: seq<nat>)
    requires |idxs| > 0 && i < |text| && j == Min(i + BlockSize(idxs), |text|)
    ensures PermutedFrom(text, i, idxs) == Gather(text[i..j], idxs) + PermutedFrom(text, i + BlockSize(idxs), idxs)
  {
    PermutedChunk(text, i, j, idxs);
    assert Min(i, |text|) == i;
  }

  /** The output for the text from i on: the block from i to j gathered, then the output for the text after it. */
  lemma PermutedChunk(text: string, i: nat, j: nat, idxs: seq<nat>)
    requires |idxs| > 0 && i < |text| && j == Min(i + BlockSize(idxs), |text|)
    ensures Permuted(text[i..], idxs) == Gather(text[i..j], idxs) + Permuted(text[j..], idxs)
  {
    var rest := text[i..];
    var b := j - i;
    assert |rest| == |text| - i;
    PermutedUnfold(rest, b, idxs);
    DropThenSplit(text, i, b, j);
    PermutedSameBlocks(rest[..b], text[i..j], rest[b..], text[j..], idxs);
    EqTrans(Permuted(text[i..], idxs), Gather(rest[..b], idxs) + Permuted(rest[b..], idxs),
            Gather(text[i..j], idxs) + Permuted(text[j..], idxs));
  }

  lemma PermutedUnfold(text: string, b: nat, idxs: seq<nat>)
    requires |idxs| > 0 && text != [] && b == Min(BlockSize(idxs), |text|)
    ensures Permuted(text, idxs) == Gather(text[..b], idxs) + Permuted(text[b..], idxs)
  {
  }

  lemma DropThenSplit<T>(s: seq<T>, i: nat, b: nat, j: nat)
    requires j == i + b <= |s|
    ensures s[i..][..b] == s[i..j] && s[i..][b..] == s[j..]
  {
  }

  // Only guides the solver: `Gather` of a block followed by `Permuted`, applied to equal
  // arguments, gives equal results.
  lemma PermutedSameBlocks(x: string, y: string, u: string, v: string, idxs: seq<nat>)
    requires |idxs| > 0 && x == y && u == v
    ensures Gather(x, idxs) + Permuted(u, idxs) == Gather(y, idxs) + Permuted(v, idxs)
  {
  }

  /** `permute_text` */
  method PermuteText(text: string, code: string) returns (r: string)
    requires IsCode(code)
    ensures r == Permuted(text, CodeIndices(code))
  {
    r := PermuteBlocks(text, CodeIndices(code));
  }

  /** The block loop of `permute_text`, over the code's offsets. */
  method PermuteBlocks(text: string, idxs: seq<nat>) returns (r: string)
    requires |idxs| > 0
    ensures r == Permuted(text, idxs)
  {
    var blockSize := BlockSize(idxs);
    var result: string := [];
    var i := 0;
    assert text[Min(0, |text|)..] == text;
    ghost var whole := Permuted(text, idxs);
    ghost var pending := PermutedFrom(text, 0, idxs);
    while i < |text|
      invariant pending == PermutedFrom(text, i, idxs)
      invariant result + pending == whole
      decreases |text| - i
    {
      result, pending, i := GatherStep(text, idxs, blockSize, i, result, pending, whole);
    }
    assert text[Min(i, |text|)..] == [];
    r := result;
  }

  /** One pass of the block loop: the block at i gathered and appended. */
  method GatherStep(text: string, idxs: seq<nat>, blockSize: nat, i: nat,
                    result: string, ghost pending: string, ghost whole: string)
    returns (next: string, ghost after: string, j: nat)
    requires |idxs| > 0 && blockSize == BlockSize(idxs) && i < |text|
    requires pending == PermutedFrom(text, i, idxs) && result + pending == whole
    ensures j == i + blockSize
    ensures after == PermutedFrom(text, j, idxs) && next + after == whole
  {
    var block := text[i..Min(i + blockSize, |text|)];
    var gathered := GatherBlock(block, idxs);
    next := result + gathered;
    PermutedFromChunk(text, i, Min(i + blockSize, |text|), idxs);
    j := i + blockSize;
    after := PermutedFrom(text, j, idxs);
    ChunkAppended(result, gathered, next, pending, after, whole);
  }

  /** The inner loop of `permute_text`: the block's characters at the code's offsets, skipping those past its end. */
  method GatherBlock(block: string, idxs: seq<nat>) returns (out: string)
    ensures out == Gather(block, idxs)
  {
    out := [];
    for k := 0 to |idxs|
      invariant out == Pick(block, Below(idxs[..k], |block|))
    {
      var idx := idxs[k];
      assert idxs[..k + 1][..k] == idxs[..k];
      if idx < |block| {
        PickSnoc(block, Below(idxs[..k], |block|), idx);
        out := out + [block[idx]];
      }
    }
    assert idxs[..|idxs|] == idxs;
  }

  // ---------------------------------------------------------------------------
  // Facts about codes

  /** `validate_code` rejects the empty string and anything with a non-digit. */
  lemma ValidateNeedsDigits(code: string)
    ensures !IsDigitString(code) ==> !ValidateCode(code)
    ensures ValidateCode(code) ==> |code| > 0
  {
  }

  /** The code "0" passes `validate_code` (the range 1..0 is empty), although its block size would be 0. */
  lemma ZeroCodeValidates()
    ensures ValidateCode("0") && !IsCode("0")
  {
    assert DigitValues("0") == [0];
  }

  /** The digit values are the offsets plus one, and so is their maximum. */
  lemma DigitsAndIndices(code: string)
    requires IsCode(code)
    ensures forall i :: 0 <= i < |code| ==> DigitValues(code)[i] == CodeIndices(code)[i] + 1
    ensures MaxOf(DigitValues(code)) == MaxOf(CodeIndices(code)) + 1
  {
    var digits := DigitValues(code);
    var idxs := CodeIndices(code);
    var j :| 0 <= j < |digits| && digits[j] == MaxOf(digits);
    var k :| 0 <= k < |idxs| && idxs[k] == MaxOf(idxs);
    assert digits[j] == idxs[j] + 1 <= MaxOf(idxs) + 1;
    assert digits[k] == MaxOf(idxs) + 1 <= MaxOf(digits);
  }

  /** For codes of digits 1-9, `validate_code` holds exactly when every offset below the block size occurs. */
  lemma ValidateCodeCovers(code: string)
    requires IsCode(code)
    ensures ValidateCode(code) <==> Covers(CodeIndices(code))
  {
    var digits := DigitValues(code);
    var idxs := CodeIndices(code);
    DigitsAndIndices(code);
    if ValidateCode(code) {
      forall x | 0 <= x < BlockSize(idxs)
        ensures x in idxs
      {
        assert x + 1 in digits;
        var m :| 0 <= m < |digits| && digits[m] == x + 1;
        assert idxs[m] == x;
      }
    }
    if Covers(idxs) {
      forall x | 1 <= x <= MaxOf(digits)
        ensures x in digits
      {
        assert x - 1 in idxs;
        var m :| 0 <= m < |idxs| && idxs[m] == x - 1;
        assert digits[m] == x;
      }
    }
  }

  // ---------------------------------------------------------------------------
  // Facts about the offsets below a bound

  lemma {:induction false} BelowMembers(idxs: seq<nat>, b: nat)
    ensures forall x :: x in Below(idxs, b) <==> x in idxs && x < b
  {
    if idxs != [] {
      var init := idxs[..|idxs| - 1];
      BelowMembers(init, b);
      assert idxs == init + [idxs[|idxs| - 1]];
    }
  }

  /** When every offset is below b, nothing is filtered out. */
  lemma {:induction false} BelowAll(idxs: seq<nat>, b: nat)
    requires forall i :: 0 <= i < |idxs| ==> idxs[i] < b
    ensures Below(idxs, b) == idxs
  {
    if idxs != [] {
      var init := idxs[..|idxs| - 1];
      BelowAll(init, b);
      assert idxs == init + [idxs[|idxs| - 1]];
    }
  }

  /** Raising the bound keeps at least as many offsets, and strictly more when an offset lies between the two bounds. */
  lemma {:induction false} BelowGrows(idxs: seq<nat>, c: nat, d: nat)
    requires c <= d
    ensures |Below(idxs, c)| <= |Below(idxs, d)|
    ensures (exists k :: 0 <= k < |idxs| && c <= idxs[k] < d) ==> |Below(idxs, c)| < |Below(idxs, d)|
  {
    if idxs != [] {
      var init := idxs[..|idxs| - 1];
      BelowGrows(init, c, d);
      if exists k :: 0 <= k < |idxs| && c <= idxs[k] < d {
        var k :| 0 <= k < |idxs| && c <= idxs[k] < d;
        if k < |idxs| - 1 {
          assert init[k] == idxs[k];
        }
      }
    }
  }

  lemma {:induction false} BelowDistinct(idxs: seq<nat>, b: nat)
    requires Distinct(idxs)
    ensures Distinct(Below(idxs, b))
  {
    if idxs != [] {
      var init := idxs[..|idxs| - 1];
      var x := idxs[|idxs| - 1];
      assert Distinct(init);
      BelowDistinct(init, b);
      BelowMembers(init, b);
      assert x !in init;
    }
  }

  /** A duplicate-free list of offsets below n that contains every offset below n has exactly n entries. */
  lemma {:induction false} DistinctCoverLength(p: seq<nat>, n: nat)
    requires Distinct(p) && (forall i :: 0 <= i < |p| ==> p[i] < n) && (forall k :: 0 <= k < n ==> k in p)
    ensures |p| == n
  {
    if n == 0 {
      HeadMember(p);
    } else {
      assert n - 1 in p;
      var j :| 0 <= j < |p| && p[j] == n - 1;
      var q := p[..j] + p[j + 1..];
      assert forall i :: 0 <= i < |q| ==> q[i] == p[if i < j then i else i + 1];
      forall k | 0 <= k < n - 1
        ensures k in q
      {
        assert k in p;
        var i :| 0 <= i < |p| && p[i] == k;
        assert q[if i < j then i else i - 1] == k;
      }
      DistinctCoverLength(q, n - 1);
    }
  }

  // ---------------------------------------------------------------------------
  // The inverse

  /** `''.join(result)` where an unfilled slot holds `''`: the filled slots' characters in slot order. */
  function Joined(slots: seq<Option<char>>): (r: string)
    ensures |r| <= |slots|
  {
    if slots == [] then []
    else (if slots[0].Some? then [slots[0].value] else []) + Joined(slots[1..])
  }

  /** `original = [''] * b` followed by `original[idx] = block[pos]` for the positions in order, while `pos < len(block)`. */
  function Scattered(block: string, positions: seq<nat>, b: nat): (r: seq<Option<char>>)
    requires forall k :: 0 <= k < |positions| ==> positions[k] < b
    ensures |r| == b
  {
    if positions == [] then seq(b, _ => None)
    else
      var k := |positions| - 1;
      var prev := Scattered(block, positions[..k], b);
      if k < |block| then prev[positions[k] := Some(block[k])] else prev
  }

  /** `for b in range(1, block_size + 1)`: the first width from `from` on whose code offsets number `remaining`. */
  function FirstFit(idxs: seq<nat>, remaining: nat, from: nat): (r: Option<nat>)
    requires |idxs| > 0
    ensures r.Some? ==> from <= r.value <= BlockSize(idxs) && |Below(idxs, r.value)| == remaining
    decreases BlockSize(idxs) + 1 - from
  {
    if from > BlockSize(idxs) then None
    else if |Below(idxs, from)| == remaining then Some(from)
    else FirstFit(idxs, remaining, from + 1)
  }

  /** The slots of `inverse_permute_text` for the text from the current position on. */
  function InverseSlots(text: string, idxs: seq<nat>): (r: seq<Option<char>>)
    requires |idxs| > 0
    decreases |text|
  {
    var full := |Below(idxs, BlockSize(idxs))|;
    if |text| >= full && full > 0 then
      Scattered(text[..full], Below(idxs, BlockSize(idxs)), BlockSize(idxs)) + InverseSlots(text[full..], idxs)
    else if text == [] then []
    else TailSlots(text, idxs)
  }

  /** A remainder shorter than a full chunk: the width whose offsets number exactly its length, else the fallback. */
  function TailSlots(rest: string, idxs: seq<nat>): (r: seq<Option<char>>)
    requires |idxs| > 0
  {
    match FirstFit(idxs, |rest|, 1)
    case Some(b) => Scattered(rest, Below(idxs, b), b)
    case None =>
      var b := Min(BlockSize(idxs), |rest|);
      Scattered(rest, Below(idxs, b), b)
  }

  /** `inverse_permute_text` */
  function Inverted(text: string, idxs: seq<nat>): (r: string)
    requires |idxs| > 0
  {
    Joined(InverseSlots(text, idxs))
  }

  /** `inverse_permute_text` */
  method InversePermuteText(text: string, code: string) returns (r: string)
    requires IsCode(code)
    ensures r == Inverted(text, CodeIndices(code))
  {
    r := InverseBlocks(text, CodeIndices(code));
  }

  /** The slots of the text from position i on. */
  function SlotsFrom(text: string, idxs: seq<nat>, i: nat): seq<Option<char>>
    requires |idxs| > 0 && i <= |text|
  {
    InverseSlots(text[i..], idxs)
  }

  /** One full chunk at j: its scattered slots, then the slots of the text after it. */
  lemma ChunkStep(text: string, idxs: seq<nat>, j: nat)
    requires |idxs| > 0 && |Below(idxs, BlockSize(idxs))| > 0
    requires j + |Below(idxs, BlockSize(idxs))| <= |text|
    ensures InverseSlots(text[j..], idxs)
            == Scattered(text[j..j + |Below(idxs, BlockSize(idxs))|], Below(idxs, BlockSize(idxs)), BlockSize(idxs))
               + InverseSlots(text[j + |Below(idxs, BlockSize(idxs))|..], idxs)
  {
    var full, positions, b := |Below(idxs, BlockSize(idxs))|, Below(idxs, BlockSize(idxs)), BlockSize(idxs);
    var rest := text[j..];
    assert |rest| >= full;
    assert InverseSlots(rest, idxs) == Scattered(rest[..full], positions, b) + InverseSlots(rest[full..], idxs);
    assert rest[..full] == text[j..j + full];
    assert rest[full..] == text[j + full..];
  }

  /** The same, for the slots from position j on. */
  lemma ChunkStepFrom(text: string, idxs: seq<nat>, j: nat)
    requires |idxs| > 0 && |Below(idxs, BlockSize(idxs))| > 0
    requires j + |Below(idxs, BlockSize(idxs))| <= |text|
    ensures SlotsFrom(text, idxs, j)
            == Scattered(text[j..j + |Below(idxs, BlockSize(idxs))|], Below(idxs, BlockSize(idxs)), BlockSize(idxs))
               + SlotsFrom(text, idxs, j + |Below(idxs, BlockSize(idxs))|)
  {
    ChunkStep(text, idxs, j);
  }

  /** An accumulator that, followed by the rest, makes the whole: moving one chunk of the rest onto it keeps that so. */
  lemma ChunkAppended<T>(acc: seq<T>, chunk: seq<T>, next: seq<T>, rest: seq<T>, after: seq<T>, whole: seq<T>)
    requires rest == chunk + after && next == acc + chunk && acc + rest == whole
    ensures next + after == whole
  {
    AppendAssoc(acc, chunk, after);
  }

  /** Once less than a full chunk is left, the remainder's slots, if any, complete the inverse. */
  lemma RemainderAppended(text: string, idxs: seq<nat>, i: nat, acc: seq<Option<char>>, pending: seq<Option<char>>, whole: seq<Option<char>>)
    requires |idxs| > 0 && i <= |text|
    requires !(|text| - i >= |Below(idxs, BlockSize(idxs))| && |Below(idxs, BlockSize(idxs))| > 0)
    requires pending == SlotsFrom(text, idxs, i) && acc + pending == whole && whole == InverseSlots(text, idxs)
    ensures (if |text| - i > 0 then acc + TailSlots(text[i..], idxs) else acc) == InverseSlots(text, idxs)
  {
    if |text| - i == 0 {
      assert text[i..] == [];
      AppendEmpty(acc);
    }
  }

  /** One pass of the full-chunk loop: the chunk at i scattered and its slots appended. */
  method ScatterChunk(text: string, idxs: seq<nat>, positions: seq<nat>, blockSize: nat, i: nat,
                      result: seq<Option<char>>, ghost pending: seq<Option<char>>, ghost whole: seq<Option<char>>)
    returns (next: seq<Option<char>>, ghost after: seq<Option<char>>, j: nat)
    requires |idxs| > 0 && blockSize == BlockSize(idxs) && positions == Below(idxs, blockSize)
    requires |positions| > 0 && i + |positions| <= |text|
    requires pending == SlotsFrom(text, idxs, i) && result + pending == whole
    ensures j == i + |positions| <= |text|
    ensures after == SlotsFrom(text, idxs, j) && next + after == whole
  {
    j := i + |positions|;
    var original := ScatterBlock(text[i..j], positions, blockSize);
    next := result + original;
    ChunkStepFrom(text, idxs, i);
    after := SlotsFrom(text, idxs, j);
    assert pending == Scattered(text[i..j], positions, blockSize) + after;
    ChunkAppended(result, original, next, pending, after, whole);
  }

  /** The body of `inverse_permute_text`, over the code's offsets. */
  method InverseBlocks(text: string, idxs: seq<nat>) returns (r: string)
    requires |idxs| > 0
    ensures r == Inverted(text, idxs)
  {
    var blockSize := BlockSize(idxs);
    var positions := Below(idxs, blockSize);
    var producedFull := |positions|;
    var result: seq<Option<char>> := [];
    var i := 0;
    var n := |text|;
    assert text[0..] == text;
    ghost var whole := InverseSlots(text, idxs);
    ghost var pending := SlotsFrom(text, idxs, 0);
    while n - i >= producedFull && producedFull > 0
      invariant i <= n
      invariant pending == SlotsFrom(text, idxs, i)
      invariant result + pending == whole
      decreases n - i
    {
      result, pending, i := ScatterChunk(text, idxs, positions, blockSize, i, result, pending, whole);
    }
    RemainderAppended(text, idxs, i, result, pending, whole);
    var remaining := n - i;
    if remaining > 0 {
      var original := InverseTail(text[i..], idxs);
      result := result + original;
    }
    r := Joined(result);
  }

  /** The remainder branch of `inverse_permute_text`: search the width, then scatter with it or with the fallback width. */
  method InverseTail(rest: string, idxs: seq<nat>) returns (original: seq<Option<char>>)
    requires |idxs| > 0 && |rest| > 0
    ensures original == TailSlots(rest, idxs)
  {
    var blockSize := BlockSize(idxs);
    var remaining := |rest|;
    var b := 1;
    while b <= blockSize && |Below(idxs, b)| != remaining
      invariant 1 <= b <= blockSize + 1
      invariant FirstFit(idxs, remaining, b) == FirstFit(idxs, remaining, 1)
      decreases blockSize + 1 - b
    {
      b := b + 1;
    }
    if b <= blockSize {
      original := ScatterBlock(rest, Below(idxs, b), b);
    } else {
      b := Min(blockSize, remaining);
      original := ScatterBlock(rest, Below(idxs, b), b);
    }
  }

  /** Fills a fresh slot array from one chunk, as the three scatter loops of `inverse_permute_text` do. */
  method ScatterBlock(block: string, positions: seq<nat>, b: nat) returns (original: seq<Option<char>>)
    requires forall k :: 0 <= k < |positions| ==> positions[k] < b
    ensures original == Scattered(block, positions, b)
  {
    var slots := new Option<char>[b](_ => None);
    assert positions[..0] == [];
    for pos := 0 to |positions|
      invariant slots[..] == Scattered(block, positions[..pos], b)
    {
      assert positions[..pos + 1][..pos] == positions[..pos];
      if pos < |block| {
        slots[positions[pos]] := Some(block[pos]);
      }
    }
    assert positions[..|positions|] == positions;
    original := slots[..];
  }

  // ---------------------------------------------------------------------------
  // The inverse undoes the permutation

  lemma {:induction false} JoinedAppend(a: seq<Option<char>>, b: seq<Option<char>>)
    ensures Joined(a + b) == Joined(a) + Joined(b)
  {
    if a != [] {
      assert (a + b)[1..] == a[1..] + b;
      JoinedAppend(a[1..], b);
      AppendAssoc(if a[0].Some? then [a[0].value] else [], Joined(a[1..]), Joined(b));
    } else {
      assert a + b == b;
    }
  }

  /** Slots that hold every character of `src` in place join back to `src`. */
  lemma {:induction false} JoinedFull(slots: seq<Option<char>>, src: string)
    requires |slots| == |src| && forall s :: 0 <= s < |src| ==> slots[s] == Some(src[s])
    ensures Joined(slots) == src
  {
    if src != [] {
      JoinedFull(slots[1..], src[1..]);
    }
  }

  /** Scattering characters read from `src` at the given positions puts each one back at its position. */
  lemma {:induction false} ScatterPlaces(block: string, positions: seq<nat>, b: nat, src: string)
    requires forall k :: 0 <= k < |positions| ==> positions[k] < b && positions[k] < |src|
    requires |positions| <= |block| && forall k :: 0 <= k < |positions| ==> block[k] == src[positions[k]]
    ensures forall s :: 0 <= s < b ==> Scattered(block, positions, b)[s] == if s in positions then Some(src[s]) else None
  {
    if positions != [] {
      var k := |positions| - 1;
      var init := positions[..k];
      ScatterPlaces(block, init, b, src);
      assert positions == init + [positions[k]];
    }
  }

  /** A block gathered through a code that covers all of its positions scatters and joins back to the block. */
  lemma GatherScatter(blk: string, idxs: seq<nat>)
    requires forall s :: 0 <= s < |blk| ==> s in idxs
    ensures Joined(Scattered(Gather(blk, idxs), Below(idxs, |blk|), |blk|)) == blk
  {
    var positions := Below(idxs, |blk|);
    BelowMembers(idxs, |blk|);
    ScatterPlaces(Gather(blk, idxs), positions, |blk|, blk);
    JoinedFull(Scattered(Gather(blk, idxs), positions, |blk|), blk);
  }

  /** The width search stops at L when L fits and every smaller width from `from` on yields fewer offsets. */
  lemma {:induction false} FirstFitFinds(idxs: seq<nat>, remaining: nat, from: nat, L: nat)
    requires |idxs| > 0 && from <= L <= BlockSize(idxs) && |Below(idxs, L)| == remaining
    requires forall c :: from <= c < L ==> |Below(idxs, c)| < remaining
    ensures FirstFit(idxs, remaining, from) == Some(L)
    decreases L - from
  {
    if from < L {
      FirstFitFinds(idxs, remaining, from + 1, L);
    }
  }

  /** For a covering code the offsets below a width grow strictly with the width. */
  lemma BelowStrict(idxs: seq<nat>, c: nat, d: nat)
    requires Covers(idxs) && c < d <= BlockSize(idxs)
    ensures |Below(idxs, c)| < |Below(idxs, d)|
  {
    assert c in idxs;
    var k :| 0 <= k < |idxs| && idxs[k] == c;
    BelowGrows(idxs, c, d);
  }

  lemma SplitAt<T>(s: seq<T>, k: nat)
    requires k <= |s|
    ensures s[..k] + s[k..] == s
  {
  }

  /** A full first block: its gathered characters form exactly one full chunk of the inverse. */
  lemma InverseFullBlock(text: string, idxs: seq<nat>)
    requires Covers(idxs) && |text| >= BlockSize(idxs)
    requires Inverted(Permuted(text[BlockSize(idxs)..], idxs), idxs) == text[BlockSize(idxs)..]
    ensures Inverted(Permuted(text, idxs), idxs) == text
  {
    var B := BlockSize(idxs);
    BelowAll(idxs, B);
    var full := |Below(idxs, B)|;
    var g := Gather(text[..B], idxs);
    var rest := Permuted(text[B..], idxs);
    var out := Permuted(text, idxs);
    assert out == g + rest;
    assert |g| == full;
    assert out[..full] == g;
    assert out[full..] == rest;
    assert InverseSlots(out, idxs) == Scattered(g, Below(idxs, B), B) + InverseSlots(rest, idxs);
    GatherScatter(text[..B], idxs);
    JoinedAppend(Scattered(g, Below(idxs, B), B), InverseSlots(rest, idxs));
    SplitAt(text, B);
  }

  /** A text shorter than one block: the remainder's width search finds the text's own length. */
  lemma InverseShortBlock(text: string, idxs: seq<nat>)
    requires Covers(idxs) && 0 < |text| < BlockSize(idxs)
    ensures Inverted(Permuted(text, idxs), idxs) == text
  {
    var B := BlockSize(idxs);
    var L := |text|;
    BelowAll(idxs, B);
    var g := Gather(text, idxs);
    assert text[..L] == text;
    assert text[L..] == [];
    AppendEmpty(g);
    assert Permuted(text, idxs) == g;
    assert B - 1 in idxs;
    BelowStrict(idxs, L, B);
    assert 0 in idxs;
    BelowStrict(idxs, 0, L);
    forall c | 1 <= c < L
      ensures |Below(idxs, c)| < |g|
    {
      BelowStrict(idxs, c, L);
    }
    FirstFitFinds(idxs, |g|, 1, L);
    assert InverseSlots(g, idxs) == Scattered(g, Below(idxs, L), L);
    GatherScatter(text, idxs);
  }

  /** `inverse_permute_text(permute_text(t, code), code) == t` for every covering code, short final block included. */
  lemma {:induction false} InverseUndoesPermute(text: string, idxs: seq<nat>)
    requires Covers(idxs)
    ensures Inverted(Permuted(text, idxs), idxs) == text
    decreases |text|
  {
    var B := BlockSize(idxs);
    if |text| >= B {
      InverseUndoesPermute(text[B..], idxs);
      InverseFullBlock(text, idxs);
    } else if text != [] {
      InverseShortBlock(text, idxs);
    }
  }

  /** The same for the text-level operations and any code that passes `validate_code`. */
  lemma InversePermuteRoundTrip(text: string, code: string)
    requires IsCode(code) && ValidateCode(code)
    ensures Inverted(Permuted(text, CodeIndices(code)), CodeIndices(code)) == text
  {
    ValidateCodeCovers(code);
    InverseUndoesPermute(text, CodeIndices(code));
  }

  // ---------------------------------------------------------------------------
  // Codes that use each digit once

  /** A code whose offsets are a permutation of 0..n-1 has block size n. */
  lemma PermutationBlockSize(idxs: seq<nat>)
    requires |idxs| > 0 && IsIndexPermutation(idxs, |idxs|)
    ensures BlockSize(idxs) == |idxs|
  {
    assert |idxs| - 1 in idxs;
  }

  /** Such a code gathers every block, the short final one included, into a rearrangement of it. */
  lemma GatherRearranges(blk: string, idxs: seq<nat>)
    requires IsIndexPermutation(idxs, |idxs|) && |blk| <= |idxs|
    ensures multiset(Gather(blk, idxs)) == multiset(blk)
  {
    var p := Below(idxs, |blk|);
    BelowDistinct(idxs, |blk|);
    BelowMembers(idxs, |blk|);
    DistinctCoverLength(p, |blk|);
    ReindexPermutes(blk, p);
  }

  /** If every digit 1..n occurs exactly once, `permute_text` rearranges its input. */
  lemma {:induction false} PermuteRearranges(text: string, idxs: seq<nat>)
    requires |idxs| > 0 && IsIndexPermutation(idxs, |idxs|)
    ensures multiset(Permuted(text, idxs)) == multiset(text) && |Permuted(text, idxs)| == |text|
    decreases |text|
  {
    if text != [] {
      PermutationBlockSize(idxs);
      var b := Min(BlockSize(idxs), |text|);
      PermuteRearranges(text[b..], idxs);
      GatherRearranges(text[..b], idxs);
      SplitAt(text, b);
      assert multiset(text) == multiset(text[..b]) + multiset(text[b..]) by {
        assert text == text[..b] + text[b..];
      }
    }
  }
}
