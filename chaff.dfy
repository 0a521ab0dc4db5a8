/**
 * The chaff layer of src/cli.py.  Before each ciphertext character, insertion draws
 * a count in [0, 3] with `randint(0, 3)` and then that many fake symbols with
 * `choice(ALPHABET)`; removal replays the generator from the same seed.  The seed
 * (SHA-256 of key, code and nonce) is outside the model: both operations take the
 * seeded generator.  Removal as written draws only the counts, not the fake symbols,
 * so it reads a different stream than insertion did; the corrected removal below
 * replays the symbol draws too.
 */
module Chaff {
  import opened PyRandom
  import opened SeqPerm
  import MixedVigenere

  /** `randint(0, 3)`: the number of fake symbols before the next character. */
  function FakeCount(g: Gen): (r: (nat, Gen))
    ensures r.0 <= 3 && r.1.words == g.words
  {
    var (v, next) := RandInt(g, 0, 3);
    (v, next)
  }

  /** `choice(ALPHABET)`: one fake symbol. */
  function FakeSymbol(g: Gen): (r: (char, Gen))
    ensures MixedVigenere.IsCharsetSymbol(r.0) && r.1.words == g.words
  {
    MixedVigenere.CharsetMembers();
    Choice(g, MixedVigenere.Charset)
  }

  /**
   * The two kinds of draw the chaff layer makes.  The layer's structure is stated over
   * any pair of draws; `CliDraws` is the pair src/cli.py uses.
   */
  datatype Draws = Draws(count: Gen -> (nat, Gen), symbol: Gen -> (char, Gen))

  const CliDraws: Draws := Draws(FakeCount, FakeSymbol)

  /** The k fake symbols `[rng.choice(ALPHABET) for _ in range(k)]`, in draw order. */
  function Fakes(g: Gen, k: nat, d: Draws): (r: (string, Gen))
    ensures |r.0| == k
  {
    if k == 0 then ([], g)
    else
      var (prev, g1) := Fakes(g, k - 1, d);
      var (c, g2) := d.symbol(g1);
      (prev + [c], g2)
  }

  lemma {:induction false} FakesAreSymbols(g: Gen, k: nat)
    ensures forall i :: 0 <= i < k ==> MixedVigenere.IsCharsetSymbol(Fakes(g, k, CliDraws).0[i])
  {
    if k > 0 {
      FakesAreSymbols(g, k - 1);
      var g1 := Fakes(g, k - 1, CliDraws).1;
      assert MixedVigenere.IsCharsetSymbol(FakeSymbol(g1).0);
    }
  }

  // ---------------------------------------------------------------------------
  // Insertion

  /** `apply_dynamic_chaff`: each character preceded by its fake symbols; also the generator afterwards. */
  function Chaffed(c: string, g: Gen, d: Draws): (r: (string, Gen))
    decreases |c|
  {
    if c == [] then ([], g)
    else
      var (count, g1) := d.count(g);
      var (fakes, g2) := Fakes(g1, count, d);
      var (rest, g3) := Chaffed(c[1..], g2, d);
      (fakes + [c[0]] + rest, g3)
  }

  /** Each fake count lies in [0, 3], so the output is between one and four times as long. */
  lemma {:induction false} ChaffedLength(c: string, g: Gen)
    ensures |c| <= |Chaffed(c, g, CliDraws).0| <= 4 * |c|
    decreases |c|
  {
    if c != [] {
      var (count, g1) := FakeCount(g);
      var (fakes, g2) := Fakes(g1, count, CliDraws);
      ChaffedLength(c[1..], g2);
    }
  }

  /** Every output symbol is a ciphertext character or a symbol of the alphabet. */
  lemma {:induction false} ChaffedSymbols(c: string, g: Gen)
    ensures forall x :: x in Chaffed(c, g, CliDraws).0 ==> x in c || MixedVigenere.IsCharsetSymbol(x)
    decreases |c|
  {
    if c != [] {
      var (count, g1) := FakeCount(g);
      var (fakes, g2) := Fakes(g1, count, CliDraws);
      ChaffedSymbols(c[1..], g2);
      FakesAreSymbols(g1, count);
      var rest := Chaffed(c[1..], g2, CliDraws).0;
      forall x | x in Chaffed(c, g, CliDraws).0
        ensures x in c || MixedVigenere.IsCharsetSymbol(x)
      {
        assert Chaffed(c, g, CliDraws).0 == fakes + [c[0]] + rest;
        if x in rest {
          if x in c[1..] {
            var i :| 0 <= i < |c[1..]| && c[1..][i] == x;
            assert c[i + 1] == x;
          }
        } else if x in fakes {
          var i :| 0 <= i < |fakes| && fakes[i] == x;
        }
      }
    }
  }

  /** The output for the characters from position k on, appended to `acc`, the way the loop builds it. */
  function ChaffedOnto(c: string, k: nat, g: Gen, d: Draws, acc: string): (r: string)
    decreases |c| - k
  {
    if k >= |c| then acc
    else
      var (count, g1) := d.count(g);
      var (fakes, g2) := Fakes(g1, count, d);
      ChaffedOnto(c, k + 1, g2, d, acc + fakes + [c[k]])
  }

  lemma {:induction false} ChaffedOntoIsChaffed(c: string, k: nat, g: Gen, d: Draws, acc: string)
    requires k <= |c|
    ensures ChaffedOnto(c, k, g, d, acc) == acc + Chaffed(c[k..], g, d).0
    decreases |c| - k
  {
    if k < |c| {
      var (count, g1) := d.count(g);
      var (fakes, g2) := Fakes(g1, count, d);
      var rest := Chaffed(c[k + 1..], g2, d).0;
      assert c[k..][1..] == c[k + 1..];
      calc {
        ChaffedOnto(c, k, g, d, acc);
        ChaffedOnto(c, k + 1, g2, d, acc + fakes + [c[k]]);
        { ChaffedOntoIsChaffed(c, k + 1, g2, d, acc + fakes + [c[k]]); }
        (acc + fakes + [c[k]]) + rest;
        { AppendAssoc(acc, fakes + [c[k]], rest); }
        acc + (fakes + [c[k]] + rest);
        acc + Chaffed(c[k..], g, d).0;
      }
    } else {
      assert c[k..] == [];
      assert acc + [] == acc;
    }
  }

  /** `apply_dynamic_chaff`, given the generator seeded from the key, code and nonce. */
  method ApplyChaff(ciphertext: string, rng: Gen) returns (out: string)
    ensures out == Chaffed(ciphertext, rng, CliDraws).0
  {
    var g := rng;
    var result: string := [];
    for k := 0 to |ciphertext|
      invariant ChaffedOnto(ciphertext, k, g, CliDraws, result) == ChaffedOnto(ciphertext, 0, rng, CliDraws, [])
    {
      var fakeCount: nat;
      fakeCount, g := RandIntStep(g);
      var fakes;
      fakes, g := DrawFakes(g, fakeCount);
      result := result + fakes + [ciphertext[k]];
    }
    out := result;
    ChaffedOntoIsChaffed(ciphertext, 0, rng, CliDraws, []);
    assert ciphertext[0..] == ciphertext;
    assert [] + Chaffed(ciphertext, rng, CliDraws).0 == Chaffed(ciphertext, rng, CliDraws).0;
  }

  /** `fake_count = rng.randint(0, 3)` */
  method RandIntStep(g: Gen) returns (count: nat, next: Gen)
    ensures (count, next) == CliDraws.count(g) && count <= 3
  {
    count, next := FakeCount(g).0, FakeCount(g).1;
  }

  /** The inner loop of `apply_dynamic_chaff`: k symbols drawn with `rng.choice(ALPHABET)`. */
  method DrawFakes(g: Gen, k: nat) returns (fakes: string, next: Gen)
    ensures (fakes, next) == Fakes(g, k, CliDraws)
  {
    fakes, next := [], g;
    for j := 0 to k
      invariant (fakes, next) == Fakes(g, j, CliDraws)
    {
      var c;
      c, next := Choice(next, MixedVigenere.Charset).0, Choice(next, MixedVigenere.Charset).1;
      fakes := fakes + [c];
    }
  }

  // ---------------------------------------------------------------------------
  // Removal

  /** The count drawn and the generator after the count and that many symbol draws. */
  function Replayed(g: Gen, d: Draws): (r: (nat, Gen))
    ensures r.0 == d.count(g).0 && r.1 == Fakes(d.count(g).1, d.count(g).0, d).1
  {
    var (count, g1) := d.count(g);
    (count, Fakes(g1, count, d).1)
  }

  /**
   * The draws one removal step makes: as written (`replay` false) only the count;
   * replaying (`replay` true) also one symbol draw per skipped symbol, as insertion did.
   */
  function RemovalDraws(g: Gen, d: Draws, replay: bool): (r: (nat, Gen))
    ensures r.0 == d.count(g).0
  {
    if replay then Replayed(g, d) else d.count(g)
  }

  /** Removal on the text from position i on: skip the drawn number of symbols, keep the next one. */
  function Removed(t: string, i: nat, g: Gen, d: Draws, replay: bool): (r: string)
    decreases |t| - i
  {
    if i >= |t| then []
    else
      var (count, g1) := RemovalDraws(g, d, replay);
      var j := Min(i + count, |t|);
      if j >= |t| then [] else [t[j]] + Removed(t, j + 1, g1, d, replay)
  }

  /** An order-preserving selection of elements. */
  predicate IsSubsequence(a: string, b: string)
    decreases |b|
  {
    if a == [] then true
    else if b == [] then false
    else if a[0] == b[0] then IsSubsequence(a[1..], b[1..])
    else IsSubsequence(a, b[1..])
  }

  /** A subsequence of b without its first element is a subsequence of b. */
  lemma {:induction false} SubsequenceCons(a: string, b: string)
    requires b != [] && IsSubsequence(a, b[1..])
    ensures IsSubsequence(a, b)
    decreases |b|, 0
  {
    if a != [] && a[0] == b[0] {
      SubsequenceDrop(a, b[1..]);
    }
  }

  /** Dropping the first element of a subsequence leaves a subsequence. */
  lemma {:induction false} SubsequenceDrop(a: string, b: string)
    requires a != [] && IsSubsequence(a, b)
    ensures IsSubsequence(a[1..], b)
    decreases |b|, 1
  {
    assert b != [];
    if a[0] != b[0] {
      SubsequenceDrop(a, b[1..]);
    }
    if a[1..] != [] {
      SubsequenceCons(a[1..], b);
    }
  }

  lemma {:induction false} SubsequenceOfTail(a: string, b: string, k: nat)
    requires k <= |b| && IsSubsequence(a, b[k..])
    ensures IsSubsequence(a, b)
    decreases k
  {
    if k > 0 {
      assert b[k - 1..][1..] == b[k..];
      SubsequenceCons(a, b[k - 1..]);
      SubsequenceOfTail(a, b, k - 1);
    }
  }

  /** Removal keeps some of its input's symbols, in order, and never more of them. */
  lemma {:induction false} RemovedSubsequence(t: string, i: nat, g: Gen, d: Draws, replay: bool)
    requires i <= |t|
    ensures IsSubsequence(Removed(t, i, g, d, replay), t[i..]) && |Removed(t, i, g, d, replay)| <= |t| - i
    decreases |t| - i
  {
    if i < |t| {
      var (count, g1) := RemovalDraws(g, d, replay);
      var j := Min(i + count, |t|);
      if j < |t| {
        RemovedSubsequence(t, j + 1, g1, d, replay);
        var rest := Removed(t, j + 1, g1, d, replay);
        assert t[j..][1..] == t[j + 1..];
        assert IsSubsequence([t[j]] + rest, t[j..]) by {
          assert ([t[j]] + rest)[1..] == rest;
        }
        assert t[i..][j - i..] == t[j..];
        SubsequenceOfTail([t[j]] + rest, t[i..], j - i);
      }
    }
  }

  lemma AfterPrefix(t: string, i: nat, fakes: string, x: char, rest: string)
    requires i <= |t| && t[i..] == fakes + [x] + rest
    ensures i + |fakes| < |t| && t[i + |fakes|] == x && t[i + |fakes| + 1..] == rest
  {
    assert t[i + |fakes|] == t[i..][|fakes|];
    assert t[i + |fakes| + 1..] == t[i..][|fakes| + 1..];
  }

  /** Removal with the replayed draws returns exactly the ciphertext that insertion was given. */
  lemma {:induction false} ReplayUndoesChaff(t: string, i: nat, c: string, g: Gen, d: Draws)
    requires i <= |t| && t[i..] == Chaffed(c, g, d).0
    ensures Removed(t, i, g, d, true) == c
    decreases |c|
  {
    if c != [] {
      var (count, g1) := d.count(g);
      var (fakes, next) := Fakes(g1, count, d);
      AfterPrefix(t, i, fakes, c[0], Chaffed(c[1..], next, d).0);
      ReplayUndoesChaff(t, i + count + 1, c[1..], next, d);
      assert c == [c[0]] + c[1..];
    } else {
      assert |t[i..]| == 0;
    }
  }

  /** The round trip: removal that replays the draws, given the generator insertion was given, restores the ciphertext. */
  lemma ChaffRoundTrip(c: string, g: Gen)
    ensures Removed(Chaffed(c, g, CliDraws).0, 0, g, CliDraws, true) == c
  {
    var t := Chaffed(c, g, CliDraws).0;
    assert t[0..] == t;
    ReplayUndoesChaff(t, 0, c, g, CliDraws);
  }

  /** The kept symbols from position i on appended to `acc`, the way the removal loop builds them. */
  function RemovedOnto(t: string, i: nat, g: Gen, d: Draws, replay: bool, acc: string): (r: string)
    decreases |t| - i
  {
    if i >= |t| then acc
    else
      var (count, g1) := RemovalDraws(g, d, replay);
      var j := Min(i + count, |t|);
      if j >= |t| then acc else RemovedOnto(t, j + 1, g1, d, replay, acc + [t[j]])
  }

  lemma {:induction false} RemovedOntoIsRemoved(t: string, i: nat, g: Gen, d: Draws, replay: bool, acc: string)
    ensures RemovedOnto(t, i, g, d, replay, acc) == acc + Removed(t, i, g, d, replay)
    decreases |t| - i
  {
    if i < |t| {
      var (count, g1) := RemovalDraws(g, d, replay);
      var j := Min(i + count, |t|);
      if j < |t| {
        var rest := Removed(t, j + 1, g1, d, replay);
        calc {
          RemovedOnto(t, i, g, d, replay, acc);
          RemovedOnto(t, j + 1, g1, d, replay, acc + [t[j]]);
          { RemovedOntoIsRemoved(t, j + 1, g1, d, replay, acc + [t[j]]); }
          (acc + [t[j]]) + rest;
          { AppendAssoc(acc, [t[j]], rest); }
          acc + ([t[j]] + rest);
          acc + Removed(t, i, g, d, replay);
        }
      } else {
        assert acc + [] == acc;
      }
    } else {
      assert acc + [] == acc;
    }
  }

  /** `remove_dynamic_chaff` as written, given the generator seeded from the key, code and nonce. */
  method RemoveChaff(fakeText: string, rng: Gen) returns (out: string)
    ensures out == Removed(fakeText, 0, rng, CliDraws, false)
  {
    out := RemoveLoop(fakeText, rng, false);
  }

  /** Removal corrected to draw, for every skipped fake symbol, the `choice(ALPHABET)` that insertion drew. */
  method RemoveChaffReplaying(fakeText: string, rng: Gen) returns (out: string)
    ensures out == Removed(fakeText, 0, rng, CliDraws, true)
  {
    out := RemoveLoop(fakeText, rng, true);
  }

  /** The loop of `remove_dynamic_chaff`; with `replay` it also makes the `choice` draws of the skipped symbols. */
  method RemoveLoop(fakeText: string, rng: Gen, replay: bool) returns (out: string)
    ensures out == Removed(fakeText, 0, rng, CliDraws, replay)
  {
    var g := rng;
    var result: string := [];
    var i := 0;
    var n := |fakeText|;
    while i < n
      invariant i <= n
      invariant RemovedOnto(fakeText, i, g, CliDraws, replay, result) == RemovedOnto(fakeText, 0, rng, CliDraws, replay, [])
      decreases n - i
    {
      var fakeCount: nat;
      ghost var before := g;
      fakeCount, g := RandIntStep(g);
      i := SkipFakes(i, n, fakeCount);
      if replay {
        var skipped;
        skipped, g := DrawFakes(g, fakeCount);
      }
      assert (fakeCount, g) == RemovalDraws(before, CliDraws, replay);
      if i >= n {
        break;
      }
      result := result + [fakeText[i]];
      i := i + 1;
    }
    out := result;
    RemovedOntoIsRemoved(fakeText, 0, rng, CliDraws, replay, []);
    assert [] + Removed(fakeText, 0, rng, CliDraws, replay) == Removed(fakeText, 0, rng, CliDraws, replay);
  }

  /** `for _ in range(fake_count): if i >= n: break; i += 1` */
  method SkipFakes(i: nat, n: nat, count: nat) returns (j: nat)
    requires i <= n
    ensures j == Min(i + count, n)
  {
    j := i;
    for s := 0 to count
      invariant j == Min(i + s, n)
    {
      if j >= n {
        break;
      }
      j := j + 1;
    }
  }

  // ---------------------------------------------------------------------------
  // The discrepancy, on concrete words

  /**
   * With draws that give count 1, symbol 'G' and count 0 in that order, insertion turns
   * "xy" into "Gxy".  Removal as written reads the symbol draw as a count; when that
   * count is 2 it skips the 'y'.  Replaying the symbol draw keeps both characters.
   */
  lemma StreamMisread(d: Draws, g0: Gen, g1: Gen, g2: Gen, g3: Gen)
    requires d.count(g0) == (1, g1) && d.symbol(g1) == ('G', g2)
    requires d.count(g1) == (2, g2) && d.count(g2) == (0, g3)
    ensures Chaffed("xy", g0, d).0 == "Gxy"
    ensures Removed("Gxy", 0, g0, d, false) == "x"
    ensures Removed("Gxy", 0, g0, d, true) == "xy"
  {
    assert Fakes(g1, 1, d) == ("G", g2) by {
      assert Fakes(g1, 0, d) == ([], g1);
      assert [] + ['G'] == "G";
    }
    assert Fakes(g3, 0, d) == ([], g3);
    assert Chaffed("y", g2, d).0 == "y";
    assert Removed("Gxy", 2, g1, d, false) == [];
    assert Removed("Gxy", 2, g2, d, true) == "y";
  }

  /** The draw widths: `randint(0, 3)` takes 3 bits, `choice` over the 95 symbols 7 bits. */
  lemma DrawWidths()
    ensures BitLength(4) == 3 && BitLength(95) == 7
    ensures |MixedVigenere.Charset| == 95 && MixedVigenere.Charset[32] == 'G'
  {
    assert BitLength(1) == 1;
    assert BitLength(2) == 2;
    assert BitLength(5) == 3;
    assert BitLength(11) == 4;
    assert BitLength(23) == 5;
    assert BitLength(47) == 6;
  }

  /** The first word, 2^29, read as a count: 2^29 >> 29 = 1. */
  lemma FirstCount()
    ensures FakeCount(Gen([0x2000_0000, 0x4000_0000, 0], 0)) == (1, Gen([0x2000_0000, 0x4000_0000, 0], 1))
  {
    DrawWidths();
    Pow2Values();
    ShiftRightPow2(29, 29);
  }

  /** The second word, 2^30, read as a symbol index: 2^30 >> 25 = 32. */
  lemma SecondAsIndex()
    ensures RandBelow(Gen([0x2000_0000, 0x4000_0000, 0], 1), 95) == (32, Gen([0x2000_0000, 0x4000_0000, 0], 2))
  {
    DrawWidths();
    Pow2Values();
    assert Pow2(30) == 0x4000_0000;
    ShiftRightPow2(30, 25);
    assert Pow2(5) == 32;
  }

  /** Index 32 of the alphabet is 'G'. */
  lemma SecondAsSymbol()
    ensures FakeSymbol(Gen([0x2000_0000, 0x4000_0000, 0], 1)) == ('G', Gen([0x2000_0000, 0x4000_0000, 0], 2))
  {
    DrawWidths();
    SecondAsIndex();
  }

  /** The second word read as a count: 2^30 >> 29 = 2. */
  lemma SecondAsCount()
    ensures FakeCount(Gen([0x2000_0000, 0x4000_0000, 0], 1)) == (2, Gen([0x2000_0000, 0x4000_0000, 0], 2))
  {
    DrawWidths();
    Pow2Values();
    assert Pow2(30) == 0x4000_0000;
    ShiftRightPow2(30, 29);
  }

  /** The third word, 0, read as a count. */
  lemma ThirdCount()
    ensures FakeCount(Gen([0x2000_0000, 0x4000_0000, 0], 2)) == (0, Gen([0x2000_0000, 0x4000_0000, 0], 3))
  {
    DrawWidths();
    ShiftRightZero(29);
  }

  /**
   * Generator words 2^29, 2^30, 0: insertion into "xy" draws count 1, the fake symbol
   * 'G' and count 0, giving "Gxy".  Removal as written reads the second word as the
   * count 2 and loses the 'y'; the replaying removal restores "xy".
   */
  lemma RemovalAsWrittenLosesText()
    ensures Chaffed("xy", Gen([0x2000_0000, 0x4000_0000, 0], 0), CliDraws).0 == "Gxy"
    ensures Removed("Gxy", 0, Gen([0x2000_0000, 0x4000_0000, 0], 0), CliDraws, false) == "x"
    ensures Removed("Gxy", 0, Gen([0x2000_0000, 0x4000_0000, 0], 0), CliDraws, true) == "xy"
  {
    var w := [0x2000_0000, 0x4000_0000, 0];
    FirstCount();
    SecondAsSymbol();
    SecondAsCount();
    ThirdCount();
    StreamMisread(CliDraws, Gen(w, 0), Gen(w, 1), Gen(w, 2), Gen(w, 3));
  }
}
