/**
  Python's `random.Random`, as far as the cipher's code uses it.

  The Mersenne Twister core is foreign to the model: a generator is given by the
  32-bit words the core outputs (`genrand_uint32`), in order, together with the
  number of words already consumed. Everything CPython's `random` module builds on
  top of those words is modelled exactly: `getrandbits(k)` for k <= 32 takes the top
  k bits of the next word, `_randbelow(n)` draws `n.bit_length()` bits and rejects
  values >= n, `randint(a, b)` is `a + _randbelow(b - a + 1)`, `choice(s)` is
  `s[_randbelow(len(s))]` and `shuffle` is Fisher-Yates from the last index down.

  A model generator holds finitely many words; words past the end read as 0, so
  every draw is total. Any actual run reads finitely many words, and those words,
  given as the list, make the model reproduce that run.
*/
module PyRandom {
  /** One output of the Mersenne Twister core. */
  type Word = w: int | 0 <= w < 0x1_0000_0000

  /** A generator: the words it will output and how many of them are consumed. */
  datatype Gen = Gen(words: seq<Word>, pos: nat)

  function Pow2(k: nat): (r: nat)
    ensures r >= 1
  {
    if k == 0 then 1 else 2 * Pow2(k - 1)
  }

  lemma {:induction false} Pow2Add(a: nat, b: nat)
    ensures Pow2(a + b) == Pow2(a) * Pow2(b)
  {
    if a > 0 {
      Pow2Add(a - 1, b);
      assert Pow2(a + b) == 2 * Pow2(a - 1 + b);
    }
  }

  lemma {:induction false} Pow2Monotone(a: nat, b: nat)
    requires a <= b
    ensures Pow2(a) <= Pow2(b)
  {
    if a < b {
      Pow2Monotone(a, b - 1);
    }
  }

  /** `n.bit_length()`: the number of binary digits of n. */
  function BitLength(n: nat): (k: nat)
    ensures n < Pow2(k)
    ensures n > 0 ==> k > 0 && Pow2(k - 1) <= n
  {
    if n == 0 then 0 else 1 + BitLength(n / 2)
  }

  /** The powers of two the word arithmetic needs, as literals. */
  lemma Pow2Values()
    ensures Pow2(32) == 0x1_0000_0000
    ensures Pow2(25) == 0x200_0000 && Pow2(29) == 0x2000_0000
  {
    assert Pow2(2) == 4;
    assert Pow2(4) == 16 by { Pow2Add(2, 2); }
    assert Pow2(8) == 0x100 by { Pow2Add(4, 4); }
    assert Pow2(16) == 0x1_0000 by { Pow2Add(8, 8); }
    assert Pow2(32) == 0x1_0000_0000 by { Pow2Add(16, 16); }
    assert Pow2(24) == 0x100_0000 by { Pow2Add(16, 8); }
    assert Pow2(25) == 0x200_0000 by { Pow2Add(24, 1); }
    assert Pow2(28) == 0x1000_0000 by { Pow2Add(24, 4); }
    assert Pow2(29) == 0x2000_0000 by { Pow2Add(28, 1); }
  }

  /** A number below 2^32 has at most 32 binary digits. */
  lemma BitLengthAtMost32(n: nat)
    requires 0 < n < 0x1_0000_0000
    ensures 0 < BitLength(n) <= 32
  {
    var k := BitLength(n);
    Pow2Values();
    if k > 32 {
      Pow2Monotone(32, k - 1);
    }
  }

  function NextWord(g: Gen): Word
  {
    if g.pos < |g.words| then g.words[g.pos] else 0
  }

  function Advance(g: Gen): Gen
  {
    g.(pos := g.pos + 1)
  }

  /** `getrandbits(k)` for 0 < k <= 32: the top k bits of the next word. */
  function GetRandBits(g: Gen, k: nat): (r: (nat, Gen))
    requires 0 < k <= 32
    ensures r.0 < Pow2(k)
    ensures r.1 == Advance(g)
  {
    (TopBits(NextWord(g), k), Advance(g))
  }

  /** `w >> (32 - k)`. */
  function TopBits(w: Word, k: nat): (r: nat)
    requires 0 < k <= 32
    ensures r < Pow2(k)
  {
    WordBound(w, k);
    ShiftRight(w, 32 - k)
  }

  lemma WordBound(w: Word, k: nat)
    requires 0 < k <= 32
    ensures ShiftRight(w, 32 - k) < Pow2(k)
  {
    Pow2Values();
    ShiftBound(w, k, 32 - k);
  }

  /** `x >> s`. */
  function ShiftRight(x: nat, s: nat): nat
  {
    if s == 0 then x else ShiftRight(x / 2, s - 1)
  }

  lemma {:induction false} ShiftBound(x: nat, n: nat, s: nat)
    requires x < Pow2(n + s)
    ensures ShiftRight(x, s) < Pow2(n)
  {
    if s > 0 {
      ShiftBound(x / 2, n, s - 1);
    }
  }

  /** Shifting 2^m right by s <= m bits gives 2^(m - s). */
  lemma {:induction false} ShiftRightPow2(m: nat, s: nat)
    requires s <= m
    ensures ShiftRight(Pow2(m), s) == Pow2(m - s)
  {
    if s > 0 {
      assert Pow2(m) / 2 == Pow2(m - 1);
      ShiftRightPow2(m - 1, s - 1);
    }
  }

  lemma {:induction false} ShiftRightZero(s: nat)
    ensures ShiftRight(0, s) == 0
  {
    if s > 0 {
      ShiftRightZero(s - 1);
    }
  }

  /** Past the end of the given words every draw is 0. */
  lemma ZeroWordBits(g: Gen, k: nat)
    requires 0 < k <= 32 && g.pos >= |g.words|
    ensures GetRandBits(g, k).0 == 0
  {
    ShiftRightZero(32 - k);
  }

  function Measure(g: Gen): nat
  {
    if g.pos < |g.words| then |g.words| - g.pos else 0
  }

  /** `_randbelow(n)`: draws of `n.bit_length()` bits until one is below n. */
  function RandBelow(g: Gen, n: nat): (r: (nat, Gen))
    requires 0 < n < 0x1_0000_0000
    ensures r.0 < n
    ensures r.1.words == g.words && r.1.pos > g.pos
    decreases Measure(g)
  {
    BitLengthAtMost32(n);
    var bits := GetRandBits(g, BitLength(n));
    if bits.0 < n then bits
    else
      assert g.pos < |g.words| by {
        if g.pos >= |g.words| { ZeroWordBits(g, BitLength(n)); }
      }
      RandBelow(bits.1, n)
  }

  /** `randint(a, b)`: a value in [a, b]. */
  function RandInt(g: Gen, a: int, b: int): (r: (int, Gen))
    requires a <= b && b - a + 1 < 0x1_0000_0000
    ensures a <= r.0 <= b
    ensures r.1.words == g.words && r.1.pos > g.pos
  {
    var (v, next) := RandBelow(g, b - a + 1);
    (a + v, next)
  }

  /** `choice(s)`: an element of the non-empty sequence s. */
  function Choice<T>(g: Gen, s: seq<T>): (r: (T, Gen))
    requires 0 < |s| < 0x1_0000_0000
    ensures r.0 in s
    ensures r.1.words == g.words && r.1.pos > g.pos
  {
    var (i, next) := RandBelow(g, |s|);
    (s[i], next)
  }

  function Swap<T>(s: seq<T>, i: nat, j: nat): (r: seq<T>)
    requires i < |s| && j < |s|
    ensures |r| == |s|
  {
    s[i := s[j]][j := s[i]]
  }

  lemma SwapPermutes<T>(s: seq<T>, i: nat, j: nat)
    requires i < |s| && j < |s|
    ensures multiset(Swap(s, i, j)) == multiset(s)
  {
  }

  /** Fisher-Yates from index i down to 1, as `shuffle` runs it. */
  function ShuffleFrom<T>(s: seq<T>, i: nat, g: Gen): (r: (seq<T>, Gen))
    requires i < |s| < 0x1_0000_0000
    decreases i
  {
    if i == 0 then (s, g)
    else
      var d := RandBelow(g, i + 1);
      ShuffleFrom(Swap(s, i, d.0), i - 1, d.1)
  }

  /** `shuffle(x)`: the shuffled list and the generator after it. */
  function Shuffled<T>(s: seq<T>, g: Gen): (r: (seq<T>, Gen))
    requires |s| < 0x1_0000_0000
  {
    if |s| == 0 then (s, g) else ShuffleFrom(s, |s| - 1, g)
  }

  lemma {:induction false} ShuffleFromPermutes<T>(s: seq<T>, i: nat, g: Gen)
    requires i < |s| < 0x1_0000_0000
    ensures multiset(ShuffleFrom(s, i, g).0) == multiset(s)
    ensures |ShuffleFrom(s, i, g).0| == |s|
    decreases i
  {
    if i > 0 {
      var d := RandBelow(g, i + 1);
      SwapPermutes(s, i, d.0);
      ShuffleFromPermutes(Swap(s, i, d.0), i - 1, d.1);
    }
  }

  /** Whatever words the generator holds, `shuffle` only rearranges the list. */
  lemma ShuffledPermutes<T>(s: seq<T>, g: Gen)
    requires |s| < 0x1_0000_0000
    ensures multiset(Shuffled(s, g).0) == multiset(s)
    ensures |Shuffled(s, g).0| == |s|
  {
    if |s| > 0 {
      ShuffleFromPermutes(s, |s| - 1, g);
    }
  }

  /** `rng.shuffle(x)` on a list, in place. */
  method Shuffle(a: array<char>, g: Gen) returns (next: Gen)
    requires a.Length < 0x1_0000_0000
    modifies a
    ensures a[..] == Shuffled(old(a[..]), g).0
    ensures next == Shuffled(old(a[..]), g).1
  {
    next := g;
    if a.Length == 0 {
      return;
    }
    ghost var target := ShuffleFrom(a[..], a.Length - 1, g);
    var i := a.Length - 1;
    while i > 0
      invariant 0 <= i < a.Length
      invariant ShuffleFrom(a[..], i, next) == target
    {
      next, i := SwapWithDraw(a, i, next, target);
    }
  }

  /**
   * One Fisher-Yates step: `j = randbelow(i + 1); x[i], x[j] = x[j], x[i]`.  What is
   * left of the shuffle from the new array, one position down, is what was left
   * before the swap.
   */
  method SwapWithDraw(a: array<char>, i: nat, g: Gen, ghost target: (seq<char>, Gen)) returns (next: Gen, k: nat)
    requires 0 < i < a.Length < 0x1_0000_0000
    requires ShuffleFrom(a[..], i, g) == target
    modifies a
    ensures k == i - 1
    ensures ShuffleFrom(a[..], k, next) == target
  {
    var d := RandBelow(g, i + 1);
    var j := d.0;
    a[i], a[j] := a[j], a[i];
    assert a[..] == Swap(old(a[..]), i, j);
    next := d.1;
    k := i - 1;
  }
}
