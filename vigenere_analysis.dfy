/**
 * `VigenereAnalysis.find_key_length` of src/vigenere_analysis.py: the Kasiski
 * estimate of a Vigenère key length.  The text is upper-cased and stripped of
 * spaces and newlines; every repeat of a 3-gram and then of a 4-gram records the
 * distance between the two occurrences; the candidate lengths are the divisors
 * from 2 up to `max_length` of the gcd of all recorded distances.
 */
module VigenereAnalysis {
  import opened PyStr
  import Arith

  // ---------------------------------------------------------------------------
  // Cleaning the input

  /** `s.replace(c, "")` */
  function Strip(s: string, c: char): (r: string)
    ensures |r| <= |s|
    ensures forall x :: x in r <==> x in s && x != c
  {
    if s == [] then []
    else
      var rest := Strip(s[1..], c);
      assert forall x :: x in s <==> x == s[0] || x in s[1..];
      (if s[0] == c then [] else [s[0]]) + rest
  }

  /** `ciphertext.upper().replace(" ", "").replace("\n", "")` */
  function Cleaned(ciphertext: string): (r: string)
  {
    Strip(Strip(UpperString(ciphertext), ' '), '\n')
  }

  /** Upper-casing neither creates nor removes the character c when c is not a lowercase letter. */
  lemma {:induction false} StripUpper(s: string, c: char)
    requires !IsLower(c) && !IsUpper(c)
    ensures Strip(UpperString(s), c) == UpperString(Strip(s, c))
  {
    if s != [] {
      StripUpper(s[1..], c);
      assert UpperString(s)[1..] == UpperString(s[1..]);
      var head := if s[0] == c then [] else [s[0]];
      assert UpperString(head + Strip(s[1..], c)) == UpperString(head) + UpperString(Strip(s[1..], c));
    }
  }

  /**
   * The searched text is the input with its spaces and newlines taken out, in
   * order, and upper-cased: it holds no space, no newline and no lowercase letter.
   */
  lemma CleanedMeaning(ciphertext: string)
    ensures Cleaned(ciphertext) == UpperString(Strip(Strip(ciphertext, ' '), '\n'))
    ensures ' ' !in Cleaned(ciphertext) && '\n' !in Cleaned(ciphertext)
    ensures forall i :: 0 <= i < |Cleaned(ciphertext)| ==> !IsLower(Cleaned(ciphertext)[i])
  {
    StripUpper(ciphertext, ' ');
    StripUpper(Strip(ciphertext, ' '), '\n');
  }

  // ---------------------------------------------------------------------------
  // Distances between repeated sequences

  /** The seqLen characters from i repeat d positions further on. */
  predicate Repeat(t: string, seqLen: nat, i: nat, d: nat)
  {
    seqLen <= d && i + d + seqLen <= |t| && t[i + d..i + d + seqLen] == t[i..i + seqLen]
  }

  /** The distances to the occurrences of `t[i:i+seqLen]` that start from i + seqLen up to j - 1, in order. */
  function MatchesBelow(t: string, seqLen: nat, i: nat, j: nat): (r: seq<nat>)
    requires i + seqLen <= j && i + seqLen <= |t|
    decreases j
  {
    if j == i + seqLen then []
    else
      MatchesBelow(t, seqLen, i, j - 1)
      + (if j - 1 + seqLen <= |t| && t[j - 1..j - 1 + seqLen] == t[i..i + seqLen] then [j - 1 - i] else [])
  }

  /** Where the inner loop stops: `len(ciphertext) - seq_len + 1`, or at once when that is below its start. */
  function InnerEnd(t: string, seqLen: nat, i: nat): (j: nat)
    ensures j >= i + seqLen
  {
    if |t| + 1 >= i + 2 * seqLen then |t| - seqLen + 1 else i + seqLen
  }

  /** Where the outer loop stops: `len(ciphertext) - seq_len`, or at once when that is negative. */
  function OuterEnd(t: string, seqLen: nat): (k: nat)
    ensures k + seqLen <= |t| || k == 0
  {
    if |t| >= seqLen then |t| - seqLen else 0
  }

  /** The distances recorded for the starts below k, in the order the loops record them. */
  function StartsBelow(t: string, seqLen: nat, k: nat): (r: seq<nat>)
    requires k == 0 || k + seqLen <= |t|
  {
    if k == 0 then []
    else StartsBelow(t, seqLen, k - 1) + MatchesBelow(t, seqLen, k - 1, InnerEnd(t, seqLen, k - 1))
  }

  /** The distances recorded for one sequence length. */
  function DistancesOf(t: string, seqLen: nat): (r: seq<nat>)
  {
    StartsBelow(t, seqLen, OuterEnd(t, seqLen))
  }

  /** `distances`: those of the 3-grams, then those of the 4-grams. */
  function Distances(t: string): (r: seq<nat>)
  {
    DistancesOf(t, 3) + DistancesOf(t, 4)
  }

  /** The inner loop records a distance exactly when the sequence at i recurs that far on, below j. */
  lemma {:induction false} MatchesBelowMembers(t: string, seqLen: nat, i: nat, j: nat, d: nat)
    requires i + seqLen <= j && i + seqLen <= |t|
    ensures d in MatchesBelow(t, seqLen, i, j) <==> Repeat(t, seqLen, i, d) && i + d < j
    decreases j
  {
    if j > i + seqLen {
      MatchesBelowMembers(t, seqLen, i, j - 1, d);
    }
  }

  /** Over a whole inner loop, the bound below j is no restriction. */
  lemma InnerMembers(t: string, seqLen: nat, i: nat, d: nat)
    requires i + seqLen <= |t|
    ensures d in MatchesBelow(t, seqLen, i, InnerEnd(t, seqLen, i)) <==> Repeat(t, seqLen, i, d)
  {
    MatchesBelowMembers(t, seqLen, i, InnerEnd(t, seqLen, i), d);
  }

  lemma {:induction false} StartsBelowMembers(t: string, seqLen: nat, k: nat, d: nat)
    requires k == 0 || k + seqLen <= |t|
    ensures d in StartsBelow(t, seqLen, k) <==> exists i :: 0 <= i < k && Repeat(t, seqLen, i, d)
  {
    if k > 0 {
      StartsBelowMembers(t, seqLen, k - 1, d);
      InnerMembers(t, seqLen, k - 1, d);
      if exists i :: 0 <= i < k && Repeat(t, seqLen, i, d) {
        var i :| 0 <= i < k && Repeat(t, seqLen, i, d);
        if i < k - 1 {
          assert exists i' :: 0 <= i' < k - 1 && Repeat(t, seqLen, i', d);
        }
      }
    }
  }

  /** A distance is recorded for a length exactly when some sequence of that length recurs that far on. */
  lemma DistancesOfMembers(t: string, seqLen: nat, d: nat)
    requires seqLen > 0
    ensures d in DistancesOf(t, seqLen) <==> exists i: nat :: Repeat(t, seqLen, i, d)
  {
    StartsBelowMembers(t, seqLen, OuterEnd(t, seqLen), d);
    if exists i: nat :: Repeat(t, seqLen, i, d) {
      var i: nat :| Repeat(t, seqLen, i, d);
      assert i < OuterEnd(t, seqLen);
    }
  }

  /**
   * The recorded distances are exactly the gaps between two occurrences of a
   * 3-gram or of a 4-gram; each is at least the sequence length and leaves room
   * for the second occurrence.
   */
  lemma DistancesMeaning(t: string, d: nat)
    ensures d in Distances(t) <==> exists i: nat :: Repeat(t, 3, i, d) || Repeat(t, 4, i, d)
    ensures d in Distances(t) ==> 3 <= d <= |t| - 3
  {
    DistancesOfMembers(t, 3, d);
    DistancesOfMembers(t, 4, d);
  }

  // ---------------------------------------------------------------------------
  // The gcd of the distances and its divisors

  /** `math.gcd` on naturals, by Euclid's algorithm. */
  function Gcd(a: nat, b: nat): (r: nat)
    decreases b
  {
    if b == 0 then a else Gcd(b, a % b)
  }

  /** `reduce(gcd, ds)` */
  function GcdAll(ds: seq<nat>): (r: nat)
    requires |ds| > 0
  {
    if |ds| == 1 then ds[0] else Gcd(GcdAll(ds[..|ds| - 1]), ds[|ds| - 1])
  }

  /** Multiples of d stay multiples of d under integer combinations. */
  lemma MultipleCombination(a: int, b: int, q: int, d: int)
    requires d > 0 && a % d == 0 && b % d == 0
    ensures (a + q * b) % d == 0
  {
    var ka, kb := a / d, b / d;
    assert a == ka * d && b == kb * d;
    assert q * b == (q * kb) * d;
    assert a + q * b == (ka + q * kb) * d;
    Arith.ModUnique(a + q * b, ka + q * kb, 0, d);
  }

  /** A multiple of a multiple of c is a multiple of c. */
  lemma MultipleTransitive(a: int, b: int, c: int)
    requires b > 0 && c > 0 && a % b == 0 && b % c == 0
    ensures a % c == 0
  {
    var ka, kb := a / b, b / c;
    assert a == ka * b && b == kb * c;
    assert a == (ka * kb) * c;
    Arith.ModUnique(a, ka * kb, 0, c);
  }

  /** Unless both are zero, the gcd is positive and divides both arguments. */
  lemma {:induction false} GcdDivides(a: nat, b: nat)
    requires a > 0 || b > 0
    ensures Gcd(a, b) > 0 && a % Gcd(a, b) == 0 && b % Gcd(a, b) == 0
    decreases b
  {
    if b > 0 {
      var g := Gcd(b, a % b);
      GcdDivides(b, a % b);
      assert a == a % b + (a / b) * b;
      MultipleCombination(a % b, b, a / b, g);
    }
  }

  /** Every common divisor divides the gcd. */
  lemma {:induction false} GcdGreatest(a: nat, b: nat, d: nat)
    requires d > 0 && a % d == 0 && b % d == 0
    ensures Gcd(a, b) % d == 0
    decreases b
  {
    if b > 0 {
      MultipleCombination(a, b, -(a / b), d);
      GcdGreatest(b, a % b, d);
    }
  }

  /** For positive distances, the fold is positive and divides each of them. */
  lemma {:induction false} GcdAllDivides(ds: seq<nat>)
    requires |ds| > 0 && forall k :: 0 <= k < |ds| ==> ds[k] > 0
    ensures GcdAll(ds) > 0 && forall k :: 0 <= k < |ds| ==> ds[k] % GcdAll(ds) == 0
  {
    if |ds| > 1 {
      var init := ds[..|ds| - 1];
      GcdAllDivides(init);
      var g := GcdAll(init);
      GcdDivides(g, ds[|ds| - 1]);
      forall k | 0 <= k < |ds| - 1
        ensures ds[k] % GcdAll(ds) == 0
      {
        assert ds[k] == init[k];
        MultipleTransitive(ds[k], g, GcdAll(ds));
      }
    }
  }

  /** Every common divisor of the distances divides the fold. */
  lemma {:induction false} GcdAllGreatest(ds: seq<nat>, x: nat)
    requires |ds| > 0 && x > 0 && forall k :: 0 <= k < |ds| ==> ds[k] % x == 0
    ensures GcdAll(ds) % x == 0
  {
    if |ds| > 1 {
      GcdAllGreatest(ds[..|ds| - 1], x);
      GcdGreatest(GcdAll(ds[..|ds| - 1]), ds[|ds| - 1], x);
    }
  }

  /** `[i for i in range(2, bound) if g % i == 0]`, in ascending order. */
  function DivisorsBelow(g: nat, bound: int): (r: seq<nat>)
    decreases bound
  {
    if bound <= 2 then []
    else DivisorsBelow(g, bound - 1) + (if g % (bound - 1) == 0 then [bound - 1] else [])
  }

  /** Exactly the divisors of g from 2 to bound - 1 are listed, each once, in ascending order. */
  lemma {:induction false} DivisorsBelowMeaning(g: nat, bound: int)
    ensures forall x :: x in DivisorsBelow(g, bound) <==> 2 <= x < bound && g % x == 0
    ensures forall a, b :: 0 <= a < b < |DivisorsBelow(g, bound)| ==> DivisorsBelow(g, bound)[a] < DivisorsBelow(g, bound)[b]
    decreases bound
  {
    if bound > 2 {
      DivisorsBelowMeaning(g, bound - 1);
      var prev := DivisorsBelow(g, bound - 1);
      assert forall a :: 0 <= a < |prev| ==> prev[a] < bound - 1 by {
        forall a | 0 <= a < |prev|
          ensures prev[a] < bound - 1
        {
          assert prev[a] in prev;
        }
      }
    }
  }

  // ---------------------------------------------------------------------------
  // find_key_length

  /** What `find_key_length(ciphertext, max_length)` returns. */
  function KeyLengths(ciphertext: string, maxLength: int): (r: seq<nat>)
  {
    var ds := Distances(Cleaned(ciphertext));
    if ds == [] then []
    else
      var g := GcdAll(ds);
      DivisorsBelow(g, if g + 1 <= maxLength + 1 then g + 1 else maxLength + 1)
  }

  /**
   * The candidate lengths are exactly the x from 2 to `max_length` that divide
   * every recorded distance; there are none when no 3- or 4-gram repeats.  The list
   * is strictly ascending, so the final `sorted` leaves it as it is.
   */
  lemma KeyLengthsMeaning(ciphertext: string, maxLength: int, x: nat)
    ensures x in KeyLengths(ciphertext, maxLength) <==>
            Distances(Cleaned(ciphertext)) != [] && 2 <= x <= maxLength
            && forall k :: 0 <= k < |Distances(Cleaned(ciphertext))| ==> Distances(Cleaned(ciphertext))[k] % x == 0
    ensures forall a, b :: 0 <= a < b < |KeyLengths(ciphertext, maxLength)| ==>
            KeyLengths(ciphertext, maxLength)[a] < KeyLengths(ciphertext, maxLength)[b]
  {
    var ds := Distances(Cleaned(ciphertext));
    if ds != [] {
      var g := GcdAll(ds);
      var bound := if g + 1 <= maxLength + 1 then g + 1 else maxLength + 1;
      forall k | 0 <= k < |ds|
        ensures ds[k] > 0
      {
        DistancesMeaning(Cleaned(ciphertext), ds[k]);
      }
      DivisorsBelowMeaning(g, bound);
      if x > 0 {
        DividesGcdAll(ds, x);
      }
    }
  }

  /** x divides the fold of positive distances exactly when it divides each of them, and is then at most the fold. */
  lemma DividesGcdAll(ds: seq<nat>, x: nat)
    requires |ds| > 0 && x > 0 && forall k :: 0 <= k < |ds| ==> ds[k] > 0
    ensures GcdAll(ds) % x == 0 <==> forall k :: 0 <= k < |ds| ==> ds[k] % x == 0
    ensures GcdAll(ds) % x == 0 ==> x <= GcdAll(ds)
  {
    var g := GcdAll(ds);
    GcdAllDivides(ds);
    if g % x == 0 {
      DivisorAtMost(g, x);
      DividesEach(ds, g, x);
    }
    if forall k :: 0 <= k < |ds| ==> ds[k] % x == 0 {
      GcdAllGreatest(ds, x);
    }
  }

  /** A positive multiple of x is at least x. */
  lemma DivisorAtMost(g: nat, x: nat)
    requires g > 0 && x > 0 && g % x == 0
    ensures x <= g
  {
    Arith.MulSign(g / x, x);
  }

  /** What divides a common divisor of the distances divides each of them. */
  lemma DividesEach(ds: seq<nat>, g: nat, x: nat)
    requires g > 0 && x > 0 && g % x == 0 && forall k :: 0 <= k < |ds| ==> ds[k] % g == 0
    ensures forall k :: 0 <= k < |ds| ==> ds[k] % x == 0
  {
    forall k | 0 <= k < |ds|
      ensures ds[k] % x == 0
    {
      MultipleTransitive(ds[k], g, x);
    }
  }

  /** Text in which no 3-gram and no 4-gram occurs twice yields no candidate. */
  lemma NoRepeatNoLengths(ciphertext: string, maxLength: int)
    requires forall i: nat, d: nat :: !Repeat(Cleaned(ciphertext), 3, i, d) && !Repeat(Cleaned(ciphertext), 4, i, d)
    ensures KeyLengths(ciphertext, maxLength) == []
  {
    var ds := Distances(Cleaned(ciphertext));
    if ds != [] {
      DistancesMeaning(Cleaned(ciphertext), ds[0]);
    }
  }

  /** `find_key_length` */
  method FindKeyLength(ciphertext: string, maxLength: int) returns (r: seq<nat>)
    ensures r == KeyLengths(ciphertext, maxLength)
  {
    var text := Cleaned(ciphertext);
    var distances := RepeatDistances(text, 3, []);
    distances := RepeatDistances(text, 4, distances);
    assert distances == Distances(text);
    if distances == [] {
      return [];
    }
    var g := GcdAll(distances);
    var bound := if g + 1 <= maxLength + 1 then g + 1 else maxLength + 1;
    var divisors: seq<nat> := [];
    var i := 2;
    while i < bound
      invariant 2 <= i && (i <= bound || i == 2)
      invariant divisors == DivisorsBelow(g, i)
    {
      if g % i == 0 {
        divisors := divisors + [i];
      }
      i := i + 1;
    }
    r := divisors;
  }

  /** The two nested loops for one sequence length: the recorded distances appended to `acc`. */
  method RepeatDistances(text: string, seqLen: nat, acc: seq<nat>) returns (out: seq<nat>)
    requires seqLen > 0
    ensures out == acc + DistancesOf(text, seqLen)
  {
    out := acc;
    var i := 0;
    while i < |text| - seqLen
      invariant i <= OuterEnd(text, seqLen)
      invariant out == acc + StartsBelow(text, seqLen, i)
    {
      out := Recurrences(text, seqLen, i, out);
      i := i + 1;
    }
  }

  /** The inner loop: the distances to the later occurrences of the sequence at i, appended to `acc`. */
  method Recurrences(text: string, seqLen: nat, i: nat, acc: seq<nat>) returns (out: seq<nat>)
    requires seqLen > 0 && i + seqLen < |text|
    ensures out == acc + MatchesBelow(text, seqLen, i, InnerEnd(text, seqLen, i))
  {
    out := acc;
    var sequence := text[i..i + seqLen];
    var j := i + seqLen;
    while j < |text| - seqLen + 1
      invariant i + seqLen <= j <= InnerEnd(text, seqLen, i)
      invariant out == acc + MatchesBelow(text, seqLen, i, j)
    {
      if text[j..j + seqLen] == sequence {
        out := out + [j - i];
      }
      j := j + 1;
    }
  }
}
