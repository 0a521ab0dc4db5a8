/**
 * The candidate generators of the cracking tools.  src/brf.py and src/brute-force.py
 * carry identical copies: `generate_keys(max_len)` yields every lowercase word of
 * length 1..max_len in `itertools.product` order, and `generate_codes(max_len)` every
 * ordering of 1..L for L = 2..max_len in `itertools.permutations` order, written out
 * in decimal.  A generator is modelled as the sequence of what it yields.
 */
module Enumerate {
  import opened SeqPerm
  import opened PyStr
  import Transposition

  /** `string.ascii_lowercase` */
  const Lowercase: string := "abcdefghijklmnopqrstuvwxyz"

  function Pow(b: nat, e: nat): (r: nat)
  {
    if e == 0 then 1 else b * Pow(b, e - 1)
  }

  function Factorial(n: nat): (r: nat)
    ensures r >= 1
  {
    if n == 0 then 1 else n * Factorial(n - 1)
  }

  /** `sum(26 ** i for i in range(1, max_key_len + 1))`, the key count of the estimate. */
  function TotalKeys(m: nat): (r: nat)
  {
    if m == 0 then 0 else TotalKeys(m - 1) + Pow(26, m)
  }

  /** `sum(factorial(i) for i in range(2, max_code_len + 1))`, the code count of the estimate. */
  function TotalCodes(m: nat): (r: nat)
  {
    if m < 2 then 0 else TotalCodes(m - 1) + Factorial(m)
  }

  // ---------------------------------------------------------------------------
  // Keys

  /** Every word of ws with c put in front, in the order of ws. */
  function PrependAll<T>(c: T, ws: seq<seq<T>>): (r: seq<seq<T>>)
    ensures |r| == |ws| && forall i :: 0 <= i < |ws| ==> r[i] == [c] + ws[i]
  {
    seq(|ws|, i requires 0 <= i < |ws| => [c] + ws[i])
  }

  /** Each symbol of alpha in turn, followed by every word of ws. */
  function Extend<T>(alpha: seq<T>, ws: seq<seq<T>>): (r: seq<seq<T>>)
  {
    if alpha == [] then [] else PrependAll(alpha[0], ws) + Extend(alpha[1..], ws)
  }

  /** `itertools.product(alpha, repeat=k)`: the words of length k over alpha, the first position varying slowest. */
  function Product<T>(alpha: seq<T>, k: nat): (r: seq<seq<T>>)
  {
    if k == 0 then [[]] else Extend(alpha, Product(alpha, k - 1))
  }

  /** `generate_keys(max_len)`: the products of length 1, then 2, up to max_len. */
  function Keys(m: nat): (r: seq<string>)
  {
    if m == 0 then [] else Keys(m - 1) + Product(Lowercase, m)
  }

  /** A word is among the extensions exactly when its head is a symbol of alpha and its tail a word of ws. */
  lemma {:induction false} ExtendMembers<T>(alpha: seq<T>, ws: seq<seq<T>>, w: seq<T>)
    ensures w in Extend(alpha, ws) <==> |w| > 0 && w[0] in alpha && w[1..] in ws
  {
    if alpha != [] {
      ExtendMembers(alpha[1..], ws, w);
      assert alpha == [alpha[0]] + alpha[1..];
      if w in PrependAll(alpha[0], ws) {
        var i :| 0 <= i < |ws| && PrependAll(alpha[0], ws)[i] == w;
        assert w[1..] == ws[i];
      }
      if |w| > 0 && w[0] == alpha[0] && w[1..] in ws {
        var i :| 0 <= i < |ws| && ws[i] == w[1..];
        assert PrependAll(alpha[0], ws)[i] == w;
      }
    }
  }

  lemma {:induction false} ExtendLength<T>(alpha: seq<T>, ws: seq<seq<T>>)
    ensures |Extend(alpha, ws)| == |alpha| * |ws|
  {
    if alpha != [] {
      ExtendLength(alpha[1..], ws);
      assert |alpha| * |ws| == |ws| + (|alpha| - 1) * |ws|;
    }
  }

  /** The product holds exactly the words of length k over alpha. */
  lemma {:induction false} ProductMembers<T>(alpha: seq<T>, k: nat, w: seq<T>)
    ensures w in Product(alpha, k) <==> |w| == k && forall i :: 0 <= i < |w| ==> w[i] in alpha
  {
    if k == 0 {
      if |w| == 0 {
        assert w == [];
      }
    } else {
      ExtendMembers(alpha, Product(alpha, k - 1), w);
      if |w| > 0 {
        ProductMembers(alpha, k - 1, w[1..]);
        assert forall i :: 1 <= i < |w| ==> w[i] == w[1..][i - 1];
      }
    }
  }

  /** There are |alpha|^k of them. */
  lemma {:induction false} ProductLength<T>(alpha: seq<T>, k: nat)
    ensures |Product(alpha, k)| == Pow(|alpha|, k)
  {
    if k > 0 {
      ProductLength(alpha, k - 1);
      ExtendLength(alpha, Product(alpha, k - 1));
    }
  }

  /** And, over a duplicate-free alphabet, none of them twice. */
  lemma {:induction false} ProductDistinct<T>(alpha: seq<T>, k: nat)
    requires Distinct(alpha)
    ensures Distinct(Product(alpha, k))
  {
    if k > 0 {
      ProductDistinct(alpha, k - 1);
      ExtendDistinct(alpha, Product(alpha, k - 1));
    }
  }

  lemma {:induction false} ExtendDistinct<T>(alpha: seq<T>, ws: seq<seq<T>>)
    requires Distinct(alpha) && Distinct(ws)
    ensures Distinct(Extend(alpha, ws))
  {
    if alpha != [] {
      var rest := alpha[1..];
      assert Distinct(rest);
      ExtendDistinct(rest, ws);
      var front := PrependAll(alpha[0], ws);
      assert Distinct(front) by {
        forall i, j | 0 <= i < j < |front|
          ensures front[i] != front[j]
        {
          assert front[i][1..] == ws[i] && front[j][1..] == ws[j];
        }
      }
      forall w | w in front
        ensures w !in Extend(rest, ws)
      {
        ExtendMembers(rest, ws, w);
        assert w[0] == alpha[0];
        assert alpha[0] !in rest;
      }
      DistinctConcat(front, Extend(rest, ws));
    }
  }

  /** Two duplicate-free sequences with no member in common concatenate to a duplicate-free one. */
  lemma DistinctConcat<T>(a: seq<T>, b: seq<T>)
    requires Distinct(a) && Distinct(b) && forall x :: x in a ==> x !in b
    ensures Distinct(a + b)
  {
    forall i, j | 0 <= i < j < |a + b|
      ensures (a + b)[i] != (a + b)[j]
    {
      if i < |a| && j >= |a| {
        assert (a + b)[i] in a && (a + b)[j] == b[j - |a|];
      }
    }
  }

  /** `string.ascii_lowercase` holds exactly the lowercase letters. */
  lemma LowercaseMembers(c: char)
    ensures c in Lowercase <==> IsLower(c)
  {
    var k := c as int - 'a' as int;
    if 0 <= k < 26 {
      assert Lowercase[k] == c;
    }
    assert forall k :: 0 <= k < |Lowercase| ==> IsLower(Lowercase[k]);
  }

  lemma LowercaseDistinct()
    ensures Distinct(Lowercase)
  {
    forall i, j | 0 <= i < j < |Lowercase|
      ensures Lowercase[i] != Lowercase[j]
    {
      assert forall k :: 0 <= k < |Lowercase| ==> Lowercase[k] as int == 'a' as int + k;
    }
  }

  /** Every lowercase word of length 1..max_len is generated, and nothing else. */
  lemma {:induction false} KeysMembers(m: nat, w: string)
    ensures w in Keys(m) <==> 1 <= |w| <= m && forall i :: 0 <= i < |w| ==> IsLower(w[i])
  {
    if m > 0 {
      KeysMembers(m - 1, w);
      ProductMembers(Lowercase, m, w);
      forall i | 0 <= i < |w|
        ensures w[i] in Lowercase <==> IsLower(w[i])
      {
        LowercaseMembers(w[i]);
      }
    }
  }

  /** Shorter keys come first. */
  lemma {:induction false} KeysByLength(m: nat)
    ensures forall i, j :: 0 <= i < j < |Keys(m)| ==> |Keys(m)[i]| <= |Keys(m)[j]|
    ensures forall i :: 0 <= i < |Keys(m)| ==> |Keys(m)[i]| <= m
  {
    if m > 0 {
      KeysByLength(m - 1);
      var prev, next := Keys(m - 1), Product(Lowercase, m);
      forall i | 0 <= i < |next|
        ensures |next[i]| == m
      {
        ProductMembers(Lowercase, m, next[i]);
      }
    }
  }

  /** No key is generated twice, and there are as many as the estimate counts. */
  lemma {:induction false} KeysCount(m: nat)
    ensures Distinct(Keys(m))
    ensures |Keys(m)| == TotalKeys(m)
  {
    if m > 0 {
      KeysCount(m - 1);
      LowercaseDistinct();
      ProductDistinct(Lowercase, m);
      ProductLength(Lowercase, m);
      forall w | w in Keys(m - 1)
        ensures w !in Product(Lowercase, m)
      {
        KeysMembers(m - 1, w);
        ProductMembers(Lowercase, m, w);
      }
      DistinctConcat(Keys(m - 1), Product(Lowercase, m));
    }
  }

  // ---------------------------------------------------------------------------
  // Codes

  /** s with position j taken out. */
  function Without<T>(s: seq<T>, j: nat): (r: seq<T>)
    requires j < |s|
    ensures |r| == |s| - 1
  {
    s[..j] + s[j + 1..]
  }

  /**
   * `itertools.permutations(s)`: every ordering of the positions of s, each
   * choice of first element taken in the order of s, the rest kept in order.
   */
  function Permutations<T>(s: seq<T>): (r: seq<seq<T>>)
    decreases |s|, 1
  {
    if s == [] then [[]] else Leading(s, 0)
  }

  /** The orderings of s that start with s[j] for j from i on. */
  function Leading<T>(s: seq<T>, i: nat): (r: seq<seq<T>>)
    requires i <= |s|
    decreases |s|, 0, |s| - i
  {
    if i == |s| then [] else PrependAll(s[i], Permutations(Without(s, i))) + Leading(s, i + 1)
  }

  /** `list(range(1, n + 1))` */
  function OneTo(n: nat): (r: seq<nat>)
    ensures |r| == n && forall i :: 0 <= i < n ==> r[i] == i + 1
  {
    seq(n, i requires 0 <= i < n => i + 1)
  }

  /** `''.join(str(x) for x in perm)` */
  function Spelled(perm: seq<nat>): (r: string)
  {
    if perm == [] then [] else Spelled(perm[..|perm| - 1]) + Decimal(perm[|perm| - 1])
  }

  /** `generate_codes(max_len)`: the orderings of 1..L spelled out, for L = 2 up to max_len. */
  function Codes(m: nat): (r: seq<string>)
  {
    if m < 2 then [] else Codes(m - 1) + SpelledAll(Permutations(OneTo(m)))
  }

  function SpelledAll(perms: seq<seq<nat>>): (r: seq<string>)
    ensures |r| == |perms| && forall i :: 0 <= i < |perms| ==> r[i] == Spelled(perms[i])
  {
    seq(|perms|, i requires 0 <= i < |perms| => Spelled(perms[i]))
  }

  /** There are |s|! orderings. */
  lemma {:induction false} PermutationsLength<T>(s: seq<T>)
    ensures |Permutations(s)| == Factorial(|s|)
    decreases |s|, 1
  {
    if s != [] {
      LeadingLength(s, 0);
    }
  }

  lemma {:induction false} LeadingLength<T>(s: seq<T>, i: nat)
    requires i <= |s| && |s| > 0
    ensures |Leading(s, i)| == (|s| - i) * Factorial(|s| - 1)
    decreases |s|, 0, |s| - i
  {
    if i < |s| {
      PermutationsLength(Without(s, i));
      LeadingLength(s, i + 1);
      assert (|s| - i) * Factorial(|s| - 1) == Factorial(|s| - 1) + (|s| - i - 1) * Factorial(|s| - 1);
    }
  }

  /** Every ordering generated rearranges s. */
  lemma {:induction false} PermutationsRearrange<T>(s: seq<T>, p: seq<T>)
    requires p in Permutations(s)
    ensures multiset(p) == multiset(s)
    decreases |s|, 1
  {
    if s != [] {
      LeadingRearrange(s, 0, p);
    }
  }

  lemma {:induction false} LeadingRearrange<T>(s: seq<T>, i: nat, p: seq<T>)
    requires i <= |s| && p in Leading(s, i)
    ensures multiset(p) == multiset(s)
    decreases |s|, 0, |s| - i
  {
    var front := PrependAll(s[i], Permutations(Without(s, i)));
    if p in front {
      var k :| 0 <= k < |front| && front[k] == p;
      var q := Permutations(Without(s, i))[k];
      PermutationsRearrange(Without(s, i), q);
      assert s == s[..i] + [s[i]] + s[i + 1..];
    } else {
      LeadingRearrange(s, i + 1, p);
    }
  }

  /** Every rearrangement of s is generated. */
  lemma {:induction false} PermutationsComplete<T>(s: seq<T>, p: seq<T>)
    requires multiset(p) == multiset(s)
    ensures p in Permutations(s)
    decreases |s|, 1
  {
    if s == [] {
      assert p == [];
    } else {
      assert p[0] in multiset(s);
      var j :| 0 <= j < |s| && s[j] == p[0];
      LeadingComplete(s, 0, j, p);
    }
  }

  lemma {:induction false} LeadingComplete<T>(s: seq<T>, i: nat, j: nat, p: seq<T>)
    requires i <= j < |s| && multiset(p) == multiset(s) && p != [] && p[0] == s[j]
    ensures p in Leading(s, i)
    decreases |s|, 0, |s| - i
  {
    if i < j {
      LeadingComplete(s, i + 1, j, p);
    } else {
      var rest := Without(s, j);
      TailRearranges(s, j, p);
      PermutationsComplete(rest, p[1..]);
      var k :| 0 <= k < |Permutations(rest)| && Permutations(rest)[k] == p[1..];
      assert PrependAll(s[j], Permutations(rest))[k] == p;
    }
  }

  /** Taking the first element off p and the same value off s leaves rearrangements. */
  lemma TailRearranges<T>(s: seq<T>, j: nat, p: seq<T>)
    requires j < |s| && multiset(p) == multiset(s) && p != [] && p[0] == s[j]
    ensures multiset(p[1..]) == multiset(Without(s, j))
  {
    var x, rest := p[0], Without(s, j);
    assert p == [x] + p[1..];
    assert s == s[..j] + [x] + s[j + 1..];
    assert multiset(p) == multiset{x} + multiset(p[1..]);
    assert multiset(s) == multiset{x} + multiset(rest);
    assert multiset(p[1..]) == multiset{x} + multiset(p[1..]) - multiset{x};
    assert multiset(rest) == multiset{x} + multiset(rest) - multiset{x};
  }

  /** Orderings of 1..9 are spelled one digit per entry. */
  lemma {:induction false} SpelledDigits(p: seq<nat>)
    requires forall i :: 0 <= i < |p| ==> 1 <= p[i] <= 9
    ensures |Spelled(p)| == |p|
    ensures forall i :: 0 <= i < |p| ==> Spelled(p)[i] == ('0' as int + p[i]) as char
  {
    if p != [] {
      SpelledDigits(p[..|p| - 1]);
    }
  }

  /** A spelled ordering of 1..L, for L up to 9, is a code of L digits that passes `validate_code` and uses each offset below L once. */
  lemma CodeOfOrdering(L: nat, p: seq<nat>)
    requires 1 <= L <= 9 && multiset(p) == multiset(OneTo(L))
    ensures |Spelled(p)| == L && Transposition.IsCode(Spelled(p))
    ensures IsIndexPermutation(Transposition.CodeIndices(Spelled(p)), L)
    ensures Transposition.ValidateCode(Spelled(p))
  {
    OrderingEntries(L, p);
    SpelledDigits(p);
    var c := Spelled(p);
    var idxs := Transposition.CodeIndices(c);
    assert forall i :: 0 <= i < L ==> idxs[i] + 1 == p[i];
    ShiftedOrdering(L, p, idxs);
    Transposition.PermutationBlockSize(idxs);
    Transposition.ValidateCodeCovers(c);
  }

  /** Lowering each entry of an ordering of 1..L by one gives an index permutation. */
  lemma ShiftedOrdering(L: nat, p: seq<nat>, idxs: seq<nat>)
    requires multiset(p) == multiset(OneTo(L))
    requires |idxs| == L && |p| == L && forall i :: 0 <= i < L ==> idxs[i] + 1 == p[i]
    ensures IsIndexPermutation(idxs, L)
  {
    OrderingEntries(L, p);
    forall k | 0 <= k < L
      ensures k in idxs
    {
      assert k + 1 in p;
      var i :| 0 <= i < L && p[i] == k + 1;
      assert idxs[i] == k;
    }
  }

  /** An ordering of 1..L holds each of 1..L once. */
  lemma OrderingEntries(L: nat, p: seq<nat>)
    requires multiset(p) == multiset(OneTo(L))
    ensures |p| == L && Distinct(p)
    ensures forall i :: 0 <= i < L ==> 1 <= p[i] <= L
    ensures forall x :: 1 <= x <= L ==> x in p
  {
    assert |multiset(p)| == |multiset(OneTo(L))|;
    forall i | 0 <= i < |p|
      ensures 1 <= p[i] <= L
    {
      assert p[i] in multiset(OneTo(L));
    }
    assert Distinct(OneTo(L));
    DistinctPermutation(p, OneTo(L));
    forall x | 1 <= x <= L
      ensures x in p
    {
      assert OneTo(L)[x - 1] == x;
      assert x in multiset(p);
    }
  }

  /** Conversely, a code of digits 1-9 that uses each offset below its length once spells an ordering of 1..|c|. */
  lemma OrderingOfCode(c: string)
    requires Transposition.IsCode(c) && IsIndexPermutation(Transposition.CodeIndices(c), |c|)
    ensures |c| <= 9
    ensures multiset(Transposition.DigitValues(c)) == multiset(OneTo(|c|))
    ensures Spelled(Transposition.DigitValues(c)) == c
  {
    var idxs := Transposition.CodeIndices(c);
    var p := Transposition.DigitValues(c);
    DistinctBelowLength(idxs, 9);
    Transposition.DigitsAndIndices(c);
    SpelledCode(c);
    assert Distinct(p);
    assert Distinct(OneTo(|c|));
    forall x
      ensures x in p <==> x in OneTo(|c|)
    {
      DigitMember(c, x);
    }
    SameMembersPermutes(p, OneTo(|c|));
  }

  /** There are as many codes as the estimate counts. */
  lemma {:induction false} CodesCount(m: nat)
    ensures |Codes(m)| == TotalCodes(m)
  {
    if m >= 2 {
      CodesCount(m - 1);
      PermutationsLength(OneTo(m));
    }
  }

  /** Up to length 9, every generated code passes `validate_code` and uses each of its digits once. */
  lemma {:induction false} CodesSound(m: nat, c: string)
    requires m <= 9 && c in Codes(m)
    ensures 2 <= |c| <= m && Transposition.IsCode(c) && Transposition.ValidateCode(c)
    ensures IsIndexPermutation(Transposition.CodeIndices(c), |c|)
  {
    if c in Codes(m - 1) {
      CodesSound(m - 1, c);
    } else {
      var perms := Permutations(OneTo(m));
      var k :| 0 <= k < |perms| && SpelledAll(perms)[k] == c;
      PermutationsRearrange(OneTo(m), perms[k]);
      CodeOfOrdering(m, perms[k]);
    }
  }

  /** Every code of 2 to max_len digits 1-9 that uses each of 1..L once is generated. */
  lemma {:induction false} CodesComplete(m: nat, c: string)
    requires Transposition.IsCode(c) && IsIndexPermutation(Transposition.CodeIndices(c), |c|)
    requires 2 <= |c| <= m
    ensures c in Codes(m)
  {
    if |c| < m {
      CodesComplete(m - 1, c);
    } else {
      OrderingOfCode(c);
      var p := Transposition.DigitValues(c);
      PermutationsComplete(OneTo(m), p);
      var perms := Permutations(OneTo(m));
      var k :| 0 <= k < |perms| && perms[k] == p;
      assert SpelledAll(perms)[k] == c;
    }
  }

  /** The digits of such a code are exactly 1..|c|. */
  lemma DigitMember(c: string, x: nat)
    requires Transposition.IsCode(c) && IsIndexPermutation(Transposition.CodeIndices(c), |c|)
    ensures x in Transposition.DigitValues(c) <==> x in OneTo(|c|)
  {
    var idxs := Transposition.CodeIndices(c);
    var p := Transposition.DigitValues(c);
    Transposition.DigitsAndIndices(c);
    if x in OneTo(|c|) {
      var k :| 0 <= k < |c| && OneTo(|c|)[k] == x;
      assert k in idxs;
      var i :| 0 <= i < |c| && idxs[i] == k;
      assert p[i] == x;
    }
    if x in p {
      var i :| 0 <= i < |c| && p[i] == x;
      assert OneTo(|c|)[idxs[i]] == x;
    }
  }

  /** Spelling out the digit values of a code of digits 1-9 gives the code back. */
  lemma SpelledCode(c: string)
    requires Transposition.IsCode(c)
    ensures Spelled(Transposition.DigitValues(c)) == c
  {
    var p := Transposition.DigitValues(c);
    assert forall i :: 0 <= i < |c| ==> 1 <= p[i] <= 9;
    SpelledDigits(p);
    forall i | 0 <= i < |c|
      ensures Spelled(p)[i] == c[i]
    {
      assert p[i] == c[i] as int - '0' as int;
    }
  }

  /** Every ordering listed from position i on starts with an element of s at or after i. */
  lemma {:induction false} LeadingHeads<T>(s: seq<T>, i: nat, p: seq<T>)
    requires i <= |s| && p in Leading(s, i)
    ensures p != [] && exists j :: i <= j < |s| && p[0] == s[j]
    decreases |s| - i
  {
    var front := PrependAll(s[i], Permutations(Without(s, i)));
    if p in front {
      var k :| 0 <= k < |front| && front[k] == p;
      assert p[0] == s[i];
    } else {
      LeadingHeads(s, i + 1, p);
    }
  }

  /** Over a duplicate-free s, no ordering is listed twice. */
  lemma {:induction false} PermutationsDistinct<T>(s: seq<T>)
    requires Distinct(s)
    ensures Distinct(Permutations(s))
    decreases |s|, 1
  {
    if s != [] {
      LeadingDistinct(s, 0);
    }
  }

  lemma {:induction false} LeadingDistinct<T>(s: seq<T>, i: nat)
    requires i <= |s| && Distinct(s)
    ensures Distinct(Leading(s, i))
    decreases |s|, 0, |s| - i
  {
    if i < |s| {
      var rest := Without(s, i);
      assert Distinct(rest) by {
        assert forall k :: 0 <= k < |rest| ==> rest[k] == s[if k < i then k else k + 1];
      }
      PermutationsDistinct(rest);
      LeadingDistinct(s, i + 1);
      var front := PrependAll(s[i], Permutations(rest));
      assert Distinct(front) by {
        forall a, b | 0 <= a < b < |front|
          ensures front[a] != front[b]
        {
          assert front[a][1..] == Permutations(rest)[a] && front[b][1..] == Permutations(rest)[b];
        }
      }
      forall w | w in front
        ensures w !in Leading(s, i + 1)
      {
        var k :| 0 <= k < |front| && front[k] == w;
        assert w[0] == s[i];
        if w in Leading(s, i + 1) {
          LeadingHeads(s, i + 1, w);
        }
      }
      DistinctConcat(front, Leading(s, i + 1));
    }
  }

  /** Up to length 9 no code is generated twice. */
  lemma {:induction false} CodesDistinct(m: nat)
    requires m <= 9
    ensures Distinct(Codes(m))
  {
    if m >= 2 {
      CodesDistinct(m - 1);
      var layer := SpelledAll(Permutations(OneTo(m)));
      LayerDistinct(m);
      forall c | c in Codes(m - 1)
        ensures c !in layer
      {
        CodesSound(m - 1, c);
        LayerLength(m, c);
      }
      DistinctConcat(Codes(m - 1), layer);
    }
  }

  /** The codes of one length L are all distinct. */
  lemma LayerDistinct(m: nat)
    requires 1 <= m <= 9
    ensures Distinct(SpelledAll(Permutations(OneTo(m))))
  {
    var perms := Permutations(OneTo(m));
    var layer := SpelledAll(perms);
    PermutationsDistinct(OneTo(m));
    forall a, b | 0 <= a < b < |layer|
      ensures layer[a] != layer[b]
    {
      PermutationsRearrange(OneTo(m), perms[a]);
      PermutationsRearrange(OneTo(m), perms[b]);
      OrderingEntries(m, perms[a]);
      OrderingEntries(m, perms[b]);
      if layer[a] == layer[b] {
        SpelledInjective(perms[a], perms[b]);
      }
    }
  }

  /** The codes of one length L have L characters. */
  lemma LayerLength(m: nat, c: string)
    requires 1 <= m <= 9
    ensures c in SpelledAll(Permutations(OneTo(m))) ==> |c| == m
  {
    var perms := Permutations(OneTo(m));
    if c in SpelledAll(perms) {
      var k :| 0 <= k < |perms| && SpelledAll(perms)[k] == c;
      PermutationsRearrange(OneTo(m), perms[k]);
      OrderingEntries(m, perms[k]);
      SpelledDigits(perms[k]);
    }
  }

  /** Sequences of entries 1-9 with the same spelling are equal. */
  lemma SpelledInjective(p: seq<nat>, q: seq<nat>)
    requires forall i :: 0 <= i < |p| ==> 1 <= p[i] <= 9
    requires forall i :: 0 <= i < |q| ==> 1 <= q[i] <= 9
    requires Spelled(p) == Spelled(q)
    ensures p == q
  {
    SpelledDigits(p);
    SpelledDigits(q);
    forall i | 0 <= i < |p|
      ensures p[i] == q[i]
    {
      assert Spelled(p)[i] == Spelled(q)[i];
    }
  }
}
