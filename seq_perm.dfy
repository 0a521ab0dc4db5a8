/** Facts about duplicate-free sequences and rearrangements, shared by the cipher modules. */
module SeqPerm {
  /** No element occurs twice. */
  predicate Distinct<T(==)>(s: seq<T>)
  {
    forall i, j :: 0 <= i < j < |s| ==> s[i] != s[j]
  }

  /** `p` lists every index below n exactly once, in some order. */
  predicate IsIndexPermutation(p: seq<nat>, n: nat)
  {
    |p| == n && Distinct(p) && (forall i :: 0 <= i < |p| ==> p[i] < n) && (forall k :: 0 <= k < n ==> k in p)
  }

  /** A sequence is duplicate-free exactly when no element has multiplicity above one. */
  lemma {:induction false} DistinctMultiplicity<T>(s: seq<T>)
    ensures Distinct(s) <==> forall x :: multiset(s)[x] <= 1
  {
    if |s| == 0 {
      return;
    }
    var init, last := s[..|s| - 1], s[|s| - 1];
    assert s == init + [last];
    DistinctMultiplicity(init);
    if Distinct(s) {
      assert Distinct(init);
      assert last !in init;
      forall x
        ensures multiset(s)[x] <= 1
      {
        assert multiset(s) == multiset(init) + multiset{last};
      }
    } else {
      var i, j :| 0 <= i < j < |s| && s[i] == s[j];
      assert s == s[..j] + s[j..];
      assert s[i] in s[..j];
      assert s[j] in s[j..];
      assert multiset(s) == multiset(s[..j]) + multiset(s[j..]);
      assert multiset(s)[s[i]] >= 2;
    }
  }

  /** Rearranging a duplicate-free sequence leaves it duplicate-free. */
  lemma DistinctPermutation<T>(s: seq<T>, t: seq<T>)
    requires multiset(s) == multiset(t) && Distinct(t)
    ensures Distinct(s)
  {
    DistinctMultiplicity(s);
    DistinctMultiplicity(t);
  }

  /** The values of s at the positions p, in the order of p. */
  function Pick<T>(s: seq<T>, p: seq<nat>): (r: seq<T>)
    requires forall i :: 0 <= i < |p| ==> p[i] < |s|
    ensures |r| == |p| && forall i :: 0 <= i < |p| ==> r[i] == s[p[i]]
  {
    seq(|p|, i requires 0 <= i < |p| => s[p[i]])
  }

  /** Dropping the position that holds the largest index leaves an index permutation of the rest. */
  lemma DropLargest(p: seq<nat>, n: nat, j: nat)
    requires IsIndexPermutation(p, n + 1) && j < |p| && p[j] == n
    ensures IsIndexPermutation(p[..j] + p[j + 1..], n)
  {
    var q := p[..j] + p[j + 1..];
    assert forall i :: 0 <= i < |q| ==> q[i] == p[if i < j then i else i + 1];
    forall k | 0 <= k < n
      ensures k in q
    {
      assert k in p;
      var i :| 0 <= i < |p| && p[i] == k;
      assert q[if i < j then i else i - 1] == k;
    }
  }

  lemma PickSplit<T>(s: seq<T>, p: seq<nat>, j: nat)
    requires 0 < |s| && IsIndexPermutation(p, |s|) && j < |p| && p[j] == |s| - 1
    ensures forall i :: 0 <= i < |p| && i != j ==> p[i] < |s| - 1
    ensures Pick(s, p) == Pick(s[..|s| - 1], p[..j] + p[j + 1..])[..j] + [s[|s| - 1]]
                          + Pick(s[..|s| - 1], p[..j] + p[j + 1..])[j..]
  {
    var n := |s| - 1;
    var q := p[..j] + p[j + 1..];
    assert forall i :: 0 <= i < |p| && i != j ==> p[i] != n;
    var part := Pick(s[..n], q);
    var rhs := part[..j] + [s[n]] + part[j..];
    assert |rhs| == |p|;
    forall i | 0 <= i < |p|
      ensures Pick(s, p)[i] == rhs[i]
    {
      if i < j {
        assert rhs[i] == part[i] == s[..n][q[i]] == s[p[i]];
      } else if i > j {
        assert rhs[i] == part[i - 1] == s[..n][q[i - 1]] == s[p[i]];
      }
    }
  }

  /** Reading s at the positions of an index permutation rearranges s. */
  lemma {:induction false} ReindexPermutes<T>(s: seq<T>, p: seq<nat>)
    requires IsIndexPermutation(p, |s|)
    ensures multiset(Pick(s, p)) == multiset(s)
  {
    if |s| == 0 {
      return;
    }
    var n := |s| - 1;
    assert n in p;
    var j :| 0 <= j < |p| && p[j] == n;
    var q := p[..j] + p[j + 1..];
    DropLargest(p, n, j);
    ReindexPermutes(s[..n], q);
    var part := Pick(s[..n], q);
    PickSplit(s, p, j);
    InsertMultiset(part, j, s[n]);
    assert s == s[..n] + [s[n]];
  }

  lemma InsertMultiset<T>(a: seq<T>, j: nat, x: T)
    requires j <= |a|
    ensures multiset(a[..j] + [x] + a[j..]) == multiset(a) + multiset{x}
  {
    assert a == a[..j] + a[j..];
  }

  /** Two duplicate-free sequences with the same members are rearrangements of each other. */
  lemma SameMembersPermutes<T>(a: seq<T>, b: seq<T>)
    requires Distinct(a) && Distinct(b)
    requires forall x :: x in a <==> x in b
    ensures multiset(a) == multiset(b)
  {
    DistinctMultiplicity(a);
    DistinctMultiplicity(b);
    forall x
      ensures multiset(a)[x] == multiset(b)[x]
    {
      assert x in a <==> x in multiset(a);
      assert x in b <==> x in multiset(b);
    }
  }

  lemma HeadMember<T>(p: seq<T>)
    ensures p != [] ==> p[0] in p
  {
  }

  /** A duplicate-free list of values below n has at most n entries. */
  lemma {:induction false} DistinctBelowLength(p: seq<nat>, n: nat)
    requires Distinct(p) && forall i :: 0 <= i < |p| ==> p[i] < n
    ensures |p| <= n
  {
    if n == 0 {
      HeadMember(p);
    } else if n - 1 in p {
      var j :| 0 <= j < |p| && p[j] == n - 1;
      var q := p[..j] + p[j + 1..];
      assert forall i :: 0 <= i < |q| ==> q[i] == p[if i < j then i else i + 1];
      DistinctBelowLength(q, n - 1);
    } else {
      DistinctBelowLength(p, n - 1);
    }
  }

  /** A duplicate-free list of n values below n holds every one of them. */
  lemma DistinctFullCovers(p: seq<nat>, n: nat)
    requires Distinct(p) && |p| == n && forall i :: 0 <= i < |p| ==> p[i] < n
    ensures forall k :: 0 <= k < n ==> k in p
  {
    forall k | 0 <= k < n
      ensures k in p
    {
      if k !in p {
        var q := seq(|p|, i requires 0 <= i < |p| => if p[i] > k then p[i] - 1 else p[i]);
        assert forall i :: 0 <= i < |q| ==> q[i] < n - 1 by {
          forall i | 0 <= i < |q|
            ensures q[i] < n - 1
          {
            assert p[i] != k;
          }
        }
        DistinctBelowLength(q, n - 1);
      }
    }
  }

  /** Taking the last element off one of two rearrangements, and the same value off the other, leaves rearrangements. */
  lemma SameMultisetRemove<T>(a: seq<T>, b: seq<T>, j: nat)
    requires multiset(a) == multiset(b) && a != [] && j < |b| && b[j] == a[|a| - 1]
    ensures multiset(a[..|a| - 1]) == multiset(b[..j] + b[j + 1..])
  {
    var init, x, rest := a[..|a| - 1], a[|a| - 1], b[..j] + b[j + 1..];
    assert a == init + [x];
    assert b == b[..j] + [x] + b[j + 1..];
    assert multiset(b) == multiset(b[..j]) + multiset{x} + multiset(b[j + 1..]);
    assert multiset(rest) == multiset(b[..j]) + multiset(b[j + 1..]);
    assert multiset(init) == multiset(init) + multiset{x} - multiset{x};
    assert multiset(rest) == multiset(rest) + multiset{x} - multiset{x};
  }

  function Min(a: nat, b: nat): nat
  {
    if a <= b then a else b
  }

  // The next three lemmas only guide the solver: each names one step of equational
  // reasoning on sequences that a longer proof would otherwise have to rediscover.

  lemma AppendAssoc<T>(a: seq<T>, b: seq<T>, c: seq<T>)
    ensures (a + b) + c == a + (b + c)
  {
  }

  lemma AppendEmpty<T>(a: seq<T>)
    ensures a + [] == a
  {
  }

  lemma EqTrans<T>(a: seq<T>, b: seq<T>, c: seq<T>)
    requires a == b && b == c
    ensures a == c
  {
  }
}
