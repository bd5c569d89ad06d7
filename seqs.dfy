/** `Array.prototype.filter` and filter-then-`length` over sequences, with the
    facts the store proofs need about them. */
module Seqs {

  /** `s.filter(p)`: the elements satisfying p, in their original order. */
  function Filter<T>(s: seq<T>, p: T -> bool): (r: seq<T>)
    ensures |r| <= |s|
    ensures forall i :: 0 <= i < |r| ==> r[i] in s && p(r[i])
    ensures forall i :: 0 <= i < |s| && p(s[i]) ==> s[i] in r
  {
    if s == [] then []
    else if p(s[0]) then [s[0]] + Filter(s[1..], p)
    else Filter(s[1..], p)
  }

  /** `s.filter(p).length`. */
  function Count<T>(s: seq<T>, p: T -> bool): (n: nat)
    ensures n <= |s|
  {
    if s == [] then 0 else (if p(s[0]) then 1 else 0) + Count(s[1..], p)
  }

  lemma {:induction false} FilterLength<T>(s: seq<T>, p: T -> bool)
    ensures |Filter(s, p)| == Count(s, p)
  {
    if s != [] {
      FilterLength(s[1..], p);
    }
  }

  lemma {:induction false} FilterConcat<T>(a: seq<T>, b: seq<T>, p: T -> bool)
    ensures Filter(a + b, p) == Filter(a, p) + Filter(b, p)
  {
    if a != [] {
      assert (a + b)[1..] == a[1..] + b;
      FilterConcat(a[1..], b, p);
    } else {
      assert a + b == b;
    }
  }

  lemma {:induction false} FilterKeepsAll<T>(s: seq<T>, p: T -> bool)
    requires forall i :: 0 <= i < |s| ==> p(s[i])
    ensures Filter(s, p) == s
  {
    if s != [] {
      FilterKeepsAll(s[1..], p);
    }
  }

  /** Nothing is left exactly when nothing satisfies the predicate. */
  lemma FilterEmpty<T>(s: seq<T>, p: T -> bool)
    ensures Filter(s, p) == [] <==> forall i :: 0 <= i < |s| ==> !p(s[i])
  {
    if forall i :: 0 <= i < |s| ==> !p(s[i]) {
      FilterDropsAll(s, p);
    }
  }

  lemma {:induction false} FilterDropsAll<T>(s: seq<T>, p: T -> bool)
    requires forall i :: 0 <= i < |s| ==> !p(s[i])
    ensures Filter(s, p) == []
  {
    if s != [] {
      FilterDropsAll(s[1..], p);
    }
  }

  lemma FilterIdempotent<T>(s: seq<T>, p: T -> bool)
    ensures Filter(Filter(s, p), p) == Filter(s, p)
  {
    FilterKeepsAll(Filter(s, p), p);
  }

  /** Filtering can only lower a count. */
  lemma {:induction false} CountOfFilter<T>(s: seq<T>, q: T -> bool, p: T -> bool)
    ensures Count(Filter(s, q), p) <= Count(s, p)
  {
    if s != [] {
      CountOfFilter(s[1..], q, p);
    }
  }

  /** Filtering with a predicate that excludes p leaves nothing to count. */
  lemma {:induction false} CountOfFilterExcluding<T>(s: seq<T>, q: T -> bool, p: T -> bool)
    requires forall x :: q(x) ==> !p(x)
    ensures Count(Filter(s, q), p) == 0
  {
    if s != [] {
      CountOfFilterExcluding(s[1..], q, p);
    }
  }

  /** Filtering with a predicate that every p-element satisfies keeps the count. */
  lemma {:induction false} CountOfFilterIncluding<T>(s: seq<T>, q: T -> bool, p: T -> bool)
    requires forall x :: p(x) ==> q(x)
    ensures Count(Filter(s, q), p) == Count(s, p)
  {
    if s != [] {
      CountOfFilterIncluding(s[1..], q, p);
    }
  }

  /** Counting p among the q-elements is counting the elements that satisfy both. */
  lemma {:induction false} CountOfFilterBoth<T>(s: seq<T>, q: T -> bool, p: T -> bool, both: T -> bool)
    requires forall x :: both(x) == (q(x) && p(x))
    ensures Count(Filter(s, q), p) == Count(s, both)
  {
    if s != [] {
      CountOfFilterBoth(s[1..], q, p, both);
    }
  }

  lemma {:induction false} CountConcat<T>(a: seq<T>, b: seq<T>, p: T -> bool)
    ensures Count(a + b, p) == Count(a, p) + Count(b, p)
  {
    if a != [] {
      assert (a + b)[1..] == a[1..] + b;
      CountConcat(a[1..], b, p);
    } else {
      assert a + b == b;
    }
  }

  /** Every element satisfies p exactly when all of them are counted. */
  lemma {:induction false} CountAll<T>(s: seq<T>, p: T -> bool)
    ensures Count(s, p) == |s| <==> forall i :: 0 <= i < |s| ==> p(s[i])
  {
    if s != [] {
      CountAll(s[1..], p);
      assert forall i :: 1 <= i < |s| ==> s[i] == s[1..][i - 1];
    }
  }

  /** Nothing is counted exactly when no element satisfies p. */
  lemma {:induction false} CountNone<T>(s: seq<T>, p: T -> bool)
    ensures Count(s, p) == 0 <==> forall i :: 0 <= i < |s| ==> !p(s[i])
  {
    if s != [] {
      CountNone(s[1..], p);
      assert forall i :: 1 <= i < |s| ==> s[i] == s[1..][i - 1];
    }
  }

  /** Replacing an element by one that p judges the same keeps the count. */
  lemma {:induction false} CountUpdate<T>(s: seq<T>, k: nat, x: T, p: T -> bool)
    requires k < |s| && p(s[k]) == p(x)
    ensures Count(s[k := x], p) == Count(s, p)
  {
    if k == 0 {
      assert s[k := x][1..] == s[1..];
    } else {
      assert s[k := x][1..] == s[1..][k - 1 := x];
      CountUpdate(s[1..], k - 1, x, p);
    }
  }

  /** Two sequences that p judges element by element alike have one count. */
  lemma {:induction false} CountPointwise<T>(a: seq<T>, b: seq<T>, p: T -> bool)
    requires |a| == |b|
    requires forall i :: 0 <= i < |a| ==> p(a[i]) == p(b[i])
    ensures Count(a, p) == Count(b, p)
  {
    if a != [] {
      CountPointwise(a[1..], b[1..], p);
    }
  }

  /** Counts of two predicates that never hold together add up to at most the length. */
  lemma {:induction false} CountDisjoint<T>(s: seq<T>, p: T -> bool, q: T -> bool)
    requires forall x :: !(p(x) && q(x))
    ensures Count(s, p) + Count(s, q) <= |s|
  {
    if s != [] {
      CountDisjoint(s[1..], p, q);
    }
  }

  /** Replacing an element that p rejects by another that p rejects does not
      change the filtered sequence. */
  lemma {:induction false} FilterUpdateRejected<T>(s: seq<T>, k: nat, x: T, p: T -> bool)
    requires k < |s| && !p(s[k]) && !p(x)
    ensures Filter(s[k := x], p) == Filter(s, p)
  {
    if k == 0 {
      assert s[k := x][1..] == s[1..];
    } else {
      assert s[k := x][1..] == s[1..][k - 1 := x];
      FilterUpdateRejected(s[1..], k - 1, x, p);
    }
  }

  /** Filtering by q after filtering by a weaker p is filtering by q alone. */
  lemma {:induction false} FilterOfFilter<T>(s: seq<T>, p: T -> bool, q: T -> bool)
    requires forall x :: q(x) ==> p(x)
    ensures Filter(Filter(s, p), q) == Filter(s, q)
  {
    if s != [] {
      FilterOfFilter(s[1..], p, q);
    }
  }
}
