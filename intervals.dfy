/** Closed integer intervals and the `Vec<(BigNum, BigNum)>` operations the Bleichenbacher
    attack applies to its candidate sets: lexicographic `sort` and `dedup`. */
module Intervals {

  /** The pair `(a, b)` standing for every integer x with a <= x <= b; a > b is empty. */
  datatype Interval = Interval(lo: int, hi: int)

  predicate Contains(iv: Interval, x: int)
  {
    iv.lo <= x <= iv.hi
  }

  /** x lies in at least one interval of the set. */
  predicate Covers(ivs: seq<Interval>, x: int)
  {
    exists j :: 0 <= j < |ivs| && Contains(ivs[j], x)
  }

  /** The derived ordering of Rust tuples: by lower bound, then by upper bound. */
  predicate Le(p: Interval, q: Interval)
  {
    p.lo < q.lo || (p.lo == q.lo && p.hi <= q.hi)
  }

  predicate Sorted(ivs: seq<Interval>)
  {
    forall i, j :: 0 <= i < j < |ivs| ==> Le(ivs[i], ivs[j])
  }

  /** Sorted with no interval repeated. */
  predicate StrictlySorted(ivs: seq<Interval>)
  {
    forall i, j :: 0 <= i < j < |ivs| ==> Le(ivs[i], ivs[j]) && ivs[i] != ivs[j]
  }

  /** Insertion of one interval into a sorted list. */
  function Insert(x: Interval, ivs: seq<Interval>): (r: seq<Interval>)
    ensures multiset(r) == multiset(ivs) + multiset{x}
    ensures Sorted(ivs) ==> Sorted(r)
  {
    if ivs == [] then [x]
    else if Le(x, ivs[0]) then [x] + ivs
    else
      var rest := Insert(x, ivs[1..]);
      assert ivs == [ivs[0]] + ivs[1..];
      InsertHead(ivs[0], x, ivs[1..], rest);
      [ivs[0]] + rest
  }

  /** The head stays first after inserting a larger interval behind it. */
  lemma InsertHead(h: Interval, x: Interval, tail: seq<Interval>, rest: seq<Interval>)
    requires !Le(x, h)
    requires multiset(rest) == multiset(tail) + multiset{x}
    requires Sorted(tail) ==> Sorted(rest)
    ensures Sorted([h] + tail) ==> Sorted([h] + rest)
  {
    if Sorted([h] + tail) {
      assert Sorted(tail) by {
        forall i, j | 0 <= i < j < |tail|
          ensures Le(tail[i], tail[j])
        {
          assert tail[i] == ([h] + tail)[i + 1] && tail[j] == ([h] + tail)[j + 1];
        }
      }
      forall j | 0 <= j < |rest|
        ensures Le(h, rest[j])
      {
        assert rest[j] in multiset(rest);
        if rest[j] != x {
          assert rest[j] in multiset(tail);
          assert rest[j] in tail;
          var k :| 0 <= k < |tail| && tail[k] == rest[j];
          assert ([h] + tail)[0] == h && ([h] + tail)[k + 1] == tail[k];
        }
      }
      var r := [h] + rest;
      forall i, j | 0 <= i < j < |r|
        ensures Le(r[i], r[j])
      {
        if i > 0 {
          assert r[i] == rest[i - 1] && r[j] == rest[j - 1];
        }
      }
    }
  }

  /** `Vec::sort` on the interval list: a sorted permutation of its input. */
  function Sort(ivs: seq<Interval>): (r: seq<Interval>)
    ensures Sorted(r)
    ensures multiset(r) == multiset(ivs)
  {
    if ivs == [] then []
    else
      assert ivs == [ivs[0]] + ivs[1..];
      Insert(ivs[0], Sort(ivs[1..]))
  }

  /** `Vec::dedup`: drops every element equal to its predecessor. */
  function Dedup(ivs: seq<Interval>): (r: seq<Interval>)
    ensures |r| <= |ivs|
    ensures |ivs| > 0 ==> |r| > 0 && r[0] == ivs[0]
  {
    if |ivs| <= 1 then ivs
    else if ivs[0] == ivs[1] then Dedup(ivs[1..])
    else [ivs[0]] + Dedup(ivs[1..])
  }

  /** Deduplication keeps exactly the intervals it was given. */
  lemma {:induction false} DedupSameElements(ivs: seq<Interval>)
    ensures forall x :: x in Dedup(ivs) <==> x in ivs
  {
    if |ivs| > 1 {
      DedupSameElements(ivs[1..]);
      assert ivs == [ivs[0]] + ivs[1..];
    }
  }

  /** On a sorted list, deduplication leaves no repeated interval. */
  lemma {:induction false} DedupStrict(ivs: seq<Interval>)
    requires Sorted(ivs)
    ensures StrictlySorted(Dedup(ivs))
  {
    if |ivs| > 1 {
      var tail := ivs[1..];
      assert Sorted(tail) by {
        forall i, j | 0 <= i < j < |tail|
          ensures Le(tail[i], tail[j])
        {
          assert tail[i] == ivs[i + 1] && tail[j] == ivs[j + 1];
        }
      }
      DedupStrict(tail);
      DedupSameElements(tail);
      if ivs[0] != ivs[1] {
        var d := Dedup(tail);
        var r := [ivs[0]] + d;
        forall i, j | 0 <= i < j < |r|
          ensures Le(r[i], r[j]) && r[i] != r[j]
        {
          if i == 0 {
            assert r[j] == d[j - 1] && d[j - 1] in tail;
            var k :| 0 <= k < |tail| && tail[k] == d[j - 1];
            assert Le(ivs[0], ivs[k + 1]);
            if k > 0 {
              assert Le(ivs[1], ivs[k + 1]);
            }
          } else {
            assert r[i] == d[i - 1] && r[j] == d[j - 1];
          }
        }
      }
    }
  }

  /** A permutation covers the same integers. */
  lemma PermutationCovers(a: seq<Interval>, b: seq<Interval>, x: int)
    requires multiset(a) == multiset(b)
    ensures Covers(a, x) ==> Covers(b, x)
  {
    if Covers(a, x) {
      var j :| 0 <= j < |a| && Contains(a[j], x);
      assert a[j] in multiset(b);
      assert a[j] in b;
      var k :| 0 <= k < |b| && b[k] == a[j];
    }
  }

  /** Two lists holding the same intervals cover the same integers. */
  lemma SameElementsCovers(a: seq<Interval>, b: seq<Interval>, x: int)
    requires forall iv :: iv in a <==> iv in b
    ensures Covers(a, x) ==> Covers(b, x)
  {
    if Covers(a, x) {
      var j :| 0 <= j < |a| && Contains(a[j], x);
      assert a[j] in b;
      var k :| 0 <= k < |b| && b[k] == a[j];
    }
  }

  /** Membership is invariant under sorting and deduplication. */
  lemma SortDedupCovers(ivs: seq<Interval>, x: int)
    ensures Covers(Dedup(Sort(ivs)), x) <==> Covers(ivs, x)
  {
    var s := Sort(ivs);
    DedupSameElements(s);
    PermutationCovers(ivs, s, x);
    PermutationCovers(s, ivs, x);
    SameElementsCovers(s, Dedup(s), x);
    SameElementsCovers(Dedup(s), s, x);
  }
}
