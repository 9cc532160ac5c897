/**
 * Whole-sequence operations that the catalog and the recommender are built
 * from: boolean-mask selection, keep-first deduplication and the
 * subsequence order they respect.
 */
module Seqs {
  import opened Wrappers

  /** `a` is obtained from `b` by deleting elements (order kept). */
  ghost predicate IsSubseq<T>(a: seq<T>, b: seq<T>)
    decreases |b|
  {
    a == [] || (b != [] && if a[0] == b[0] then IsSubseq(a[1..], b[1..]) else IsSubseq(a, b[1..]))
  }

  /** The elements of `s` that satisfy `p`, in their original order. */
  function Filter<T>(s: seq<T>, p: T -> bool): (r: seq<T>)
    ensures |r| <= |s|
    ensures forall x :: x in r ==> x in s && p(x)
    ensures forall x :: x in s && p(x) ==> x in r
    ensures IsSubseq(r, s)
    decreases |s|
  {
    if s == [] then []
    else if p(s[0]) then [s[0]] + Filter(s[1..], p)
    else Filter(s[1..], p)
  }

  /** Selection keeps every copy of a selected element and no copy of any other. */
  lemma {:induction false} FilterCounts<T>(s: seq<T>, p: T -> bool)
    ensures forall x :: multiset(Filter(s, p))[x] == if p(x) then multiset(s)[x] else 0
    decreases |s|
  {
    if s != [] {
      FilterCounts(s[1..], p);
      assert s == [s[0]] + s[1..];
    }
  }

  /** The first `n` elements, or all of them when there are fewer (`DataFrame.head(n)`). */
  function Take<T>(s: seq<T>, n: nat): (r: seq<T>)
    ensures |r| == if |s| <= n then |s| else n
    ensures r == s[..|r|]
  {
    if |s| <= n then s else s[..n]
  }

  /** The first element of `s` whose key is `k`. */
  ghost function FirstBy<T, K>(s: seq<T>, key: T -> K, k: K): (r: Option<T>)
    ensures r.Some? ==> r.value in s && key(r.value) == k
    ensures r.None? ==> forall x :: x in s ==> key(x) != k
  {
    if s == [] then None
    else if key(s[0]) == k then Some(s[0])
    else FirstBy(s[1..], key, k)
  }

  /**
   * Keep-first deduplication on a key (`drop_duplicates(subset=..., keep='first')`,
   * `Series.unique()`), skipping the keys already in `seen`.
   */
  function KeepFirstBy<T, K(==)>(s: seq<T>, key: T -> K, seen: set<K>): (r: seq<T>)
    ensures |r| <= |s|
    ensures forall i :: 0 <= i < |r| ==> key(r[i]) !in seen
    ensures forall i, j :: 0 <= i < j < |r| ==> key(r[i]) != key(r[j])
    decreases |s|
  {
    if s == [] then []
    else if key(s[0]) in seen then KeepFirstBy(s[1..], key, seen)
    else [s[0]] + KeepFirstBy(s[1..], key, seen + {key(s[0])})
  }

  /** Every element kept is the first element of `s` that carries its key. */
  lemma {:induction false} KeepFirstByIsFirst<T, K>(s: seq<T>, key: T -> K, seen: set<K>, i: nat)
    requires i < |KeepFirstBy(s, key, seen)|
    ensures FirstBy(s, key, key(KeepFirstBy(s, key, seen)[i])) == Some(KeepFirstBy(s, key, seen)[i])
    decreases |s|
  {
    var r := KeepFirstBy(s, key, seen);
    if key(s[0]) in seen {
      KeepFirstByIsFirst(s[1..], key, seen, i);
    } else if i > 0 {
      KeepFirstByIsFirst(s[1..], key, seen + {key(s[0])}, i - 1);
    }
  }

  /** Every key of `s` outside `seen` is kept. */
  lemma {:induction false} KeepFirstByCovers<T, K>(s: seq<T>, key: T -> K, seen: set<K>, x: T)
    requires x in s && key(x) !in seen
    ensures FirstBy(KeepFirstBy(s, key, seen), key, key(x)).Some?
    decreases |s|
  {
    if x != s[0] && key(x) != key(s[0]) {
      var seen' := if key(s[0]) in seen then seen else seen + {key(s[0])};
      KeepFirstByCovers(s[1..], key, seen', x);
      var rest := KeepFirstBy(s[1..], key, seen');
      var w := FirstBy(rest, key, key(x)).value;
      assert w in KeepFirstBy(s, key, seen);
    }
  }

  /** Keep-first deduplication only deletes. */
  lemma {:induction false} KeepFirstBySubseq<T, K>(s: seq<T>, key: T -> K, seen: set<K>)
    ensures IsSubseq(KeepFirstBy(s, key, seen), s)
    decreases |s|
  {
    if s != [] {
      if key(s[0]) in seen {
        KeepFirstBySubseq(s[1..], key, seen);
        SubseqOfTail(KeepFirstBy(s[1..], key, seen), s[1..], s[0]);
        assert [s[0]] + s[1..] == s;
      } else {
        KeepFirstBySubseq(s[1..], key, seen + {key(s[0])});
      }
    }
  }

  /** The index of the first element of `s` whose key is `k`, or `|s|` when there is none. */
  ghost function KeyIndex<T, K>(s: seq<T>, key: T -> K, k: K): (n: nat)
    ensures n <= |s|
    ensures n < |s| ==> key(s[n]) == k
    ensures forall m :: 0 <= m < n ==> key(s[m]) != k
  {
    if s == [] then 0
    else if key(s[0]) == k then 0
    else 1 + KeyIndex(s[1..], key, k)
  }

  /** The index of the first occurrence of `x` in `s`, or `|s|` when there is none. */
  ghost function IndexOf<T>(s: seq<T>, x: T): (n: nat)
    ensures n <= |s|
    ensures n < |s| ==> s[n] == x
    ensures forall m :: 0 <= m < n ==> s[m] != x
  {
    if s == [] then 0
    else if s[0] == x then 0
    else 1 + IndexOf(s[1..], x)
  }

  /** The kept elements come in the order in which their keys first appear in `s`. */
  lemma {:induction false} KeepFirstByOrder<T, K>(s: seq<T>, key: T -> K, seen: set<K>, i: nat, j: nat)
    requires i < j < |KeepFirstBy(s, key, seen)|
    ensures KeyIndex(s, key, key(KeepFirstBy(s, key, seen)[i])) < KeyIndex(s, key, key(KeepFirstBy(s, key, seen)[j]))
    decreases |s|
  {
    var r := KeepFirstBy(s, key, seen);
    if key(s[0]) in seen {
      KeepFirstByOrder(s[1..], key, seen, i, j);
    } else if i > 0 {
      KeepFirstByOrder(s[1..], key, seen + {key(s[0])}, i - 1, j - 1);
    } else {
      assert key(r[j]) != key(s[0]);
    }
  }

  /** With the identity as the key, the first index of a key is the first index of the element. */
  lemma {:induction false} KeyIndexOfIdentity<T>(s: seq<T>, id: T -> T, x: T)
    requires forall k :: 0 <= k < |s| ==> id(s[k]) == s[k]
    ensures KeyIndex(s, id, x) == IndexOf(s, x)
    decreases |s|
  {
    if s != [] && s[0] != x {
      KeyIndexOfIdentity(s[1..], id, x);
    }
  }

  /** Keep-first deduplication on the identity keeps the elements in the order of their first occurrences. */
  lemma FirstAppearanceOrder<T>(s: seq<T>, id: T -> T)
    requires forall k :: 0 <= k < |s| ==> id(s[k]) == s[k]
    ensures forall i, j :: 0 <= i < j < |KeepFirstBy(s, id, {})| ==>
      IndexOf(s, KeepFirstBy(s, id, {})[i]) < IndexOf(s, KeepFirstBy(s, id, {})[j])
  {
    var r := KeepFirstBy(s, id, {});
    forall i, j | 0 <= i < j < |r| ensures IndexOf(s, r[i]) < IndexOf(s, r[j]) {
      KeepFirstByOrder(s, id, {}, i, j);
      KeepFirstByIsFirst(s, id, {}, i);
      KeepFirstByIsFirst(s, id, {}, j);
      var ki :| 0 <= ki < |s| && s[ki] == r[i];
      var kj :| 0 <= kj < |s| && s[kj] == r[j];
      KeyIndexOfIdentity(s, id, r[i]);
      KeyIndexOfIdentity(s, id, r[j]);
    }
  }

  /** The distinct elements of `s` in order of first appearance. */
  function Unique<T(==)>(s: seq<T>): (r: seq<T>)
    ensures forall i, j :: 0 <= i < j < |r| ==> r[i] != r[j]
    ensures forall x :: x in r ==> x in s
    ensures forall x :: x in s ==> x in r
    ensures forall i, j :: 0 <= i < j < |r| ==> IndexOf(s, r[i]) < IndexOf(s, r[j])
    ensures IsSubseq(r, s)
  {
    var id := (x: T) => x;
    var r := KeepFirstBy(s, id, {});
    KeepFirstBySubseq(s, id, {});
    FirstAppearanceOrder(s, id);
    assert forall x :: x in r ==> x in s by {
      forall x | x in r ensures x in s {
        var i :| 0 <= i < |r| && r[i] == x;
        KeepFirstByIsFirst(s, id, {}, i);
      }
    }
    assert forall x :: x in s ==> x in r by {
      forall x | x in s ensures x in r {
        KeepFirstByCovers(s, id, {}, x);
      }
    }
    r
  }

  // ---------------------------------------------------------------------
  // The subsequence order

  lemma {:induction false} SubseqOfTail<T>(a: seq<T>, b: seq<T>, x: T)
    requires IsSubseq(a, b)
    ensures IsSubseq(a, [x] + b)
    decreases |b|, 1
  {
    var xb := [x] + b;
    assert xb[1..] == b;
    if a != [] && a[0] == x {
      SubseqDropFirst(a, b);
    }
  }

  lemma {:induction false} SubseqDropFirst<T>(a: seq<T>, b: seq<T>)
    requires a != [] && IsSubseq(a, b)
    ensures IsSubseq(a[1..], b)
    decreases |b|, 0
  {
    assert [b[0]] + b[1..] == b;
    if a[0] == b[0] {
      SubseqOfTail(a[1..], b[1..], b[0]);
    } else {
      SubseqDropFirst(a, b[1..]);
      SubseqOfTail(a[1..], b[1..], b[0]);
    }
  }

  lemma {:induction false} SubseqTransitive<T>(a: seq<T>, b: seq<T>, c: seq<T>)
    requires IsSubseq(a, b) && IsSubseq(b, c)
    ensures IsSubseq(a, c)
    decreases |c|
  {
    if a == [] {
    } else if b[0] == c[0] {
      if a[0] == b[0] {
        SubseqTransitive(a[1..], b[1..], c[1..]);
      } else {
        SubseqTransitive(a, b[1..], c[1..]);
      }
    } else {
      SubseqTransitive(a, b, c[1..]);
      if a[0] == c[0] {
        SubseqDropFirst(a, c[1..]);
      }
    }
  }

  lemma {:induction false} SubseqReflexive<T>(a: seq<T>)
    ensures IsSubseq(a, a)
    decreases |a|
  {
    if a != [] {
      SubseqReflexive(a[1..]);
    }
  }

  /** A prefix of a subsequence of `b` is a subsequence of `b`. */
  lemma {:induction false} PrefixSubseq<T>(a: seq<T>, b: seq<T>, n: nat)
    requires n <= |a| && IsSubseq(a, b)
    ensures IsSubseq(a[..n], b)
    decreases |b|
  {
    if n == 0 {
    } else if a[0] == b[0] {
      PrefixSubseq(a[1..], b[1..], n - 1);
      assert a[..n][1..] == a[1..][..n - 1];
    } else {
      PrefixSubseq(a, b[1..], n);
    }
  }

  /** Subsequences survive putting the same block in front of both sides. */
  lemma {:induction false} SubseqPrepend<T>(p: seq<T>, a: seq<T>, b: seq<T>)
    requires IsSubseq(a, b)
    ensures IsSubseq(p + a, p + b)
    decreases |p|
  {
    if p != [] {
      SubseqPrepend(p[1..], a, b);
      var pa, pb := p + a, p + b;
      assert pa[0] == pb[0];
      assert pa[1..] == p[1..] + a;
      assert pb[1..] == p[1..] + b;
      assert IsSubseq(pa[1..], pb[1..]);
    } else {
      assert p + a == a && p + b == b;
    }
  }

  /** Subsequences survive putting a block in front of the larger side. */
  lemma {:induction false} SubseqPrependRight<T>(p: seq<T>, a: seq<T>, b: seq<T>)
    requires IsSubseq(a, b)
    ensures IsSubseq(a, p + b)
    decreases |p|
  {
    if p != [] {
      SubseqPrependRight(p[1..], a, b);
      SubseqOfTail(a, p[1..] + b, p[0]);
      assert [p[0]] + (p[1..] + b) == p + b;
    } else {
      assert p + b == b;
    }
  }

  /** An element in front of a subsequence, a block starting with that element in front of the larger side. */
  lemma SubseqConsBlock<T>(x: T, block: seq<T>, a: seq<T>, b: seq<T>)
    requires block != [] && block[0] == x && IsSubseq(a, b)
    ensures IsSubseq([x] + a, block + b)
  {
    SubseqPrependRight(block[1..], a, b);
    var xa, bb := [x] + a, block + b;
    assert xa[1..] == a;
    assert bb[1..] == block[1..] + b;
  }

  // ---------------------------------------------------------------------
  // Selection laws

  /** Two selections in a row select by the conjunction, so their order does not matter. */
  lemma {:induction false} FilterFilter<T>(s: seq<T>, p: T -> bool, q: T -> bool, pq: T -> bool)
    requires forall x :: pq(x) == (p(x) && q(x))
    ensures Filter(Filter(s, p), q) == Filter(s, pq)
    decreases |s|
  {
    if s != [] {
      FilterFilter(s[1..], p, q, pq);
      if p(s[0]) {
        assert Filter(s, p)[1..] == Filter(s[1..], p);
      }
    }
  }

  /** Selecting by a stronger condition selects a subsequence of what a weaker one selects. */
  lemma {:induction false} FilterStronger<T>(s: seq<T>, p: T -> bool, q: T -> bool)
    requires forall x :: p(x) ==> q(x)
    ensures IsSubseq(Filter(s, p), Filter(s, q))
    decreases |s|
  {
    if s != [] {
      FilterStronger(s[1..], p, q);
      if p(s[0]) {
        var fp, fq := Filter(s, p), Filter(s, q);
        assert fp[1..] == Filter(s[1..], p) && fq[1..] == Filter(s[1..], q);
      } else if q(s[0]) {
        SubseqOfTail(Filter(s[1..], p), Filter(s[1..], q), s[0]);
      }
    }
  }

  /** A subsequence is no longer than the sequence it is taken from. */
  lemma {:induction false} SubseqLength<T>(a: seq<T>, b: seq<T>)
    requires IsSubseq(a, b)
    ensures |a| <= |b|
    decreases |b|
  {
    if a != [] {
      if a[0] == b[0] {
        SubseqLength(a[1..], b[1..]);
      } else {
        SubseqLength(a, b[1..]);
      }
    }
  }

  /** Selection respects the subsequence order. */
  lemma {:induction false} SubseqFilter<T>(a: seq<T>, b: seq<T>, p: T -> bool)
    requires IsSubseq(a, b)
    ensures IsSubseq(Filter(a, p), Filter(b, p))
    decreases |b|
  {
    if a == [] {
    } else if a[0] == b[0] {
      SubseqFilter(a[1..], b[1..], p);
      if p(a[0]) {
        var fa, fb := Filter(a, p), Filter(b, p);
        assert fa[0] == fb[0] && fa[1..] == Filter(a[1..], p) && fb[1..] == Filter(b[1..], p);
      }
    } else {
      SubseqFilter(a, b[1..], p);
      if p(b[0]) {
        SubseqOfTail(Filter(a, p), Filter(b[1..], p), b[0]);
      }
    }
  }

  /** The first elements of a sequence are a subsequence of it. */
  lemma TakeSubseq<T>(s: seq<T>, n: nat)
    ensures IsSubseq(Take(s, n), s)
  {
    SubseqReflexive(s);
    PrefixSubseq(s, s, |Take(s, n)|);
  }

  /** Selecting by a condition no element meets selects nothing. */
  lemma {:induction false} FilterNone<T>(s: seq<T>, p: T -> bool)
    requires forall x :: x in s ==> !p(x)
    ensures Filter(s, p) == []
    decreases |s|
  {
    if s != [] {
      FilterNone(s[1..], p);
    }
  }

  /** Selecting by a weaker condition after a stronger one changes nothing. */
  lemma {:induction false} FilterAll<T>(s: seq<T>, p: T -> bool)
    requires forall x :: x in s ==> p(x)
    ensures Filter(s, p) == s
    decreases |s|
  {
    if s != [] {
      FilterAll(s[1..], p);
      assert [s[0]] + s[1..] == s;
    }
  }
}
