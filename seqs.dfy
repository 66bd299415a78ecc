/** Sequence helpers shared by the scans: first-occurrence deduplication and prefixes. */
module Seqs {

  /** No element occurs twice. */
  predicate Distinct<T(==)>(s: seq<T>) {
    forall i, j :: 0 <= i < j < |s| ==> s[i] != s[j]
  }

  /** `a` is a prefix of `b`. */
  predicate IsPrefix<T(==)>(a: seq<T>, b: seq<T>) {
    |a| <= |b| && a == b[..|a|]
  }

  /** Index of the first occurrence of `x` in `s`. */
  function FirstIndex<T(==)>(s: seq<T>, x: T): (k: nat)
    requires x in s
    ensures k < |s| && s[k] == x
    ensures forall j :: 0 <= j < k ==> s[j] != x
  {
    if s[0] == x then 0 else 1 + FirstIndex(s[1..], x)
  }

  /**
   * Keeps the first occurrence of every element, in the order of first
   * occurrence: walking `s` from the left and appending what was not yet kept.
   */
  function Dedup<T(==)>(s: seq<T>): (r: seq<T>)
    ensures |r| <= |s|
  {
    DedupUpTo(s, |s|)
  }

  /** Deduplication of the first `n` elements of `s`. */
  function DedupUpTo<T(==)>(s: seq<T>, n: nat): (r: seq<T>)
    requires n <= |s|
    ensures |r| <= n
  {
    if n == 0 then []
    else
      var d := DedupUpTo(s, n - 1);
      if s[n - 1] in d then d else d + [s[n - 1]]
  }

  /** Deduplicating the first `n` elements looks at nothing beyond them. */
  lemma {:induction false} DedupUpToSame<T>(s: seq<T>, t: seq<T>, n: nat)
    requires n <= |s| && n <= |t|
    requires forall j :: 0 <= j < n ==> s[j] == t[j]
    ensures DedupUpTo(s, n) == DedupUpTo(t, n)
  {
    if n > 0 {
      DedupUpToSame(s, t, n - 1);
    }
  }

  /** Deduplication keeps every element of `s` once and adds nothing. */
  lemma {:induction false} DedupMembers<T>(s: seq<T>)
    ensures Distinct(Dedup(s))
    ensures forall x :: x in Dedup(s) ==> x in s
    ensures forall x :: x in s ==> x in Dedup(s)
    decreases |s|
  {
    if s != [] {
      var s' := s[..|s| - 1];
      assert s == s' + [s[|s| - 1]];
      DedupSnoc(s', s[|s| - 1]);
      DedupMembers(s');
    }
  }

  /** One more element extends the deduplication by at most that element. */
  lemma DedupSnoc<T>(s: seq<T>, x: T)
    ensures Dedup(s + [x]) == if x in Dedup(s) then Dedup(s) else Dedup(s) + [x]
  {
    DedupUpToSame(s + [x], s, |s|);
  }

  /** Deduplicating a longer sequence only appends: the result of a prefix is a prefix. */
  lemma {:induction false} DedupPrefix<T>(a: seq<T>, b: seq<T>)
    requires IsPrefix(a, b)
    ensures IsPrefix(Dedup(a), Dedup(b))
    decreases |b|
  {
    if |a| < |b| {
      var b' := b[..|b| - 1];
      assert IsPrefix(a, b') by {
        assert b'[..|a|] == b[..|a|];
      }
      DedupPrefix(a, b');
      assert b == b' + [b[|b| - 1]];
      DedupSnoc(b', b[|b| - 1]);
    } else {
      assert a == b;
    }
  }

  /**
   * The kept elements appear in the order of their first occurrence in `s`:
   * an element kept earlier first occurred earlier.
   */
  lemma {:induction false} DedupFirstSeenOrder<T>(s: seq<T>)
    ensures forall i, j :: 0 <= i < j < |Dedup(s)| ==> FirstSeenBefore(s, Dedup(s)[i], Dedup(s)[j])
    decreases |s|
  {
    if s != [] {
      var s' := s[..|s| - 1];
      var x := s[|s| - 1];
      assert s == s' + [x];
      DedupFirstSeenOrder(s');
      forall i, j | 0 <= i < j < |Dedup(s)|
        ensures FirstSeenBefore(s, Dedup(s)[i], Dedup(s)[j])
      {
        DedupOrderPair(s', x, i, j);
      }
    }
  }

  /** Both occur in `s`, and `a` occurs first before `b` does. */
  predicate FirstSeenBefore<T(==)>(s: seq<T>, a: T, b: T) {
    a in s && b in s && FirstIndex(s, a) < FirstIndex(s, b)
  }

  /** The induction step of DedupFirstSeenOrder, for one pair of positions. */
  lemma DedupOrderPair<T>(s: seq<T>, x: T, i: int, j: int)
    requires forall i, j :: 0 <= i < j < |Dedup(s)| ==> FirstSeenBefore(s, Dedup(s)[i], Dedup(s)[j])
    requires 0 <= i < j < |Dedup(s + [x])|
    ensures FirstSeenBefore(s + [x], Dedup(s + [x])[i], Dedup(s + [x])[j])
  {
    var d := Dedup(s);
    DedupMembers(s);
    DedupSnoc(s, x);
    assert d[i] in d;
    FirstIndexOfPrefix(s, x, d[i]);
    if j < |d| {
      assert d[j] in d;
      FirstIndexOfPrefix(s, x, d[j]);
    } else {
      FirstIndexOfNew(s, x);
    }
  }

  /** An element that is new to `s` first occurs where it is appended. */
  lemma {:induction false} FirstIndexOfNew<T>(s: seq<T>, x: T)
    requires x !in s
    ensures FirstIndex(s + [x], x) == |s|
  {
    if s != [] {
      assert (s + [x])[1..] == s[1..] + [x];
      FirstIndexOfNew(s[1..], x);
    }
  }

  /** The first occurrence of an element of `s` does not move when something is appended. */
  lemma {:induction false} FirstIndexOfPrefix<T>(s: seq<T>, x: T, y: T)
    requires y in s
    ensures FirstIndex(s + [x], y) == FirstIndex(s, y)
  {
    if s[0] != y {
      assert (s + [x])[1..] == s[1..] + [x];
      FirstIndexOfPrefix(s[1..], x, y);
    }
  }

  /** The first `n` elements, or all of them when there are fewer (`n` may be negative). */
  function Take<T(==)>(s: seq<T>, n: int): (r: seq<T>)
    ensures |r| <= |s| && |r| <= (if n < 0 then 0 else n)
    ensures IsPrefix(r, s)
    ensures 0 <= n <= |s| ==> |r| == n
    ensures n >= |s| ==> r == s
  {
    if n <= 0 then [] else if n >= |s| then s else s[..n]
  }

  /** A prefix of a distinct sequence is distinct, and its elements come from the whole. */
  lemma TakeDistinct<T>(s: seq<T>, n: int)
    requires Distinct(s)
    ensures Distinct(Take(s, n))
    ensures forall x :: x in Take(s, n) ==> x in s
  {
  }

  /** Taking `|a|` elements of a sequence that `a` begins gives `a` back. */
  lemma TakeOfPrefix<T>(a: seq<T>, b: seq<T>)
    requires IsPrefix(a, b)
    ensures Take(b, |a|) == a
  {
  }

  /** The elements satisfying `p`, in their order: JavaScript's `filter`. */
  function Filter<T>(s: seq<T>, p: T -> bool): (r: seq<T>)
    ensures |r| <= |s|
  {
    if s == [] then []
    else
      var init := Filter(s[..|s| - 1], p);
      if p(s[|s| - 1]) then init + [s[|s| - 1]] else init
  }

  /** Filtering a concatenation filters each part, so the kept elements keep their order. */
  lemma {:induction false} FilterAppend<T>(a: seq<T>, b: seq<T>, p: T -> bool)
    ensures Filter(a + b, p) == Filter(a, p) + Filter(b, p)
  {
    if b != [] {
      var b' := b[..|b| - 1];
      FilterAppend(a, b', p);
      assert (a + b)[..|a + b| - 1] == a + b';
    } else {
      assert a + b == a;
    }
  }

  /** Filtering keeps exactly the elements satisfying `p`. */
  lemma {:induction false} FilterMembers<T>(s: seq<T>, p: T -> bool)
    ensures forall x :: x in Filter(s, p) <==> x in s && p(x)
  {
    if s != [] {
      var init := s[..|s| - 1];
      FilterMembers(init, p);
      assert s == init + [s[|s| - 1]];
    }
  }

  /** A sequence whose every element satisfies `p` is left as it is. */
  lemma {:induction false} FilterAll<T>(s: seq<T>, p: T -> bool)
    requires forall x :: x in s ==> p(x)
    ensures Filter(s, p) == s
  {
    if s != [] {
      var init := s[..|s| - 1];
      assert s == init + [s[|s| - 1]];
      FilterAll(init, p);
    }
  }

  /** A sequence no element of which satisfies `p` filters to nothing. */
  lemma {:induction false} FilterNone<T>(s: seq<T>, p: T -> bool)
    requires forall x :: x in s ==> !p(x)
    ensures Filter(s, p) == []
  {
    if s != [] {
      var init := s[..|s| - 1];
      assert s == init + [s[|s| - 1]];
      FilterNone(init, p);
    }
  }

  /** Two tests that agree on every element filter alike. */
  lemma {:induction false} FilterCongruent<T>(s: seq<T>, p: T -> bool, q: T -> bool)
    requires forall x :: x in s ==> p(x) == q(x)
    ensures Filter(s, p) == Filter(s, q)
  {
    if s != [] {
      var init := s[..|s| - 1];
      assert s == init + [s[|s| - 1]];
      FilterCongruent(init, p, q);
    }
  }
}
