/** `Iterator::filter` followed by `collect`: the elements of a sequence
    that satisfy a predicate, in their original order. */
module Filtering {

  function Keep<T>(s: seq<T>, p: T -> bool): (r: seq<T>)
    ensures |r| <= |s|
    ensures forall x :: x in r ==> x in s && p(x)
  {
    if s == [] then []
    else (if p(s[0]) then [s[0]] else []) + Keep(s[1..], p)
  }

  /** Nothing that satisfies the predicate is dropped. */
  lemma {:induction false} KeepComplete<T>(s: seq<T>, p: T -> bool, x: T)
    requires x in s && p(x)
    ensures x in Keep(s, p)
  {
    if s[0] != x {
      KeepComplete(s[1..], p, x);
    }
  }

  /** Filtering commutes with concatenation, so survivors keep their
      relative order. */
  lemma {:induction false} KeepAppend<T>(a: seq<T>, b: seq<T>, p: T -> bool)
    ensures Keep(a + b, p) == Keep(a, p) + Keep(b, p)
  {
    if a == [] {
      assert a + b == b;
    } else {
      assert (a + b)[1..] == a[1..] + b;
      KeepAppend(a[1..], b, p);
    }
  }

  /** A predicate that holds everywhere keeps everything. */
  lemma {:induction false} KeepAll<T>(s: seq<T>, p: T -> bool)
    requires forall x :: x in s ==> p(x)
    ensures Keep(s, p) == s
  {
    if s != [] {
      KeepAll(s[1..], p);
    }
  }

  /** Two filters in a row are one filter by the conjunction. */
  lemma {:induction false} KeepFuse<T>(s: seq<T>, p: T -> bool, q: T -> bool, pq: T -> bool)
    requires forall x :: pq(x) == (p(x) && q(x))
    ensures Keep(Keep(s, p), q) == Keep(s, pq)
  {
    if s != [] {
      KeepFuse(s[1..], p, q, pq);
      var head := if p(s[0]) then [s[0]] else [];
      KeepAppend(head, Keep(s[1..], p), q);
    }
  }

  /** Peeling the last element off the input. */
  lemma KeepSnoc<T>(s: seq<T>, x: T, p: T -> bool)
    ensures Keep(s + [x], p) == Keep(s, p) + (if p(x) then [x] else [])
  {
    KeepAppend(s, [x], p);
  }

  /** The last survivor is the last element of the input that satisfies the
      predicate. */
  lemma {:induction false} KeepLast<T>(s: seq<T>, p: T -> bool) returns (i: nat)
    requires Keep(s, p) != []
    ensures i < |s| && p(s[i]) && Keep(s, p)[|Keep(s, p)| - 1] == s[i]
    ensures forall j :: i < j < |s| ==> !p(s[j])
  {
    var n := |s|;
    var init, last := s[..n - 1], s[n - 1];
    assert s == init + [last];
    KeepSnoc(init, last, p);
    if p(last) {
      i := n - 1;
    } else {
      i := KeepLast(init, p);
      assert s[i] == init[i];
      forall j | i < j < n ensures !p(s[j]) {
        if j < n - 1 { assert s[j] == init[j]; }
      }
    }
  }
}
