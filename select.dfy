/** Choosing the newest entry: `sort_by_key` on the date string, which is a
    stable sort, followed by `pop`, which takes the last element. */
module Select {
  import opened Wrappers
  import opened LexOrder
  import opened Filtering
  import opened Catalog

  /** Ascending by date in the string order. */
  predicate SortedByDate(s: seq<Entry>)
  {
    forall i, j :: 0 <= i < j < |s| ==> Le(s[i].date, s[j].date)
  }

  /** The entries of one date, in sequence order. */
  function DateIs(d: string): Entry -> bool
  {
    (e: Entry) => e.date == d
  }

  /** Places `x` after every entry of `s`, counted from the end, whose date
      is not later than the date of `x`: the step of a stable insertion sort. */
  function Insert(s: seq<Entry>, x: Entry): (r: seq<Entry>)
    ensures |r| == |s| + 1
  {
    if s == [] || Le(s[|s| - 1].date, x.date) then s + [x]
    else Insert(s[..|s| - 1], x) + [s[|s| - 1]]
  }

  /** The stable sort by date. */
  function StableSortByDate(s: seq<Entry>): (r: seq<Entry>)
    ensures |r| == |s|
  {
    if s == [] then []
    else Insert(StableSortByDate(s[..|s| - 1]), s[|s| - 1])
  }

  lemma {:induction false} InsertPermutes(s: seq<Entry>, x: Entry)
    ensures multiset(Insert(s, x)) == multiset(s) + multiset{x}
  {
    if s != [] && !Le(s[|s| - 1].date, x.date) {
      assert s == s[..|s| - 1] + [s[|s| - 1]];
      InsertPermutes(s[..|s| - 1], x);
    }
  }

  /** The sort is a permutation of its input. */
  lemma {:induction false} StableSortPermutes(s: seq<Entry>)
    ensures multiset(StableSortByDate(s)) == multiset(s)
  {
    if s != [] {
      assert s == s[..|s| - 1] + [s[|s| - 1]];
      StableSortPermutes(s[..|s| - 1]);
      InsertPermutes(StableSortByDate(s[..|s| - 1]), s[|s| - 1]);
    }
  }

  lemma AllLeLast(s: seq<Entry>)
    requires SortedByDate(s) && s != []
    ensures forall z :: z in s ==> Le(z.date, s[|s| - 1].date)
  {
    LeReflexive(s[|s| - 1].date);
  }

  lemma SortedSnoc(s: seq<Entry>, y: Entry)
    requires SortedByDate(s)
    requires forall z :: z in s ==> Le(z.date, y.date)
    ensures SortedByDate(s + [y])
  {
    var t := s + [y];
    forall i, j | 0 <= i < j < |t| ensures Le(t[i].date, t[j].date) {
      if j < |s| {
        assert t[i] == s[i] && t[j] == s[j];
      } else {
        assert t[i] in s;
      }
    }
  }

  lemma {:induction false} InsertSorted(s: seq<Entry>, x: Entry)
    requires SortedByDate(s)
    ensures SortedByDate(Insert(s, x))
  {
    if s == [] {
    } else {
      var last := s[|s| - 1];
      var init := s[..|s| - 1];
      if Le(last.date, x.date) {
        AllLeLast(s);
        forall z | z in s ensures Le(z.date, x.date) {
          LeTransitive(z.date, last.date, x.date);
        }
        SortedSnoc(s, x);
      } else {
        assert SortedByDate(init) by {
          forall i, j | 0 <= i < j < |init| ensures Le(init[i].date, init[j].date) {
            assert init[i] == s[i] && init[j] == s[j];
          }
        }
        InsertSorted(init, x);
        NotLeIsGreater(last.date, x.date);
        InsertPermutes(init, x);
        forall z | z in Insert(init, x) ensures Le(z.date, last.date) {
          assert z in multiset(Insert(init, x));
          if z != x {
            assert z in init;
            var k :| 0 <= k < |init| && init[k] == z;
            assert s[k] == z;
          }
        }
        SortedSnoc(Insert(init, x), last);
      }
    }
  }

  /** The sort puts the entries in ascending date order. */
  lemma {:induction false} StableSortSorted(s: seq<Entry>)
    ensures SortedByDate(StableSortByDate(s))
  {
    if s != [] {
      StableSortSorted(s[..|s| - 1]);
      InsertSorted(StableSortByDate(s[..|s| - 1]), s[|s| - 1]);
    }
  }

  /** Entries of two different dates never both survive a date filter. */
  lemma SwapSingles(x: Entry, y: Entry, d: string)
    requires x.date != y.date
    ensures Keep([x], DateIs(d)) + Keep([y], DateIs(d)) == Keep([y], DateIs(d)) + Keep([x], DateIs(d))
  {
  }

  /** One unfolding of Insert when the last entry is strictly later than `x`. */
  lemma InsertPast(s: seq<Entry>, x: Entry)
    requires s != [] && !Le(s[|s| - 1].date, x.date)
    ensures Insert(s, x) == Insert(s[..|s| - 1], x) + [s[|s| - 1]]
  {
  }

  /** Sequence arithmetic: two commuting tails can be appended in either order. */
  lemma Rearrange<T>(a: seq<T>, x: seq<T>, l: seq<T>)
    requires x + l == l + x
    ensures a + x + l == a + l + x
  {
    calc {
      a + x + l;
      a + (x + l);
      a + (l + x);
      a + l + x;
    }
  }

  lemma {:induction false} InsertStable(s: seq<Entry>, x: Entry, d: string)
    ensures Keep(Insert(s, x), DateIs(d)) == Keep(s, DateIs(d)) + Keep([x], DateIs(d))
  {
    var p := DateIs(d);
    if s == [] || Le(s[|s| - 1].date, x.date) {
      KeepAppend(s, [x], p);
    } else {
      var last := s[|s| - 1];
      var init := s[..|s| - 1];
      assert s == init + [last];
      LeReflexive(x.date);
      InsertPast(s, x);
      InsertStable(init, x, d);
      KeepAppend(Insert(init, x), [last], p);
      KeepAppend(init, [last], p);
      SwapSingles(x, last, d);
      Rearrange(Keep(init, p), Keep([x], p), Keep([last], p));
    }
  }

  /** Stability: the entries of each date keep their relative order. */
  lemma {:induction false} StableSortStable(s: seq<Entry>, d: string)
    ensures Keep(StableSortByDate(s), DateIs(d)) == Keep(s, DateIs(d))
  {
    if s != [] {
      var init := s[..|s| - 1];
      var last := s[|s| - 1];
      assert s == init + [last];
      StableSortStable(init, d);
      InsertStable(StableSortByDate(init), last, d);
      KeepAppend(init, [last], DateIs(d));
    }
  }

  /** Only the entries of no date at all: the empty sequence. */
  lemma NoDatesIsEmpty(v: seq<Entry>)
    requires forall d :: Keep(v, DateIs(d)) == []
    ensures v == []
  {
    if v != [] {
      KeepComplete(v, DateIs(v[0].date), v[0]);
      assert false;
    }
  }

  lemma InKeep(s: seq<Entry>, d: string, x: Entry)
    requires x in Keep(s, DateIs(d))
    ensures x in s && x.date == d
  {
    assert DateIs(d)(x);
  }

  lemma SortedInit(u: seq<Entry>)
    requires SortedByDate(u) && u != []
    ensures SortedByDate(u[..|u| - 1])
  {
    var u' := u[..|u| - 1];
    forall i, j | 0 <= i < j < |u'| ensures Le(u'[i].date, u'[j].date) {
      assert u'[i] == u[i] && u'[j] == u[j];
    }
  }

  /** Two sorted sequences with the same entries of each date end on the
      same date. */
  lemma SameLastDate(u: seq<Entry>, v: seq<Entry>)
    requires SortedByDate(u) && SortedByDate(v) && u != [] && v != []
    requires forall d :: Keep(u, DateIs(d)) == Keep(v, DateIs(d))
    ensures u[|u| - 1].date == v[|v| - 1].date
  {
    var y, z := u[|u| - 1], v[|v| - 1];
    KeepComplete(v, DateIs(z.date), z);
    assert Keep(u, DateIs(z.date)) == Keep(v, DateIs(z.date));
    InKeep(u, z.date, z);
    KeepComplete(u, DateIs(y.date), y);
    assert Keep(u, DateIs(y.date)) == Keep(v, DateIs(y.date));
    InKeep(v, y.date, y);
    AllLeLast(u);
    AllLeLast(v);
    LeAntisymmetric(y.date, z.date);
  }

  lemma DropLastAt(u': seq<Entry>, v': seq<Entry>, y: Entry, d: string)
    requires Keep(u' + [y], DateIs(d)) == Keep(v' + [y], DateIs(d))
    ensures Keep(u', DateIs(d)) == Keep(v', DateIs(d))
  {
    KeepSnoc(u', y, DateIs(d));
    KeepSnoc(v', y, DateIs(d));
    var ku, kv := Keep(u', DateIs(d)), Keep(v', DateIs(d));
    if y.date == d {
      assert ku + [y] == kv + [y];
      assert ku == (ku + [y])[..|ku|];
      assert kv == (kv + [y])[..|kv|];
    }
  }

  lemma LastOfSameDate(u': seq<Entry>, y: Entry, v': seq<Entry>, z: Entry)
    requires y.date == z.date
    requires Keep(u' + [y], DateIs(y.date)) == Keep(v' + [z], DateIs(y.date))
    ensures y == z
  {
    KeepSnoc(u', y, DateIs(y.date));
    KeepSnoc(v', z, DateIs(y.date));
    var ku, kv := Keep(u', DateIs(y.date)), Keep(v', DateIs(y.date));
    assert DateIs(y.date)(y) && DateIs(y.date)(z);
    assert ku + [y] == kv + [z];
    assert |ku| == |kv|;
    assert (ku + [y])[|ku|] == y;
  }

  /** Dropping last elements of a common date from both sides. */
  lemma DropLastSameDate(u': seq<Entry>, y: Entry, v': seq<Entry>, z: Entry)
    requires y.date == z.date
    requires forall d :: Keep(u' + [y], DateIs(d)) == Keep(v' + [z], DateIs(d))
    ensures y == z
    ensures forall d :: Keep(u', DateIs(d)) == Keep(v', DateIs(d))
  {
    LastOfSameDate(u', y, v', z);
    forall d ensures Keep(u', DateIs(d)) == Keep(v', DateIs(d)) {
      DropLastAt(u', v', y, d);
    }
  }

  /** A sorted sequence is determined by its entries of each date, so every
      stable sort by date gives the same result. */
  lemma {:induction false} StablySortedUnique(u: seq<Entry>, v: seq<Entry>)
    requires SortedByDate(u) && SortedByDate(v)
    requires forall d :: Keep(u, DateIs(d)) == Keep(v, DateIs(d))
    ensures u == v
    decreases |u|
  {
    if u == [] {
      NoDatesIsEmpty(v);
    } else if v == [] {
      NoDatesIsEmpty(u);
    } else {
      var u', y := u[..|u| - 1], u[|u| - 1];
      var v', z := v[..|v| - 1], v[|v| - 1];
      assert u == u' + [y] && v == v' + [z];
      SameLastDate(u, v);
      DropLastSameDate(u', y, v', z);
      SortedInit(u);
      SortedInit(v);
      StablySortedUnique(u', v');
    }
  }

  /** Any sorted sequence that keeps the entries of each date in input order
      is the stable sort of the input. */
  lemma StableSortIsUnique(s: seq<Entry>, u: seq<Entry>)
    requires SortedByDate(u)
    requires forall d :: Keep(u, DateIs(d)) == Keep(s, DateIs(d))
    ensures u == StableSortByDate(s)
  {
    StableSortSorted(s);
    forall d ensures Keep(u, DateIs(d)) == Keep(StableSortByDate(s), DateIs(d)) {
      StableSortStable(s, d);
    }
    StablySortedUnique(u, StableSortByDate(s));
  }

  /** One step of the shifting loop: an entry later than `x` moves right. */
  lemma InsertShift(t: seq<Entry>, j: int, x: Entry)
    requires 0 < j <= |t| && !Le(t[j - 1].date, x.date)
    ensures Insert(t[..j], x) + t[j..] == Insert(t[..j - 1], x) + t[j - 1..]
  {
    assert t[..j][..j - 1] == t[..j - 1];
    assert t[j - 1..] == [t[j - 1]] + t[j..];
  }

  /** The loop stops where `x` belongs. */
  lemma InsertStop(t: seq<Entry>, j: int, x: Entry)
    requires 0 <= j <= |t| && (j == 0 || Le(t[j - 1].date, x.date))
    ensures Insert(t[..j], x) == t[..j] + [x]
  {
    if j > 0 {
      assert t[..j][j - 1] == t[j - 1];
    }
  }

  /** Writing into the hole of a spliced sequence. */
  lemma FillHole(p: seq<Entry>, h: Entry, q: seq<Entry>, r: seq<Entry>, x: Entry)
    ensures (p + [h] + q + r)[|p| := x] == p + [x] + q + r
  {
  }

  /** After a shift the hole has moved one place left. */
  lemma MoveHole(t: seq<Entry>, j: int, h: Entry, r: seq<Entry>)
    requires 0 < j <= |t|
    ensures (t[..j] + [h] + t[j..] + r)[j := t[j - 1]]
            == t[..j - 1] + [t[j - 1]] + t[j - 1..] + r
  {
    FillHole(t[..j], h, t[j..], r, t[j - 1]);
    assert t[..j] == t[..j - 1] + [t[j - 1]];
    assert t[j - 1..] == [t[j - 1]] + t[j..];
  }

  lemma StableSortPrefix(s: seq<Entry>, i: int)
    requires 0 <= i < |s|
    ensures StableSortByDate(s[..i + 1]) == Insert(StableSortByDate(s[..i]), s[i])
  {
    assert s[..i + 1][..i] == s[..i];
  }

  /** Moves `a[i]` left past the entries of `a[..i]` dated later than it,
      shifting each of them one place right. */
  method InsertAt(a: array<Entry>, i: int)
    requires 0 <= i < a.Length
    modifies a
    ensures a[..] == Insert(old(a[..i]), old(a[i])) + old(a[i + 1..])
  {
    var x := a[i];
    ghost var t, rest := a[..i], a[i + 1..];
    assert t[..i] == t && t[i..] == [];
    assert a[..] == t[..i] + [a[i]] + t[i..] + rest;
    var j := i;
    while j > 0 && !Le(a[j - 1].date, x.date)
      invariant 0 <= j <= i
      invariant a[..] == t[..j] + [a[j]] + t[j..] + rest
      invariant Insert(t, x) == Insert(t[..j], x) + t[j..]
    {
      assert a[j - 1] == t[j - 1];
      InsertShift(t, j, x);
      MoveHole(t, j, a[j], rest);
      a[j] := a[j - 1];
      j := j - 1;
    }
    assert j > 0 ==> a[j - 1] == t[j - 1];
    InsertStop(t, j, x);
    FillHole(t[..j], a[j], t[j..], rest, x);
    a[j] := x;
  }

  /** `sort_by_key(|e| e.date.clone())`, as a stable insertion sort in
      place. */
  method SortByDate(a: array<Entry>)
    modifies a
    ensures a[..] == StableSortByDate(old(a[..]))
  {
    ghost var input := a[..];
    var i := 0;
    while i < a.Length
      invariant 0 <= i <= a.Length
      invariant a[..] == StableSortByDate(input[..i]) + input[i..]
    {
      SplitAfter(StableSortByDate(input[..i]), input[i..]);
      InsertAt(a, i);
      StableSortPrefix(input, i);
      i := i + 1;
    }
    assert input[..a.Length] == input;
  }

  /** The pieces of `p + q` that `InsertAt` reads at position `|p|`. */
  lemma SplitAfter(p: seq<Entry>, q: seq<Entry>)
    requires q != []
    ensures (p + q)[..|p|] == p && (p + q)[|p|] == q[0] && (p + q)[|p| + 1..] == q[1..]
  {
  }

  /** The entry `pop` leaves after the sort: the last one. */
  function Latest(s: seq<Entry>): (r: Entry)
    requires s != []
    ensures r in s
  {
    var sorted := StableSortByDate(s);
    StableSortPermutes(s);
    assert sorted[|sorted| - 1] in multiset(sorted);
    sorted[|sorted| - 1]
  }

  /** Collects the entries into a vector, sorts it in place by date and
      pops its last entry; `None` when there is nothing to pop. */
  method PopLatest(s: seq<Entry>) returns (popped: Option<Entry>)
    ensures popped.None? <==> s == []
    ensures popped.Some? ==> popped.value == Latest(s)
  {
    var amis := new Entry[|s|](k requires 0 <= k < |s| => s[k]);
    assert amis[..] == s;
    SortByDate(amis);
    if amis.Length == 0 {
      return None;
    }
    popped := Some(amis[amis.Length - 1]);
  }

  /** Entry `i` has the latest date, and no later entry has that date. */
  predicate IsLatest(s: seq<Entry>, i: int)
  {
    && 0 <= i < |s|
    && (forall j :: 0 <= j < |s| ==> Le(s[j].date, s[i].date))
    && (forall j :: i < j < |s| ==> s[j].date != s[i].date)
  }

  /** At most one position is the latest. */
  lemma IsLatestUnique(s: seq<Entry>, i: int, k: int)
    requires IsLatest(s, i) && IsLatest(s, k)
    ensures i == k
  {
    LeAntisymmetric(s[i].date, s[k].date);
  }

  /** Sort then pop returns an entry of the input with the latest date, and
      among entries sharing that date the one that came last. */
  lemma LatestIsLatest(s: seq<Entry>)
    requires s != []
    ensures exists i :: IsLatest(s, i) && Latest(s) == s[i]
  {
    var t := StableSortByDate(s);
    var y := t[|t| - 1];
    var d := y.date;
    StableSortSorted(s);
    AllLeLast(t);
    StableSortStable(s, d);
    assert t == t[..|t| - 1] + [y];
    KeepSnoc(t[..|t| - 1], y, DateIs(d));
    var i := KeepLast(s, DateIs(d));
    StableSortPermutes(s);
    forall j | 0 <= j < |s| ensures Le(s[j].date, d) {
      assert s[j] in multiset(t);
    }
    assert IsLatest(s, i);
  }

  /** Sorting two entries swaps them only when the first is dated later. */
  lemma SortTwo(a: Entry, b: Entry)
    ensures StableSortByDate([a, b]) == if Le(a.date, b.date) then [a, b] else [b, a]
  {
    assert [a, b][..1] == [a];
    assert [a][..0] == [];
    assert StableSortByDate([a]) == [a];
    assert StableSortByDate([a, b]) == Insert([a], b);
    assert Insert([], b) == [b];
  }

  /** With two different dates the later one is chosen, in either input
      order. */
  lemma LatestOfTwo(a: Entry, b: Entry)
    requires a.date != b.date
    ensures Latest([a, b]) == Latest([b, a]) == if Le(a.date, b.date) then b else a
  {
    SortTwo(a, b);
    SortTwo(b, a);
    LeTotal(a.date, b.date);
    if Le(a.date, b.date) && Le(b.date, a.date) {
      LeAntisymmetric(a.date, b.date);
    }
  }
}
