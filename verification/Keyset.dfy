/**
  ORDER BY ... LIMIT and keyset cursors over a finite set of keys, for any strict
  total order: pages that resume strictly after the last key seen enumerate the
  sorted set, each key once.
 */
module Keyset {
  ghost predicate StrictTotal<K(!new)>(less: (K, K) -> bool) {
    && (forall x :: !less(x, x))
    && (forall x, y, z :: less(x, y) && less(y, z) ==> less(x, z))
    && (forall x, y :: x != y ==> less(x, y) || less(y, x))
  }

  predicate IsMin<K>(less: (K, K) -> bool, s: set<K>, m: K) {
    m in s && forall x :: x in s ==> x == m || less(m, x)
  }

  lemma MinExists<K(!new)>(less: (K, K) -> bool, s: set<K>)
    requires StrictTotal(less) && s != {}
    ensures exists m :: IsMin(less, s, m)
  {
    var y :| y in s;
    if s == {y} {
      assert IsMin(less, s, y);
    } else {
      var rest := s - {y};
      MinExists(less, rest);
      var m :| IsMin(less, rest, m);
      assert forall x :: x in s ==> x == y || x in rest;
      if less(y, m) {
        assert forall x :: x in rest ==> less(y, x);
        assert IsMin(less, s, y);
      } else {
        assert less(m, y);
        assert IsMin(less, s, m);
      }
    }
  }

  function Min<K(!new)>(less: (K, K) -> bool, s: set<K>): (m: K)
    requires StrictTotal(less) && s != {}
    ensures IsMin(less, s, m)
  {
    MinExists(less, s);
    var m :| IsMin(less, s, m);
    m
  }

  /** SELECT ... ORDER BY less LIMIT n. */
  function Page<K(!new)>(less: (K, K) -> bool, s: set<K>, n: nat): (p: seq<K>)
    requires StrictTotal(less)
    decreases n
  {
    if n == 0 || s == {} then []
    else
      var m := Min(less, s);
      [m] + Page(less, s - {m}, n - 1)
  }

  function Sorted<K(!new)>(less: (K, K) -> bool, s: set<K>): seq<K>
    requires StrictTotal(less)
  {
    Page(less, s, |s|)
  }

  /** Rows strictly past a cursor. */
  function Past<K(!new)>(less: (K, K) -> bool, s: set<K>, c: K): set<K> {
    set x | x in s && less(c, x)
  }

  /** A page is a prefix of the sorted set. */
  lemma {:induction false} PageIsPrefix<K(!new)>(less: (K, K) -> bool, s: set<K>, n: nat)
    requires StrictTotal(less)
    ensures |Sorted(less, s)| == |s|
    ensures Page(less, s, n) == Sorted(less, s)[..if n < |s| then n else |s|]
    decreases |s|
  {
    if s != {} {
      var m := Min(less, s);
      assert |s - {m}| == |s| - 1;
      PageIsPrefix(less, s - {m}, if n == 0 then 0 else n - 1);
      assert Sorted(less, s) == [m] + Sorted(less, s - {m});
    }
  }

  lemma SortedCons<K(!new)>(less: (K, K) -> bool, s: set<K>)
    requires StrictTotal(less) && s != {}
    ensures Sorted(less, s) == [Min(less, s)] + Sorted(less, s - {Min(less, s)})
  {
    assert |s - {Min(less, s)}| == |s| - 1;
  }

  /** The sorted set lists exactly the keys. */
  lemma {:induction false} SortedMembers<K(!new)>(less: (K, K) -> bool, s: set<K>)
    requires StrictTotal(less)
    ensures |Sorted(less, s)| == |s|
    ensures forall x :: x in Sorted(less, s) <==> x in s
    decreases |s|
  {
    if s != {} {
      SortedCons(less, s);
      SortedMembers(less, s - {Min(less, s)});
    }
  }

  /** Strictly ascending, so every key once. */
  lemma {:induction false} SortedAscends<K(!new)>(less: (K, K) -> bool, s: set<K>)
    requires StrictTotal(less)
    ensures forall i, j :: 0 <= i < j < |Sorted(less, s)| ==> less(Sorted(less, s)[i], Sorted(less, s)[j])
    decreases |s|
  {
    if s != {} {
      var m := Min(less, s);
      var rest := s - {m};
      SortedCons(less, s);
      SortedMembers(less, rest);
      SortedAscends(less, rest);
      var t := Sorted(less, rest);
      forall j | 0 <= j < |t|
        ensures less(m, t[j])
      {
        assert t[j] in rest;
      }
    }
  }

  /** Rows past a key that the minimum precedes are rows of the rest. */
  lemma PastSkipsMin<K(!new)>(less: (K, K) -> bool, s: set<K>, m: K, c: K)
    requires StrictTotal(less) && IsMin(less, s, m) && c in s
    ensures Past(less, s, c) == Past(less, s - {m}, c)
  {
    assert !less(c, m);
  }

  lemma PastMin<K(!new)>(less: (K, K) -> bool, s: set<K>, m: K)
    requires StrictTotal(less) && IsMin(less, s, m)
    ensures Past(less, s, m) == s - {m}
  {}

  /** An ascending list of exactly the keys is the sorted set. */
  lemma {:induction false} SortedIs<K(!new)>(less: (K, K) -> bool, s: set<K>, list: seq<K>)
    requires StrictTotal(less) && (forall x :: x in list <==> x in s)
    requires forall i, j :: 0 <= i < j < |list| ==> less(list[i], list[j])
    ensures Sorted(less, s) == list
    decreases |list|
  {
    if list == [] {
      assert s == {};
    } else {
      var m, tail := list[0], list[1..];
      assert list == [m] + tail;
      assert m in list;
      LeastIsMin(less, s, list);
      forall x | x in tail
        ensures x != m
      {
        var i :| 0 <= i < |tail| && tail[i] == x;
        assert less(list[0], list[i + 1]);
      }
      SortedIs(less, s - {m}, tail);
      SortedCons(less, s);
    }
  }

  lemma LeastIsMin<K(!new)>(less: (K, K) -> bool, s: set<K>, list: seq<K>)
    requires StrictTotal(less) && list != [] && (forall x :: x in list <==> x in s)
    requires forall i, j :: 0 <= i < j < |list| ==> less(list[i], list[j])
    ensures s != {} && Min(less, s) == list[0]
  {
    assert list[0] in s;
    var m := Min(less, s);
    var i :| 0 <= i < |list| && list[i] == m;
  }

  /** What lies past the k-th key is the rest of the sorted set. */
  lemma {:induction false} PastIsSuffix<K(!new)>(less: (K, K) -> bool, s: set<K>, k: nat)
    requires StrictTotal(less) && 0 < k <= |s|
    ensures |Sorted(less, s)| == |s|
    ensures Sorted(less, Past(less, s, Sorted(less, s)[k - 1])) == Sorted(less, s)[k..]
    decreases k
  {
    var m := Min(less, s);
    var rest := s - {m};
    SortedCons(less, s);
    SortedMembers(less, s);
    var all, tail := Sorted(less, s), Sorted(less, rest);
    if k == 1 {
      PastMin(less, s, m);
    } else {
      assert all[k - 1] == tail[k - 2] && all[k - 1] in all;
      PastIsSuffix(less, rest, k - 1);
      PastSkipsMin(less, s, m, all[k - 1]);
    }
  }

  /** Every key is among the first k or past the k-th. */
  lemma PastCovers<K(!new)>(less: (K, K) -> bool, s: set<K>, k: nat)
    requires StrictTotal(less) && 0 < k <= |s|
    ensures |Sorted(less, s)| == |s|
    ensures forall x :: x in s ==> x in Sorted(less, s)[..k] || x in Past(less, s, Sorted(less, s)[k - 1])
    ensures |Past(less, s, Sorted(less, s)[k - 1])| == |s| - k
  {
    SortedMembers(less, s);
    var all := Sorted(less, s);
    var past := Past(less, s, all[k - 1]);
    PastIsSuffix(less, s, k);
    SortedMembers(less, past);
    assert all == all[..k] + all[k..];
  }

  /** The page that resumes after the k-th key is the next slice of the sorted set. */
  lemma NextSlice<K(!new)>(less: (K, K) -> bool, s: set<K>, k: nat, n: nat)
    requires StrictTotal(less) && 0 < k <= |s|
    ensures |Sorted(less, s)| == |s|
    ensures Page(less, Past(less, s, Sorted(less, s)[k - 1]), n)
         == Sorted(less, s)[k..if k + n < |s| then k + n else |s|]
  {
    SortedMembers(less, s);
    var all := Sorted(less, s);
    var past := Past(less, s, all[k - 1]);
    PastIsSuffix(less, s, k);
    PageIsPrefix(less, past, n);
    assert |past| == |s| - k;
  }

  /** A row past the cursor is on the next page, or the page is full and the row lies past its end. */
  lemma PageReaches<K(!new)>(less: (K, K) -> bool, s: set<K>, c: K, n: nat, x: K)
    requires StrictTotal(less) && x in s && less(c, x) && n > 0
    ensures var page := Page(less, Past(less, s, c), n);
      x in page || (|page| == n && less(page[n - 1], x))
  {
    var todo := Past(less, s, c);
    PageIsPrefix(less, todo, n);
    SortedMembers(less, todo);
    var all := Sorted(less, todo);
    assert x in all;
    var i :| 0 <= i < |all| && all[i] == x;
    if i < n {
      assert Page(less, todo, n)[i] == x;
    } else {
      SortedAscends(less, todo);
    }
  }

  /** A page holds only rows past its cursor, and at most n of them. */
  lemma PageSound<K(!new)>(less: (K, K) -> bool, s: set<K>, c: K, n: nat)
    requires StrictTotal(less)
    ensures |Page(less, Past(less, s, c), n)| <= n
    ensures forall x :: x in Page(less, Past(less, s, c), n) ==> x in s && less(c, x)
  {
    var todo := Past(less, s, c);
    PageIsPrefix(less, todo, n);
    SortedMembers(less, todo);
    forall x | x in Page(less, todo, n)
      ensures x in todo
    {
      assert x in Sorted(less, todo);
    }
  }

  /** A full page moves the cursor on: fewer rows remain, and none is skipped. */
  lemma PageAdvances<K(!new)>(less: (K, K) -> bool, s: set<K>, c: K, n: nat)
    requires StrictTotal(less) && n > 0 && |Page(less, Past(less, s, c), n)| == n
    ensures var page := Page(less, Past(less, s, c), n);
      && less(c, page[n - 1])
      && (forall x :: x in page ==> x == page[n - 1] || less(x, page[n - 1]))
      && Past(less, s, page[n - 1]) <= Past(less, s, c)
      && |Past(less, s, page[n - 1])| < |Past(less, s, c)|
  {
    var todo := Past(less, s, c);
    PageIsPrefix(less, todo, n);
    SortedMembers(less, todo);
    SortedAscends(less, todo);
    var all := Sorted(less, todo);
    var last := all[n - 1];
    assert last in all;
    assert Past(less, s, last) == Past(less, todo, last);
    PastCovers(less, todo, n);
  }

  // ---- String order -------------------------------------------------------------

  /** Bytewise string comparison. */
  predicate Before(a: string, b: string) {
    if b == "" then false
    else if a == "" then true
    else a[0] < b[0] || (a[0] == b[0] && Before(a[1..], b[1..]))
  }

  lemma {:induction false} BeforeTransitive(a: string, b: string, c: string)
    requires Before(a, b) && Before(b, c)
    ensures Before(a, c)
  {
    if a != "" && a[0] == b[0] && b[0] == c[0] {
      BeforeTransitive(a[1..], b[1..], c[1..]);
    }
  }

  lemma {:induction false} BeforeConnected(a: string, b: string)
    requires a != b
    ensures Before(a, b) || Before(b, a)
  {
    if a != "" && b != "" && a[0] == b[0] {
      assert a == [a[0]] + a[1..] && b == [b[0]] + b[1..];
      BeforeConnected(a[1..], b[1..]);
    }
  }

  lemma {:induction false} BeforeIrreflexive(a: string)
    ensures !Before(a, a)
  {
    if a != "" {
      BeforeIrreflexive(a[1..]);
    }
  }

  /** The order is decided at the first difference, or by length when there is none. */
  ghost predicate DiffersAt(a: string, b: string, k: nat) {
    k <= |a| && k < |b| && a[..k] == b[..k] && (k == |a| || a[k] < b[k])
  }

  lemma {:induction false} BeforeMeans(a: string, b: string)
    ensures Before(a, b) <==> exists k: nat :: DiffersAt(a, b, k)
  {
    if a == "" || b == "" {
      assert b != "" ==> DiffersAt("", b, 0);
    } else if a[0] == b[0] {
      BeforeMeans(a[1..], b[1..]);
      if k: nat :| DiffersAt(a[1..], b[1..], k) {
        assert a[..k + 1] == [a[0]] + a[1..][..k] && b[..k + 1] == [b[0]] + b[1..][..k];
        assert DiffersAt(a, b, k + 1);
      }
      if k: nat :| DiffersAt(a, b, k) {
        assert k > 0;
        assert a[1..][..k - 1] == a[..k][1..] == b[..k][1..] == b[1..][..k - 1];
        assert DiffersAt(a[1..], b[1..], k - 1);
      }
    } else {
      assert a[0] < b[0] ==> DiffersAt(a, b, 0);
      if k: nat :| k > 0 && DiffersAt(a, b, k) {
        SameFirst(a, b, k);
      }
    }
  }

  lemma SameFirst(a: string, b: string, k: nat)
    requires k > 0 && DiffersAt(a, b, k)
    ensures a != "" && a[0] == b[0]
  {
    assert a[..k][0] == b[..k][0];
  }

  lemma {:induction false} BeforeUnderPrefix(p: string, a: string, b: string)
    requires Before(a, b)
    ensures Before(p + a, p + b)
  {
    if p == "" {
      assert p + a == a && p + b == b;
    } else {
      BeforeUnderPrefix(p[1..], a, b);
      SplitFirst(p, a);
      SplitFirst(p, b);
      BeforeCons(p[0], p[1..] + a, p[1..] + b);
    }
  }

  lemma SplitFirst(p: string, a: string)
    requires p != ""
    ensures p + a == [p[0]] + (p[1..] + a)
  {}

  lemma BeforeCons(c: char, x: string, y: string)
    requires Before(x, y)
    ensures Before([c] + x, [c] + y)
  {
    assert ([c] + x)[1..] == x && ([c] + y)[1..] == y;
  }

  lemma BeforeIsStrictTotal()
    ensures StrictTotal(Before)
  {
    forall a
      ensures !Before(a, a)
    {
      BeforeIrreflexive(a);
    }
    forall a, b, c | Before(a, b) && Before(b, c)
      ensures Before(a, c)
    {
      BeforeTransitive(a, b, c);
    }
    forall a: string, b: string | a != b
      ensures Before(a, b) || Before(b, a)
    {
      BeforeConnected(a, b);
    }
  }
}
