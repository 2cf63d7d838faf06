/** Lists: sorting as the Go code uses it (paths.PathList.Sort, slices.SortFunc), where the
    result is fixed by being an ordered permutation; mapping, filtering, and lists without
    repetition. */
module Lists {

  ghost predicate TotalOrder<T(!new)>(le: (T, T) -> bool) {
    && (forall x, y :: le(x, y) || le(y, x))
    && (forall x, y :: le(x, y) && le(y, x) ==> x == y)
    && (forall x, y, z :: le(x, y) && le(y, z) ==> le(x, z))
  }

  ghost predicate Sorted<T>(s: seq<T>, le: (T, T) -> bool) {
    forall i, j :: 0 <= i < j < |s| ==> le(s[i], s[j])
  }

  function Insert<T>(x: T, s: seq<T>, le: (T, T) -> bool): seq<T> {
    if s == [] then [x]
    else if le(x, s[0]) then [x] + s
    else [s[0]] + Insert(x, s[1..], le)
  }

  function Sort<T>(s: seq<T>, le: (T, T) -> bool): seq<T> {
    if s == [] then [] else Insert(s[0], Sort(s[1..], le), le)
  }

  lemma {:induction false} InsertPermutes<T>(x: T, s: seq<T>, le: (T, T) -> bool)
    ensures multiset(Insert(x, s, le)) == multiset(s) + multiset{x}
  {
    if s != [] {
      assert s == [s[0]] + s[1..];
      if !le(x, s[0]) { InsertPermutes(x, s[1..], le); }
    }
  }

  lemma {:induction false} InsertSorts<T(!new)>(x: T, s: seq<T>, le: (T, T) -> bool)
    requires forall a, b :: le(a, b) || le(b, a)
    requires forall a, b, c :: le(a, b) && le(b, c) ==> le(a, c)
    requires Sorted(s, le)
    ensures Sorted(Insert(x, s, le), le)
  {
    if s != [] && !le(x, s[0]) {
      InsertSorts(x, s[1..], le);
      InsertPermutes(x, s[1..], le);
      var r := Insert(x, s[1..], le);
      forall i | 0 <= i < |r| ensures le(s[0], r[i]) {
        assert r[i] in multiset(r);
        assert r[i] == x || r[i] in s[1..];
      }
    }
  }

  /** Sorting yields an ordered permutation of its input. */
  lemma {:induction false} SortSorts<T(!new)>(s: seq<T>, le: (T, T) -> bool)
    requires forall a, b :: le(a, b) || le(b, a)
    requires forall a, b, c :: le(a, b) && le(b, c) ==> le(a, c)
    ensures Sorted(Sort(s, le), le)
    ensures multiset(Sort(s, le)) == multiset(s)
  {
    if s != [] {
      SortSorts(s[1..], le);
      InsertSorts(s[0], Sort(s[1..], le), le);
      InsertPermutes(s[0], Sort(s[1..], le), le);
      assert s == [s[0]] + s[1..];
    }
  }

  /** Two ordered permutations of the same multiset are the same list. */
  lemma {:induction false} SortedUnique<T(!new)>(a: seq<T>, b: seq<T>, le: (T, T) -> bool)
    requires TotalOrder(le)
    requires Sorted(a, le) && Sorted(b, le) && multiset(a) == multiset(b)
    ensures a == b
  {
    assert |a| == |multiset(a)| == |multiset(b)| == |b|;
    if a != [] {
      SortedHead(a, b, le);
      assert a == [a[0]] + a[1..] && b == [b[0]] + b[1..];
      assert multiset(a[1..]) == multiset(a) - multiset{a[0]};
      assert multiset(b[1..]) == multiset(b) - multiset{b[0]};
      SortedUnique(a[1..], b[1..], le);
    }
  }

  lemma SortedHead<T(!new)>(a: seq<T>, b: seq<T>, le: (T, T) -> bool)
    requires TotalOrder(le)
    requires a != [] && b != []
    requires Sorted(a, le) && Sorted(b, le) && multiset(a) == multiset(b)
    ensures a[0] == b[0]
  {
    assert a[0] in multiset(b) && b[0] in multiset(a);
    var i :| 0 <= i < |b| && b[i] == a[0];
    var j :| 0 <= j < |a| && a[j] == b[0];
    assert i == 0 || le(b[0], b[i]);
    assert j == 0 || le(a[0], a[j]);
  }

  /** Byte-wise lexicographic order on strings. */
  predicate StringLe(a: string, b: string) {
    if a == "" then true
    else if b == "" then false
    else a[0] < b[0] || (a[0] == b[0] && StringLe(a[1..], b[1..]))
  }

  lemma {:induction false} StringLeOrder(a: string, b: string, c: string)
    ensures StringLe(a, b) || StringLe(b, a)
    ensures StringLe(a, b) && StringLe(b, a) ==> a == b
    ensures StringLe(a, b) && StringLe(b, c) ==> StringLe(a, c)
  {
    if a != "" && b != "" {
      StringLeOrder(a[1..], b[1..], if c == "" then "" else c[1..]);
      if a[0] == b[0] && a[1..] == b[1..] {
        assert a == [a[0]] + a[1..] == b;
      }
    }
  }

  lemma StringLeTotal()
    ensures TotalOrder(StringLe)
  {
    forall a, b, c
      ensures (StringLe(a, b) || StringLe(b, a)) && (StringLe(a, b) && StringLe(b, a) ==> a == b)
      ensures StringLe(a, b) && StringLe(b, c) ==> StringLe(a, c)
    {
      StringLeOrder(a, b, c);
    }
  }

  /** Dictionary order: at the first difference the smaller character decides, and a proper prefix
      comes first. */
  ghost predicate DictionaryBefore(a: string, b: string) {
    exists k :: DiffersAt(a, b, k)
  }

  ghost predicate DiffersAt(a: string, b: string, k: nat) {
    && k <= |a| && k < |b| && a[..k] == b[..k]
    && (k == |a| || a[k] < b[k])
  }

  lemma {:induction false} StringLeIff(a: string, b: string)
    ensures StringLe(a, b) <==> a == b || DictionaryBefore(a, b)
  {
    if a == "" {
      if b != "" { assert DiffersAt(a, b, 0); }
    } else if b != "" {
      StringLeIff(a[1..], b[1..]);
      assert a == [a[0]] + a[1..] && b == [b[0]] + b[1..];
      if a[0] < b[0] {
        assert DiffersAt(a, b, 0);
      } else if a[0] == b[0] {
        TailsDiffer(a, b);
      } else {
        forall k: nat ensures !DiffersAt(a, b, k) {
          SameHead(a, b, k);
        }
      }
    }
  }

  lemma SameHead(a: string, b: string, k: nat)
    ensures DiffersAt(a, b, k) && k > 0 ==> a != "" && a[0] == b[0]
  {
    if DiffersAt(a, b, k) && k > 0 { assert a[..k][0] == b[..k][0]; }
  }

  lemma TailsDiffer(a: string, b: string)
    requires a != "" && b != "" && a[0] == b[0]
    ensures DictionaryBefore(a, b) <==> DictionaryBefore(a[1..], b[1..])
  {
    if k: nat :| DiffersAt(a, b, k) {
      assert k > 0 && a[1..][..k - 1] == a[..k][1..] && b[1..][..k - 1] == b[..k][1..];
      assert DiffersAt(a[1..], b[1..], k - 1);
    }
    if k: nat :| DiffersAt(a[1..], b[1..], k) {
      assert a[..k + 1] == [a[0]] + a[1..][..k] && b[..k + 1] == [b[0]] + b[1..][..k];
      assert DiffersAt(a, b, k + 1);
    }
  }

  /** In dictionary order, equal elements side by side. */
  ghost predicate Ascending(s: seq<string>) {
    forall i, j :: 0 <= i < j < |s| ==> s[i] == s[j] || DictionaryBefore(s[i], s[j])
  }

  lemma SortedAscends(s: seq<string>)
    ensures Sorted(s, StringLe) <==> Ascending(s)
  {
    forall i, j | 0 <= i < j < |s| ensures StringLe(s[i], s[j]) <==> s[i] == s[j] || DictionaryBefore(s[i], s[j]) {
      StringLeIff(s[i], s[j]);
    }
  }

  // ----- lists without repetition under a key

  /** No two elements of the list have the same key. */
  ghost predicate Distinct<K, C>(conv: K -> C, o: seq<K>) {
    forall i, j :: 0 <= i < j < |o| ==> conv(o[i]) != conv(o[j])
  }

  lemma {:induction false} DistinctCount<K, C>(conv: K -> C, o: seq<K>, x: K)
    requires Distinct(conv, o)
    ensures multiset(o)[x] <= 1
  {
    if o != [] {
      var n := |o| - 1;
      DistinctCount(conv, o[..n], x);
      assert o == o[..n] + [o[n]];
      if x == o[n] { assert x !in o[..n]; }
    }
  }

  lemma TwiceCount<K>(p: seq<K>, i: nat, j: nat)
    requires i < j < |p| && p[i] == p[j]
    ensures multiset(p)[p[i]] >= 2
  {
    assert p == p[..j] + ([p[j]] + p[j + 1..]);
    assert p[..j][i] == p[i];
    assert p[i] in multiset(p[..j]);
  }

  lemma PermutedApart<K, C>(conv: K -> C, o: seq<K>, p: seq<K>, i: nat, j: nat)
    requires multiset(p) == multiset(o) && Distinct(conv, o)
    requires i < j < |p|
    ensures conv(p[i]) != conv(p[j])
  {
    assert p[i] in multiset(o) && p[j] in multiset(o);
    var a :| 0 <= a < |o| && o[a] == p[i];
    var b :| 0 <= b < |o| && o[b] == p[j];
    DistinctCount(conv, o, p[i]);
    if p[i] == p[j] { TwiceCount(p, i, j); }
  }

  // ----- mapping a list, and what that does to permutations

  function Map<T, U>(f: T -> U, s: seq<T>): (r: seq<U>)
    ensures |r| == |s|
  {
    if s == [] then [] else [f(s[0])] + Map(f, s[1..])
  }

  lemma {:induction false} MapConcat<T, U>(f: T -> U, a: seq<T>, b: seq<T>)
    ensures Map(f, a + b) == Map(f, a) + Map(f, b)
  {
    if a == [] {
      assert a + b == b;
    } else {
      var s := a + b;
      assert s[0] == a[0] && s[1..] == a[1..] + b;
      MapConcat(f, a[1..], b);
      assert Map(f, s) == [f(a[0])] + (Map(f, a[1..]) + Map(f, b));
    }
  }

  lemma MultisetInsert<T>(a: seq<T>, x: T, b: seq<T>)
    ensures multiset(a + ([x] + b)) == multiset(a + b) + multiset{x}
  {}

  lemma MapInsert<T, U>(f: T -> U, a: seq<T>, x: T, b: seq<T>)
    ensures multiset(Map(f, a + ([x] + b))) == multiset(Map(f, a + b)) + multiset{f(x)}
  {
    MapConcat(f, a, [x] + b);
    MapConcat(f, a, b);
    assert ([x] + b)[1..] == b;
    MultisetInsert(Map(f, a), f(x), Map(f, b));
  }

  lemma Without<T>(s: seq<T>, k: nat)
    requires k < |s|
    ensures multiset(s[..k] + s[k + 1..]) == multiset(s) - multiset{s[k]}
    ensures multiset(s) == multiset(s[..k] + s[k + 1..]) + multiset{s[k]}
  {
    assert s == s[..k] + ([s[k]] + s[k + 1..]);
    MultisetInsert(s[..k], s[k], s[k + 1..]);
  }

  lemma MapHead<T, U>(f: T -> U, s: seq<T>)
    requires s != []
    ensures multiset(Map(f, s)) == multiset(Map(f, s[1..])) + multiset{f(s[0])}
    ensures multiset(s[1..]) == multiset(s) - multiset{s[0]}
  {
    assert s == [s[0]] + s[1..];
  }

  lemma {:induction false} MapPermutes<T, U>(f: T -> U, a: seq<T>, b: seq<T>)
    requires multiset(a) == multiset(b)
    ensures multiset(Map(f, a)) == multiset(Map(f, b))
  {
    if a == [] {
      assert |multiset(b)| == 0;
    } else {
      assert a[0] in multiset(b);
      var k :| 0 <= k < |b| && b[k] == a[0];
      var c, d := b[..k], b[k + 1..];
      assert b == c + ([a[0]] + d);
      MapInsert(f, c, a[0], d);
      Without(b, k);
      MapHead(f, a);
      MapPermutes(f, a[1..], c + d);
    }
  }

  // ----- filtering a list

  function Filter<T>(s: seq<T>, keep: T -> bool): seq<T> {
    if s == [] then []
    else Filter(s[..|s| - 1], keep) + if keep(s[|s| - 1]) then [s[|s| - 1]] else []
  }

  lemma {:induction false} FilterConcat<T>(a: seq<T>, b: seq<T>, keep: T -> bool)
    ensures Filter(a + b, keep) == Filter(a, keep) + Filter(b, keep)
  {
    if b == [] {
      assert a + b == a;
    } else {
      FilterConcat(a, b[..|b| - 1], keep);
      assert (a + b)[..|a + b| - 1] == a + b[..|b| - 1];
    }
  }

  lemma {:induction false} FilterCount<T>(s: seq<T>, keep: T -> bool, x: T)
    ensures multiset(Filter(s, keep))[x] == if keep(x) then multiset(s)[x] else 0
  {
    if s != [] {
      var n := |s| - 1;
      FilterCount(s[..n], keep, x);
      assert s == s[..n] + [s[n]];
    }
  }

  lemma {:induction false} FilterDistinct<T>(s: seq<T>, keep: T -> bool)
    requires forall i, j :: 0 <= i < j < |s| ==> s[i] != s[j]
    ensures var r := Filter(s, keep);
      forall i, j :: 0 <= i < j < |r| ==> r[i] != r[j]
  {
    if s != [] {
      var n := |s| - 1;
      FilterDistinct(s[..n], keep);
      var r := Filter(s[..n], keep);
      forall i | 0 <= i < |r| ensures r[i] != s[n] {
        FilterCount(s[..n], keep, r[i]);
        assert r[i] in multiset(r);
        assert r[i] in s[..n];
      }
    }
  }

  lemma CountSnoc<T>(s: seq<T>, x: T, y: T)
    ensures multiset(s + [x])[y] == multiset(s)[y] + if x == y then 1 else 0
  {}
}
