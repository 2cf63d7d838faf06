/** The insertion-ordered map: a hash map plus the list of keys in order. Keys are compared
    through a conversion function. */
module OrderedMap {
  import opened Wrappers
  import opened Lists

  ghost predicate Corresponds<K, V, C>(conv: K -> C, kv: map<C, V>, o: seq<K>) {
    && (forall i :: 0 <= i < |o| ==> conv(o[i]) in kv)
    && (forall c :: c in kv ==> exists i :: 0 <= i < |o| && conv(o[i]) == c)
  }

  ghost function Converted<K, C>(conv: K -> C, o: seq<K>): set<C> {
    set i | 0 <= i < |o| :: conv(o[i])
  }

  /** The keys of the list that do not convert into `gone`, in order. */
  ghost function Minus<K, C>(conv: K -> C, o: seq<K>, gone: set<C>): seq<K> {
    if o == [] then []
    else Minus(conv, o[..|o| - 1], gone) + if conv(o[|o| - 1]) in gone then [] else [o[|o| - 1]]
  }

  /** Keys after merging a source with keys `src`: the old keys not in the source, then the
      source's keys in their order. */
  ghost function MergedKeys<K, C>(conv: K -> C, o: seq<K>, src: seq<K>): seq<K> {
    Minus(conv, o, Converted(conv, src)) + src
  }

  /** The values in key order. */
  ghost function ValueList<K, V, C>(conv: K -> C, kv: map<C, V>, o: seq<K>): (r: seq<V>)
    requires forall i :: 0 <= i < |o| ==> conv(o[i]) in kv
    ensures |r| == |o|
  {
    seq(|o|, i requires 0 <= i < |o| => kv[conv(o[i])])
  }

  /** Values after merging: the source's win. */
  ghost function MergedValues<K, V, C>(conv: K -> C, kv: map<C, V>, src: seq<K>, vals: seq<V>): map<C, V>
    requires |src| == |vals|
  {
    if src == [] then kv
    else
      var n := |src| - 1;
      MergedValues(conv, kv, src[..n], vals[..n])[conv(src[n]) := vals[n]]
  }

  lemma {:induction false} MinusConcat<K, C>(conv: K -> C, a: seq<K>, b: seq<K>, gone: set<C>)
    ensures Minus(conv, a + b, gone) == Minus(conv, a, gone) + Minus(conv, b, gone)
  {
    if b == [] {
      assert a + b == a;
    } else {
      var n := |b| - 1;
      MinusConcat(conv, a, b[..n], gone);
      assert (a + b)[..|a + b| - 1] == a + b[..n];
    }
  }

  lemma {:induction false} MinusTwice<K, C>(conv: K -> C, o: seq<K>, a: set<C>, b: set<C>)
    ensures Minus(conv, Minus(conv, o, a), b) == Minus(conv, o, a + b)
  {
    if o != [] {
      var n := |o| - 1;
      MinusTwice(conv, o[..n], a, b);
      if conv(o[n]) !in a {
        MinusConcat(conv, Minus(conv, o[..n], a), [o[n]], b);
        assert [o[n]][..0] == [];
        assert Minus(conv, [o[n]], b) == if conv(o[n]) in b then [] else [o[n]];
      } else {
        assert Minus(conv, o, a) == Minus(conv, o[..n], a);
      }
    }
  }

  lemma {:induction false} MinusNone<K, C>(conv: K -> C, o: seq<K>, gone: set<C>)
    requires forall i :: 0 <= i < |o| ==> conv(o[i]) !in gone
    ensures Minus(conv, o, gone) == o
  {
    if o != [] { MinusNone(conv, o[..|o| - 1], gone); }
  }

  lemma {:induction false} MinusAll<K, C>(conv: K -> C, o: seq<K>, gone: set<C>)
    requires forall i :: 0 <= i < |o| ==> conv(o[i]) in gone
    ensures Minus(conv, o, gone) == []
  {
    if o != [] { MinusAll(conv, o[..|o| - 1], gone); }
  }

  /** What is left is exactly the keys outside `gone`. */
  lemma {:induction false} MinusHas<K, C>(conv: K -> C, o: seq<K>, gone: set<C>, k: K)
    ensures k in Minus(conv, o, gone) <==> k in o && conv(k) !in gone
  {
    if o != [] { MinusHas(conv, o[..|o| - 1], gone, k); }
  }

  lemma {:induction false} MinusDistinct<K, C>(conv: K -> C, o: seq<K>, gone: set<C>)
    requires Distinct(conv, o)
    ensures Distinct(conv, Minus(conv, o, gone))
  {
    if o != [] {
      var n := |o| - 1;
      MinusDistinct(conv, o[..n], gone);
      var r := Minus(conv, o[..n], gone);
      forall i | 0 <= i < |r| ensures conv(r[i]) != conv(o[n]) {
        MinusHas(conv, o[..n], gone, r[i]);
      }
    }
  }

  /** Merging a map into itself changes nothing. */
  lemma MergeSelf<K, V, C>(conv: K -> C, kv: map<C, V>, o: seq<K>)
    requires Distinct(conv, o) && Corresponds(conv, kv, o)
    ensures MergedKeys(conv, o, o) == o
    ensures MergedValues(conv, kv, o, ValueList(conv, kv, o)) == kv
  {
    MinusAll(conv, o, Converted(conv, o));
    MergeSelfValues(conv, kv, o);
  }

  lemma {:induction false} MergeSelfValues<K, V, C>(conv: K -> C, kv: map<C, V>, o: seq<K>)
    requires forall i :: 0 <= i < |o| ==> conv(o[i]) in kv
    ensures MergedValues(conv, kv, o, ValueList(conv, kv, o)) == kv
  {
    if o != [] {
      var n := |o| - 1;
      MergeSelfValues(conv, kv, o[..n]);
      assert ValueList(conv, kv, o)[..n] == ValueList(conv, kv, o[..n]);
      assert kv[conv(o[n]) := kv[conv(o[n])]] == kv;
    }
  }

  lemma ConvertedSnoc<K, C>(conv: K -> C, src: seq<K>, k: K)
    ensures Converted(conv, src + [k]) == Converted(conv, src) + {conv(k)}
  {
    var all := src + [k];
    assert all[|src|] == k;
    forall c | c in Converted(conv, src) ensures c in Converted(conv, all) {
      var i :| 0 <= i < |src| && conv(src[i]) == c;
      assert all[i] == src[i];
    }
    forall c | c in Converted(conv, all) ensures c in Converted(conv, src) + {conv(k)} {
      var i :| 0 <= i < |all| && conv(all[i]) == c;
      if i < |src| { assert all[i] == src[i]; }
    }
  }

  /** What a merged map holds: a source key has the source's value, any other key the old one. */
  lemma {:induction false} MergedLookup<K, V, C>(conv: K -> C, kv: map<C, V>, src: seq<K>, vals: seq<V>)
    requires |src| == |vals| && Distinct(conv, src)
    ensures var r := MergedValues(conv, kv, src, vals);
      && r.Keys == kv.Keys + Converted(conv, src)
      && (forall i :: 0 <= i < |src| ==> r[conv(src[i])] == vals[i])
      && (forall c :: c in kv && c !in Converted(conv, src) ==> r[c] == kv[c])
  {
    if src != [] {
      var n := |src| - 1;
      MergedLookup(conv, kv, src[..n], vals[..n]);
      assert src == src[..n] + [src[n]];
      ConvertedSnoc(conv, src[..n], src[n]);
      forall i | 0 <= i < n ensures src[..n][i] == src[i] && conv(src[i]) != conv(src[n]) {}
    }
  }

  lemma MergedDistinct<K, C>(conv: K -> C, o: seq<K>, src: seq<K>)
    requires Distinct(conv, o) && Distinct(conv, src)
    ensures Distinct(conv, MergedKeys(conv, o, src))
  {
    var left := Minus(conv, o, Converted(conv, src));
    MinusDistinct(conv, o, Converted(conv, src));
    forall i, j | 0 <= i < |left| && 0 <= j < |src| ensures conv(left[i]) != conv(src[j]) {
      MinusHas(conv, o, Converted(conv, src), left[i]);
    }
  }

  /** One more source key: taken out where it stood and appended. */
  lemma MergedKeysStep<K, C>(conv: K -> C, o: seq<K>, src: seq<K>, k: K)
    requires Distinct(conv, src + [k])
    ensures Minus(conv, MergedKeys(conv, o, src), {conv(k)}) + [k] == MergedKeys(conv, o, src + [k])
  {
    var gone := Converted(conv, src);
    ConvertedSnoc(conv, src, k);
    MinusConcat(conv, Minus(conv, o, gone), src, {conv(k)});
    MinusTwice(conv, o, gone, {conv(k)});
    forall i | 0 <= i < |src| ensures conv(src[i]) != conv(k) {
      assert (src + [k])[i] == src[i] && (src + [k])[|src|] == k;
    }
    MinusNone(conv, src, {conv(k)});
  }

  class Map<K(!new), V, C(==)> {
    const conv: K -> C
    var kv: map<C, V>
    var o: seq<K>

    /** `o` is duplicate-free under the conversion and in one-to-one correspondence with `kv`. */
    ghost predicate Valid()
      reads this
    {
      Distinct(conv, o) && Corresponds(conv, kv, o)
    }

    constructor (conv: K -> C)
      ensures Valid() && this.conv == conv && kv == map[] && o == []
    {
      this.conv := conv;
      kv := map[];
      o := [];
    }

    function GetOk(key: K): Option<V>
      reads this
    {
      if conv(key) in kv then Some(kv[conv(key)]) else None
    }

    function Size(): nat
      reads this
    {
      |kv|
    }

    /** The key disappears from wherever it stood; nothing else moves. */
    method Remove(key: K)
      requires Valid()
      modifies this
      ensures Valid()
      ensures o == Minus(conv, old(o), {conv(key)})
      ensures kv == old(kv) - {conv(key)}
    {
      var compKey := conv(key);
      kv := kv - {compKey};
      for i := 0 to |o|
        invariant o == old(o)
        invariant forall j :: 0 <= j < i ==> conv(o[j]) != compKey
      {
        if conv(o[i]) == compKey {
          o := o[..i] + o[i + 1..];
          RemovedAt(conv, old(kv), old(o), i);
          return;
        }
      }
      MinusNone(conv, o, {compKey});
    }

    /** The key ends up last, with the new value. */
    method Set(key: K, value: V)
      requires Valid()
      modifies this
      ensures Valid()
      ensures o == Minus(conv, old(o), {conv(key)}) + [key]
      ensures kv == old(kv)[conv(key) := value]
    {
      var compKey := conv(key);
      if compKey in kv {
        Remove(key);
      } else {
        MinusNone(conv, o, {compKey});
      }
      AppendedIsValid(conv, kv, o, key, value);
      kv := kv[compKey := value];
      o := o + [key];
    }

    method Keys() returns (keys: seq<K>)
      ensures keys == o
    {
      keys := o;
    }

    ghost function Contents(): seq<V>
      requires Valid()
      reads this
    {
      ValueList(conv, kv, o)
    }

    method Values() returns (values: seq<V>)
      requires Valid()
      ensures values == Contents()
    {
      values := [];
      for i := 0 to |o|
        invariant |values| == i
        invariant forall j :: 0 <= j < i ==> values[j] == kv[conv(o[j])]
      {
        values := values + [kv[conv(o[i])]];
      }
    }

    /** Merge of one source, which may be this very map. */
    method Merge(source: Map<K, V, C>)
      requires Valid() && source.Valid() && Distinct(conv, source.o)
      modifies this
      ensures Valid()
      ensures o == MergedKeys(conv, old(o), old(source.o))
      ensures kv == MergedValues(conv, old(kv), old(source.o), old(source.Contents()))
    {
      ghost var skv, vals := source.kv, source.Contents();
      var keys := source.Keys();
      MergeNothing(conv, old(o), old(kv), keys, vals);
      for i := 0 to |keys|
        invariant Valid() && source.kv == skv
        invariant o == MergedKeys(conv, old(o), keys[..i])
        invariant kv == MergedValues(conv, old(kv), keys[..i], vals[..i])
      {
        MergeOneMore(conv, old(o), old(kv), keys, vals, i);
        var v := source.GetOk(keys[i]).value;
        assert v == vals[i];
        Set(keys[i], v);
        if source == this { assert skv[conv(keys[i]) := v] == skv; }
      }
      assert keys[..|keys|] == keys && vals[..|keys|] == vals;
    }

    /** An equal map that shares nothing with this one. */
    method Clone() returns (clone: Map<K, V, C>)
      requires Valid()
      ensures fresh(clone) && clone.Valid() && clone.conv == conv
      ensures clone.o == o && clone.kv == kv
    {
      clone := new Map(conv);
      clone.Merge(this);
      CloneIsEqual(conv, kv, o);
    }

    /** Sorting permutes the keys and leaves the values alone. */
    method SortKeys(le: (K, K) -> bool)
      requires Valid()
      requires forall x, y :: le(x, y) || le(y, x)
      requires forall x, y, z :: le(x, y) && le(y, z) ==> le(x, z)
      modifies this`o
      ensures multiset(o) == multiset(old(o)) && Sorted(o, le)
      ensures Valid()
    {
      SortSorts(o, le);
      o := Sort(o, le);
      PermutedIsValid(conv, kv, old(o), o);
    }

  }

  lemma AppendedIsValid<K, V, C>(conv: K -> C, kv: map<C, V>, o: seq<K>, key: K, value: V)
    requires Distinct(conv, o) && Corresponds(conv, kv, o) && conv(key) !in kv
    ensures Distinct(conv, o + [key]) && Corresponds(conv, kv[conv(key) := value], o + [key])
  {
    var all, kv' := o + [key], kv[conv(key) := value];
    assert all[|o|] == key;
    forall c | c in kv' ensures exists i :: 0 <= i < |all| && conv(all[i]) == c {
      if c != conv(key) {
        var i :| 0 <= i < |o| && conv(o[i]) == c;
        assert all[i] == o[i];
      }
    }
  }

  lemma MergeNothing<K, V, C>(conv: K -> C, o: seq<K>, kv: map<C, V>, keys: seq<K>, vals: seq<V>)
    requires |keys| == |vals|
    ensures MergedKeys(conv, o, keys[..0]) == o
    ensures MergedValues(conv, kv, keys[..0], vals[..0]) == kv
  {
    assert Converted(conv, keys[..0]) == {};
    MinusNone(conv, o, {});
  }

  lemma MergeOneMore<K, V, C>(conv: K -> C, o: seq<K>, kv: map<C, V>, keys: seq<K>, vals: seq<V>, i: nat)
    requires i < |keys| == |vals| && Distinct(conv, keys)
    ensures MergedKeys(conv, o, keys[..i + 1]) == Minus(conv, MergedKeys(conv, o, keys[..i]), {conv(keys[i])}) + [keys[i]]
    ensures MergedValues(conv, kv, keys[..i + 1], vals[..i + 1])
         == MergedValues(conv, kv, keys[..i], vals[..i])[conv(keys[i]) := vals[i]]
  {
    assert keys[..i + 1] == keys[..i] + [keys[i]];
    MergedKeysStep(conv, o, keys[..i], keys[i]);
    assert keys[..i + 1][..i] == keys[..i] && vals[..i + 1][..i] == vals[..i];
  }

  lemma RemovedAt<K, V, C>(conv: K -> C, kv: map<C, V>, o: seq<K>, i: nat)
    requires i < |o|
    requires Distinct(conv, o) && Corresponds(conv, kv, o)
    ensures o[..i] + o[i + 1..] == Minus(conv, o, {conv(o[i])})
    ensures Distinct(conv, o[..i] + o[i + 1..])
    ensures Corresponds(conv, kv - {conv(o[i])}, o[..i] + o[i + 1..])
  {
    RemovedAtIsMinus(conv, o, i);
    MinusDistinct(conv, o, {conv(o[i])});
    RemovedCorresponds(conv, kv, o, conv(o[i]));
  }

  lemma RemovedCorresponds<K, V, C>(conv: K -> C, kv: map<C, V>, o: seq<K>, c: C)
    requires Corresponds(conv, kv, o)
    ensures Corresponds(conv, kv - {c}, Minus(conv, o, {c}))
  {
    var r := Minus(conv, o, {c});
    forall i | 0 <= i < |r| ensures conv(r[i]) in kv - {c} {
      MinusHas(conv, o, {c}, r[i]);
    }
    forall d | d in kv - {c} ensures exists j :: 0 <= j < |r| && conv(r[j]) == d {
      var j :| 0 <= j < |o| && conv(o[j]) == d;
      MinusHas(conv, o, {c}, o[j]);
      var k :| 0 <= k < |r| && r[k] == o[j];
    }
  }

  lemma {:induction false} RemovedAtIsMinus<K, C>(conv: K -> C, o: seq<K>, i: nat)
    requires i < |o| && Distinct(conv, o)
    ensures o[..i] + o[i + 1..] == Minus(conv, o, {conv(o[i])})
  {
    var n := |o| - 1;
    if i == n {
      MinusNone(conv, o[..n], {conv(o[n])});
    } else {
      RemovedAtIsMinus(conv, o[..n], i);
      assert o[..i] + o[i + 1..] == o[..n][..i] + o[..n][i + 1..] + [o[n]];
    }
  }

  lemma CloneIsEqual<K, V, C>(conv: K -> C, kv: map<C, V>, o: seq<K>)
    requires Distinct(conv, o) && Corresponds(conv, kv, o)
    ensures MergedKeys(conv, [], o) == o
    ensures MergedValues(conv, map[], o, ValueList(conv, kv, o)) == kv
  {
    CloneValues(conv, kv, o, MergedValues(conv, map[], o, ValueList(conv, kv, o)));
  }

  lemma CloneValues<K, V, C>(conv: K -> C, kv: map<C, V>, o: seq<K>, r: map<C, V>)
    requires Distinct(conv, o) && Corresponds(conv, kv, o)
    requires r == MergedValues(conv, map[], o, ValueList(conv, kv, o))
    ensures r == kv
  {
    MergedLookup(conv, map[], o, ValueList(conv, kv, o));
    assert forall c :: c in r <==> c in Converted(conv, o);
    forall i | 0 <= i < |o| ensures r[conv(o[i])] == kv[conv(o[i])] {}
    assert r.Keys == kv.Keys;
  }

  lemma PermutedIsValid<K, V, C>(conv: K -> C, kv: map<C, V>, o: seq<K>, p: seq<K>)
    requires multiset(p) == multiset(o)
    requires Distinct(conv, o) && Corresponds(conv, kv, o)
    ensures Distinct(conv, p) && Corresponds(conv, kv, p)
  {
    forall i, j | 0 <= i < j < |p| ensures conv(p[i]) != conv(p[j]) {
      PermutedApart(conv, o, p, i, j);
    }
    forall i | 0 <= i < |p| ensures conv(p[i]) in kv {
      assert p[i] in multiset(o);
    }
    forall c | c in kv ensures exists i :: 0 <= i < |p| && conv(p[i]) == c {
      var i :| 0 <= i < |o| && conv(o[i]) == c;
      assert o[i] in multiset(p);
      var j :| 0 <= j < |p| && p[j] == o[i];
    }
  }
}
