/** The configuration as a tree: what a nested configuration map holds, with the laws of
    reading, writing and deleting a dotted key and of flattening. */
module ConfigTree {
  import opened Wrappers
  import opened Strings

  /** A setting value. `Array` is a slice of arbitrary values, as decoded from JSON or YAML. */
  datatype Value = Nil | Bool(b: bool) | Str(s: string) | Int(i: int) | Uint(n: nat) | Float(x: real)
                 | Strings(ss: seq<string>) | Array(elems: seq<Value>)

  datatype Tree = Leaf(value: Value) | Node(kids: map<string, Tree>)

  const EMPTY := Node(map[])

  /** A dotted key, split. */
  type Path = seq<string>

  // ----- get, set and delete along a path

  function Get(t: Tree, keys: Path): Option<Tree>
    decreases |keys|
  {
    if t.Leaf? || keys == [] || keys[0] !in t.kids then None
    else if |keys| == 1 then Some(t.kids[keys[0]])
    else Get(t.kids[keys[0]], keys[1..])
  }

  function SubOrEmpty(t: Tree, k: string): Tree
    requires t.Node?
  {
    if k in t.kids && t.kids[k].Node? then t.kids[k] else EMPTY
  }

  function Put(t: Tree, keys: Path, v: Value): (r: Tree)
    requires t.Node?
    ensures r.Node?
    decreases |keys|
  {
    if keys == [] then t
    else if |keys| == 1 then Node(t.kids[keys[0] := Leaf(v)])
    else Node(t.kids[keys[0] := Put(SubOrEmpty(t, keys[0]), keys[1..], v)])
  }

  function Del(t: Tree, keys: Path): (r: Tree)
    requires t.Node?
    ensures r.Node?
    decreases |keys|
  {
    if keys == [] || keys[0] !in t.kids then t
    else if |keys| == 1 then Node(t.kids - {keys[0]})
    else if t.kids[keys[0]].Leaf? then t
    else Node(t.kids[keys[0] := Del(t.kids[keys[0]], keys[1..])])
  }

  // ----- what stands at a path, and why that determines the tree

  datatype Kind = Absent | LeafOf(value: Value) | Inner

  function KindAt(t: Tree, p: Path): Kind
    decreases |p|
  {
    if p == [] then (if t.Leaf? then LeafOf(t.value) else Inner)
    else if t.Leaf? || p[0] !in t.kids then Absent
    else KindAt(t.kids[p[0]], p[1..])
  }

  /** Reading a key is looking at what stands there. */
  lemma {:induction false} GetIsKind(t: Tree, p: Path)
    requires p != []
    ensures match Get(t, p)
      case None => KindAt(t, p) == Absent
      case Some(Leaf(v)) => KindAt(t, p) == LeafOf(v)
      case Some(Node(_)) => KindAt(t, p) == Inner
    decreases |p|
  {
    if t.Node? && p[0] in t.kids {
      if |p| == 1 {
        assert p[1..] == [];
      } else {
        GetIsKind(t.kids[p[0]], p[1..]);
      }
    }
  }

  /** Trees with the same things at every path are equal. */
  lemma {:induction false} Extensional(t: Tree, u: Tree)
    requires forall p :: KindAt(t, p) == KindAt(u, p)
    ensures t == u
    decreases t
  {
    assert KindAt(t, []) == KindAt(u, []);
    if t.Node? {
      assert u.Node?;
      forall k ensures k in t.kids <==> k in u.kids {
        assert [k][1..] == [];
        assert KindAt(t, [k]) != Absent <==> k in t.kids;
        assert KindAt(u, [k]) != Absent <==> k in u.kids;
        assert KindAt(t, [k]) == KindAt(u, [k]);
      }
      forall k | k in t.kids ensures t.kids[k] == u.kids[k] {
        forall p ensures KindAt(t.kids[k], p) == KindAt(u.kids[k], p) {
          assert ([k] + p)[1..] == p;
          assert KindAt(t, [k] + p) == KindAt(u, [k] + p);
        }
        Extensional(t.kids[k], u.kids[k]);
      }
    }
  }

  ghost predicate Related(p: Path, q: Path) {
    p <= q || q <= p
  }

  /** What a write changes: the path now holds the value, everything above it is a map,
      everything below it is gone, and nothing else changes. */
  function KindAfterPut(t: Tree, p: Path, v: Value, q: Path): Kind {
    if q == p then LeafOf(v) else if q < p then Inner else if p < q then Absent else KindAt(t, q)
  }

  lemma {:induction false} KindPut(t: Tree, p: Path, v: Value, q: Path)
    requires t.Node? && p != []
    ensures KindAt(Put(t, p, v), q) == KindAfterPut(t, p, v, q)
    decreases |p|
  {
    if q != [] {
      if q[0] == p[0] {
        assert p == [p[0]] + p[1..] && q == [q[0]] + q[1..];
        if |p| == 1 {
          assert p[1..] == [];
        } else {
          KindPut(SubOrEmpty(t, p[0]), p[1..], v, q[1..]);
          KindBelow(t, q);
        }
      }
    }
  }

  /** Below a leaf and below an absent key there is nothing. */
  lemma KindBelow(t: Tree, q: Path)
    requires t.Node? && q != []
    ensures q[1..] != [] ==> KindAt(t, q) == KindAt(SubOrEmpty(t, q[0]), q[1..])
  {}

  lemma {:induction false} KindDel(t: Tree, p: Path, q: Path)
    requires t.Node? && p != []
    ensures KindAt(Del(t, p), q) == if p <= q then Absent else KindAt(t, q)
    decreases |p|
  {
    if q != [] && p[0] in t.kids {
      if q[0] == p[0] {
        assert p == [p[0]] + p[1..] && q == [q[0]] + q[1..];
        if |p| == 1 {
          assert p[1..] == [];
          assert p <= q;
        } else if t.kids[p[0]].Node? {
          KindDel(t.kids[p[0]], p[1..], q[1..]);
        }
      }
    }
  }

  /** The laws of a configuration key: after a set it reads as the value; unrelated keys read
      as before; a deleted key and everything below it is absent. */
  lemma SetAndDeleteLaws(t: Tree, p: Path, v: Value, q: Path)
    requires t.Node? && p != [] && q != []
    ensures Get(Put(t, p, v), p) == Some(Leaf(v))
    ensures !Related(p, q) ==> KindAt(Put(t, p, v), q) == KindAt(t, q) == KindAt(Del(t, p), q)
    ensures p < q ==> Get(Put(t, p, v), q) == None
    ensures p <= q ==> Get(Del(t, p), q) == None
    ensures !(p <= q) ==> KindAt(Del(t, p), q) == KindAt(t, q)
  {
    KindPut(t, p, v, p);
    KindPut(t, p, v, q);
    KindDel(t, p, q);
    GetIsKind(Put(t, p, v), p);
    GetIsKind(Put(t, p, v), q);
    GetIsKind(Del(t, p), q);
  }

  // ----- many writes

  datatype Entry = Entry(path: Path, value: Value)

  function PutAll(t: Tree, es: seq<Entry>): (r: Tree)
    requires t.Node?
    ensures r.Node?
  {
    if es == [] then t
    else Put(PutAll(t, es[..|es| - 1]), es[|es| - 1].path, es[|es| - 1].value)
  }

  ghost predicate Unrelated(es: seq<Entry>) {
    && (forall i :: 0 <= i < |es| ==> es[i].path != [])
    && (forall i, j :: 0 <= i < j < |es| ==> !Related(es[i].path, es[j].path))
  }

  /** What stands at a path after a batch of unrelated writes: whichever write concerns the
      path decides, wherever it comes in the batch. */
  lemma {:induction false} KindPutAll(t: Tree, es: seq<Entry>, q: Path, i: nat)
    requires t.Node? && Unrelated(es) && i < |es| && Related(es[i].path, q)
    ensures KindAt(PutAll(t, es), q) == KindAfterPut(t, es[i].path, es[i].value, q)
  {
    var n := |es| - 1;
    KindPut(PutAll(t, es[..n]), es[n].path, es[n].value, q);
    if i < n {
      KindPutAll(t, es[..n], q, i);
      if Related(es[n].path, q) { RelatedBoth(es[i].path, es[n].path, q); }
    }
  }

  lemma {:induction false} KindPutNone(t: Tree, es: seq<Entry>, q: Path)
    requires t.Node? && forall i :: 0 <= i < |es| ==> es[i].path != [] && !Related(es[i].path, q)
    ensures KindAt(PutAll(t, es), q) == KindAt(t, q)
  {
    if es != [] {
      var n := |es| - 1;
      KindPutNone(t, es[..n], q);
      KindPut(PutAll(t, es[..n]), es[n].path, es[n].value, q);
    }
  }

  /** Two paths related to a third are related to each other, or both below it. */
  lemma RelatedBoth(a: Path, b: Path, q: Path)
    requires Related(a, q) && Related(b, q)
    ensures Related(a, b) || (q < a && q < b)
  {
    if a <= q && b <= q {
      assert a == q[..|a|] && b == q[..|b|];
      if |a| <= |b| { assert a <= b; } else { assert b <= a; }
    }
  }

  /** Two batches of unrelated writes with the same entries have the same effect. */
  lemma OrderDoesNotMatter(t: Tree, es: seq<Entry>, fs: seq<Entry>)
    requires t.Node? && Unrelated(es) && Unrelated(fs)
    requires forall e :: e in es <==> e in fs
    ensures PutAll(t, es) == PutAll(t, fs)
  {
    forall q ensures KindAt(PutAll(t, es), q) == KindAt(PutAll(t, fs), q) {
      if i :| 0 <= i < |es| && Related(es[i].path, q) {
        assert es[i] in fs;
        var j :| 0 <= j < |fs| && fs[j] == es[i];
        KindPutAll(t, es, q, i);
        KindPutAll(t, fs, q, j);
      } else {
        forall j | 0 <= j < |fs| ensures !Related(fs[j].path, q) {
          assert fs[j] in es;
        }
        KindPutNone(t, es, q);
        KindPutNone(t, fs, q);
      }
    }
    Extensional(PutAll(t, es), PutAll(t, fs));
  }

  // ----- flattening and rebuilding

  /** No empty map below the root. */
  ghost predicate NoEmpty(t: Tree)
    decreases t
  {
    t.Node? ==> forall k :: k in t.kids ==> (t.kids[k].Node? ==> t.kids[k].kids != map[]) && NoEmpty(t.kids[k])
  }

  ghost predicate DotFree(t: Tree)
    decreases t
  {
    t.Node? ==> forall k :: k in t.kids ==> '.' !in k && DotFree(t.kids[k])
  }

  lemma {:induction false} LeafBelow(t: Tree) returns (p: Path, v: Value)
    requires NoEmpty(t) && (t.Node? ==> t.kids != map[])
    ensures KindAt(t, p) == LeafOf(v)
    decreases t
  {
    if t.Leaf? {
      p, v := [], t.value;
    } else {
      var k :| k in t.kids;
      var rest;
      rest, v := LeafBelow(t.kids[k]);
      p := [k] + rest;
      assert p[1..] == rest;
    }
  }

  lemma {:induction false} InnerHasLeaf(t: Tree, q: Path) returns (p: Path, v: Value)
    requires NoEmpty(t) && q != [] && KindAt(t, q) == Inner
    ensures q < p && KindAt(t, p) == LeafOf(v)
    decreases |q|
  {
    var sub := t.kids[q[0]];
    var rest;
    if |q| == 1 {
      assert q[1..] == [];
      rest, v := LeafBelow(sub);
    } else {
      rest, v := InnerHasLeaf(sub, q[1..]);
    }
    p := [q[0]] + rest;
    assert p[1..] == rest && q == [q[0]] + q[1..];
  }

  lemma {:induction false} KindPrefix(t: Tree, p: Path, q: Path)
    requires p < q && KindAt(t, q) != Absent
    ensures KindAt(t, p) == Inner
    decreases |p|
  {
    if p != [] {
      assert p[1..] < q[1..];
      KindPrefix(t.kids[q[0]], p[1..], q[1..]);
    }
  }

  ghost predicate LeavesOf(t: Tree, es: seq<Entry>) {
    && (forall i, j :: 0 <= i < j < |es| ==> es[i].path != es[j].path)
    && (forall i :: 0 <= i < |es| ==> KindAt(t, es[i].path) == LeafOf(es[i].value))
    && (forall p :: KindAt(t, p).LeafOf? ==> Entry(p, KindAt(t, p).value) in es)
  }

  /** Leaf paths are pairwise unrelated. */
  lemma LeavesUnrelated(t: Tree, es: seq<Entry>)
    requires t.Node? && LeavesOf(t, es)
    ensures Unrelated(es)
  {
    forall i, j | 0 <= i < j < |es| ensures !Related(es[i].path, es[j].path) {
      if es[i].path < es[j].path { KindPrefix(t, es[i].path, es[j].path); }
      if es[j].path < es[i].path { KindPrefix(t, es[j].path, es[i].path); }
    }
  }

  /** Writing the leaves of a tree without empty maps, in any order, into an empty
      configuration rebuilds the tree. */
  lemma Rebuild(t: Tree, es: seq<Entry>)
    requires t.Node? && NoEmpty(t) && LeavesOf(t, es)
    ensures PutAll(EMPTY, es) == t
  {
    LeavesUnrelated(t, es);
    forall q ensures KindAt(PutAll(EMPTY, es), q) == KindAt(t, q) {
      RebuildKind(t, es, q);
    }
    Extensional(PutAll(EMPTY, es), t);
  }

  lemma RebuildKind(t: Tree, es: seq<Entry>, q: Path)
    requires t.Node? && NoEmpty(t) && LeavesOf(t, es) && Unrelated(es)
    ensures KindAt(PutAll(EMPTY, es), q) == KindAt(t, q)
  {
    if q != [] && KindAt(t, q) != Absent { SomeEntryRelated(t, es, q); }
    if i :| 0 <= i < |es| && Related(es[i].path, q) {
      KindPutAll(EMPTY, es, q, i);
      if q < es[i].path { KindPrefix(t, q, es[i].path); }
      if es[i].path < q && KindAt(t, q) != Absent { KindPrefix(t, es[i].path, q); }
    } else {
      KindPutNone(EMPTY, es, q);
    }
  }

  lemma SomeEntryRelated(t: Tree, es: seq<Entry>, q: Path)
    requires t.Node? && NoEmpty(t) && LeavesOf(t, es) && q != [] && KindAt(t, q) != Absent
    ensures exists i :: 0 <= i < |es| && Related(es[i].path, q)
  {
    var p, v;
    if KindAt(t, q) == Inner {
      p, v := InnerHasLeaf(t, q);
    } else {
      p, v := q, KindAt(t, q).value;
    }
    var i :| 0 <= i < |es| && es[i] == Entry(p, v);
    assert Related(es[i].path, q);
  }

  /** `out` is a flattened form of the tree: the dotted keys of its leaves, each with the value
      of a leaf of that key (of one of them, if keys with dots make two of them collide). */
  ghost predicate FlatOf(t: Tree, out: map<string, Value>) {
    && (forall p :: KindAt(t, p).LeafOf? ==> Join(p, '.') in out)
    && (forall k :: k in out ==> exists p :: Join(p, '.') == k && KindAt(t, p) == LeafOf(out[k]))
  }

  lemma {:induction false} DotFreePath(t: Tree, p: Path)
    requires DotFree(t) && KindAt(t, p) != Absent
    ensures forall k :: k in p ==> '.' !in k
    decreases |p|
  {
    if p != [] {
      DotFreePath(t.kids[p[0]], p[1..]);
      assert p == [p[0]] + p[1..];
    }
  }

  function Entries(out: map<string, Value>, order: seq<string>): (es: seq<Entry>)
    requires forall k :: k in order ==> k in out
    ensures |es| == |order|
  {
    seq(|order|, i requires 0 <= i < |order| => Entry(Split(order[i], '.'), out[order[i]]))
  }

  /** The order lists every key of the map once. */
  ghost predicate Lists(order: seq<string>, keys: set<string>) {
    && (forall i, j :: 0 <= i < j < |order| ==> order[i] != order[j])
    && (forall k :: k in order <==> k in keys)
  }

  /** Flattening a dot-free tree lists its leaves. */
  lemma FlatLeaves(t: Tree, out: map<string, Value>, order: seq<string>)
    requires t.Node? && DotFree(t) && FlatOf(t, out) && Lists(order, out.Keys)
    ensures LeavesOf(t, Entries(out, order))
  {
    var es := Entries(out, order);
    forall i | 0 <= i < |es| ensures KindAt(t, es[i].path) == LeafOf(es[i].value) {
      assert order[i] in order;
      var p := FlatKey(t, out, order[i]);
    }
    forall i, j | 0 <= i < j < |es| ensures es[i].path != es[j].path {
      JoinSplit(order[i], '.');
      JoinSplit(order[j], '.');
    }
    forall p | KindAt(t, p).LeafOf? ensures Entry(p, KindAt(t, p).value) in es {
      var k := Join(p, '.');
      assert k in order;
      var i :| 0 <= i < |order| && order[i] == k;
      var q := FlatKey(t, out, k);
      DotFreePath(t, p);
      SplitJoin(p, '.');
      assert es[i] == Entry(p, KindAt(t, p).value);
    }
  }

  lemma FlatKey(t: Tree, out: map<string, Value>, k: string) returns (p: Path)
    requires t.Node? && DotFree(t) && FlatOf(t, out) && k in out
    ensures p == Split(k, '.') && KindAt(t, p) == LeafOf(out[k])
  {
    p :| Join(p, '.') == k && KindAt(t, p) == LeafOf(out[k]);
    DotFreePath(t, p);
    assert p != [];
    SplitJoin(p, '.');
  }

  /** The round trip: flattening a dot-free tree without empty maps and setting the entries, in
      any order, on an empty schemaless configuration gives the tree back. */
  lemma FlattenRebuild(t: Tree, out: map<string, Value>, order: seq<string>)
    requires t.Node? && DotFree(t) && NoEmpty(t) && FlatOf(t, out) && Lists(order, out.Keys)
    ensures PutAll(EMPTY, Entries(out, order)) == t
  {
    FlatLeaves(t, out, order);
    Rebuild(t, Entries(out, order));
  }
}
