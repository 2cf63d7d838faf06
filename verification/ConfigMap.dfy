/** The configuration map itself: maps of maps on the heap, changed in place. Each method is
    proved against the tree the object stands for. */
module ConfigMap {
  import opened Wrappers
  import opened Strings
  import opened ConfigTree
  import opened ConfigSchema
  import opened ConfigLoad

  /** What a key of a map holds: a setting or a sub-configuration. */
  datatype Slot = Setting(v: Value) | Sub(m: Map)

  /** strconv.ParseBool */
  function ParseBool(s: string): Option<bool> {
    if s in {"1", "t", "T", "TRUE", "true", "True"} then Some(true)
    else if s in {"0", "f", "F", "FALSE", "false", "False"} then Some(false)
    else None
  }

  /** The value an environment text stands for; integer settings are not handled. */
  function EnvValue(schema: Schema, key: string, arg: string, atoi: string -> Option<int>): Option<Value> {
    if schema == map[] then Some(Str(arg))
    else if key !in schema then None
    else match schema[key]
      case UintT => (match atoi(arg) case None => None case Some(n) => Some(Int(n)))
      case BoolT => (match ParseBool(arg) case None => None case Some(b) => Some(Bool(b)))
      case StringT => Some(Str(arg))
      case StringsT => Some(Strings(Split(arg, ' ')))
      case IntT => None
  }

  /** The value a list of command line arguments stands for. */
  function CLIValue(schema: Schema, key: string, args: seq<string>, atoi: string -> Option<int>): Option<Value>
    requires args != []
  {
    if schema == map[] then Some(if |args| == 1 then Str(args[0]) else Strings(args))
    else if key !in schema then None
    else if schema[key] == StringsT then Some(Strings(args))
    else if |args| > 1 then None
    else EnvValue(schema, key, args[0], atoi)
  }

  /** What a text means as a setting of a type: itself, the number it stands for if that is not
      negative, one of the spellings of true and false, or its words. An integer setting cannot
      be written. */
  ghost predicate TextMeans(arg: string, t: Type, atoi: string -> Option<int>, v: Value) {
    || (t == StringT && v == Str(arg))
    || (t == UintT && v.Uint? && atoi(arg) == Some(v.n))
    || (t == BoolT && v == Bool(true) && arg in ["true", "True", "TRUE", "t", "T", "1"])
    || (t == BoolT && v == Bool(false) && arg in ["false", "False", "FALSE", "f", "F", "0"])
    || (t == StringsT && v.Strings? && AreWords(arg, v.ss))
  }

  /** The text is these words, with one space between two of them. */
  ghost predicate AreWords(arg: string, words: seq<string>) {
    words != [] && (forall w :: w in words ==> ' ' !in w) && Join(words, ' ') == arg
  }

  lemma WordsAre(arg: string, words: seq<string>)
    ensures AreWords(arg, words) <==> words == Split(arg, ' ')
  {
    JoinSplit(arg, ' ');
    if AreWords(arg, words) { SplitJoin(words, ' '); }
  }

  /** What a list of arguments means: a slice takes them all, any other setting exactly one. */
  ghost predicate ArgsMean(args: seq<string>, t: Type, atoi: string -> Option<int>, v: Value) {
    || (t == StringsT && v == Strings(args))
    || (t != StringsT && |args| == 1 && TextMeans(args[0], t, atoi, v))
  }

  function SetSome(schema: Schema, t: Tree, key: string, v: Option<Value>): SetResult
    requires t.Node?
  {
    match v case None => Refused case Some(w) => SetKey(schema, t, key, w)
  }

  lemma WhatEnvSets(schema: Schema, t: Tree, key: string, arg: string, atoi: string -> Option<int>)
    requires t.Node? && schema != map[]
    ensures var r := SetSome(schema, t, key, EnvValue(schema, key, arg, atoi));
      && r != Panicked
      && (r.Done? <==> key in schema && exists v :: TextMeans(arg, schema[key], atoi, v))
      && (r.Done? ==> exists v :: TextMeans(arg, schema[key], atoi, v) && Reads(r.tree, key, schema[key], v))
  {
    if key in schema {
      WordsAre(arg, Split(arg, ' '));
      var value := EnvValue(schema, key, arg, atoi);
      if value.Some? {
        WhatSetDoes(schema, t, key, value.value);
        TextGoesThrough(schema, key, arg, atoi);
      }
    }
  }

  /** The value made of a text means what the text means. */
  lemma TextGoesThrough(schema: Schema, key: string, arg: string, atoi: string -> Option<int>)
    requires key in schema && EnvValue(schema, key, arg, atoi).Some?
    ensures forall v :: Means(EnvValue(schema, key, arg, atoi).value, schema[key], v) <==> TextMeans(arg, schema[key], atoi, v)
  {
    forall v
      ensures Means(EnvValue(schema, key, arg, atoi).value, schema[key], v) <==> TextMeans(arg, schema[key], atoi, v)
    {
      if v.Strings? { WordsAre(arg, v.ss); }
    }
  }

  lemma WhatArgsSet(schema: Schema, t: Tree, key: string, args: seq<string>, atoi: string -> Option<int>)
    requires t.Node? && schema != map[] && args != []
    ensures var r := SetSome(schema, t, key, CLIValue(schema, key, args, atoi));
      && r != Panicked
      && (r.Done? <==> key in schema && exists v :: ArgsMean(args, schema[key], atoi, v))
      && (r.Done? ==> exists v :: ArgsMean(args, schema[key], atoi, v) && Reads(r.tree, key, schema[key], v))
  {
    if key in schema {
      if schema[key] == StringsT {
        WhatSetDoes(schema, t, key, Strings(args));
        var u := SetKey(schema, t, key, Strings(args));
        assert ArgsMean(args, schema[key], atoi, Strings(args));
      } else if |args| == 1 {
        WhatEnvSets(schema, t, key, args[0], atoi);
        forall v ensures ArgsMean(args, schema[key], atoi, v) <==> TextMeans(args[0], schema[key], atoi, v) {}
      }
    }
  }

  /** flattenMap: nested maps to one map with dotted keys. */
  method FlattenMap(input: Tree) returns (out: map<string, Value>)
    requires input.Node?
    ensures Flattens(input, out) && FlatOf(input, out)
    decreases input
  {
    out := map[];
    var todo := input.kids.Keys;
    ghost var order: seq<string>, flat: Inner := [], map[];
    while todo != {}
      invariant todo <= input.kids.Keys && Lists(order, input.kids.Keys - todo)
      invariant GatheredSoFar(input, out, order, flat)
      decreases |todo|
    {
      var k :| k in todo;
      match input.kids[k] {
        case Leaf(v) =>
          GatherLeaf(input, out, order, flat, k);
          out := out[k := v];
        case Node(_) =>
          var inner := FlattenMap(input.kids[k]);
          GatherNode(input, out, order, flat, k, inner);
          out := CopyBelow(out, inner, k);
          flat := flat[k := inner];
      }
      ListOneMore(order, input.kids.Keys, todo, k);
      order := order + [k];
      todo := todo - {k};
    }
    assert input.kids.Keys - {} == input.kids.Keys;
    assert FlattensBy(input, out, order, flat);
    FlattensFlat(input, out);
  }

  /** The entries in `order` have been visited. */
  ghost predicate GatheredSoFar(t: Tree, out: map<string, Value>, order: seq<string>, inner: Inner) {
    && t.Node? && (forall k :: k in order ==> k in t.kids)
    && (forall k :: k in order && t.kids[k].Node? ==> k in inner && Flattens(t.kids[k], inner[k]))
    && out == Gathered(t, inner, order)
  }

  lemma GatherLeaf(t: Tree, out: map<string, Value>, order: seq<string>, inner: Inner, k: string)
    requires GatheredSoFar(t, out, order, inner) && k in t.kids && t.kids[k].Leaf?
    ensures GatheredSoFar(t, out[k := t.kids[k].value], order + [k], inner)
  {
    GatheredSnoc(t, inner, order, k);
    assert out[k := t.kids[k].value] == out + map[k := t.kids[k].value];
  }

  lemma GatherNode(t: Tree, out: map<string, Value>, order: seq<string>, inner: Inner, k: string, kid: map<string, Value>)
    requires GatheredSoFar(t, out, order, inner) && k in t.kids && k !in order && t.kids[k].Node? && Flattens(t.kids[k], kid)
    ensures GatheredSoFar(t, out + Below(k, kid), order + [k], inner[k := kid])
  {
    var inner' := inner[k := kid];
    OthersGathered(t, inner, order, k, kid);
    GatheredSnoc(t, inner', order, k);
    assert Piece(t, inner', k) == Below(k, kid);
    forall l | l in order + [k] && t.kids[l].Node? ensures l in inner' && Flattens(t.kids[l], inner'[l]) {
      if l != k { assert l in order; }
    }
  }

  lemma OthersGathered(t: Tree, inner: Inner, order: seq<string>, k: string, kid: map<string, Value>)
    requires t.Node? && (forall l :: l in order ==> l in t.kids) && k !in order
    ensures Gathered(t, inner, order) == Gathered(t, inner[k := kid], order)
  {
    assert forall l :: l in order ==> l != k;
    GatheredFrame(t, inner, inner[k := kid], order);
  }

  lemma GatheredSnoc(t: Tree, inner: Inner, order: seq<string>, k: string)
    requires t.Node? && (forall l :: l in order ==> l in t.kids) && k in t.kids
    ensures Gathered(t, inner, order + [k]) == Gathered(t, inner, order) + Piece(t, inner, k)
  {
    assert (order + [k])[..|order|] == order;
  }

  /** The inner loop: the entries of a nested map, under its key. */
  method CopyBelow(out0: map<string, Value>, inner: map<string, Value>, k: string) returns (out: map<string, Value>)
    ensures out == out0 + Below(k, inner)
  {
    out := out0;
    var rest := inner.Keys;
    assert inner - rest == map[] && Below(k, map[]) == map[];
    while rest != {}
      invariant rest <= inner.Keys
      invariant out == out0 + Below(k, inner - rest)
      decreases |rest|
    {
      var kk :| kk in rest;
      BelowOneMore(k, inner, rest, kk);
      SumUpdate(out0, Below(k, inner - rest), k + "." + kk, inner[kk]);
      out := out[k + "." + kk := inner[kk]];
      rest := rest - {kk};
    }
    assert inner - {} == inner;
  }

  lemma SumUpdate(m: map<string, Value>, n: map<string, Value>, x: string, v: Value)
    ensures (m + n)[x := v] == m + n[x := v]
  {}

  lemma BelowOneMore(k: string, inner: map<string, Value>, rest: set<string>, kk: string)
    requires rest <= inner.Keys && kk in rest
    ensures Below(k, inner - (rest - {kk})) == Below(k, inner - rest)[k + "." + kk := inner[kk]]
  {
    var less, more := inner - rest, inner - (rest - {kk});
    assert more == less[kk := inner[kk]];
    forall x | x in Below(k, more) ensures x in Below(k, less)[k + "." + kk := inner[kk]]
      && Below(k, more)[x] == Below(k, less)[k + "." + kk := inner[kk]][x]
    {
      var l :| l in more && k + "." + l == x;
      BelowHas(k, more, l);
      if l != kk { BelowHas(k, less, l); }
    }
    forall x | x in Below(k, less)[k + "." + kk := inner[kk]] ensures x in Below(k, more) {
      if x != k + "." + kk {
        var l :| l in less && k + "." + l == x;
        assert l in more;
      } else {
        BelowHas(k, more, kk);
      }
    }
  }

  class Map {
    var values: map<string, Slot>
    var schema: Schema
    ghost var Repr: set<Map>
    ghost var tree: Tree

    /** The sub-maps form a tree of their own, unshared and acyclic, and `tree` is its value. */
    ghost predicate Valid()
      reads this, Repr
      ensures Valid() ==> this in Repr && tree.Node?
      decreases Repr, 1
    {
      && this in Repr
      && tree.Node? && tree.kids.Keys == values.Keys
      && (forall k :: k in values ==> SlotOk(k))
      && (forall k, l :: k in values && l in values && k != l ==> Apart(k, l))
    }

    ghost predicate SlotOk(k: string)
      requires this in Repr && tree.Node? && tree.kids.Keys == values.Keys && k in values
      reads this, Repr
      decreases Repr, 0
    {
      match values[k]
      case Setting(v) => tree.kids[k] == Leaf(v)
      case Sub(m) => m in Repr && m.Repr < Repr && this !in m.Repr && m.Valid() && m.schema == map[] && tree.kids[k] == m.tree
    }

    /** Two sub-maps have no object in common. */
    ghost predicate Apart(k: string, l: string)
      requires this in Repr && k in values && l in values
      reads this, Repr
    {
      values[k].Sub? && values[l].Sub? && values[k].m in Repr && values[l].m in Repr ==> values[k].m.Repr !! values[l].m.Repr
    }

    /** Valid but for the slot of `k`; the other slots live in `rest`. What is said depends on
        this object and `rest` only, so changes elsewhere cannot disturb it. */
    ghost predicate RestIn(k: string, rest: set<Map>)
      reads this, rest
    {
      && this in Repr && this !in rest && rest <= Repr
      && tree.Node? && tree.kids.Keys == values.Keys
      && (forall l :: l in values && l != k ==> SlotIn(l, rest))
      && (forall l, l' :: l in values && l' in values && l != l' && l != k && l' != k ==> ApartIn(l, l', rest))
    }

    ghost predicate SlotIn(k: string, rest: set<Map>)
      requires tree.Node? && tree.kids.Keys == values.Keys && k in values
      reads this, rest
    {
      match values[k]
      case Setting(v) => tree.kids[k] == Leaf(v)
      case Sub(m) => m in rest && m.Repr <= rest && m.Valid() && m.schema == map[] && tree.kids[k] == m.tree
    }

    ghost predicate ApartIn(k: string, l: string, rest: set<Map>)
      requires k in values && l in values
      reads this, rest
    {
      values[k].Sub? && values[l].Sub? && values[k].m in rest && values[l].m in rest ==> values[k].m.Repr !! values[l].m.Repr
    }

    /** The objects of the sub-maps at other keys than `k`. */
    lemma SplitOff(k: string) returns (rest: set<Map>)
      requires Valid()
      ensures RestIn(k, rest)
      ensures k in values && values[k].Sub? ==> SlotOk(k) && rest !! values[k].m.Repr
    {
      rest := set o | o in Repr && exists l :: l in values && l != k && values[l].Sub? && o in values[l].m.Repr;
      forall l | l in values && l != k ensures SlotIn(l, rest) {
        assert SlotOk(l);
        if values[l].Sub? {
          assert values[l].m in values[l].m.Repr;
          forall o | o in values[l].m.Repr ensures o in rest {}
        }
      }
      forall l, l' | l in values && l' in values && l != l' && l != k && l' != k ensures ApartIn(l, l', rest) {
        assert Apart(l, l');
      }
      if k in values && values[k].Sub? {
        assert SlotOk(k);
        forall o | o in rest ensures o !in values[k].m.Repr {
          var l :| l in values && l != k && values[l].Sub? && o in values[l].m.Repr;
          assert SlotOk(l) && Apart(k, l);
        }
      }
      forall o | o in rest ensures o != this {
        var l :| l in values && l != k && values[l].Sub? && o in values[l].m.Repr;
        assert SlotOk(l);
      }
    }

    constructor ()
      ensures Valid() && fresh(Repr) && tree == EMPTY && schema == map[]
    {
      values, schema := map[], map[];
      Repr, tree := {this}, EMPTY;
    }

    /** With the rest in order, a valid sub-map of its own completes the map. */
    ghost method Adopt(k: string, sub: Map, rest: set<Map>)
      requires RestIn(k, rest) && k in values && values[k] == Sub(sub)
      requires sub.Valid() && this !in sub.Repr && sub.schema == map[] && rest !! sub.Repr
      modifies this`Repr, this`tree
      ensures Valid() && Repr == old(Repr) + sub.Repr
      ensures tree == Node(old(tree).kids[k := sub.tree])
    {
      label before:
      Repr := Repr + sub.Repr;
      tree := Node(tree.kids[k := sub.tree]);
      forall l | l in values ensures SlotOk(l) {
        if l != k { assert old@before(SlotIn(l, rest)); }
      }
      forall l, l' | l in values && l' in values && l != l' ensures Apart(l, l') {
        if l != k { assert old@before(SlotIn(l, rest)); }
        if l' != k { assert old@before(SlotIn(l', rest)); }
        if l != k && l' != k { assert old@before(ApartIn(l, l', rest)); }
      }
    }

    /** Stores a setting under one key. */
    method SetLeaf(k: string, value: Value)
      requires Valid()
      modifies this
      ensures Valid() && Repr == old(Repr) && schema == old(schema)
      ensures tree == Node(old(tree).kids[k := Leaf(value)])
    {
      label before:
      values := values[k := Setting(value)];
      tree := Node(tree.kids[k := Leaf(value)]);
      forall l | l in values ensures SlotOk(l) {
        if l != k { assert old@before(SlotOk(l)); }
      }
      forall l, l' | l in values && l' in values && l != l' ensures Apart(l, l') {
        if l != k && l' != k { assert old@before(Apart(l, l')); }
      }
    }

    /** Drops one key. */
    method DropKey(k: string)
      requires Valid()
      modifies this
      ensures Valid() && Repr == old(Repr) && schema == old(schema)
      ensures tree == Node(old(tree).kids - {k})
    {
      label before:
      values := values - {k};
      tree := Node(tree.kids - {k});
      forall l | l in values ensures SlotOk(l) {
        assert old@before(SlotOk(l));
      }
      forall l, l' | l in values && l' in values && l != l' ensures Apart(l, l') {
        assert old@before(Apart(l, l'));
      }
    }

    /** Puts a new empty sub-map under one key, replacing a setting if there is one. */
    method NewSub(k: string) returns (sub: Map)
      requires Valid() && (k in values ==> values[k].Setting?)
      modifies this
      ensures Valid() && fresh(Repr - old(Repr)) && schema == old(schema)
      ensures k in values && values[k] == Sub(sub)
      ensures tree == Node(old(tree).kids[k := EMPTY])
    {
      ghost var rest := SplitOff(k);
      sub := new Map();
      values := values[k := Sub(sub)];
      tree := Node(tree.kids[k := EMPTY]);
      Adopt(k, sub, rest);
      assert tree == Node(old(tree).kids[k := EMPTY]);
    }

    /** set: writes one value, making sub-maps on the way. */
    method SetPath(keys: Path, value: Value)
      requires Valid()
      modifies Repr
      ensures Valid() && fresh(Repr - old(Repr)) && schema == old(schema)
      ensures tree == Put(old(tree), keys, value)
      decreases |keys|, 0
    {
      if |keys| == 0 {
        return;
      }
      var k := keys[0];
      if |keys| == 1 {
        SetLeaf(k, value);
        return;
      }
      var subConf;
      if k in values && values[k].Sub? {
        assert SlotOk(k);
        subConf := values[k].m;
      } else {
        if k in values { assert SlotOk(k); }
        subConf := NewSub(k);
        assert SlotOk(k);
      }
      SetBelow(k, subConf, keys[1..], value);
    }

    /** Goes on inside the sub-map at `k`. */
    method SetBelow(k: string, subConf: Map, keys: Path, value: Value)
      requires Valid() && k in values && values[k] == Sub(subConf)
      requires k in tree.kids && tree.kids[k].Node?
      modifies Repr
      ensures Valid() && fresh(Repr - old(Repr)) && schema == old(schema)
      ensures tree == Node(old(tree).kids[k := Put(old(tree).kids[k], keys, value)])
      decreases |keys|, 1
    {
      ghost var rest := SplitOff(k);
      subConf.SetPath(keys, value);
      Adopt(k, subConf, rest);
    }

    /** get: reads along a path. */
    function GetPath(keys: Path): (r: Option<Slot>)
      requires Valid()
      reads this, Repr
      ensures match r
        case None => Get(tree, keys) == None
        case Some(Setting(v)) => Get(tree, keys) == Some(Leaf(v))
        case Some(Sub(m)) => m in Repr && m.tree.Node? && Get(tree, keys) == Some(m.tree)
      decreases |keys|
    {
      if keys == [] || keys[0] !in values then None
      else
        assert SlotOk(keys[0]);
        if |keys| == 1 then Some(values[keys[0]])
        else match values[keys[0]]
          case Setting(_) => None
          case Sub(m) => m.GetPath(keys[1..])
    }

    /** GetString, GetBool, GetInt, GetUint and GetStringSlice, by the type wanted. */
    method GetTyped(key: string, wanted: Type) returns (r: Reading)
      requires Valid()
      ensures r == TypedGet(tree, key, wanted)
    {
      match GetPath(Split(key, '.')) {
        case None => r := Zero;
        case Some(Sub(_)) => r := ReadPanics;
        case Some(Setting(v)) =>
          if TypeOf(v) == Known(wanted) {
            return Got(v);
          }
          if wanted == StringsT && v.Array? {
            var strArray: seq<string> := [];
            for i := 0 to |v.elems|
              invariant ConvertElements(v.elems[..i]) == Elements(strArray)
            {
              assert v.elems[..i + 1][..i] == v.elems[..i];
              if !v.elems[i].Str? {
                FirstBadElement(v.elems, i);
                return ReadPanics;
              }
              strArray := strArray + [v.elems[i].s];
            }
            assert v.elems[..|v.elems|] == v.elems;
            return Got(Strings(strArray));
          }
          r := ReadPanics;
      }
    }

    /** delete: removes what stands at a path. */
    method DeletePath(keys: Path)
      requires Valid()
      modifies Repr
      ensures Valid() && Repr == old(Repr) && schema == old(schema)
      ensures tree == Del(old(tree), keys)
      decreases |keys|
    {
      if |keys| == 0 {
        return;
      }
      var k := keys[0];
      if |keys| == 1 {
        if k !in values { assert tree.kids - {k} == tree.kids; }
        DropKey(k);
        return;
      }
      if k !in values {
        return;
      }
      assert SlotOk(k);
      if values[k].Sub? {
        var subConf := values[k].m;
        ghost var rest := SplitOff(k);
        subConf.DeletePath(keys[1..]);
        Adopt(k, subConf, rest);
      }
    }

    /** Merge: takes over the settings of `x`, which must all be here already with the same type.
        Go visits the keys in no particular order; on the first objection it stops half way. */
    method Merge(x: Map) returns (ok: bool)
      requires Valid() && x.Valid() && (x == this || Repr !! x.Repr)
      modifies Repr
      ensures Valid() && Repr == old(Repr) && schema == old(schema)
      ensures if ok then FullMerge(old(tree), old(x.tree), tree) else FailedMerge(old(tree), old(x.tree), tree)
      ensures SameKeys(old(tree), tree)
      decreases x.Repr, 2
    {
      ghost var t0, xt := tree, x.tree;
      var todo := x.values.Keys;
      while todo != {}
        invariant todo <= xt.kids.Keys
        invariant Valid() && Repr == old(Repr) && schema == old(schema)
        invariant MergingInvariant(t0, xt, tree, todo)
        invariant x.Valid() && x.tree == xt
        decreases |todo|
      {
        var xk :| xk in todo;
        ok := MergeNext(x, xk, t0, todo);
        if !ok {
          return;
        }
        todo := todo - {xk};
      }
      AllMerged(t0, xt, tree);
      ok := true;
    }

    /** One turn of the loop. */
    method MergeNext(x: Map, xk: string, ghost t0: Tree, ghost todo: set<string>) returns (ok: bool)
      requires Valid() && x.Valid() && (x == this || Repr !! x.Repr)
      requires xk in x.values && xk in todo && t0.Node? && MergingInvariant(t0, x.tree, tree, todo)
      requires x == this ==> x.tree == t0
      modifies Repr
      ensures Valid() && Repr == old(Repr) && schema == old(schema)
      ensures ok ==> MergingInvariant(t0, old(x.tree), tree, todo - {xk}) && x.Valid() && x.tree == old(x.tree)
      ensures !ok ==> FailedMerge(t0, old(x.tree), tree) && SameKeys(t0, tree)
      decreases x.Repr, 1
    {
      ghost var t, xt := tree, x.tree;
      ok := MergeKey(x, xk);
      if !ok {
        StopsHalfWay(t0, xt, t, tree, todo, xk);
      } else if x == this {
        SelfMerging(t0, tree, todo - {xk});
      }
    }

    /** Set: converts the value to the type of its schema key, if there is a schema. */
    method Set(key: string, value: Value) returns (r: Status)
      requires Valid()
      modifies Repr
      ensures Valid() && fresh(Repr - old(Repr)) && schema == old(schema)
      ensures match SetKey(schema, old(tree), key, value)
        case Done(t) => r == Ok && tree == t
        case Refused => r == Failed && tree == old(tree)
        case Panicked => r == Panic && tree == old(tree)
      // what that means: the key reads as the value afterwards
      ensures r == Ok ==> ReadsBack(schema, tree, key, value)
    {
      WhatSetDoes(schema, tree, key, value);
      var v := value;
      if schema != map[] {
        if key !in schema {
          return Failed;
        }
        var newValue := TryConversion(value, schema[key]);
        match newValue {
          case Rejected => return Failed;
          case Panics => return Panic;
          case Converted(w) => v := w;
        }
      }
      SetPath(Split(key, '.'), v);
      r := Ok;
    }

    method Delete(key: string)
      requires Valid()
      modifies Repr
      ensures Valid() && Repr == old(Repr) && schema == old(schema)
      ensures tree == Del(old(tree), Split(key, '.'))
    {
      DeletePath(Split(key, '.'));
    }

    /** SetFromENV: the text is read as the type of the key. */
    method SetFromENV(key: string, arg: string, atoi: string -> Option<int>) returns (r: Status)
      requires Valid()
      modifies Repr
      ensures Valid() && fresh(Repr - old(Repr)) && schema == old(schema)
      ensures match EnvValue(schema, key, arg, atoi)
        case None => r == Failed && tree == old(tree)
        case Some(v) => StatusOf(SetKey(schema, old(tree), key, v), old(tree)) == (r, tree)
      // what that means: the key reads as what the text says, or nothing has changed
      ensures schema == map[] ==> r == Ok && Get(tree, Split(key, '.')) == Some(Leaf(Str(arg)))
      ensures schema != map[] ==>
        && (r == Ok <==> key in schema && exists v :: TextMeans(arg, schema[key], atoi, v))
        && (if r == Ok then exists v :: TextMeans(arg, schema[key], atoi, v) && Reads(tree, key, schema[key], v)
            else r == Failed && tree == old(tree))
    {
      if schema != map[] { WhatEnvSets(schema, tree, key, arg, atoi); }
      if schema == map[] {
        r := Set(key, Str(arg));
        return;
      }
      if key !in schema {
        return Failed;
      }
      var value;
      match schema[key] {
        case UintT =>
          var n := atoi(arg);
          if n.None? { return Failed; }
          value := Int(n.value);
        case BoolT =>
          var b := ParseBool(arg);
          if b.None? { return Failed; }
          value := Bool(b.value);
        case StringT => value := Str(arg);
        case StringsT => value := Strings(Split(arg, ' '));
        case IntT => return Failed;
      }
      r := Set(key, value);
    }

    /** SetFromCLIArgs: no argument deletes the key; several are for slices only. */
    method SetFromCLIArgs(key: string, args: seq<string>, atoi: string -> Option<int>) returns (r: Status)
      requires Valid()
      modifies Repr
      ensures Valid() && fresh(Repr - old(Repr)) && schema == old(schema)
      ensures args == [] ==> r == Ok && tree == Del(old(tree), Split(key, '.'))
      ensures args != [] ==>
        match CLIValue(schema, key, args, atoi)
        case None => r == Failed && tree == old(tree)
        case Some(v) => StatusOf(SetKey(schema, old(tree), key, v), old(tree)) == (r, tree)
      // what that means: the key reads as what the arguments say, or nothing has changed
      ensures args != [] && schema == map[] ==>
        r == Ok && Get(tree, Split(key, '.')) == Some(Leaf(if |args| == 1 then Str(args[0]) else Strings(args)))
      ensures args != [] && schema != map[] ==>
        && (r == Ok <==> key in schema && exists v :: ArgsMean(args, schema[key], atoi, v))
        && (if r == Ok then exists v :: ArgsMean(args, schema[key], atoi, v) && Reads(tree, key, schema[key], v)
            else r == Failed && tree == old(tree))
    {
      if args != [] && schema != map[] { WhatArgsSet(schema, tree, key, args, atoi); }
      if |args| == 0 {
        Delete(key);
        return Ok;
      }
      if schema == map[] {
        r := Set(key, if |args| == 1 then Str(args[0]) else Strings(args));
        return;
      }
      if key !in schema {
        return Failed;
      }
      var value;
      var isArray := false;
      match schema[key] {
        case UintT =>
          var n := atoi(args[0]);
          if n.None? { return Failed; }
          value := Int(n.value);
        case BoolT =>
          var b := ParseBool(args[0]);
          if b.None? { return Failed; }
          value := Bool(b.value);
        case StringT => value := Str(args[0]);
        case StringsT =>
          value := Strings(args);
          isArray := true;
        case IntT => return Failed;
      }
      if !isArray && |args| != 1 {
        return Failed;
      }
      r := Set(key, value);
    }

    /** One entry of a load. */
    method SetEntry(key: string, value: Value) returns (r: Status)
      requires Valid()
      modifies Repr
      ensures Valid() && fresh(Repr - old(Repr)) && schema == old(schema)
      ensures r == Fate(schema, key, value)
      ensures tree == if r == Ok then Put(old(tree), Split(key, '.'), Stored(schema, key, value)) else old(tree)
    {
      FateOfSet(schema, tree, key, value);
      r := Set(key, value);
    }

    /** UnmarshalYAML: sets every flattened entry, in the order the map iteration happens to
        give, and goes on after an error. `order` are the entries set or refused. */
    method UnmarshalYAML(input: Tree) returns (r: Load, ghost out: map<string, Value>, ghost order: seq<string>)
      requires Valid() && input.Node?
      modifies Repr
      ensures Valid() && fresh(Repr - old(Repr)) && schema == old(schema)
      ensures Flattens(input, out) && FlatOf(input, out)
      ensures r == LoadPanicked <==> exists k :: k in out && Fate(schema, k, out[k]) == Panic
      ensures r.Loaded? ==> Lists(order, out.Keys) && CanLoad(schema, old(tree), input, tree, r.errors)
      ensures exists errors :: LoadedSoFar(schema, old(tree), out, order, tree, errors) && (r.Loaded? ==> errors == r.errors)
      ensures schema != map[] && old(WellTyped(schema, tree)) ==> WellTyped(schema, tree)
    {
      var flat := FlattenMap(input);
      out, order := flat, [];
      var errors := 0;
      var todo := flat.Keys;
      ghost var t0 := tree;
      while todo != {}
        invariant Valid() && fresh(Repr - old(Repr)) && schema == old(schema)
        invariant todo <= flat.Keys && Lists(order, flat.Keys - todo)
        invariant LoadedSoFar(schema, t0, flat, order, tree, errors)
        decreases |todo|
      {
        var k :| k in todo;
        LoadOneMore(schema, t0, flat, order, tree, errors, k);
        var status := SetEntry(k, flat[k]);
        if status == Panic {
          LoadedWellTyped(schema, t0, flat, order, tree, errors);
          return LoadPanicked, out, order;
        }
        if status == Failed {
          errors := errors + 1;
        }
        ListOneMore(order, flat.Keys, todo, k);
        order := order + [k];
        todo := todo - {k};
      }
      assert flat.Keys - {} == flat.Keys;
      LoadedWellTyped(schema, t0, flat, order, tree, errors);
      r := Loaded(errors);
    }

    /** UnmarshalJSON: starts over from nothing and stops at the first error. Into a schemaless
        configuration, a dot-free tree without empty maps is loaded as it is. `order` are the
        entries set: all of them, or those before the one that failed. */
    method UnmarshalJSON(input: Tree) returns (r: Status, ghost out: map<string, Value>, ghost order: seq<string>)
      requires Valid() && input.Node?
      modifies Repr
      ensures Valid() && fresh(Repr - old(Repr)) && schema == old(schema)
      ensures Flattens(input, out) && FlatOf(input, out)
      ensures r == Ok <==> forall k :: k in out ==> Fate(schema, k, out[k]) == Ok
      ensures LoadedSoFar(schema, EMPTY, out, order, tree, 0)
      ensures if r == Ok then Lists(order, out.Keys) && CanLoad(schema, EMPTY, input, tree, 0) else StoppedAt(schema, out, order, r)
      ensures schema != map[] ==> WellTyped(schema, tree)
      ensures schema == map[] && DotFree(input) && NoEmpty(input) ==> r == Ok && tree == input
    {
      var flat := FlattenMap(input);
      out := flat;
      Reset();
      r, order := SetUntilError(flat);
      LoadedIntoNothing(schema, input, flat, order, tree);
    }

    /** The loop of UnmarshalJSON, on a map that has just been emptied. */
    method SetUntilError(flat: map<string, Value>) returns (r: Status, ghost order: seq<string>)
      requires Valid() && tree == EMPTY
      modifies Repr
      ensures Valid() && fresh(Repr - old(Repr)) && schema == old(schema)
      ensures r == Ok <==> forall k :: k in flat ==> Fate(schema, k, flat[k]) == Ok
      ensures LoadedSoFar(schema, EMPTY, flat, order, tree, 0)
      ensures if r == Ok then Lists(order, flat.Keys) else StoppedAt(schema, flat, order, r)
    {
      order := [];
      var todo := flat.Keys;
      while todo != {}
        invariant Valid() && fresh(Repr - old(Repr)) && schema == old(schema)
        invariant todo <= flat.Keys && Lists(order, flat.Keys - todo)
        invariant forall k :: k in order ==> k in flat && Fate(schema, k, flat[k]) == Ok
        invariant LoadedSoFar(schema, EMPTY, flat, order, tree, 0)
        decreases |todo|
      {
        var k :| k in todo;
        LoadOneMore(schema, EMPTY, flat, order, tree, 0, k);
        var status := SetEntry(k, flat[k]);
        if status != Ok {
          return status, order;
        }
        ListOneMore(order, flat.Keys, todo, k);
        order := order + [k];
        todo := todo - {k};
      }
      assert flat.Keys - {} == flat.Keys;
      r := Ok;
    }

    method Reset()
      requires Valid()
      modifies this
      ensures Valid() && Repr == old(Repr) && schema == old(schema) && tree == EMPTY
    {
      values, tree := map[], EMPTY;
    }

    method MergeKey(x: Map, xk: string) returns (ok: bool)
      requires Valid() && x.Valid() && (x == this || Repr !! x.Repr) && xk in x.values
      modifies Repr
      ensures Valid() && Repr == old(Repr) && schema == old(schema)
      ensures KeyMerged(old(tree), old(x.tree), tree, xk, ok)
      ensures x.Valid() && (x != this ==> x.tree == old(x.tree))
      decreases x.Repr, 0
    {
      assert x.SlotOk(xk);
      if xk in values { assert SlotOk(xk); }
      ghost var t0, xt := tree, x.tree;
      match x.values[xk] {
        case Sub(xSubConf) =>
          if xk in values && values[xk].Sub? {
            var subConf := values[xk].m;
            ghost var rest := SplitOff(xk);
            ok := subConf.Merge(xSubConf);
            Adopt(xk, subConf, rest);
          } else {
            if xk in values { NotMerged(t0, xt, xk); }
            ok := false;
          }
        case Setting(xv) =>
          if xk !in values {
            return false;
          }
          match values[xk] {
            case Sub(_) =>
              NotMerged(t0, xt, xk);
              ok := false;
            case Setting(v) =>
              LeafMerge(v, xv);
              NothingMerged(Leaf(v), Leaf(xv));
              if TypeOf(v) != TypeOf(xv) {
                assert tree == Node(tree.kids[xk := tree.kids[xk]]);
                return false;
              }
              SetLeaf(xk, xv);
              ok := true;
          }
      }
    }
  }

  /** One key of the source dealt with: nothing else changed, and its branch is completely
      merged, or not mergeable and merged in part at most. */
  ghost predicate KeyMerged(t: Tree, x: Tree, r: Tree, k: string, ok: bool)
    requires t.Node? && x.Node? && r.Node? && k in x.kids
  {
    if k !in t.kids then !ok && r == t
    else
      && k in r.kids && r == Node(t.kids[k := r.kids[k]])
      && if ok then FullMerge(t.kids[k], x.kids[k], r.kids[k]) else FailedMerge(t.kids[k], x.kids[k], r.kids[k])
  }

  lemma NotMerged(t: Tree, x: Tree, k: string)
    requires t.Node? && x.Node? && k in x.kids && k in t.kids && t.kids[k].Node? != x.kids[k].Node?
    ensures KeyMerged(t, x, t, k, false)
  {
    KindsMustAgree(t.kids[k], x.kids[k]);
    NothingMerged(t.kids[k], x.kids[k]);
    assert t == Node(t.kids[k := t.kids[k]]);
  }

  ghost predicate MergingInvariant(t0: Tree, x: Tree, t: Tree, todo: set<string>)
    requires t0.Node? && x.Node? && t.Node?
  {
    && t.kids.Keys == t0.kids.Keys
    && (forall k :: k in t0.kids && (k !in x.kids || k in todo) ==> t.kids[k] == t0.kids[k])
    && (forall k :: k in x.kids && k !in todo ==> k in t0.kids && FullMerge(t0.kids[k], x.kids[k], t.kids[k]))
  }

  /** Nothing changes while a map is merged into itself. */
  lemma SelfMerging(t0: Tree, t: Tree, todo: set<string>)
    requires t0.Node? && t.Node? && MergingInvariant(t0, t0, t, todo)
    ensures t == t0
  {
    forall k | k in t0.kids ensures t.kids[k] == t0.kids[k] {
      if k !in todo {
        MergeSelf(t0.kids[k], t.kids[k]);
      }
    }
  }

  lemma AllMerged(t0: Tree, x: Tree, t: Tree)
    requires t0.Node? && x.Node? && t.Node? && MergingInvariant(t0, x, t, {})
    ensures FullMerge(t0, x, t) && SameKeys(t0, t)
  {
    MergeableKids(t0, x);
    forall k | k in t0.kids ensures KidMerged(t0, x, t, k) {}
    MergedKids(t0, x, t);
    TakenKids(x, t);
    MergeKeepsKeys(t0, x, t);
  }

  lemma StopsHalfWay(t0: Tree, x: Tree, t: Tree, r: Tree, todo: set<string>, k: string)
    requires t0.Node? && x.Node? && t.Node? && r.Node? && k in todo && k in x.kids
    requires MergingInvariant(t0, x, t, todo) && KeyMerged(t, x, r, k, false)
    ensures FailedMerge(t0, x, r) && SameKeys(t0, r)
  {
    forall l | l in t0.kids ensures KidMerged(t0, x, r, l) {}
    MergedKids(t0, x, r);
    MergeKeepsKeys(t0, x, r);
    if Mergeable(t0, x) { MergeableKid(t0, x, k); }
  }
}
