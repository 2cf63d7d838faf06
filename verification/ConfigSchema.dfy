/** Typed settings: conversion of a value to the type its key has in the schema, and what that
    guarantees for every configuration that can be reached. */
module ConfigSchema {
  import opened Wrappers
  import opened Strings
  import opened ConfigTree

  /** The setting types in use; each has a typed getter. */
  datatype Type = BoolT | StringT | IntT | UintT | StringsT

  /** Dynamic type of a stored value. */
  datatype Dynamic = Known(t: Type) | FloatD | ArrayD | NilD

  type Schema = map<string, Type>

  function TypeOf(v: Value): Dynamic {
    match v
    case Nil => NilD
    case Bool(_) => Known(BoolT)
    case Str(_) => Known(StringT)
    case Int(_) => Known(IntT)
    case Uint(_) => Known(UintT)
    case Float(_) => FloatD
    case Strings(_) => Known(StringsT)
    case Array(_) => ArrayD
  }

  // ----- conversion

  datatype Conversion = Converted(value: Value) | Rejected | Panics

  function Truncate(x: real): int {
    if x >= 0.0 then x.Floor else -((-x).Floor)
  }

  /** What a slice converts to, or the fate of its first element that is not a string. */
  datatype Elements = Elements(ss: seq<string>) | NotAString(v: Value)

  function ConvertElements(elems: seq<Value>): Elements {
    if elems == [] then Elements([])
    else
      var n := |elems| - 1;
      match ConvertElements(elems[..n])
      case NotAString(v) => NotAString(v)
      case Elements(ss) => if elems[n].Str? then Elements(ss + [elems[n].s]) else NotAString(elems[n])
  }

  /** tryConversion. The message for a refused value asks a nil type for its name, which panics. */
  function Convert(current: Value, desired: Type): Conversion {
    if TypeOf(current) == Known(desired) then Converted(current)
    else match (desired, current)
      case (UintT, Float(x)) => Converted(Uint(Truncate(x) % 0x1_0000_0000_0000_0000))
      case (UintT, Int(i)) => if i < 0 then Rejected else Converted(Uint(i))
      case (IntT, Float(x)) => Converted(Int(Truncate(x)))
      case (StringsT, Nil) => Converted(Strings([]))
      case (StringsT, Array(elems)) =>
        (match ConvertElements(elems)
         case Elements(ss) => Converted(Strings(ss))
         case NotAString(v) => if v == Nil then Panics else Rejected)
      case _ => if current == Nil then Panics else Rejected
  }

  method TryConversion(current: Value, desired: Type) returns (r: Conversion)
    ensures r == Convert(current, desired)
  {
    if TypeOf(current) == Known(desired) {
      return Converted(current);
    }
    match desired {
      case UintT =>
        if current.Float? {
          return Converted(Uint(Truncate(current.x) % 0x1_0000_0000_0000_0000));
        }
        if current.Int? {
          return if current.i < 0 then Rejected else Converted(Uint(current.i));
        }
      case IntT =>
        if current.Float? {
          return Converted(Int(Truncate(current.x)));
        }
      case StringsT =>
        if current.Array? || current.Nil? {
          var currentArray := if current.Array? then current.elems else [];
          var resArray: seq<string> := [];
          for i := 0 to |currentArray|
            invariant ConvertElements(currentArray[..i]) == Elements(resArray)
          {
            assert currentArray[..i + 1][..i] == currentArray[..i];
            var newElem := TryConversion(currentArray[i], StringT);
            if !newElem.Converted? {
              FirstBadElement(currentArray, i);
              return newElem;
            }
            resArray := resArray + [newElem.value.s];
          }
          assert currentArray[..|currentArray|] == currentArray;
          return Converted(Strings(resArray));
        }
      case _ =>
    }
    r := if current == Nil then Panics else Rejected;
  }

  lemma {:induction false} FirstBadElement(elems: seq<Value>, i: nat)
    requires i < |elems| && ConvertElements(elems[..i]).Elements? && !elems[i].Str?
    ensures ConvertElements(elems) == NotAString(elems[i])
  {
    var n := |elems| - 1;
    if i < n {
      assert elems[..n][..i] == elems[..i];
      FirstBadElement(elems[..n], i);
    }
  }

  lemma {:induction false} ElementsAre(elems: seq<Value>)
    ensures match ConvertElements(elems)
      case Elements(ss) => |ss| == |elems| && forall i :: 0 <= i < |ss| ==> elems[i] == Str(ss[i])
      case NotAString(v) => exists i :: 0 <= i < |elems| && elems[i] == v && !v.Str? && forall j :: 0 <= j < i ==> elems[j].Str?
  {
    if elems != [] {
      var n := |elems| - 1;
      ElementsAre(elems[..n]);
      if ConvertElements(elems[..n]).NotAString? {
        var i :| 0 <= i < n && elems[..n][i] == ConvertElements(elems).v && !elems[..n][i].Str?
          && forall j :: 0 <= j < i ==> elems[..n][j].Str?;
        assert forall j :: 0 <= j < i ==> elems[..n][j] == elems[j];
        assert elems[i] == ConvertElements(elems).v;
      }
    }
  }

  /** A converted value has the desired type, and converting it again changes nothing. */
  lemma ConversionIsTyped(current: Value, desired: Type)
    requires Convert(current, desired).Converted?
    ensures TypeOf(Convert(current, desired).value) == Known(desired)
    ensures Convert(Convert(current, desired).value, desired) == Convert(current, desired)
  {}

  /** The conversion panics exactly on nil for a type that is not a slice, and on a slice whose
      first element that is not a string is nil. */
  lemma ConversionPanicsIff(current: Value, desired: Type)
    ensures Convert(current, desired) == Panics <==>
      || (current == Nil && desired != StringsT)
      || (desired == StringsT && current.Array? && FirstNonStringIsNil(current.elems))
  {
    if current.Array? { ElementsAre(current.elems); }
  }

  ghost predicate FirstNonStringIsNil(elems: seq<Value>) {
    exists i :: 0 <= i < |elems| && elems[i] == Nil && forall j :: 0 <= j < i ==> elems[j].Str?
  }

  // ----- setting a key

  datatype SetResult = Done(tree: Tree) | Refused | Panicked

  function SetKey(schema: Schema, t: Tree, key: string, value: Value): SetResult
    requires t.Node?
  {
    if schema == map[] then Done(Put(t, Split(key, '.'), value))
    else if key !in schema then Refused
    else match Convert(value, schema[key])
      case Converted(v) => Done(Put(t, Split(key, '.'), v))
      case Rejected => Refused
      case Panics => Panicked
  }

  // ----- reading a key

  datatype Reading = Got(value: Value) | Zero | ReadPanics

  /** GetString, GetBool, GetInt, GetUint and GetStringSlice: absent keys read as the zero value,
      a value of another type panics, and a generic slice of strings reads as strings. */
  function TypedGet(t: Tree, key: string, wanted: Type): Reading {
    match Get(t, Split(key, '.'))
    case None => Zero
    case Some(Node(_)) => ReadPanics
    case Some(Leaf(v)) =>
      if TypeOf(v) == Known(wanted) then Got(v)
      else if wanted == StringsT && v.Array? && ConvertElements(v.elems).Elements? then Got(Strings(ConvertElements(v.elems).ss))
      else ReadPanics
  }

  /** GetDuration reads a string and parses it. */
  function GetDuration(t: Tree, key: string, parse: string -> Option<int>): Reading {
    match Get(t, Split(key, '.'))
    case None => Zero
    case Some(Node(_)) => ReadPanics
    case Some(Leaf(v)) =>
      if !v.Str? then ReadPanics
      else match parse(v.s) case None => ReadPanics case Some(d) => Got(Int(d))
  }

  // ----- what a set stores and what the getters read

  /** A value of the setting type. */
  ghost predicate HasType(v: Value, t: Type) {
    match t
    case BoolT => v.Bool?
    case StringT => v.Str?
    case IntT => v.Int?
    case UintT => v.Uint?
    case StringsT => v.Strings?
  }

  lemma TypeOfIff(v: Value, t: Type)
    ensures TypeOf(v) == Known(t) <==> HasType(v, t)
  {}

  /** Two values have the same dynamic type exactly when they are of the same kind. */
  lemma SameTypeIff(v: Value, w: Value)
    ensures TypeOf(v) == TypeOf(w) <==>
      || (v.Nil? && w.Nil?) || (v.Bool? && w.Bool?) || (v.Str? && w.Str?) || (v.Int? && w.Int?)
      || (v.Uint? && w.Uint?) || (v.Float? && w.Float?) || (v.Strings? && w.Strings?) || (v.Array? && w.Array?)
  {}

  /** `n` is `x` without its fraction. */
  ghost predicate TruncatesTo(x: real, n: int) {
    if x >= 0.0 then n as real <= x < (n + 1) as real else (n - 1) as real < x <= n as real
  }

  lemma Truncates(x: real)
    ensures TruncatesTo(x, Truncate(x))
  {}

  ghost predicate AreStrings(elems: seq<Value>, ss: seq<string>) {
    |elems| == |ss| && forall i :: 0 <= i < |ss| ==> elems[i] == Str(ss[i])
  }

  const UINT_LIMIT: real := 18446744073709551616.0
  const INT_LIMIT: real := 9223372036854775808.0

  /** What a value means as a setting of a type: a value of that type means itself, a number that is
      not negative the same number, a float in range the number without its fraction (outside
      of the range any number), a slice of strings the strings one by one, and nil no strings. */
  ghost predicate Means(value: Value, t: Type, v: Value) {
    || (HasType(value, t) && v == value)
    || (t == UintT && value.Int? && value.i >= 0 && v == Uint(value.i))
    || (t == UintT && value.Float? && v.Uint? && (-1.0 < value.x < UINT_LIMIT ==> TruncatesTo(value.x, v.n)))
    || (t == IntT && value.Float? && v.Int? && (-INT_LIMIT <= value.x < INT_LIMIT ==> TruncatesTo(value.x, v.i)))
    || (t == StringsT && value.Array? && v.Strings? && AreStrings(value.elems, v.ss))
    || (t == StringsT && value == Nil && v == Strings([]))
  }

  lemma ConversionMeans(value: Value, t: Type)
    ensures match Convert(value, t)
      case Converted(v) => Means(value, t, v)
      case _ => forall v :: !Means(value, t, v)
  {
    TypeOfIff(value, t);
    match value
    case Float(x) =>
      Truncates(x);
      if t == UintT && -1.0 < x < UINT_LIMIT { FloatInRange(x); }
    case Array(elems) =>
      ElementsAre(elems);
      if t == StringsT && ConvertElements(elems).NotAString? {
        forall v ensures !Means(value, t, v) {
          var i :| 0 <= i < |elems| && !elems[i].Str?;
        }
      }
    case _ =>
  }

  lemma FloatInRange(x: real)
    requires -1.0 < x < UINT_LIMIT
    ensures Truncate(x) % 0x1_0000_0000_0000_0000 == Truncate(x)
  {
    assert 0 <= Truncate(x) <= 0xFFFF_FFFF_FFFF_FFFF;
  }

  ghost predicate Reads(u: Tree, key: string, t: Type, v: Value) {
    Get(u, Split(key, '.')) == Some(Leaf(v)) && TypedGet(u, key, t) == Got(v)
  }

  /** The key reads as what the value means. */
  ghost predicate ReadsBack(schema: Schema, u: Tree, key: string, value: Value) {
    if schema == map[] then Get(u, Split(key, '.')) == Some(Leaf(value))
    else key in schema && exists v :: Means(value, schema[key], v) && Reads(u, key, schema[key], v)
  }

  /** What a set comes to. It is accepted exactly when there is no schema, or the key is in it and the
      value means something as its type; the key then reads as that, and unrelated paths are
      as before. It panics exactly on nil for a type that is not a slice and on a slice whose
      first element that is no string is nil. */
  lemma WhatSetDoes(schema: Schema, t: Tree, key: string, value: Value)
    requires t.Node?
    ensures SetKey(schema, t, key, value).Done? <==>
      schema == map[] || (key in schema && exists v :: Means(value, schema[key], v))
    ensures SetKey(schema, t, key, value).Done? ==>
      var u := SetKey(schema, t, key, value).tree;
      ReadsBack(schema, u, key, value) && forall q :: !Related(Split(key, '.'), q) ==> KindAt(u, q) == KindAt(t, q)
    ensures SetKey(schema, t, key, value) == Panicked <==>
      && schema != map[] && key in schema
      && ((value == Nil && schema[key] != StringsT)
          || (schema[key] == StringsT && value.Array? && FirstNonStringIsNil(value.elems)))
  {
    if schema == map[] {
      PutReads(t, Split(key, '.'), value);
    } else if key in schema {
      ConversionMeans(value, schema[key]);
      ConversionPanicsIff(value, schema[key]);
      if Convert(value, schema[key]).Converted? {
        var v := Convert(value, schema[key]).value;
        ConversionIsTyped(value, schema[key]);
        PutReads(t, Split(key, '.'), v);
        assert Means(value, schema[key], v) && Reads(SetKey(schema, t, key, value).tree, key, schema[key], v);
      }
    }
  }

  lemma PutReads(t: Tree, p: Path, v: Value)
    requires t.Node? && p != []
    ensures Get(Put(t, p, v), p) == Some(Leaf(v))
    ensures forall q :: !Related(p, q) ==> KindAt(Put(t, p, v), q) == KindAt(t, q)
  {
    SetAndDeleteLaws(t, p, v, p);
    forall q ensures !Related(p, q) ==> KindAt(Put(t, p, v), q) == KindAt(t, q) {
      KindPut(t, p, v, q);
    }
  }

  /** The typed getters: zero for a key that is absent, the value if it has the type, a generic
      slice of strings as strings, and a panic in every other case. */
  lemma WhatTypedGetReads(t: Tree, key: string, wanted: Type, v: Value)
    ensures TypedGet(t, key, wanted) == Zero <==> KindAt(t, Split(key, '.')) == Absent
    ensures TypedGet(t, key, wanted) == Got(v) <==>
      || (HasType(v, wanted) && KindAt(t, Split(key, '.')) == LeafOf(v))
      || (wanted == StringsT && v.Strings? && ArrayOf(KindAt(t, Split(key, '.')), v.ss))
  {
    GetIsKind(t, Split(key, '.'));
    match Get(t, Split(key, '.'))
    case Some(Leaf(w)) =>
      TypeOfIff(w, wanted);
      if w.Array? { ElementsAre(w.elems); }
    case _ =>
  }

  ghost predicate ArrayOf(k: Kind, ss: seq<string>) {
    k.LeafOf? && k.value.Array? && AreStrings(k.value.elems, ss)
  }

  /** The duration getter: zero for an absent key, the parsed text of a string, a panic in every
      other case. */
  lemma WhatGetDurationReads(t: Tree, key: string, parse: string -> Option<int>, d: int)
    ensures GetDuration(t, key, parse) == Zero <==> KindAt(t, Split(key, '.')) == Absent
    ensures GetDuration(t, key, parse) == Got(Int(d)) <==>
      exists s :: KindAt(t, Split(key, '.')) == LeafOf(Str(s)) && parse(s) == Some(d)
  {
    GetIsKind(t, Split(key, '.'));
  }

  // ----- what every reachable configuration is like

  /** Every leaf is at a schema key and has its type; every map is on the way to a schema key. */
  ghost predicate WellTyped(schema: Schema, t: Tree) {
    && t.Node?
    && forall p :: match KindAt(t, p)
         case LeafOf(v) => IsKey(schema, p, v)
         case Inner => p == [] || AboveKey(schema, p)
         case Absent => true
  }

  ghost predicate IsKey(schema: Schema, p: Path, v: Value) {
    var k := Join(p, '.');
    k in schema && Split(k, '.') == p && TypeOf(v) == Known(schema[k])
  }

  ghost predicate AboveKey(schema: Schema, p: Path) {
    exists k :: k in schema && p < Split(k, '.')
  }

  /** No schema key is a dotted prefix of another. */
  ghost predicate PrefixFree(schema: Schema) {
    forall k, l :: k in schema && l in schema ==> !(Split(k, '.') < Split(l, '.'))
  }

  /** What Merge can leave behind, complete or stopped half way: every path holds what it held,
      or the source's value of the same type. */
  ghost predicate MergedPartly(c: Tree, x: Tree, r: Tree) {
    forall p :: KindAt(r, p) == KindAt(c, p) || Overwritten(c, x, r, p)
  }

  ghost predicate Overwritten(c: Tree, x: Tree, r: Tree, p: Path) {
    && KindAt(c, p).LeafOf? && KindAt(x, p).LeafOf? && KindAt(r, p) == KindAt(x, p)
    && TypeOf(KindAt(x, p).value) == TypeOf(KindAt(c, p).value)
  }

  datatype Op = SetOp(key: string, value: Value) | DeleteOp(key: string) | MergeOp(source: Tree)

  /** One call on a configuration: a set that does not panic, a delete, or a merge. The setters
      for command line and environment and the YAML load are made of these. */
  ghost predicate Step(schema: Schema, t: Tree, op: Op, u: Tree)
    requires t.Node?
  {
    match op
    case SetOp(key, value) =>
      (match SetKey(schema, t, key, value)
       case Done(r) => u == r
       case Refused => u == t
       case Panicked => false)
    case DeleteOp(key) => u == Del(t, Split(key, '.'))
    case MergeOp(x) => MergedPartly(t, x, u)
  }

  ghost predicate Run(schema: Schema, tr: seq<Tree>, ops: seq<Op>) {
    && |tr| == |ops| + 1 && tr[0] == EMPTY
    && forall i :: 0 <= i < |ops| ==> tr[i].Node? && Step(schema, tr[i], ops[i], tr[i + 1])
  }

  lemma PutWellTyped(schema: Schema, t: Tree, key: string, v: Value)
    requires WellTyped(schema, t) && key in schema && TypeOf(v) == Known(schema[key])
    ensures WellTyped(schema, Put(t, Split(key, '.'), v))
  {
    var path := Split(key, '.');
    var u := Put(t, path, v);
    JoinSplit(key, '.');
    forall p ensures match KindAt(u, p)
      case LeafOf(w) => IsKey(schema, p, w)
      case Inner => p == [] || AboveKey(schema, p)
      case Absent => true
    {
      KindPut(t, path, v, p);
      assert KindAt(t, p).LeafOf? ==> IsKey(schema, p, KindAt(t, p).value);
    }
  }

  lemma StepWellTyped(schema: Schema, t: Tree, op: Op, u: Tree)
    requires schema != map[] && WellTyped(schema, t) && Step(schema, t, op, u)
    ensures WellTyped(schema, u)
  {
    match op
    case SetOp(key, value) =>
      if key in schema && Convert(value, schema[key]).Converted? {
        ConversionIsTyped(value, schema[key]);
        PutWellTyped(schema, t, key, Convert(value, schema[key]).value);
      }
    case DeleteOp(key) =>
      forall p ensures SameOrGone(t, u, p) {
        KindDel(t, Split(key, '.'), p);
      }
      KindsFromWellTyped(schema, t, u);
    case MergeOp(x) =>
      assert KindAt(u, []) == KindAt(t, []);
      assert forall p :: SameOrGone(t, u, p);
      KindsFromWellTyped(schema, t, u);
  }

  ghost predicate SameOrGone(t: Tree, u: Tree, p: Path) {
    || KindAt(u, p) == KindAt(t, p)
    || KindAt(u, p) == Absent
    || (KindAt(u, p).LeafOf? && KindAt(t, p).LeafOf? && TypeOf(KindAt(u, p).value) == TypeOf(KindAt(t, p).value))
  }

  /** Well-typedness is a matter of the kinds and leaf types at each path. */
  lemma KindsFromWellTyped(schema: Schema, t: Tree, u: Tree)
    requires WellTyped(schema, t) && u.Node?
    requires forall p :: SameOrGone(t, u, p)
    ensures WellTyped(schema, u)
  {
    forall p ensures match KindAt(u, p)
      case LeafOf(v) => IsKey(schema, p, v)
      case Inner => p == [] || AboveKey(schema, p)
      case Absent => true
    {
      assert SameOrGone(t, u, p);
      assert KindAt(t, p).LeafOf? ==> IsKey(schema, p, KindAt(t, p).value);
      assert KindAt(t, p) == Inner ==> p == [] || AboveKey(schema, p);
    }
  }

  /** Every reachable configuration stores only schema keys, each with its schema type. */
  lemma {:induction false} ReachableWellTyped(schema: Schema, tr: seq<Tree>, ops: seq<Op>, i: nat)
    requires schema != map[] && Run(schema, tr, ops) && i < |tr|
    ensures WellTyped(schema, tr[i])
  {
    if i > 0 {
      ReachableWellTyped(schema, tr, ops, i - 1);
      assert Step(schema, tr[i - 1], ops[i - 1], tr[i - 1 + 1]);
      StepWellTyped(schema, tr[i - 1], ops[i - 1], tr[i]);
    }
  }

  ghost predicate GettersSafe(schema: Schema, t: Tree) {
    forall k :: k in schema ==> TypedGet(t, k, schema[k]) != ReadPanics
  }

  lemma WellTypedGettersSafe(schema: Schema, t: Tree)
    requires WellTyped(schema, t) && PrefixFree(schema)
    ensures GettersSafe(schema, t)
  {
    forall k | k in schema ensures TypedGet(t, k, schema[k]) != ReadPanics {
      var p := Split(k, '.');
      JoinSplit(k, '.');
      GetIsKind(t, p);
      assert KindAt(t, p) != Inner;
    }
  }

  ghost function SomeValue(t: Type): Value {
    match t
    case BoolT => Bool(false)
    case StringT => Str("")
    case IntT => Int(0)
    case UintT => Uint(0)
    case StringsT => Strings([])
  }

  /** Typed getters can never panic on schema keys, in any reachable configuration, exactly
      when no schema key is a dotted prefix of another. */
  lemma GettersNeverPanicIff(schema: Schema)
    requires schema != map[]
    ensures (forall tr, ops, i :: Run(schema, tr, ops) && 0 <= i < |tr| ==> GettersSafe(schema, tr[i])) <==> PrefixFree(schema)
  {
    if PrefixFree(schema) {
      forall tr, ops, i | Run(schema, tr, ops) && 0 <= i < |tr| ensures GettersSafe(schema, tr[i]) {
        ReachableWellTyped(schema, tr, ops, i);
        WellTypedGettersSafe(schema, tr[i]);
      }
    } else {
      var k, l :| k in schema && l in schema && Split(k, '.') < Split(l, '.');
      var v := SomeValue(schema[l]);
      var t := Put(EMPTY, Split(l, '.'), v);
      var tr, ops := [EMPTY, t], [SetOp(l, v)];
      assert Step(schema, tr[0], ops[0], tr[1]);
      assert Run(schema, tr, ops);
      KindPut(EMPTY, Split(l, '.'), v, Split(k, '.'));
      GetIsKind(t, Split(k, '.'));
      assert TypedGet(t, k, schema[k]) == ReadPanics;
      assert !GettersSafe(schema, tr[1]);
    }
  }

  // ----- the duration getter, which the type of the key does not cover

  /** A string setting accepts any text; afterwards the duration getter panics exactly when the
      text is not a duration. */
  lemma DurationSetIff(schema: Schema, t: Tree, key: string, text: string, parse: string -> Option<int>)
    requires t.Node? && key in schema && schema[key] == StringT
    ensures SetKey(schema, t, key, Str(text)).Done?
    ensures GetDuration(SetKey(schema, t, key, Str(text)).tree, key, parse) == ReadPanics <==> parse(text) == None
  {
    SetAndDeleteLaws(t, Split(key, '.'), Str(text), Split(key, '.'));
  }

  /** In every well-typed configuration the duration getter of a string key panics exactly when
      the key is set to a text that is not a duration. */
  lemma DurationPanicsIff(schema: Schema, t: Tree, key: string, parse: string -> Option<int>)
    requires WellTyped(schema, t) && PrefixFree(schema) && key in schema && schema[key] == StringT
    ensures GetDuration(t, key, parse) == ReadPanics <==>
      exists s :: Get(t, Split(key, '.')) == Some(Leaf(Str(s))) && parse(s) == None
  {
    WellTypedGettersSafe(schema, t);
    assert TypedGet(t, key, schema[key]) != ReadPanics;
  }

  /** An instance: from an empty configuration, the setter accepts the text the getter panics on. */
  lemma DurationCanPanic(schema: Schema, key: string, text: string, parse: string -> Option<int>)
    requires key in schema && schema[key] == StringT && parse(text) == None
    ensures SetKey(schema, EMPTY, key, Str(text)).Done?
    ensures GetDuration(SetKey(schema, EMPTY, key, Str(text)).tree, key, parse) == ReadPanics
  {
    DurationSetIff(schema, EMPTY, key, text, parse);
  }

  // ----- merging

  /** Merge has nothing to object to at this path: maps meet maps, settings meet settings of
      the same type, and nothing new is brought in. */
  ghost predicate Accepts(c: Tree, x: Tree, p: Path) {
    && (KindAt(x, p) == Inner ==> KindAt(c, p) == Inner)
    && (KindAt(x, p).LeafOf? ==> KindAt(c, p).LeafOf? && TypeOf(KindAt(x, p).value) == TypeOf(KindAt(c, p).value))
  }

  ghost predicate Mergeable(c: Tree, x: Tree) {
    forall p :: Accepts(c, x, p)
  }

  /** Every setting of the source has been taken over. */
  ghost predicate Taken(x: Tree, r: Tree) {
    forall p :: KindAt(x, p).LeafOf? ==> KindAt(r, p) == KindAt(x, p)
  }

  ghost predicate FullMerge(c: Tree, x: Tree, r: Tree) {
    Mergeable(c, x) && MergedPartly(c, x, r) && Taken(x, r)
  }

  ghost predicate FailedMerge(c: Tree, x: Tree, r: Tree) {
    !Mergeable(c, x) && MergedPartly(c, x, r)
  }

  /** The same paths hold settings, and the same paths hold maps. */
  ghost predicate SameKeys(c: Tree, r: Tree) {
    forall p :: (KindAt(r, p).LeafOf? <==> KindAt(c, p).LeafOf?) && (KindAt(r, p) == Inner <==> KindAt(c, p) == Inner)
  }

  lemma MergeKeepsKeys(c: Tree, x: Tree, r: Tree)
    requires MergedPartly(c, x, r)
    ensures SameKeys(c, r)
  {
    forall p ensures (KindAt(r, p).LeafOf? <==> KindAt(c, p).LeafOf?) && (KindAt(r, p) == Inner <==> KindAt(c, p) == Inner) {
      assert KindAt(r, p) == KindAt(c, p) || Overwritten(c, x, r, p);
    }
  }

  /** A complete merge has one possible outcome, in whatever order the keys were visited. */
  lemma MergeIsDetermined(c: Tree, x: Tree, r: Tree, r': Tree)
    requires FullMerge(c, x, r) && FullMerge(c, x, r')
    ensures r == r'
  {
    forall p ensures KindAt(r, p) == KindAt(r', p) {
      assert KindAt(r, p) == KindAt(c, p) || Overwritten(c, x, r, p);
      assert KindAt(r', p) == KindAt(c, p) || Overwritten(c, x, r', p);
      if KindAt(x, p).LeafOf? { assert KindAt(r, p) == KindAt(x, p) == KindAt(r', p); }
    }
    Extensional(r, r');
  }

  /** Merging a configuration into itself succeeds and changes nothing. */
  lemma MergeSelf(t: Tree, r: Tree)
    ensures FullMerge(t, t, r) <==> r == t
    ensures !FailedMerge(t, t, r)
  {
    assert FullMerge(t, t, t);
    if FullMerge(t, t, r) { MergeIsDetermined(t, t, r, t); }
  }

  lemma MergeableKid(c: Tree, x: Tree, k: string)
    requires c.Node? && x.Node? && Mergeable(c, x) && k in x.kids
    ensures k in c.kids && Mergeable(c.kids[k], x.kids[k])
  {
    assert [k][1..] == [];
    assert KindAt(x, [k]) == KindAt(x.kids[k], []) != Absent;
    assert Accepts(c, x, [k]);
    assert KindAt(c, [k]) != Absent;
    forall p ensures Accepts(c.kids[k], x.kids[k], p) {
      assert ([k] + p)[1..] == p;
      assert Accepts(c, x, [k] + p);
    }
  }

  lemma MergeableKids(c: Tree, x: Tree)
    requires c.Node? && x.Node?
    requires forall k :: k in x.kids ==> k in c.kids && Mergeable(c.kids[k], x.kids[k])
    ensures Mergeable(c, x)
  {
    forall p ensures Accepts(c, x, p) {
      if p != [] && p[0] in x.kids {
        assert Accepts(c.kids[p[0]], x.kids[p[0]], p[1..]);
      }
    }
  }

  ghost predicate KidMerged(c: Tree, x: Tree, r: Tree, k: string)
    requires c.Node? && x.Node? && r.Node? && k in c.kids && k in r.kids
  {
    r.kids[k] == c.kids[k] || (k in x.kids && MergedPartly(c.kids[k], x.kids[k], r.kids[k]))
  }

  lemma MergedKids(c: Tree, x: Tree, r: Tree)
    requires c.Node? && x.Node? && r.Node? && r.kids.Keys == c.kids.Keys
    requires forall k :: k in c.kids ==> KidMerged(c, x, r, k)
    ensures MergedPartly(c, x, r)
  {
    forall p ensures KindAt(r, p) == KindAt(c, p) || Overwritten(c, x, r, p) {
      if p != [] && p[0] in c.kids {
        assert KidMerged(c, x, r, p[0]);
        if r.kids[p[0]] != c.kids[p[0]] {
          var c', x', r', p' := c.kids[p[0]], x.kids[p[0]], r.kids[p[0]], p[1..];
          assert KindAt(r', p') == KindAt(c', p') || Overwritten(c', x', r', p');
        }
      }
    }
  }

  lemma TakenKids(x: Tree, r: Tree)
    requires x.Node? && r.Node?
    requires forall k :: k in x.kids ==> k in r.kids && Taken(x.kids[k], r.kids[k])
    ensures Taken(x, r)
  {
    forall p | KindAt(x, p).LeafOf? ensures KindAt(r, p) == KindAt(x, p) {
      assert Taken(x.kids[p[0]], r.kids[p[0]]);
    }
  }

  lemma LeafMerge(v: Value, xv: Value)
    ensures if TypeOf(v) == TypeOf(xv) then FullMerge(Leaf(v), Leaf(xv), Leaf(xv)) else !Mergeable(Leaf(v), Leaf(xv))
  {
    assert KindAt(Leaf(v), []) == LeafOf(v) && KindAt(Leaf(xv), []) == LeafOf(xv);
    if TypeOf(v) == TypeOf(xv) {
      forall p ensures Accepts(Leaf(v), Leaf(xv), p)
        && (KindAt(Leaf(xv), p) == KindAt(Leaf(v), p) || Overwritten(Leaf(v), Leaf(xv), Leaf(xv), p)) {}
    } else {
      assert !Accepts(Leaf(v), Leaf(xv), []);
    }
  }

  /** A map does not merge into a setting, nor a setting into a map. */
  lemma KindsMustAgree(c: Tree, x: Tree)
    requires c.Node? != x.Node?
    ensures !Mergeable(c, x)
  {
    assert !Accepts(c, x, []);
  }

  lemma NothingMerged(c: Tree, x: Tree)
    ensures MergedPartly(c, x, c)
  {}
}
