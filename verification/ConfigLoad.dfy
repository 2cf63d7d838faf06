/** Loading a configuration: nested maps are flattened to dotted keys and the entries are set one
    by one. Both loops run over Go maps, in any order the iteration happens to give; here are
    all the outcomes a load can have, and when there is only one. */
module ConfigLoad {
  import opened Strings
  import opened ConfigTree
  import opened ConfigSchema

  /** An error return, or a panic. */
  datatype Status = Ok | Failed | Panic

  datatype Load = Loaded(errors: nat) | LoadPanicked

  function StatusOf(r: SetResult, old_: Tree): (Status, Tree) {
    match r
    case Done(t) => (Ok, t)
    case Refused => (Failed, old_)
    case Panicked => (Panic, old_)
  }

  // ----- flattening, in any order

  function UnderKey(k: string, keys: set<string>): set<string> {
    set kk | kk in keys :: k + "." + kk
  }

  /** The entries of a nested map, under its key. */
  function Below(k: string, inner: map<string, Value>): (m: map<string, Value>)
    ensures m.Keys == UnderKey(k, inner.Keys)
  {
    assert forall kk :: (k + "." + kk)[|k| + 1..] == kk;
    map x | x in UnderKey(k, inner.Keys) :: inner[x[|k| + 1..]]
  }

  lemma BelowHas(k: string, inner: map<string, Value>, kk: string)
    requires kk in inner
    ensures k + "." + kk in Below(k, inner) && Below(k, inner)[k + "." + kk] == inner[kk]
  {
    assert (k + "." + kk)[|k| + 1..] == kk;
    assert k + "." + kk in UnderKey(k, inner.Keys);
  }

  type Inner = map<string, map<string, Value>>

  /** What one entry of a map contributes, its own entries flattened as `inner` says. */
  function Piece(t: Tree, inner: Inner, k: string): map<string, Value>
    requires t.Node? && k in t.kids
  {
    match t.kids[k]
    case Leaf(v) => map[k := v]
    case Node(_) => if k in inner then Below(k, inner[k]) else map[]
  }

  /** The entries visited in this order; later ones overwrite earlier ones. */
  function Gathered(t: Tree, inner: Inner, order: seq<string>): map<string, Value>
    requires t.Node? && forall k :: k in order ==> k in t.kids
  {
    if order == [] then map[]
    else Gathered(t, inner, order[..|order| - 1]) + Piece(t, inner, order[|order| - 1])
  }

  /** flattenMap can return `out`, for some iteration order of each of the nested maps. */
  ghost predicate Flattens(t: Tree, out: map<string, Value>)
    decreases t, 1
  {
    exists order, inner :: FlattensBy(t, out, order, inner)
  }

  ghost predicate FlattensBy(t: Tree, out: map<string, Value>, order: seq<string>, inner: Inner)
    decreases t, 0
  {
    && t.Node? && Lists(order, t.kids.Keys)
    && (forall k :: k in t.kids && t.kids[k].Node? ==> k in inner && Flattens(t.kids[k], inner[k]))
    && out == Gathered(t, inner, order)
  }

  lemma {:induction false} GatheredFrame(t: Tree, inner: Inner, inner': Inner, order: seq<string>)
    requires t.Node? && forall k :: k in order ==> k in t.kids
    requires forall k :: k in order ==> Piece(t, inner, k) == Piece(t, inner', k)
    ensures Gathered(t, inner, order) == Gathered(t, inner', order)
  {
    if order != [] { GatheredFrame(t, inner, inner', order[..|order| - 1]); }
  }

  /** The leaves below the keys visited have been flattened, and nothing else. */
  ghost predicate FlatSoFar(t: Tree, out: map<string, Value>, order: seq<string>) {
    && (forall p :: KindAt(t, p).LeafOf? && p != [] && p[0] in order ==> Join(p, '.') in out)
    && (forall x :: x in out ==> Produced(t, out[x], x))
  }

  ghost predicate Produced(t: Tree, v: Value, x: string) {
    exists p :: Join(p, '.') == x && KindAt(t, p) == LeafOf(v)
  }

  lemma PieceIsFlat(t: Tree, inner: Inner, k: string)
    requires t.Node? && k in t.kids
    requires t.kids[k].Node? ==> k in inner && FlatOf(t.kids[k], inner[k])
    ensures FlatSoFar(t, Piece(t, inner, k), [k])
  {
    var out := Piece(t, inner, k);
    assert [k][1..] == [];
    forall p | KindAt(t, p).LeafOf? && p != [] && p[0] in [k] ensures Join(p, '.') in out {
      assert KindAt(t.kids[k], p[1..]).LeafOf?;
      if t.kids[k].Node? {
        assert Join(p, '.') == k + "." + Join(p[1..], '.');
        BelowHas(k, inner[k], Join(p[1..], '.'));
      } else {
        assert p == [k];
      }
    }
    forall x | x in out ensures Produced(t, out[x], x) {
      if t.kids[k].Node? {
        var kk :| kk in inner[k] && k + "." + kk == x;
        BelowHas(k, inner[k], kk);
        ProducedBelow(t, inner[k], k, kk);
      } else {
        assert Join([k], '.') == k && KindAt(t, [k]) == LeafOf(out[x]);
      }
    }
  }

  lemma ProducedBelow(t: Tree, inner: map<string, Value>, k: string, kk: string)
    requires t.Node? && k in t.kids && t.kids[k].Node? && FlatOf(t.kids[k], inner) && kk in inner
    ensures Produced(t, inner[kk], k + "." + kk)
  {
    var q :| Join(q, '.') == kk && KindAt(t.kids[k], q) == LeafOf(inner[kk]);
    assert q != [];
    assert ([k] + q)[1..] == q;
    assert Join([k] + q, '.') == k + "." + kk;
  }

  lemma {:induction false} GatheredIsFlat(t: Tree, inner: Inner, order: seq<string>)
    requires t.Node? && forall k :: k in order ==> k in t.kids
    requires forall k :: k in order && t.kids[k].Node? ==> k in inner && FlatOf(t.kids[k], inner[k])
    ensures FlatSoFar(t, Gathered(t, inner, order), order)
  {
    if order != [] {
      var n := |order| - 1;
      GatheredIsFlat(t, inner, order[..n]);
      PieceIsFlat(t, inner, order[n]);
      FlatSoFarJoins(t, Gathered(t, inner, order[..n]), Piece(t, inner, order[n]), order);
    }
  }

  lemma FlatSoFarJoins(t: Tree, out: map<string, Value>, piece: map<string, Value>, order: seq<string>)
    requires order != []
    requires FlatSoFar(t, out, order[..|order| - 1]) && FlatSoFar(t, piece, [order[|order| - 1]])
    ensures FlatSoFar(t, out + piece, order)
  {
    var n := |order| - 1;
    forall p | KindAt(t, p).LeafOf? && p != [] && p[0] in order ensures Join(p, '.') in out + piece {
      assert p[0] in order[..n] || p[0] in [order[n]];
    }
  }

  /** In whatever order it is done, flattening lists the dotted keys of the leaves. */
  lemma {:induction false} FlattensFlat(t: Tree, out: map<string, Value>)
    requires Flattens(t, out)
    ensures FlatOf(t, out)
    decreases t
  {
    var order, inner :| FlattensBy(t, out, order, inner);
    forall k | k in order && t.kids[k].Node? ensures k in inner && FlatOf(t.kids[k], inner[k]) {
      FlattensFlat(t.kids[k], inner[k]);
    }
    GatheredIsFlat(t, inner, order);
    assert forall p :: KindAt(t, p).LeafOf? ==> p != [] && p[0] in order;
  }

  // ----- when the result of flattening is fixed

  /** Two leaves with the same dotted key, if there are any, hold the same value. */
  ghost predicate Unambiguous(t: Tree) {
    forall p, q :: KindAt(t, p).LeafOf? && KindAt(t, q).LeafOf? && Join(p, '.') == Join(q, '.') ==> KindAt(t, p) == KindAt(t, q)
  }

  ghost function Listing(keys: set<string>): (order: seq<string>)
    ensures Lists(order, keys)
  {
    if keys == {} then []
    else
      var k :| k in keys;
      Listing(keys - {k}) + [k]
  }

  /** An order that visits the first key of the path last. */
  ghost function ListingTo(keys: set<string>, p: Path): (order: seq<string>)
    ensures Lists(order, keys)
  {
    if p != [] && p[0] in keys then Listing(keys - {p[0]}) + [p[0]] else Listing(keys)
  }

  /** The flattening whose iterations all end on the way to `p`. */
  ghost function Favouring(t: Tree, p: Path): map<string, Value>
    requires t.Node?
    decreases t, 1
  {
    Gathered(t, FavouringBelow(t, p), ListingTo(t.kids.Keys, p))
  }

  ghost function FavouringBelow(t: Tree, p: Path): (inner: Inner)
    requires t.Node?
    decreases t, 0
  {
    map k | k in t.kids && t.kids[k].Node? :: Favouring(t.kids[k], if p != [] && p[0] == k then p[1..] else [])
  }

  lemma {:induction false} FavouringFlattens(t: Tree, p: Path)
    requires t.Node?
    ensures Flattens(t, Favouring(t, p))
    decreases t
  {
    forall k | k in t.kids && t.kids[k].Node? ensures Flattens(t.kids[k], FavouringBelow(t, p)[k]) {
      FavouringFlattens(t.kids[k], if p != [] && p[0] == k then p[1..] else []);
    }
    assert FlattensBy(t, Favouring(t, p), ListingTo(t.kids.Keys, p), FavouringBelow(t, p));
  }

  /** Any leaf can be the one whose value ends up under its dotted key. */
  lemma {:induction false} FavouredLeafWins(t: Tree, p: Path)
    requires t.Node? && KindAt(t, p).LeafOf?
    ensures Join(p, '.') in Favouring(t, p) && Favouring(t, p)[Join(p, '.')] == KindAt(t, p).value
    decreases t
  {
    var k := p[0];
    var order := ListingTo(t.kids.Keys, p);
    assert order[|order| - 1] == k;
    if t.kids[k].Node? {
      FavouredLeafWins(t.kids[k], p[1..]);
      BelowHas(k, FavouringBelow(t, p)[k], Join(p[1..], '.'));
      assert Join(p, '.') == k + "." + Join(p[1..], '.');
    } else {
      assert p == [k] + p[1..] == [k];
    }
  }

  ghost predicate OneFlattening(t: Tree) {
    forall x, y :: Flattens(t, x) && Flattens(t, y) ==> x == y
  }

  /** Flattening has one possible result exactly when no two leaves with the same dotted key hold
      different values. */
  lemma FlattenDeterminedIff(t: Tree)
    requires t.Node?
    ensures OneFlattening(t) <==> Unambiguous(t)
  {
    if Unambiguous(t) {
      forall x, y | Flattens(t, x) && Flattens(t, y) ensures x == y {
        FlattensAlike(t, x, y);
      }
    } else {
      AmbiguityShows(t);
    }
  }

  lemma FlattensAlike(t: Tree, x: map<string, Value>, y: map<string, Value>)
    requires Flattens(t, x) && Flattens(t, y) && Unambiguous(t)
    ensures x == y
  {
    FlattensFlat(t, x);
    FlattensFlat(t, y);
    SameKeysFlat(t, x, y);
  }

  lemma AmbiguityShows(t: Tree)
    requires t.Node? && !Unambiguous(t)
    ensures !OneFlattening(t)
  {
    var p, q :| KindAt(t, p).LeafOf? && KindAt(t, q).LeafOf? && Join(p, '.') == Join(q, '.') && KindAt(t, p) != KindAt(t, q);
    var x, y := TwoFlattenings(t, p, q);
    assert x != y;
  }

  lemma TwoFlattenings(t: Tree, p: Path, q: Path) returns (x: map<string, Value>, y: map<string, Value>)
    requires t.Node? && KindAt(t, p).LeafOf? && KindAt(t, q).LeafOf? && Join(p, '.') == Join(q, '.')
    ensures Flattens(t, x) && Flattens(t, y)
    ensures Join(p, '.') in x && Join(p, '.') in y
    ensures x[Join(p, '.')] == KindAt(t, p).value && y[Join(p, '.')] == KindAt(t, q).value
  {
    x, y := Favouring(t, p), Favouring(t, q);
    FavouringFlattens(t, p);
    FavouringFlattens(t, q);
    FavouredLeafWins(t, p);
    FavouredLeafWins(t, q);
  }

  lemma SameKeysFlat(t: Tree, x: map<string, Value>, y: map<string, Value>)
    requires FlatOf(t, x) && FlatOf(t, y)
    ensures x.Keys == y.Keys
    ensures Unambiguous(t) ==> x == y
  {
    forall k ensures k in x <==> k in y {
      if k in x { var p :| Join(p, '.') == k && KindAt(t, p) == LeafOf(x[k]); }
      if k in y { var p :| Join(p, '.') == k && KindAt(t, p) == LeafOf(y[k]); }
    }
  }

  // ----- setting the entries

  /** What setting one entry comes to; it does not depend on the configuration. */
  function Fate(schema: Schema, key: string, value: Value): Status {
    if schema == map[] then Ok
    else if key !in schema then Failed
    else match Convert(value, schema[key])
      case Converted(_) => Ok
      case Rejected => Failed
      case Panics => Panic
  }

  function Stored(schema: Schema, key: string, value: Value): Value
    requires Fate(schema, key, value) == Ok
  {
    if schema == map[] then value else Convert(value, schema[key]).value
  }

  lemma FateOfSet(schema: Schema, t: Tree, key: string, value: Value)
    requires t.Node?
    ensures match Fate(schema, key, value)
      case Ok => SetKey(schema, t, key, value) == Done(Put(t, Split(key, '.'), Stored(schema, key, value)))
      case Failed => SetKey(schema, t, key, value) == Refused
      case Panic => SetKey(schema, t, key, value) == Panicked
  {}

  /** The writes a load makes: the entries that convert. */
  function Accepted(schema: Schema, out: map<string, Value>, order: seq<string>): seq<Entry>
    requires forall k :: k in order ==> k in out
  {
    if order == [] then []
    else
      var n := |order| - 1;
      var rest := Accepted(schema, out, order[..n]);
      if Fate(schema, order[n], out[order[n]]) == Ok
      then rest + [Entry(Split(order[n], '.'), Stored(schema, order[n], out[order[n]]))] else rest
  }

  function Refusals(schema: Schema, out: map<string, Value>, order: seq<string>): nat
    requires forall k :: k in order ==> k in out
  {
    if order == [] then 0
    else
      var n := |order| - 1;
      Refusals(schema, out, order[..n]) + if Fate(schema, order[n], out[order[n]]) == Failed then 1 else 0
  }

  lemma ListOneMore(order: seq<string>, keys: set<string>, todo: set<string>, k: string)
    requires Lists(order, keys - todo) && k in todo && todo <= keys
    ensures Lists(order + [k], keys - (todo - {k}))
  {
    assert forall i :: 0 <= i < |order| ==> order[i] in keys - todo;
  }

  // ----- once flattened, the order of the entries

  lemma {:induction false} AcceptedAre(schema: Schema, out: map<string, Value>, order: seq<string>, i: nat) returns (k: string)
    requires forall k :: k in order ==> k in out
    requires i < |Accepted(schema, out, order)|
    ensures k in order && Fate(schema, k, out[k]) == Ok
    ensures Accepted(schema, out, order)[i] == Entry(Split(k, '.'), Stored(schema, k, out[k]))
  {
    var n := |order| - 1;
    if i < |Accepted(schema, out, order[..n])| {
      k := AcceptedAre(schema, out, order[..n], i);
    } else {
      k := order[n];
    }
  }

  lemma {:induction false} AcceptedHas(schema: Schema, out: map<string, Value>, order: seq<string>, k: string)
    requires forall k :: k in order ==> k in out
    requires k in order && Fate(schema, k, out[k]) == Ok
    ensures Entry(Split(k, '.'), Stored(schema, k, out[k])) in Accepted(schema, out, order)
  {
    var n := |order| - 1;
    if k in order[..n] {
      AcceptedHas(schema, out, order[..n], k);
    }
  }

  lemma AcceptedInBoth(schema: Schema, out: map<string, Value>, a: seq<string>, b: seq<string>, e: Entry)
    requires Lists(a, out.Keys) && Lists(b, out.Keys)
    ensures e in Accepted(schema, out, a) ==> e in Accepted(schema, out, b)
  {
    if i :| 0 <= i < |Accepted(schema, out, a)| && Accepted(schema, out, a)[i] == e {
      var k := AcceptedAre(schema, out, a, i);
      AcceptedHas(schema, out, b, k);
    }
  }

  /** No two accepted keys are related as paths. */
  ghost predicate AcceptedApart(schema: Schema, out: map<string, Value>) {
    forall k, l :: k in out && l in out && k != l && Fate(schema, k, out[k]) == Ok && Fate(schema, l, out[l]) == Ok
      ==> !Related(Split(k, '.'), Split(l, '.'))
  }

  lemma {:induction false} AcceptedUnrelated(schema: Schema, out: map<string, Value>, order: seq<string>)
    requires forall k :: k in order ==> k in out
    requires forall i, j :: 0 <= i < j < |order| ==> order[i] != order[j]
    requires AcceptedApart(schema, out)
    ensures Unrelated(Accepted(schema, out, order))
  {
    if order != [] {
      var n := |order| - 1;
      AcceptedUnrelated(schema, out, order[..n]);
      var rest := Accepted(schema, out, order[..n]);
      if Fate(schema, order[n], out[order[n]]) == Ok {
        forall i | 0 <= i < |rest| ensures !Related(rest[i].path, Split(order[n], '.')) {
          var k := AcceptedAre(schema, out, order[..n], i);
        }
      }
    }
  }

  /** Once flattened, entries with unrelated accepted keys give the same configuration and the
      same number of errors in every order. */
  lemma EntryOrderDoesNotMatter(schema: Schema, t: Tree, out: map<string, Value>, a: seq<string>, b: seq<string>)
    requires t.Node? && Lists(a, out.Keys) && Lists(b, out.Keys) && AcceptedApart(schema, out)
    ensures PutAll(t, Accepted(schema, out, a)) == PutAll(t, Accepted(schema, out, b))
    ensures Refusals(schema, out, a) == Refusals(schema, out, b)
  {
    AcceptedUnrelated(schema, out, a);
    AcceptedUnrelated(schema, out, b);
    forall e ensures e in Accepted(schema, out, a) <==> e in Accepted(schema, out, b) {
      AcceptedInBoth(schema, out, a, b, e);
      AcceptedInBoth(schema, out, b, a, e);
    }
    OrderDoesNotMatter(t, Accepted(schema, out, a), Accepted(schema, out, b));
    RefusalsInBoth(schema, out, a, b);
  }

  lemma RefusalsInBoth(schema: Schema, out: map<string, Value>, a: seq<string>, b: seq<string>)
    requires Lists(a, out.Keys) && Lists(b, out.Keys)
    ensures Refusals(schema, out, a) == Refusals(schema, out, b)
  {
    RefusalsAreCounted(schema, out, a);
    RefusalsAreCounted(schema, out, b);
    assert (set k | k in a && Fate(schema, k, out[k]) == Failed) == set k | k in b && Fate(schema, k, out[k]) == Failed;
  }

  /** A load into a well-typed configuration leaves it well typed, whatever is loaded. */
  lemma {:induction false} LoadWellTyped(schema: Schema, t: Tree, out: map<string, Value>, order: seq<string>)
    requires schema != map[] && WellTyped(schema, t) && forall k :: k in order ==> k in out
    ensures WellTyped(schema, PutAll(t, Accepted(schema, out, order)))
  {
    if order != [] {
      var n := |order| - 1;
      LoadWellTyped(schema, t, out, order[..n]);
      var es := Accepted(schema, out, order[..n]);
      if Fate(schema, order[n], out[order[n]]) == Ok {
        var v := Stored(schema, order[n], out[order[n]]);
        ConversionIsTyped(out[order[n]], schema[order[n]]);
        PutWellTyped(schema, PutAll(t, es), order[n], v);
        assert (es + [Entry(Split(order[n], '.'), v)])[..|es|] == es;
      }
    }
  }

  lemma {:induction false} RefusalsAreCounted(schema: Schema, out: map<string, Value>, order: seq<string>)
    requires forall k :: k in order ==> k in out
    requires forall i, j :: 0 <= i < j < |order| ==> order[i] != order[j]
    ensures Refusals(schema, out, order) == |set k | k in order && Fate(schema, k, out[k]) == Failed|
  {
    if order != [] {
      var n := |order| - 1;
      RefusalsAreCounted(schema, out, order[..n]);
      var before := set k | k in order[..n] && Fate(schema, k, out[k]) == Failed;
      var after := set k | k in order && Fate(schema, k, out[k]) == Failed;
      assert order == order[..n] + [order[n]];
      assert order[n] !in order[..n];
      assert after == if Fate(schema, order[n], out[order[n]]) == Failed then before + {order[n]} else before;
    }
  }

  /** Without a schema every entry is accepted as it is. */
  lemma {:induction false} AllAccepted(out: map<string, Value>, order: seq<string>)
    requires forall k :: k in order ==> k in out
    ensures Accepted(map[], out, order) == Entries(out, order)
  {
    if order == [] {
    } else {
      var n := |order| - 1;
      AllAccepted(out, order[..n]);
      assert Entries(out, order) == Entries(out, order[..n]) + [Entry(Split(order[n], '.'), out[order[n]])];
    }
  }

  /** Where a load stands after the entries in `order`. */
  ghost predicate LoadedSoFar(schema: Schema, t0: Tree, out: map<string, Value>, order: seq<string>, t: Tree, errors: nat)
    requires t0.Node?
  {
    && (forall k :: k in order ==> k in out && Fate(schema, k, out[k]) != Panic)
    && t == PutAll(t0, Accepted(schema, out, order))
    && errors == Refusals(schema, out, order)
  }

  lemma LoadOneMore(schema: Schema, t0: Tree, out: map<string, Value>, order: seq<string>, t: Tree, errors: nat, k: string)
    requires t0.Node? && LoadedSoFar(schema, t0, out, order, t, errors) && k in out
    ensures match Fate(schema, k, out[k])
      case Ok => LoadedSoFar(schema, t0, out, order + [k], Put(t, Split(k, '.'), Stored(schema, k, out[k])), errors)
      case Failed => LoadedSoFar(schema, t0, out, order + [k], t, errors + 1)
      case Panic => true
  {
    assert (order + [k])[..|order|] == order;
    if Fate(schema, k, out[k]) == Ok {
      var es, e := Accepted(schema, out, order), Entry(Split(k, '.'), Stored(schema, k, out[k]));
      assert (es + [e])[..|es|] == es;
    }
  }

  /** A load that stops at its first error has set the entries in `order`, once each, and stands
      before one whose setting comes to `r`. */
  ghost predicate StoppedAt(schema: Schema, out: map<string, Value>, order: seq<string>, r: Status) {
    && (forall i, j :: 0 <= i < j < |order| ==> order[i] != order[j])
    && (forall k :: k in order ==> k in out && Fate(schema, k, out[k]) == Ok)
    && exists k :: k in out && k !in order && Fate(schema, k, out[k]) == r
  }

  /** Wherever a load stops, a well-typed configuration is still well typed. */
  lemma LoadedWellTyped(schema: Schema, t0: Tree, out: map<string, Value>, order: seq<string>, t: Tree, errors: nat)
    requires t0.Node? && LoadedSoFar(schema, t0, out, order, t, errors)
    ensures schema != map[] && WellTyped(schema, t0) ==> WellTyped(schema, t)
  {
    if schema != map[] && WellTyped(schema, t0) { LoadWellTyped(schema, t0, out, order); }
  }

  /** A load into nothing without errors: well typed, and without a schema the tree itself, if that
      is dot-free and without empty maps. */
  lemma LoadedIntoNothing(schema: Schema, input: Tree, out: map<string, Value>, order: seq<string>, t: Tree)
    requires input.Node? && FlatOf(input, out) && LoadedSoFar(schema, EMPTY, out, order, t, 0)
    ensures schema != map[] ==> WellTyped(schema, t)
    ensures schema == map[] ==> forall k :: k in out ==> Fate(schema, k, out[k]) == Ok
    ensures schema == map[] && DotFree(input) && NoEmpty(input) && Lists(order, out.Keys) ==> t == input
  {
    assert WellTyped(schema, EMPTY);
    LoadedWellTyped(schema, EMPTY, out, order, t, 0);
    if schema == map[] && DotFree(input) && NoEmpty(input) && Lists(order, out.Keys) {
      AllAccepted(out, order);
      FlattenRebuild(input, out, order);
    }
  }

  // ----- all the outcomes of a load, and when there is only one

  /** The load can end with this configuration and this number of errors. */
  ghost predicate CanLoad(schema: Schema, t0: Tree, input: Tree, t: Tree, errors: nat)
    requires t0.Node?
  {
    exists out, order :: Flattens(input, out) && Lists(order, out.Keys) && LoadedSoFar(schema, t0, out, order, t, errors)
  }

  ghost predicate CanPanic(schema: Schema, input: Tree) {
    exists out, k :: Flattens(input, out) && k in out && Fate(schema, k, out[k]) == Panic
  }

  ghost predicate OneOutcome(schema: Schema, t0: Tree, input: Tree)
    requires t0.Node?
  {
    forall t, errors, t', errors' :: CanLoad(schema, t0, input, t, errors) && CanLoad(schema, t0, input, t', errors')
      ==> t == t' && errors == errors'
  }

  ghost predicate SameEffect(schema: Schema, k: string, v: Value, w: Value) {
    Fate(schema, k, v) == Fate(schema, k, w) && (Fate(schema, k, v) == Ok ==> Stored(schema, k, v) == Stored(schema, k, w))
  }

  /** Setting either of two leaves with the same dotted key comes to the same. */
  ghost predicate EffectsAgree(schema: Schema, t: Tree) {
    forall p, q :: KindAt(t, p).LeafOf? && KindAt(t, q).LeafOf? && Join(p, '.') == Join(q, '.')
      ==> SameEffect(schema, Join(p, '.'), KindAt(t, p).value, KindAt(t, q).value)
  }

  ghost predicate LeafAccepted(schema: Schema, t: Tree, p: Path) {
    KindAt(t, p).LeafOf? && Fate(schema, Join(p, '.'), KindAt(t, p).value) == Ok
  }

  /** Accepted leaves with different dotted keys have unrelated dotted keys. */
  ghost predicate KeysApart(schema: Schema, t: Tree) {
    forall p, q :: LeafAccepted(schema, t, p) && LeafAccepted(schema, t, q) && Join(p, '.') != Join(q, '.')
      ==> !Related(Split(Join(p, '.'), '.'), Split(Join(q, '.'), '.'))
  }

  ghost predicate NothingPanics(schema: Schema, t: Tree) {
    forall p :: KindAt(t, p).LeafOf? ==> Fate(schema, Join(p, '.'), KindAt(t, p).value) != Panic
  }

  ghost predicate SameEffects(schema: Schema, x: map<string, Value>, y: map<string, Value>) {
    x.Keys == y.Keys && forall k :: k in x ==> SameEffect(schema, k, x[k], y[k])
  }

  lemma {:induction false} EffectsDecide(schema: Schema, x: map<string, Value>, y: map<string, Value>, order: seq<string>)
    requires SameEffects(schema, x, y) && forall k :: k in order ==> k in x
    ensures Accepted(schema, x, order) == Accepted(schema, y, order) && Refusals(schema, x, order) == Refusals(schema, y, order)
  {
    if order != [] { EffectsDecide(schema, x, y, order[..|order| - 1]); }
  }

  lemma FlatEffects(schema: Schema, t: Tree, x: map<string, Value>, y: map<string, Value>)
    requires EffectsAgree(schema, t) && FlatOf(t, x) && FlatOf(t, y)
    ensures SameEffects(schema, x, y)
  {
    SameKeysFlat(t, x, y);
    forall k | k in x ensures SameEffect(schema, k, x[k], y[k]) {
      var p :| Join(p, '.') == k && KindAt(t, p) == LeafOf(x[k]);
      var q :| Join(q, '.') == k && KindAt(t, q) == LeafOf(y[k]);
    }
  }

  lemma FlatApart(schema: Schema, t: Tree, x: map<string, Value>)
    requires KeysApart(schema, t) && FlatOf(t, x)
    ensures AcceptedApart(schema, x)
  {
    forall k, l | k in x && l in x && k != l && Fate(schema, k, x[k]) == Ok && Fate(schema, l, x[l]) == Ok
      ensures !Related(Split(k, '.'), Split(l, '.'))
    {
      var p :| Join(p, '.') == k && KindAt(t, p) == LeafOf(x[k]);
      var q :| Join(q, '.') == l && KindAt(t, q) == LeafOf(x[l]);
      assert LeafAccepted(schema, t, p) && LeafAccepted(schema, t, q);
    }
  }

  /** If leaves with the same dotted key come to the same and the others are unrelated, a load into
      any configuration has one outcome: the same tree, the same number of errors, and a panic
      on every order or on none. */
  lemma LoadIsDetermined(schema: Schema, t0: Tree, input: Tree)
    requires t0.Node? && EffectsAgree(schema, input) && KeysApart(schema, input)
    ensures OneOutcome(schema, t0, input)
    ensures CanPanic(schema, input) ==> forall t, errors :: !CanLoad(schema, t0, input, t, errors)
  {
    forall t, errors, t', errors' | CanLoad(schema, t0, input, t, errors) && CanLoad(schema, t0, input, t', errors')
      ensures t == t' && errors == errors'
    {
      var x, a :| Flattens(input, x) && Lists(a, x.Keys) && LoadedSoFar(schema, t0, x, a, t, errors);
      var y, b :| Flattens(input, y) && Lists(b, y.Keys) && LoadedSoFar(schema, t0, y, b, t', errors');
      FlattensFlat(input, x);
      FlattensFlat(input, y);
      FlatEffects(schema, input, x, y);
      FlatApart(schema, input, x);
      EffectsDecide(schema, x, y, b);
      EntryOrderDoesNotMatter(schema, t0, x, a, b);
    }
    forall t, errors | CanLoad(schema, t0, input, t, errors) ensures !CanPanic(schema, input) {
      LoadsNeverPanic(schema, t0, input, t, errors);
    }
  }

  lemma LoadsNeverPanic(schema: Schema, t0: Tree, input: Tree, t: Tree, errors: nat)
    requires t0.Node? && EffectsAgree(schema, input) && CanLoad(schema, t0, input, t, errors)
    ensures !CanPanic(schema, input)
  {
    var y, b :| Flattens(input, y) && Lists(b, y.Keys) && LoadedSoFar(schema, t0, y, b, t, errors);
    FlattensFlat(input, y);
    forall x, k | Flattens(input, x) && k in x ensures Fate(schema, k, x[k]) != Panic {
      FlattensFlat(input, x);
      FlatEffects(schema, input, x, y);
      assert k in b;
    }
  }

  /** Without a panic every order of the entries is a load. */
  lemma CanLoadBy(schema: Schema, t0: Tree, input: Tree, out: map<string, Value>, order: seq<string>)
    requires t0.Node? && NothingPanics(schema, input) && Flattens(input, out) && Lists(order, out.Keys)
    ensures CanLoad(schema, t0, input, PutAll(t0, Accepted(schema, out, order)), Refusals(schema, out, order))
  {
    FlattensFlat(input, out);
    forall k | k in order ensures Fate(schema, k, out[k]) != Panic {
      var p :| Join(p, '.') == k && KindAt(input, p) == LeafOf(out[k]);
    }
    assert LoadedSoFar(schema, t0, out, order, PutAll(t0, Accepted(schema, out, order)), Refusals(schema, out, order));
  }

  lemma {:induction false} LeafWasWritten(es: seq<Entry>, q: Path)
    requires KindAt(PutAll(EMPTY, es), q).LeafOf? && forall i :: 0 <= i < |es| ==> es[i].path != []
    ensures exists i :: 0 <= i < |es| && es[i].path == q
  {
    if es != [] {
      var n := |es| - 1;
      KindPut(PutAll(EMPTY, es[..n]), es[n].path, es[n].value, q);
      if es[n].path != q {
        LeafWasWritten(es[..n], q);
        var i :| 0 <= i < n && es[..n][i].path == q;
        assert es[i].path == q;
      }
    }
  }

  /** What a key reads as after a load into nothing that sets it last. */
  lemma SetLast(schema: Schema, out: map<string, Value>, order: seq<string>, k: string)
    requires Lists(order, out.Keys) && order != [] && order[|order| - 1] == k && Fate(schema, k, out[k]) != Panic
    ensures var kind := KindAt(PutAll(EMPTY, Accepted(schema, out, order)), Split(k, '.'));
      if Fate(schema, k, out[k]) == Ok then kind == LeafOf(Stored(schema, k, out[k])) else !kind.LeafOf?
  {
    var n := |order| - 1;
    var es := Accepted(schema, out, order);
    if Fate(schema, k, out[k]) == Ok {
      var rest := Accepted(schema, out, order[..n]);
      assert es[..|rest|] == rest;
      KindPut(PutAll(EMPTY, rest), Split(k, '.'), Stored(schema, k, out[k]), Split(k, '.'));
    } else if KindAt(PutAll(EMPTY, es), Split(k, '.')).LeafOf? {
      forall i | 0 <= i < |es| ensures es[i].path != [] && es[i].path != Split(k, '.') {
        var l := AcceptedAre(schema, out, order, i);
        JoinSplit(k, '.');
        JoinSplit(l, '.');
      }
      LeafWasWritten(es, Split(k, '.'));
    }
  }

  lemma DisagreementShows(schema: Schema, input: Tree, p: Path, q: Path)
    requires input.Node? && NothingPanics(schema, input) && KindAt(input, p).LeafOf? && KindAt(input, q).LeafOf?
    requires Join(p, '.') == Join(q, '.') && !SameEffect(schema, Join(p, '.'), KindAt(input, p).value, KindAt(input, q).value)
    ensures !OneOutcome(schema, EMPTY, input)
  {
    var k := Join(p, '.');
    var x, y := TwoFlattenings(input, p, q);
    var a, b := ListingTo(x.Keys, [k]), ListingTo(y.Keys, [k]);
    SetLast(schema, x, a, k);
    SetLast(schema, y, b, k);
    CanLoadBy(schema, EMPTY, input, x, a);
    CanLoadBy(schema, EMPTY, input, y, b);
  }

  lemma AcceptedSnoc(schema: Schema, t: Tree, out: map<string, Value>, rest: seq<string>, k: string)
    requires t.Node? && (forall x :: x in rest ==> x in out) && k in out && Fate(schema, k, out[k]) == Ok
    ensures PutAll(t, Accepted(schema, out, rest + [k]))
      == Put(PutAll(t, Accepted(schema, out, rest)), Split(k, '.'), Stored(schema, k, out[k]))
  {
    var es, e := Accepted(schema, out, rest), Entry(Split(k, '.'), Stored(schema, k, out[k]));
    assert (rest + [k])[..|rest|] == rest;
    assert (es + [e])[..|es|] == es;
  }

  lemma LastTwo(schema: Schema, t: Tree, out: map<string, Value>, rest: seq<string>, k: string, l: string)
    requires t.Node? && (forall x :: x in rest ==> x in out) && k in out && l in out
    requires Fate(schema, k, out[k]) == Ok && Fate(schema, l, out[l]) == Ok
    ensures PutAll(t, Accepted(schema, out, rest + [k] + [l]))
      == Put(Put(PutAll(t, Accepted(schema, out, rest)), Split(k, '.'), Stored(schema, k, out[k])), Split(l, '.'), Stored(schema, l, out[l]))
  {
    AcceptedSnoc(schema, t, out, rest, k);
    AcceptedSnoc(schema, t, out, rest + [k], l);
  }

  /** If effects agree, an accepted leaf is accepted in every flattening. */
  lemma AcceptedEverywhere(schema: Schema, input: Tree, out: map<string, Value>, p: Path)
    requires EffectsAgree(schema, input) && FlatOf(input, out) && LeafAccepted(schema, input, p)
    ensures Join(p, '.') in out && Fate(schema, Join(p, '.'), out[Join(p, '.')]) == Ok
  {
    var q :| Join(q, '.') == Join(p, '.') && KindAt(input, q) == LeafOf(out[Join(p, '.')]);
    assert SameEffect(schema, Join(p, '.'), KindAt(input, p).value, KindAt(input, q).value);
  }

  lemma RelatedKeysShow(schema: Schema, input: Tree, p: Path, q: Path)
    requires input.Node? && NothingPanics(schema, input) && EffectsAgree(schema, input)
    requires LeafAccepted(schema, input, p) && LeafAccepted(schema, input, q)
    requires Split(Join(p, '.'), '.') < Split(Join(q, '.'), '.')
    ensures !OneOutcome(schema, EMPTY, input)
  {
    var out := Favouring(input, p);
    FavouringFlattens(input, p);
    FlattensFlat(input, out);
    AcceptedEverywhere(schema, input, out, p);
    AcceptedEverywhere(schema, input, out, q);
    OrdersDiffer(schema, input, out, Join(p, '.'), Join(q, '.'));
  }

  lemma OrdersDiffer(schema: Schema, input: Tree, out: map<string, Value>, k: string, l: string)
    requires NothingPanics(schema, input) && Flattens(input, out)
    requires k in out && l in out && Fate(schema, k, out[k]) == Ok && Fate(schema, l, out[l]) == Ok
    requires Split(k, '.') < Split(l, '.')
    ensures !OneOutcome(schema, EMPTY, input)
  {
    var rest := Listing(out.Keys - {k, l});
    LastTwo(schema, EMPTY, out, rest, k, l);
    LastTwo(schema, EMPTY, out, rest, l, k);
    OrderShows(PutAll(EMPTY, Accepted(schema, out, rest)), Split(k, '.'), Stored(schema, k, out[k]), Split(l, '.'), Stored(schema, l, out[l]));
    ListsTwoMore(rest, out.Keys, k, l);
    ListsTwoMore(rest, out.Keys, l, k);
    CanLoadBy(schema, EMPTY, input, out, rest + [k] + [l]);
    CanLoadBy(schema, EMPTY, input, out, rest + [l] + [k]);
  }

  lemma ListsTwoMore(rest: seq<string>, keys: set<string>, k: string, l: string)
    requires k in keys && l in keys && k != l && Lists(rest, keys - {k, l})
    ensures Lists(rest + [k] + [l], keys)
  {
    assert forall i :: 0 <= i < |rest| ==> rest[i] in keys - {k, l};
  }

  /** A write above another takes it away; the other way round both stand. */
  lemma OrderShows(t: Tree, p: Path, v: Value, q: Path, w: Value)
    requires t.Node? && p != [] && p < q
    ensures Put(Put(t, p, v), q, w) != Put(Put(t, q, w), p, v)
  {
    KindPut(Put(t, p, v), q, w, q);
    KindPut(Put(t, q, w), p, v, q);
  }

  /** The exact condition, for every schema and every input no leaf of which panics: a load into
      nothing, or into every configuration, has one outcome exactly when leaves with the same
      dotted key come to the same and no accepted dotted key is above another. */
  lemma LoadDeterminedIff(schema: Schema, input: Tree)
    requires input.Node? && NothingPanics(schema, input)
    ensures OneOutcome(schema, EMPTY, input) <==> EffectsAgree(schema, input) && KeysApart(schema, input)
    ensures (forall t0: Tree :: t0.Node? ==> OneOutcome(schema, t0, input)) <==> OneOutcome(schema, EMPTY, input)
  {
    if !EffectsAgree(schema, input) {
      var p, q :| KindAt(input, p).LeafOf? && KindAt(input, q).LeafOf? && Join(p, '.') == Join(q, '.')
        && !SameEffect(schema, Join(p, '.'), KindAt(input, p).value, KindAt(input, q).value);
      DisagreementShows(schema, input, p, q);
    } else if !KeysApart(schema, input) {
      var p, q :| LeafAccepted(schema, input, p) && LeafAccepted(schema, input, q) && Join(p, '.') != Join(q, '.')
        && Related(Split(Join(p, '.'), '.'), Split(Join(q, '.'), '.'));
      JoinSplit(Join(p, '.'), '.');
      JoinSplit(Join(q, '.'), '.');
      ProperlyRelated(Split(Join(p, '.'), '.'), Split(Join(q, '.'), '.'));
      if Split(Join(p, '.'), '.') < Split(Join(q, '.'), '.') {
        RelatedKeysShow(schema, input, p, q);
      } else {
        RelatedKeysShow(schema, input, q, p);
      }
    } else {
      forall t0: Tree | t0.Node? ensures OneOutcome(schema, t0, input) {
        LoadIsDetermined(schema, t0, input);
      }
    }
  }

  lemma ProperlyRelated(p: Path, q: Path)
    requires p != q
    ensures Related(p, q) <==> p < q || q < p
  {
    assert p <= q ==> p == q || p < q;
    assert q <= p ==> p == q || q < p;
  }

  lemma DotFreeLeaf(t: Tree, p: Path)
    requires t.Node? && DotFree(t) && KindAt(t, p).LeafOf?
    ensures Split(Join(p, '.'), '.') == p
  {
    DotFreePath(t, p);
    assert p != [];
    SplitJoin(p, '.');
  }

  /** Without dots in the keys, and with a prefix-free schema or none, every load has one outcome. */
  lemma DotFreeLoadIsDetermined(schema: Schema, t0: Tree, input: Tree)
    requires t0.Node? && input.Node? && DotFree(input)
    requires schema == map[] || PrefixFree(schema)
    ensures Unambiguous(input) && OneOutcome(schema, t0, input)
    ensures CanPanic(schema, input) ==> forall t, errors :: !CanLoad(schema, t0, input, t, errors)
  {
    forall p, q | KindAt(input, p).LeafOf? && KindAt(input, q).LeafOf? && Join(p, '.') == Join(q, '.') ensures p == q {
      DotFreeLeaf(input, p);
      DotFreeLeaf(input, q);
    }
    forall p, q | LeafAccepted(schema, input, p) && LeafAccepted(schema, input, q) && Join(p, '.') != Join(q, '.')
      ensures !Related(Split(Join(p, '.'), '.'), Split(Join(q, '.'), '.'))
    {
      DotFreeLeaf(input, p);
      DotFreeLeaf(input, q);
      ProperlyRelated(p, q);
      if p < q { KindPrefix(input, p, q); }
      if q < p { KindPrefix(input, q, p); }
    }
    LoadIsDetermined(schema, t0, input);
  }

  /** With a prefix-free schema only clashing dotted keys can make the outcome depend on the order. */
  lemma PrefixFreeKeysApart(schema: Schema, input: Tree)
    requires schema != map[] && PrefixFree(schema)
    ensures KeysApart(schema, input)
  {
    forall p, q | LeafAccepted(schema, input, p) && LeafAccepted(schema, input, q) && Join(p, '.') != Join(q, '.')
      ensures !Related(Split(Join(p, '.'), '.'), Split(Join(q, '.'), '.'))
    {
      JoinSplit(Join(p, '.'), '.');
      JoinSplit(Join(q, '.'), '.');
      ProperlyRelated(Split(Join(p, '.'), '.'), Split(Join(q, '.'), '.'));
    }
  }

  /** A file that sets one key twice, once with a dot and once nested. */
  function Clashing(a: string, b: string, v: string, w: string): Tree {
    Node(map[a + "." + b := Leaf(Str(v)), a := Node(map[b := Leaf(Str(w))])])
  }

  lemma ClashingPaths(a: string, b: string, v: string, w: string)
    requires '.' !in a && '.' !in b
    ensures KindAt(Clashing(a, b, v, w), [a + "." + b]) == LeafOf(Str(v))
    ensures KindAt(Clashing(a, b, v, w), [a, b]) == LeafOf(Str(w))
    ensures Join([a + "." + b], '.') == Join([a, b], '.') == a + "." + b
  {
    assert (a + "." + b)[|a|] == '.';
    assert [a + "." + b][1..] == [] && [a, b][1..] == [b] && [b][1..] == [];
    var sub := Clashing(a, b, v, w).kids[a];
    assert KindAt(sub, [b]) == KindAt(sub.kids[b], []);
  }

  lemma ClashingLeaf(a: string, b: string, v: string, w: string, p: Path)
    requires '.' !in a && KindAt(Clashing(a, b, v, w), p).LeafOf?
    ensures Join(p, '.') == a + "." + b && KindAt(Clashing(a, b, v, w), p).value.Str?
  {
    var t, k := Clashing(a, b, v, w), a + "." + b;
    assert k[|a|] == '.';
    assert p != [] && p[0] in t.kids;
    if p[0] == k {
      assert p[1..] == [] && p == [p[0]] + p[1..] == [k];
    } else {
      var q, sub := p[1..], t.kids[a];
      assert KindAt(sub, q).LeafOf? && q != [] && q[0] in sub.kids;
      assert KindAt(sub.kids[b], q[1..]).LeafOf?;
      assert q[1..] == [] && q == [q[0]] + q[1..] == [b];
      assert p == [p[0]] + q == [a, b];
    }
  }

  lemma OneEntry(schema: Schema, t: Tree, out: map<string, Value>, none: seq<string>, k: string)
    requires t.Node? && none == [] && k in out && Fate(schema, k, out[k]) == Ok
    ensures PutAll(t, Accepted(schema, out, none + [k])) == Put(t, Split(k, '.'), Stored(schema, k, out[k]))
    ensures Refusals(schema, out, none + [k]) == 0
  {
    AcceptedSnoc(schema, t, out, none, k);
    assert (none + [k])[..|none|] == none;
  }

  lemma LoadOneKey(schema: Schema, input: Tree, out: map<string, Value>, k: string, t: Tree)
    requires NothingPanics(schema, input) && Flattens(input, out) && out.Keys == {k} && t == EMPTY
    requires Fate(schema, k, out[k]) == Ok
    ensures CanLoad(schema, t, input, Put(t, Split(k, '.'), Stored(schema, k, out[k])), 0)
  {
    var none: seq<string> := [];
    OneEntry(schema, t, out, none, k);
    CanLoadBy(schema, t, input, out, none + [k]);
  }

  lemma OneKeyFlat(t: Tree, out: map<string, Value>, k: string)
    requires FlatOf(t, out) && k in out && forall q :: KindAt(t, q).LeafOf? ==> Join(q, '.') == k
    ensures out.Keys == {k}
  {
    forall l | l in out ensures l == k {
      var q :| Join(q, '.') == l && KindAt(t, q) == LeafOf(out[l]);
    }
  }

  /** A file all of whose leaves have one dotted key, which can take the value of any. */
  lemma LoadsFavoured(schema: Schema, input: Tree, p: Path, k: string)
    requires input.Node? && NothingPanics(schema, input) && KindAt(input, p).LeafOf? && Join(p, '.') == k
    requires forall q :: KindAt(input, q).LeafOf? ==> Join(q, '.') == k
    requires Fate(schema, k, KindAt(input, p).value) == Ok
    ensures CanLoad(schema, EMPTY, input, Put(EMPTY, Split(k, '.'), Stored(schema, k, KindAt(input, p).value)), 0)
  {
    var out, same := TwoFlattenings(input, p, p);
    FlattensFlat(input, out);
    OneKeyFlat(input, out, k);
    LoadOneKey(schema, input, out, k, EMPTY);
  }

  lemma ClashingAccepted(a: string, b: string, v: string, w: string)
    requires '.' !in a
    ensures var k := a + "." + b;
      var input := Clashing(a, b, v, w);
      && NothingPanics(map[k := StringT], input)
      && forall q :: KindAt(input, q).LeafOf? ==> Join(q, '.') == k
  {
    forall q | KindAt(Clashing(a, b, v, w), q).LeafOf?
      ensures Join(q, '.') == a + "." + b
      ensures Fate(map[a + "." + b := StringT], Join(q, '.'), KindAt(Clashing(a, b, v, w), q).value) != Panic
    {
      ClashingLeaf(a, b, v, w, q);
    }
  }

  /** The same file, two outcomes: under a prefix-free schema a key written once with a dot and once
      nested can be loaded with either value. */
  lemma ClashingLoadsEitherWay(a: string, b: string, v: string, w: string)
    requires '.' !in a && '.' !in b && v != w
    ensures var k := a + "." + b;
      var schema := map[k := StringT];
      && PrefixFree(schema) && !OneOutcome(schema, EMPTY, Clashing(a, b, v, w))
      && CanLoad(schema, EMPTY, Clashing(a, b, v, w), Put(EMPTY, Split(k, '.'), Str(v)), 0)
      && CanLoad(schema, EMPTY, Clashing(a, b, v, w), Put(EMPTY, Split(k, '.'), Str(w)), 0)
  {
    var k := a + "." + b;
    var schema: Schema := map[k := StringT];
    var input := Clashing(a, b, v, w);
    ClashingPaths(a, b, v, w);
    ClashingAccepted(a, b, v, w);
    LoadsFavoured(schema, input, [k], k);
    LoadsFavoured(schema, input, [a, b], k);
    SetAndDeleteLaws(EMPTY, Split(k, '.'), Str(v), Split(k, '.'));
    SetAndDeleteLaws(EMPTY, Split(k, '.'), Str(w), Split(k, '.'));
  }

  /** For instance {"a.b": "1", "a": {"b": "2"}}. */
  lemma ClashingExample()
    ensures !OneOutcome(map["a.b" := StringT], EMPTY, Clashing("a", "b", "1", "2"))
  {
    ClashingLoadsEitherWay("a", "b", "1", "2");
    assert "a" + "." + "b" == "a.b";
  }
}
