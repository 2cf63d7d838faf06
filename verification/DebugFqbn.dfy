/** IsDebugSupported: find a smaller FQBN that gives the same debug configuration, by trying to
    drop one option after the other. */
module DebugFqbn {
  import opened Wrappers
  import opened OrderedMap
  import opened Fqbn

  /** What getDebugProperties answers; `Unsupported` is a FailedDebugError. */
  datatype DebugResult<T> = Config(config: T) | Unsupported | OtherError

  datatype Response = NotSupported | Supported(debugFqbn: string) | Failed

  /** getDebugProperties seen as a function of the FQBN text: it parses the text and looks at
      nothing but the parsed name. */
  ghost function DebugProperties<T>(fqbnIn: string, debug: Name -> DebugResult<T>): DebugResult<T> {
    match Parsed(fqbnIn)
    case Failure(_) => OtherError
    case Success(f) => debug(f)
  }

  method GetDebugProperties<T>(fqbnIn: string, debug: Name -> DebugResult<T>) returns (r: DebugResult<T>)
    ensures r == DebugProperties(fqbnIn, debug)
  {
    var parsed := Parse(fqbnIn);
    match parsed {
      case Failure(_) => return OtherError;
      case Success(f) => return debug(f.View());
    }
  }

  /** One option is dropped if the configuration stays the expected one. */
  ghost function Tried<T>(m: Name, k: string, expected: T, debug: Name -> DebugResult<T>): Name {
    if debug(RemoveOption(m, k)) == Config(expected) then RemoveOption(m, k) else m
  }

  /** The loop: the options are tried in turn. */
  ghost function Minimise<T>(f: Name, keys: seq<string>, expected: T, debug: Name -> DebugResult<T>): Name {
    if keys == [] then f
    else
      var n := |keys| - 1;
      Tried(Minimise(f, keys[..n], expected, debug), keys[n], expected, debug)
  }

  lemma RemoveWellFormed(f: Name, k: string)
    requires WellFormed(f)
    ensures WellFormed(RemoveOption(f, k))
    ensures Matches(f, RemoveOption(f, k))
  {
    MinusDistinct(Self, f.keys, {k});
    forall x ensures x in Minus(Self, f.keys, {k}) <==> x in f.keys && x != k { MinusHas(Self, f.keys, {k}, x); }
  }

  /** `g` is `f` without some of its options; the others keep their values and order. */
  ghost predicate Reduced(f: Name, g: Name) {
    exists gone: set<string> :: g == RemoveAll(f, gone)
  }

  ghost function RemoveAll(f: Name, gone: set<string>): Name {
    f.(keys := Minus(Self, f.keys, gone), options := f.options - gone)
  }

  lemma RemoveMore(f: Name, gone: set<string>, k: string)
    ensures RemoveOption(RemoveAll(f, gone), k) == RemoveAll(f, gone + {k})
  {
    MinusTwice(Self, f.keys, gone, {k});
    assert f.options - gone - {k} == f.options - (gone + {k});
  }

  /** The options dropped after the first `keys` have been tried. */
  ghost function Dropped<T>(f: Name, keys: seq<string>, expected: T, debug: Name -> DebugResult<T>): (gone: set<string>)
    ensures forall k :: k in gone ==> k in keys
  {
    if keys == [] then {}
    else
      var n := |keys| - 1;
      var m := Minimise(f, keys[..n], expected, debug);
      var gone := Dropped(f, keys[..n], expected, debug);
      if debug(RemoveOption(m, keys[n])) == Config(expected) then gone + {keys[n]} else gone
  }

  lemma {:induction false} MinimiseDrops<T>(f: Name, keys: seq<string>, expected: T, debug: Name -> DebugResult<T>)
    ensures Minimise(f, keys, expected, debug) == RemoveAll(f, Dropped(f, keys, expected, debug))
  {
    if keys == [] {
      MinusNone(Self, f.keys, {});
      assert f.options - {} == f.options;
    } else {
      var n := |keys| - 1;
      MinimiseDrops(f, keys[..n], expected, debug);
      RemoveMore(f, Dropped(f, keys[..n], expected, debug), keys[n]);
    }
  }

  /** The minimised name is well formed, has a subset of the requested options in the requested
      order, is matched by the requested name, and gives the same configuration. */
  lemma {:induction false} MinimiseKeepsConfig<T>(f: Name, keys: seq<string>, expected: T, debug: Name -> DebugResult<T>)
    requires WellFormed(f) && debug(f) == Config(expected)
    ensures var m := Minimise(f, keys, expected, debug);
      WellFormed(m) && Reduced(f, m) && Matches(f, m) && debug(m) == Config(expected)
  {
    MinimiseDrops(f, keys, expected, debug);
    if keys != [] {
      var n := |keys| - 1;
      MinimiseKeepsConfig(f, keys[..n], expected, debug);
      var m := Minimise(f, keys[..n], expected, debug);
      RemoveWellFormed(m, keys[n]);
    }
  }

  /** With the options in `gone` out of the way, dropping `k` changes the configuration. */
  ghost predicate Needed<T>(f: Name, gone: set<string>, k: string, expected: T, debug: Name -> DebugResult<T>) {
    debug(RemoveOption(RemoveAll(f, gone), k)) != Config(expected)
  }

  /** The options in `gone` can all be left out together. */
  ghost predicate CanGo<T>(f: Name, gone: set<string>, expected: T, debug: Name -> DebugResult<T>) {
    debug(RemoveAll(f, gone)) == Config(expected)
  }

  /** Necessity is monotone among the names that give the expected configuration: an option that
      cannot be dropped cannot be dropped after others have gone without changing it either. */
  ghost predicate MonotoneNecessity<T(!new)>(f: Name, expected: T, debug: Name -> DebugResult<T>) {
    forall gone, more, k :: gone <= more && k in f.options && k !in more
        && CanGo(f, gone, expected, debug) && CanGo(f, more, expected, debug) && Needed(f, gone, k, expected, debug)
      ==> Needed(f, more, k, expected, debug)
  }

  lemma {:induction false} DroppedPrefix<T>(f: Name, keys: seq<string>, i: nat, expected: T, debug: Name -> DebugResult<T>)
    requires i <= |keys|
    ensures Dropped(f, keys[..i], expected, debug) <= Dropped(f, keys, expected, debug)
  {
    if i < |keys| {
      var n := |keys| - 1;
      assert keys[..n][..i] == keys[..i];
      DroppedPrefix(f, keys[..n], i, expected, debug);
    } else {
      assert keys[..i] == keys;
    }
  }

  /** An option that survives was needed when its turn came. */
  lemma SurvivorWasNeeded<T>(f: Name, i: nat, expected: T, debug: Name -> DebugResult<T>)
    requires i < |f.keys| && f.keys[i] !in Dropped(f, f.keys, expected, debug)
    ensures Needed(f, Dropped(f, f.keys[..i], expected, debug), f.keys[i], expected, debug)
  {
    DroppedPrefix(f, f.keys, i + 1, expected, debug);
    assert f.keys[..i + 1][..i] == f.keys[..i];
    MinimiseDrops(f, f.keys[..i], expected, debug);
  }

  /** Then no single remaining option can be dropped. */
  lemma OneMinimal<T(!new)>(f: Name, expected: T, debug: Name -> DebugResult<T>, k: string)
    requires WellFormed(f) && debug(f) == Config(expected) && MonotoneNecessity(f, expected, debug)
    requires k in Minimise(f, f.keys, expected, debug).options
    ensures debug(RemoveOption(Minimise(f, f.keys, expected, debug), k)) != Config(expected)
  {
    MinimiseDrops(f, f.keys, expected, debug);
    var all := Dropped(f, f.keys, expected, debug);
    assert k in f.options && k !in all;
    var i :| 0 <= i < |f.keys| && f.keys[i] == k;
    var before := Dropped(f, f.keys[..i], expected, debug);
    SurvivorWasNeeded(f, i, expected, debug);
    DroppedPrefix(f, f.keys, i, expected, debug);
    MinimiseDrops(f, f.keys[..i], expected, debug);
    MinimiseKeepsConfig(f, f.keys[..i], expected, debug);
    MinimiseKeepsConfig(f, f.keys, expected, debug);
    assert CanGo(f, before, expected, debug) && CanGo(f, all, expected, debug);
    assert Needed(f, all, k, expected, debug);
  }

  /** A board whose configuration needs option `a` exactly while option `b` is given. */
  function Fickle(g: Name): DebugResult<int> {
    if "b" in g.options && "a" !in g.options then Unsupported else Config(0)
  }

  function TwoOptions(): Name {
    Name("v", "a", "b", ["a", "b"], map["a" := "", "b" := ""])
  }

  /** Without monotone necessity the greedy loop can stop short: it keeps `a`, which cannot go
      before `b`, and ends with `a` alone although no option is needed at all. */
  lemma GreedyCanStopShort()
    ensures WellFormed(TwoOptions()) && Fickle(TwoOptions()) == Config(0)
    ensures var m := Minimise(TwoOptions(), TwoOptions().keys, 0, Fickle);
      m.keys == ["a"] && Fickle(RemoveOption(m, "a")) == Config(0)
  {
    var keys := ["a", "b"];
    FickleSteps();
    assert keys[..2] == keys && keys[..1] == ["a"] && keys[..1][..0] == [] && keys[..2][..1] == ["a"];
    assert Minimise(TwoOptions(), ["a"], 0, Fickle) == TwoOptions();
    assert Minimise(TwoOptions(), keys[..2], 0, Fickle) == Tried(TwoOptions(), "b", 0, Fickle);
  }

  /** `a` cannot be dropped, then `b` can; and then `a` could be. */
  lemma FickleSteps()
    ensures Tried(TwoOptions(), "a", 0, Fickle) == TwoOptions()
    ensures Tried(TwoOptions(), "b", 0, Fickle) == TwoOptions().(keys := ["a"], options := map["a" := ""])
  {
    var f := TwoOptions();
    assert "b" in RemoveOption(f, "a").options && "a" !in RemoveOption(f, "a").options;
    assert RemoveOption(f, "b").options == map["a" := ""];
    assert f.keys[..1] == ["a"] && ["a"][..0] == [];
    assert Minus(Self, ["a"], {"b"}) == [] + ["a"];
  }

  /** The text of the name without one option, written from a clone. */
  method TextWithout(minimumFQBN: FQBN, config: string) returns (text: string)
    requires minimumFQBN.Valid()
    ensures forall k :: k in RemoveOption(minimumFQBN.View(), config).keys ==> k in RemoveOption(minimumFQBN.View(), config).options
    ensures text == Printed(RemoveOption(minimumFQBN.View(), config))
  {
    var checkFQBN := minimumFQBN.Clone();
    checkFQBN.configs.Remove(config);
    assert checkFQBN.View() == RemoveOption(minimumFQBN.View(), config);
    text := checkFQBN.String();
  }

  /** One turn of the loop. */
  method TryDrop<T(==)>(minimumFQBN: FQBN, config: string, expected: T, debug: Name -> DebugResult<T>)
    requires minimumFQBN.Valid() && WellFormed(minimumFQBN.View())
    modifies minimumFQBN.configs
    ensures minimumFQBN.Valid() && WellFormed(minimumFQBN.View())
    ensures minimumFQBN.View() == Tried(old(minimumFQBN.View()), config, expected, debug)
  {
    RemoveWellFormed(minimumFQBN.View(), config);
    RoundTrip(RemoveOption(minimumFQBN.View(), config));
    var text := TextWithout(minimumFQBN, config);
    var checkOutput := GetDebugProperties(text, debug);
    if checkOutput == Config(expected) {
      minimumFQBN.configs.Remove(config);
    }
  }

  lemma MinimiseOneMore<T>(f: Name, keys: seq<string>, i: nat, expected: T, debug: Name -> DebugResult<T>)
    requires i < |keys|
    ensures Minimise(f, keys[..i + 1], expected, debug) == Tried(Minimise(f, keys[..i], expected, debug), keys[i], expected, debug)
  {
    assert keys[..i + 1][..i] == keys[..i];
  }

  method DropOptions<T(==)>(minimumFQBN: FQBN, expected: T, debug: Name -> DebugResult<T>)
    requires minimumFQBN.Valid() && WellFormed(minimumFQBN.View())
    modifies minimumFQBN.configs
    ensures minimumFQBN.Valid() && WellFormed(minimumFQBN.View())
    ensures var f := old(minimumFQBN.View()); minimumFQBN.View() == Minimise(f, f.keys, expected, debug)
  {
    ghost var f := minimumFQBN.View();
    var keys := minimumFQBN.configs.Keys();
    for i := 0 to |keys|
      invariant minimumFQBN.Valid() && WellFormed(minimumFQBN.View())
      invariant minimumFQBN.View() == Minimise(f, keys[..i], expected, debug)
    {
      MinimiseOneMore(f, keys, i, expected, debug);
      TryDrop(minimumFQBN, keys[i], expected, debug);
    }
    assert keys[..|keys|] == keys;
  }

  /** The whole call. The answer, parsed again, is the minimised name. */
  method IsDebugSupported<T(==)>(fqbnIn: string, debug: Name -> DebugResult<T>) returns (r: Response)
    ensures r == NotSupported <==> DebugProperties(fqbnIn, debug).Unsupported?
    ensures r == Failed <==> DebugProperties(fqbnIn, debug).OtherError?
    // a text that is no name fails, otherwise the answer for the name decides
    ensures Parsed(fqbnIn).Failure? ==> r == Failed
    ensures Parsed(fqbnIn).Success? ==>
      match debug(Parsed(fqbnIn).value)
      case Unsupported => r == NotSupported
      case OtherError => r == Failed
      case Config(_) => r.Supported?
    ensures r.Supported? ==> Parsed(fqbnIn).Success? && debug(Parsed(fqbnIn).value).Config?
    ensures r.Supported? ==>
      var f := Parsed(fqbnIn).value;
      Parsed(r.debugFqbn) == Success(Minimise(f, f.keys, debug(f).config, debug))
  {
    var expectedOutput := GetDebugProperties(fqbnIn, debug);
    if expectedOutput.Unsupported? {
      return NotSupported;
    }
    if expectedOutput.OtherError? {
      return Failed;
    }
    var parsed := Parse(fqbnIn);
    var minimumFQBN := parsed.value;
    ParsedIsWellFormed(fqbnIn);
    DropOptions(minimumFQBN, expectedOutput.config, debug);
    var text := minimumFQBN.String();
    RoundTrip(minimumFQBN.View());
    r := Supported(text);
  }
}
