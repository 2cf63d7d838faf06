/** Adding libraries to a sketch profile and removing them again, with their dependencies. The
    libraries index is a pair of functions: one finds a release, one resolves the closure of a
    release (or fails). */
module ProfileLibs {
  import opened Wrappers
  import opened Lists

  /** Versions with different texts can be equal; `order` is the position in the semver order. */
  datatype Version = Version(text: string, order: int)

  predicate EqualVersions(a: Option<Version>, b: Option<Version>) {
    match (a, b)
    case (Some(v), Some(w)) => v.order == w.order
    case _ => a == b
  }

  datatype Release = Release(name: string, version: Version)

  type Finder = (string, Option<Version>) -> Option<Release>
  type Resolver = (string, Option<Version>) -> Option<seq<Release>>

  /** The value of a library reference. */
  datatype Ref = Ref(library: string, version: Option<Version>, isDependency: bool, installDir: Option<string>)

  predicate MatchRef(l: Ref, other: Ref) {
    if l.installDir.Some? then other.installDir == l.installDir
    else if other.installDir.Some? then false
    else if l.library != other.library then false
    else l.version.None? || other.version.None? || EqualVersions(l.version, other.version)
  }

  /** Both versions are known and at the same place in the version order. */
  ghost predicate SameVersion(a: Option<Version>, b: Option<Version>) {
    a.Some? && b.Some? && a.value.order == b.value.order
  }

  /** The entry a request means: the directory it names, or, without a directory on either side, the
      library it names, in the version it names if both have one. */
  ghost predicate Means(l: Ref, entry: Ref) {
    || (l.installDir.Some? && entry.installDir == l.installDir)
    || (l.installDir.None? && entry.installDir.None? && entry.library == l.library
        && (l.version.None? || entry.version.None? || SameVersion(l.version, entry.version)))
  }

  lemma MatchRefIff(l: Ref, entry: Ref)
    ensures MatchRef(l, entry) <==> Means(l, entry)
  {}

  lemma EqualVersionsIff(a: Option<Version>, b: Option<Version>)
    ensures EqualVersions(a, b) <==> (a.None? && b.None?) || SameVersion(a, b)
  {}

  function Wanted(r: Release): Ref {
    Ref(r.name, Some(r.version), false, None)
  }

  predicate ReleaseLe(a: Release, b: Release) {
    if a.name == b.name then a.version.order <= b.version.order else StringLe(a.name, b.name)
  }

  function SortReleases(rs: seq<Release>): seq<Release> {
    Sort(rs, ReleaseLe)
  }

  lemma SortReleasesPermutes(rs: seq<Release>)
    ensures multiset(SortReleases(rs)) == multiset(rs)
    ensures forall r :: r in SortReleases(rs) <==> r in rs
  {
    forall a, b, c: Release
      ensures ReleaseLe(a, b) || ReleaseLe(b, a)
      ensures ReleaseLe(a, b) && ReleaseLe(b, c) ==> ReleaseLe(a, c)
    {
      StringLeOrder(a.name, b.name, c.name);
      StringLeOrder(b.name, c.name, a.name);
    }
    SortSorts(rs, ReleaseLe);
    forall r ensures r in SortReleases(rs) <==> r in rs {
      assert r in multiset(SortReleases(rs)) <==> r in multiset(rs);
    }
  }

  /** By name in dictionary order, releases of one name by version. */
  ghost predicate InOrder(rs: seq<Release>) {
    forall i, j :: 0 <= i < j < |rs| ==>
      DictionaryBefore(rs[i].name, rs[j].name) || (rs[i].name == rs[j].name && rs[i].version.order <= rs[j].version.order)
  }

  lemma SortReleasesOrders(rs: seq<Release>)
    ensures InOrder(SortReleases(rs)) && multiset(SortReleases(rs)) == multiset(rs)
  {
    forall a, b, c: Release
      ensures ReleaseLe(a, b) || ReleaseLe(b, a)
      ensures ReleaseLe(a, b) && ReleaseLe(b, c) ==> ReleaseLe(a, c)
    {
      StringLeOrder(a.name, b.name, c.name);
      StringLeOrder(b.name, c.name, a.name);
    }
    SortSorts(rs, ReleaseLe);
    var sorted := SortReleases(rs);
    forall i, j | 0 <= i < j < |sorted|
      ensures DictionaryBefore(sorted[i].name, sorted[j].name)
        || (sorted[i].name == sorted[j].name && sorted[i].version.order <= sorted[j].version.order)
    {
      StringLeIff(sorted[i].name, sorted[j].name);
    }
  }

  function NameOf(r: Release): string { r.name }

  ghost predicate DistinctNames(rs: seq<Release>) {
    Distinct(NameOf, rs)
  }

  // ----- removing, on values

  predicate HasMatch(libs: seq<Ref>, l: Ref) {
    exists i :: 0 <= i < |libs| && MatchRef(l, libs[i])
  }

  /** The list without its first entry matched by `l`. */
  function RemoveFirst(libs: seq<Ref>, l: Ref): seq<Ref> {
    if libs == [] then []
    else if MatchRef(l, libs[0]) then libs[1..]
    else [libs[0]] + RemoveFirst(libs[1..], l)
  }

  /** The removal loop over the candidate releases. */
  function RemoveCandidates(libs: seq<Ref>, cands: seq<Release>, required: set<string>): seq<Ref> {
    if cands == [] then libs
    else
      var n := |cands| - 1;
      var rest := RemoveCandidates(libs, cands[..n], required);
      if cands[n].name in required then rest else RemoveFirst(rest, Wanted(cands[n]))
  }

  ghost function Names(rs: seq<Release>): set<string> {
    set i | 0 <= i < |rs| :: rs[i].name
  }

  /** Names needed by the libraries of the profile that are not dependencies, or a failure. */
  ghost function Required(libs: seq<Ref>, resolve: Resolver): Option<set<string>> {
    if libs == [] then Some({})
    else
      var n := |libs| - 1;
      match Required(libs[..n], resolve)
      case None => None
      case Some(names) =>
        if libs[n].isDependency || libs[n].library == "" then Some(names)
        else match resolve(libs[n].library, libs[n].version)
          case None => None
          case Some(deps) => Some(names + Names(deps))
  }

  datatype RemoveError = LibraryNotFound | OnlyIndexLibraries | CannotResolve

  /** The new library list of a removal request, or the error. */
  ghost function Removal(libs: seq<Ref>, lib: Ref, removeDependencies: bool, resolve: Resolver): Result<seq<Ref>, RemoveError> {
    if !HasMatch(libs, lib) then Failure(LibraryNotFound)
    else
      var rest := RemoveFirst(libs, lib);
      if !removeDependencies then Success(rest)
      else if lib.installDir.Some? then Failure(OnlyIndexLibraries)
      else match (Required(rest, resolve), resolve(lib.library, lib.version))
        case (Some(required), Some(cands)) => Success(RemoveCandidates(rest, SortReleases(cands), required))
        case _ => Failure(CannotResolve)
  }

  // ----- adding, on values

  ghost function Position(libs: seq<Ref>, name: string): Option<nat> {
    if libs == [] then None
    else if libs[0].library == name then Some(0)
    else match Position(libs[1..], name) case None => None case Some(i) => Some(i + 1)
  }

  lemma {:induction false} PositionIs(libs: seq<Ref>, name: string)
    ensures match Position(libs, name)
      case None => forall i :: 0 <= i < |libs| ==> libs[i].library != name
      case Some(i) => i < |libs| && libs[i].library == name && forall j :: 0 <= j < i ==> libs[j].library != name
  {
    if libs != [] { PositionIs(libs[1..], name); }
  }

  lemma PositionOf(libs: seq<Ref>, name: string, i: nat)
    requires i < |libs| && libs[i].library == name && forall j :: 0 <= j < i ==> libs[j].library != name
    ensures Position(libs, name) == Some(i)
  {
    PositionIs(libs, name);
  }

  /** What adding does to an entry that is already there. */
  function Updated(old_: Ref, rel: Release, isDep: bool, noOverwrite: bool): Ref {
    var r := if !isDep && old_.isDependency then old_.(isDependency := false) else old_;
    if noOverwrite || EqualVersions(old_.version, Some(rel.version)) then r else r.(version := Some(rel.version))
  }

  ghost function AddOne(libs: seq<Ref>, rel: Release, isDep: bool, noOverwrite: bool): seq<Ref> {
    PositionIs(libs, rel.name);
    match Position(libs, rel.name)
    case None => libs + [Ref(rel.name, Some(rel.version), isDep, None)]
    case Some(i) => libs[i := Updated(libs[i], rel, isDep, noOverwrite)]
  }

  /** A release is reported as added unless its entry was there and kept its version. */
  ghost predicate ReportedAdded(libs: seq<Ref>, rel: Release, noOverwrite: bool) {
    PositionIs(libs, rel.name);
    match Position(libs, rel.name)
    case None => true
    case Some(i) => !(noOverwrite || EqualVersions(libs[i].version, Some(rel.version)))
  }

  /** The loop over the resolved releases; everything but `root` is a dependency. */
  ghost function AddAll(libs: seq<Ref>, rels: seq<Release>, root: string, noOverwrite: bool): seq<Ref> {
    if rels == [] then libs
    else
      var n := |rels| - 1;
      AddOne(AddAll(libs, rels[..n], root, noOverwrite), rels[n], rels[n].name != root, noOverwrite)
  }

  // ----- removal loses nothing that is still wanted

  ghost predicate Subsequence(a: seq<Ref>, b: seq<Ref>) {
    a == [] || (b != [] && ((a[0] == b[0] && Subsequence(a[1..], b[1..])) || Subsequence(a, b[1..])))
  }

  lemma {:induction false} SubsequenceRefl(a: seq<Ref>)
    ensures Subsequence(a, a)
  {
    if a != [] { SubsequenceRefl(a[1..]); }
  }

  lemma {:induction false} SubsequenceTrans(a: seq<Ref>, b: seq<Ref>, c: seq<Ref>)
    requires Subsequence(a, b) && Subsequence(b, c)
    ensures Subsequence(a, c)
    decreases |c|
  {
    if a != [] {
      if b[0] == c[0] && Subsequence(b[1..], c[1..]) {
        if a[0] == b[0] && Subsequence(a[1..], b[1..]) {
          SubsequenceTrans(a[1..], b[1..], c[1..]);
        } else {
          SubsequenceTrans(a, b[1..], c[1..]);
        }
      } else {
        SubsequenceTrans(a, b, c[1..]);
      }
    }
  }

  /** One removal: a subsequence, and only a matched entry is gone. */
  lemma {:induction false} RemoveFirstKeeps(libs: seq<Ref>, l: Ref, r: Ref)
    ensures Subsequence(RemoveFirst(libs, l), libs)
    ensures !MatchRef(l, r) ==> multiset(RemoveFirst(libs, l))[r] == multiset(libs)[r]
    ensures !HasMatch(libs, l) ==> RemoveFirst(libs, l) == libs
  {
    if libs != [] {
      assert libs == [libs[0]] + libs[1..];
      if MatchRef(l, libs[0]) {
        SubsequenceRefl(libs[1..]);
        assert HasMatch(libs, l);
      } else {
        RemoveFirstKeeps(libs[1..], l, r);
        if HasMatch(libs[1..], l) {
          var i :| 0 <= i < |libs[1..]| && MatchRef(l, libs[1..][i]);
          assert MatchRef(l, libs[i + 1]);
        }
      }
    }
  }

  lemma {:induction false} RemoveCandidatesKeeps(libs: seq<Ref>, cands: seq<Release>, required: set<string>, r: Ref)
    ensures Subsequence(RemoveCandidates(libs, cands, required), libs)
    ensures r.installDir.Some? || r.library in required
      ==> multiset(RemoveCandidates(libs, cands, required))[r] == multiset(libs)[r]
  {
    if cands == [] {
      SubsequenceRefl(libs);
    } else {
      var n := |cands| - 1;
      RemoveCandidatesKeeps(libs, cands[..n], required, r);
      var rest := RemoveCandidates(libs, cands[..n], required);
      RemoveFirstKeeps(rest, Wanted(cands[n]), r);
      if cands[n].name !in required {
        SubsequenceTrans(RemoveFirst(rest, Wanted(cands[n])), rest, libs);
      }
    }
  }

  /** The resolved closure of a library contains that library. */
  ghost predicate ContainsRequested(resolve: Resolver) {
    forall n, v :: resolve(n, v).Some? ==> n in Names(resolve(n, v).value)
  }

  /** A library outside of dependencies needs its whole closure. */
  lemma {:induction false} RequiredCovers(libs: seq<Ref>, resolve: Resolver, i: nat)
    requires Required(libs, resolve).Some? && i < |libs|
    requires !libs[i].isDependency && libs[i].library != ""
    ensures resolve(libs[i].library, libs[i].version).Some?
    ensures Names(resolve(libs[i].library, libs[i].version).value) <= Required(libs, resolve).value
  {
    var n := |libs| - 1;
    if i < n { RequiredCovers(libs[..n], resolve, i); }
  }

  /** The needs of the profile resolve exactly when those of each library outside of dependencies
      do; a local library counts under the name of its directory. */
  lemma {:induction false} RequiredIff(libs: seq<Ref>, resolve: Resolver)
    ensures Required(libs, resolve).Some? <==> AllResolve(libs, resolve)
  {
    if libs != [] {
      var n := |libs| - 1;
      RequiredIff(libs[..n], resolve);
      assert forall i :: 0 <= i < n ==> libs[..n][i] == libs[i];
    }
  }

  ghost predicate AllResolve(libs: seq<Ref>, resolve: Resolver) {
    forall i :: 0 <= i < |libs| && !libs[i].isDependency && libs[i].library != ""
      ==> resolve(libs[i].library, libs[i].version).Some?
  }

  /** Some library outside of dependencies has this name in its closure. */
  ghost predicate NeededBy(libs: seq<Ref>, resolve: Resolver, name: string) {
    exists i :: 0 <= i < |libs| && Needs(libs[i], resolve, name)
  }

  ghost predicate Needs(r: Ref, resolve: Resolver, name: string) {
    && !r.isDependency && r.library != "" && resolve(r.library, r.version).Some?
    && exists k :: 0 <= k < |resolve(r.library, r.version).value| && resolve(r.library, r.version).value[k].name == name
  }

  /** The required names are exactly those. */
  lemma {:induction false} RequiredAre(libs: seq<Ref>, resolve: Resolver, name: string)
    requires Required(libs, resolve).Some?
    ensures name in Required(libs, resolve).value <==> NeededBy(libs, resolve, name)
  {
    if libs != [] {
      var n := |libs| - 1;
      RequiredAre(libs[..n], resolve, name);
      assert forall i :: 0 <= i < n ==> libs[..n][i] == libs[i];
      assert Needs(libs[n], resolve, name) || !Needs(libs[n], resolve, name);
    }
  }

  /** An entry that goes along: it is an index entry for a library in the closure, in the version of
      the closure if it has one, that no library outside of dependencies needs. */
  ghost predicate Unneeded(rest: seq<Ref>, closure: seq<Release>, resolve: Resolver, r: Ref) {
    exists i :: 0 <= i < |closure| && GoesWith(closure[i], r) && !NeededBy(rest, resolve, closure[i].name)
  }

  ghost predicate GoesWith(c: Release, r: Ref) {
    r.installDir.None? && r.library == c.name && (r.version.None? || SameVersion(r.version, Some(c.version)))
  }

  lemma DroppedIff(rest: seq<Ref>, closure: seq<Release>, resolve: Resolver, r: Ref)
    requires Required(rest, resolve).Some?
    ensures Dropped(r, SortReleases(closure), Required(rest, resolve).value) <==> Unneeded(rest, closure, resolve, r)
  {
    var cands := SortReleases(closure);
    SortReleasesPermutes(closure);
    if Dropped(r, cands, Required(rest, resolve).value) {
      var i :| 0 <= i < |cands| && cands[i].name !in Required(rest, resolve).value && MatchRef(Wanted(cands[i]), r);
      RequiredAre(rest, resolve, cands[i].name);
      assert cands[i] in closure;
      var k :| 0 <= k < |closure| && closure[k] == cands[i];
      assert GoesWith(closure[k], r);
    }
    if Unneeded(rest, closure, resolve, r) {
      var i :| 0 <= i < |closure| && GoesWith(closure[i], r) && !NeededBy(rest, resolve, closure[i].name);
      RequiredAre(rest, resolve, closure[i].name);
      assert closure[i] in cands;
      var k :| 0 <= k < |cands| && cands[k] == closure[i];
      assert MatchRef(Wanted(cands[k]), r);
    }
  }

  /** The first entry a request means, taken out. */
  ghost predicate FirstTaken(libs: seq<Ref>, lib: Ref, rest: seq<Ref>) {
    exists k :: 0 <= k < |libs| && Means(lib, libs[k]) && (forall i :: 0 <= i < k ==> !Means(lib, libs[i]))
      && rest == libs[..k] + libs[k + 1..]
  }

  lemma RemoveFirstIs(libs: seq<Ref>, lib: Ref)
    ensures HasMatch(libs, lib) <==> exists k :: 0 <= k < |libs| && Means(lib, libs[k])
    ensures HasMatch(libs, lib) ==> FirstTaken(libs, lib, RemoveFirst(libs, lib))
  {
    if HasMatch(libs, lib) {
      var k := FirstMatch(libs, lib);
      RemoveFirstAt(libs, lib, k);
      assert Means(lib, libs[k]) && forall i :: 0 <= i < k ==> !Means(lib, libs[i]);
    }
    forall k | 0 <= k < |libs| ensures MatchRef(lib, libs[k]) <==> Means(lib, libs[k]) {}
  }

  lemma {:induction false} FirstMatch(libs: seq<Ref>, lib: Ref) returns (k: nat)
    requires HasMatch(libs, lib)
    ensures k < |libs| && MatchRef(lib, libs[k]) && forall i :: 0 <= i < k ==> !MatchRef(lib, libs[i])
  {
    if MatchRef(lib, libs[0]) {
      k := 0;
    } else {
      var i :| 0 <= i < |libs| && MatchRef(lib, libs[i]);
      assert libs[1..][i - 1] == libs[i];
      k := FirstMatch(libs[1..], lib);
      k := k + 1;
    }
  }

  /** What a removal request comes to, in terms of the entries: refused if no entry is meant; the first
      one meant goes; with dependencies asked for, refused for a directory or when the closure
      or a remaining need does not resolve. */
  lemma RemovalOutcome(libs: seq<Ref>, lib: Ref, removeDependencies: bool, resolve: Resolver)
    ensures var r := Removal(libs, lib, removeDependencies, resolve);
      && (r == Failure(LibraryNotFound) <==> !exists k :: 0 <= k < |libs| && Means(lib, libs[k]))
      && (r != Failure(LibraryNotFound) && !removeDependencies ==> r.Success? && FirstTaken(libs, lib, r.value))
      && (r != Failure(LibraryNotFound) && removeDependencies ==>
            exists rest :: FirstTaken(libs, lib, rest) && RemovedAlong(libs, rest, lib, resolve, r))
  {
    RemoveFirstIs(libs, lib);
    if HasMatch(libs, lib) && removeDependencies {
      var rest := RemoveFirst(libs, lib);
      RequiredIff(rest, resolve);
      var r := Removal(libs, lib, removeDependencies, resolve);
      if r.Success? { GoneAlong(rest, resolve(lib.library, lib.version).value, resolve); }
      assert FirstTaken(libs, lib, rest) && RemovedAlong(libs, rest, lib, resolve, r);
    }
  }

  /** The outcome when dependencies are to go along: the survivors are remaining entries in their order,
      everything lost is unneeded, and with one entry a name everything unneeded is lost. */
  ghost predicate RemovedAlong(libs: seq<Ref>, rest: seq<Ref>, lib: Ref, resolve: Resolver, r: Result<seq<Ref>, RemoveError>) {
    if lib.installDir.Some? then r == Failure(OnlyIndexLibraries)
    else if !AllResolve(rest, resolve) || resolve(lib.library, lib.version).None? then r == Failure(CannotResolve)
    else r.Success? && LeftOf(rest, resolve(lib.library, lib.version).value, resolve, r.value)
  }

  ghost predicate LeftOf(rest: seq<Ref>, closure: seq<Release>, resolve: Resolver, left: seq<Ref>) {
    && Subsequence(left, rest)
    && (forall e :: KeptIfNeeded(rest, closure, resolve, left, e))
    && (UniqueNames(rest) ==> forall e :: LeftIfNeeded(rest, closure, resolve, left, e))
  }

  ghost predicate KeptIfNeeded(rest: seq<Ref>, closure: seq<Release>, resolve: Resolver, left: seq<Ref>, e: Ref) {
    !Unneeded(rest, closure, resolve, e) ==> multiset(left)[e] == multiset(rest)[e]
  }

  ghost predicate LeftIfNeeded(rest: seq<Ref>, closure: seq<Release>, resolve: Resolver, left: seq<Ref>, e: Ref) {
    e in left <==> e in rest && !Unneeded(rest, closure, resolve, e)
  }

  lemma GoneAlong(rest: seq<Ref>, closure: seq<Release>, resolve: Resolver)
    requires Required(rest, resolve).Some?
    ensures LeftOf(rest, closure, resolve, RemoveCandidates(rest, SortReleases(closure), Required(rest, resolve).value))
  {
    var cands, required := SortReleases(closure), Required(rest, resolve).value;
    var left := RemoveCandidates(rest, cands, required);
    forall e ensures KeptIfNeeded(rest, closure, resolve, left, e) {
      DroppedIff(rest, closure, resolve, e);
      OnlyDroppedGo(rest, cands, required, e);
    }
    if UniqueNames(rest) {
      forall e ensures LeftIfNeeded(rest, closure, resolve, left, e) {
        RemovalIsFilter(rest, cands, required);
        DroppedIff(rest, closure, resolve, e);
        SurvivorsAre(rest, cands, required, e);
      }
    }
    InOrderLeft(rest, cands, required);
  }

  lemma InOrderLeft(libs: seq<Ref>, cands: seq<Release>, required: set<string>)
    ensures Subsequence(RemoveCandidates(libs, cands, required), libs)
  {
    RemoveCandidatesKeeps(libs, cands, required, Ref("", None, false, None));
  }

  lemma {:induction false} OnlyDroppedGo(libs: seq<Ref>, cands: seq<Release>, required: set<string>, r: Ref)
    ensures !Dropped(r, cands, required) ==> multiset(RemoveCandidates(libs, cands, required))[r] == multiset(libs)[r]
  {
    if cands != [] {
      var n := |cands| - 1;
      OnlyDroppedGo(libs, cands[..n], required, r);
      DroppedSnoc(r, cands, required);
      RemoveFirstKeeps(RemoveCandidates(libs, cands[..n], required), Wanted(cands[n]), r);
    }
  }

  lemma {:induction false} SurvivorsAre(libs: seq<Ref>, cands: seq<Release>, required: set<string>, r: Ref)
    ensures r in Survivors(libs, cands, required) <==> r in libs && !Dropped(r, cands, required)
  {
    if libs != [] {
      SurvivorsAre(libs[1..], cands, required, r);
      assert libs == [libs[0]] + libs[1..];
    }
  }

  /** Still wanted by the list `libs`: a local library, a library that is not a dependency, or
      one in the closure of such a library. */
  ghost predicate StillWanted(libs: seq<Ref>, resolve: Resolver, r: Ref) {
    || r.installDir.Some?
    || (r in libs && !r.isDependency && r.library != "")
    || (exists i :: 0 <= i < |libs| && !libs[i].isDependency && libs[i].library != ""
          && resolve(libs[i].library, libs[i].version).Some?
          && r.library in Names(resolve(libs[i].library, libs[i].version).value))
  }

  /** Whatever is removed along with a library, nothing still wanted by the remaining ones is
      lost, not even one copy, and the survivors keep their order. */
  lemma RemovalKeepsWanted(libs: seq<Ref>, lib: Ref, removeDependencies: bool, resolve: Resolver, r: Ref)
    requires ContainsRequested(resolve)
    requires Removal(libs, lib, removeDependencies, resolve).Success?
    requires StillWanted(RemoveFirst(libs, lib), resolve, r)
    ensures var result := Removal(libs, lib, removeDependencies, resolve).value;
      && Subsequence(result, libs)
      && multiset(result)[r] == multiset(RemoveFirst(libs, lib))[r]
  {
    var rest := RemoveFirst(libs, lib);
    RemoveFirstKeeps(libs, lib, r);
    if removeDependencies {
      var required := Required(rest, resolve).value;
      var cands := SortReleases(resolve(lib.library, lib.version).value);
      if !r.installDir.Some? {
        var i :| 0 <= i < |rest| && !rest[i].isDependency && rest[i].library != "" && (rest[i] == r
          || (resolve(rest[i].library, rest[i].version).Some? && r.library in Names(resolve(rest[i].library, rest[i].version).value)));
        RequiredCovers(rest, resolve, i);
        assert r.library in required;
      }
      RemoveCandidatesKeeps(rest, cands, required, r);
      SubsequenceTrans(RemoveCandidates(rest, cands, required), rest, libs);
    }
  }

  // ----- exactly which entries go, when names are unique

  ghost predicate UniqueNames(libs: seq<Ref>) {
    forall i, j :: 0 <= i < j < |libs| ==> libs[i].library != libs[j].library
  }

  ghost predicate Dropped(r: Ref, cands: seq<Release>, required: set<string>) {
    exists i :: 0 <= i < |cands| && cands[i].name !in required && MatchRef(Wanted(cands[i]), r)
  }

  ghost function Survivors(libs: seq<Ref>, cands: seq<Release>, required: set<string>): seq<Ref> {
    if libs == [] then []
    else if Dropped(libs[0], cands, required) then Survivors(libs[1..], cands, required)
    else [libs[0]] + Survivors(libs[1..], cands, required)
  }

  lemma DroppedSnoc(r: Ref, cands: seq<Release>, required: set<string>)
    requires cands != []
    ensures var n := |cands| - 1;
      Dropped(r, cands, required) <==>
        Dropped(r, cands[..n], required) || (cands[n].name !in required && MatchRef(Wanted(cands[n]), r))
  {
    var n := |cands| - 1;
    if Dropped(r, cands[..n], required) {
      var i :| 0 <= i < n && cands[..n][i].name !in required && MatchRef(Wanted(cands[..n][i]), r);
      assert cands[i] == cands[..n][i];
    }
  }

  lemma {:induction false} SurvivorsHave(libs: seq<Ref>, cands: seq<Release>, required: set<string>, r: Ref)
    ensures r in Survivors(libs, cands, required) ==> r in libs
  {
    if libs != [] { SurvivorsHave(libs[1..], cands, required, r); }
  }

  lemma {:induction false} SurvivorsStep(libs: seq<Ref>, cands: seq<Release>, required: set<string>)
    requires UniqueNames(libs) && cands != []
    ensures var n := |cands| - 1;
      Survivors(libs, cands, required) == if cands[n].name in required then Survivors(libs, cands[..n], required)
        else RemoveFirst(Survivors(libs, cands[..n], required), Wanted(cands[n]))
  {
    if libs != [] {
      var n := |cands| - 1;
      var w := Wanted(cands[n]);
      SurvivorsStep(libs[1..], cands, required);
      DroppedSnoc(libs[0], cands, required);
      var tail := Survivors(libs[1..], cands[..n], required);
      assert ([libs[0]] + tail)[1..] == tail;
      if MatchRef(w, libs[0]) {
        forall i | 0 <= i < |tail| ensures !MatchRef(w, tail[i]) {
          SurvivorsHave(libs[1..], cands[..n], required, tail[i]);
          var k :| 0 <= k < |libs[1..]| && libs[1..][k] == tail[i];
          assert libs[k + 1] == tail[i];
        }
        assert !HasMatch(tail, w);
        RemoveFirstKeeps(tail, w, libs[0]);
      }
    }
  }

  /** With unique names the loop keeps exactly the entries no unneeded candidate matches. */
  lemma {:induction false} RemovalIsFilter(libs: seq<Ref>, cands: seq<Release>, required: set<string>)
    requires UniqueNames(libs)
    ensures RemoveCandidates(libs, cands, required) == Survivors(libs, cands, required)
  {
    if cands == [] {
      NothingDropped(libs, required);
    } else {
      RemovalIsFilter(libs, cands[..|cands| - 1], required);
      SurvivorsStep(libs, cands, required);
    }
  }

  lemma {:induction false} NothingDropped(libs: seq<Ref>, required: set<string>)
    ensures Survivors(libs, [], required) == libs
  {
    if libs != [] { NothingDropped(libs[1..], required); }
  }

  // ----- what adding guarantees

  function Count(libs: seq<Ref>, name: string): nat {
    if libs == [] then 0 else Count(libs[..|libs| - 1], name) + if libs[|libs| - 1].library == name then 1 else 0
  }

  /** A name occurs as often as before, or once if it is one of the new ones. */
  ghost function CountAfter(libs: seq<Ref>, names: set<string>, name: string): nat {
    if Count(libs, name) == 0 && name in names then 1 else Count(libs, name)
  }

  lemma {:induction false} CountZero(libs: seq<Ref>, name: string)
    ensures Count(libs, name) == 0 <==> forall i :: 0 <= i < |libs| ==> libs[i].library != name
  {
    if libs != [] { CountZero(libs[..|libs| - 1], name); }
  }

  lemma {:induction false} CountSameNames(a: seq<Ref>, b: seq<Ref>, name: string)
    requires |a| == |b| && forall i :: 0 <= i < |a| ==> a[i].library == b[i].library
    ensures Count(a, name) == Count(b, name)
  {
    if a != [] { CountSameNames(a[..|a| - 1], b[..|b| - 1], name); }
  }

  /** Entry by entry: everything keeps its place, name and directory; no entry that is not a
      dependency becomes one. */
  ghost predicate Extends(before: seq<Ref>, after: seq<Ref>) {
    && |before| <= |after|
    && forall i :: 0 <= i < |before| ==>
         && after[i].library == before[i].library && after[i].installDir == before[i].installDir
         && (!before[i].isDependency ==> !after[i].isDependency)
  }

  /** The entry for a release after the call, which is not a directory. */
  ghost predicate Entered(libs: seq<Ref>, rel: Release, isDep: bool, noOverwrite: bool, before: seq<Ref>) {
    exists i :: 0 <= i < |libs| && libs[i].library == rel.name && libs[i].installDir.None?
      && (!isDep ==> !libs[i].isDependency)
      && (!(noOverwrite && i < |before|) ==> EqualVersions(libs[i].version, Some(rel.version)))
  }

  /** The name refers to a directory: a local library goes by the name of its directory, and the
      first reference of a name is the one that is found. */
  ghost predicate Shadowed(libs: seq<Ref>, name: string) {
    PositionIs(libs, name);
    match Position(libs, name)
    case None => false
    case Some(i) => libs[i].installDir.Some?
  }

  lemma AddOneExtends(libs: seq<Ref>, rel: Release, isDep: bool, noOverwrite: bool)
    ensures Extends(libs, AddOne(libs, rel, isDep, noOverwrite))
  {
    PositionIs(libs, rel.name);
  }

  lemma AddOneCounts(libs: seq<Ref>, rel: Release, isDep: bool, noOverwrite: bool, name: string)
    ensures Count(AddOne(libs, rel, isDep, noOverwrite), name) == CountAfter(libs, {rel.name}, name)
  {
    PositionIs(libs, rel.name);
    CountZero(libs, rel.name);
    match Position(libs, rel.name) {
      case None =>
        var entry := Ref(rel.name, Some(rel.version), isDep, None);
        assert (libs + [entry])[..|libs|] == libs;
        assert Count(libs + [entry], name) == Count(libs, name) + if rel.name == name then 1 else 0;
      case Some(i) =>
        CountSameNames(libs, libs[i := Updated(libs[i], rel, isDep, noOverwrite)], name);
    }
  }

  lemma {:induction false} AddAllCounts(libs: seq<Ref>, rels: seq<Release>, root: string, noOverwrite: bool, name: string)
    ensures Count(AddAll(libs, rels, root, noOverwrite), name) == CountAfter(libs, Names(rels), name)
  {
    if rels != [] {
      var n := |rels| - 1;
      AddAllCounts(libs, rels[..n], root, noOverwrite, name);
      AddOneCounts(AddAll(libs, rels[..n], root, noOverwrite), rels[n], rels[n].name != root, noOverwrite, name);
      NamesSnoc(rels);
    }
  }

  lemma ExtendsTrans(a: seq<Ref>, b: seq<Ref>, c: seq<Ref>)
    requires Extends(a, b) && Extends(b, c)
    ensures Extends(a, c)
  {}

  /** Adding a resolved closure: nothing already there moves, is renamed or is turned into a
      dependency. */
  lemma {:induction false} AddAllExtends(libs: seq<Ref>, rels: seq<Release>, root: string, noOverwrite: bool)
    ensures Extends(libs, AddAll(libs, rels, root, noOverwrite))
  {
    if rels != [] {
      var n := |rels| - 1;
      AddAllExtends(libs, rels[..n], root, noOverwrite);
      var m := AddAll(libs, rels[..n], root, noOverwrite);
      AddOneExtends(m, rels[n], rels[n].name != root, noOverwrite);
      ExtendsTrans(libs, m, AddAll(libs, rels, root, noOverwrite));
    }
  }

  /** What a call can change in an entry that was there: nothing unless it is the first of the name of
      a resolved release; the version only if overwriting is allowed; the dependency mark only
      for the root, which loses it. */
  ghost predicate ChangedOnly(before: seq<Ref>, after: seq<Ref>, i: nat, names: set<string>, root: string, noOverwrite: bool)
    requires i < |before| && i < |after|
  {
    && (before[i].library !in names || Position(before, before[i].library) != Some(i) ==> after[i] == before[i])
    && (noOverwrite ==> after[i].version == before[i].version)
    && (before[i].library != root ==> after[i].isDependency == before[i].isDependency)
    && (after[i].isDependency ==> before[i].isDependency)
  }

  lemma {:induction false} AddAllChanges(libs: seq<Ref>, rels: seq<Release>, root: string, noOverwrite: bool, i: nat)
    requires i < |libs|
    ensures var after := AddAll(libs, rels, root, noOverwrite);
      i < |after| && ChangedOnly(libs, after, i, Names(rels), root, noOverwrite)
  {
    AddAllExtends(libs, rels, root, noOverwrite);
    if rels != [] {
      var n := |rels| - 1;
      var m := AddAll(libs, rels[..n], root, noOverwrite);
      AddAllChanges(libs, rels[..n], root, noOverwrite, i);
      AddAllExtends(libs, rels[..n], root, noOverwrite);
      NamesSnoc(rels);
      PositionIs(m, rels[n].name);
      PositionIs(libs, libs[i].library);
      if Position(m, rels[n].name) == Some(i) { PositionOf(libs, libs[i].library, i); }
    }
  }

  /** What is appended: index entries of resolved releases whose names were not there. */
  lemma {:induction false} NewEntries(libs: seq<Ref>, rels: seq<Release>, root: string, noOverwrite: bool)
    ensures var after := AddAll(libs, rels, root, noOverwrite);
      |libs| <= |after| && forall j :: |libs| <= j < |after| ==>
        after[j].library in Names(rels) && after[j].installDir.None? && Count(libs, after[j].library) == 0
  {
    if rels != [] {
      var n := |rels| - 1;
      NewEntries(libs, rels[..n], root, noOverwrite);
      AddAllExtends(libs, rels[..n], root, noOverwrite);
      NamesSnoc(rels);
      NextEntry(libs, AddAll(libs, rels[..n], root, noOverwrite), rels[n]);
      PositionIs(AddAll(libs, rels[..n], root, noOverwrite), rels[n].name);
    }
  }

  lemma NextEntry(libs: seq<Ref>, m: seq<Ref>, rel: Release)
    requires Extends(libs, m)
    ensures Position(m, rel.name) == None ==> Count(libs, rel.name) == 0
  {
    PositionIs(m, rel.name);
    CountZero(libs, rel.name);
  }

  /** An entry made for one release is left alone by the next, which has another name. */
  lemma EnteredStays(libs: seq<Ref>, m: seq<Ref>, rel: Release, isDep: bool, noOverwrite: bool, next: Release, nextIsDep: bool)
    requires Entered(m, rel, isDep, noOverwrite, libs) && rel.name != next.name
    ensures Entered(AddOne(m, next, nextIsDep, noOverwrite), rel, isDep, noOverwrite, libs)
  {
    var j :| 0 <= j < |m| && m[j].library == rel.name && m[j].installDir.None?
      && (!isDep ==> !m[j].isDependency)
      && (!(noOverwrite && j < |libs|) ==> EqualVersions(m[j].version, Some(rel.version)));
    PositionIs(m, next.name);
    assert AddOne(m, next, nextIsDep, noOverwrite)[j] == m[j];
  }

  /** The entry a name refers to is where and what it was. */
  ghost predicate Untouched(before: seq<Ref>, after: seq<Ref>, name: string) {
    match Position(before, name)
    case None => Position(after, name) == None
    case Some(i) => Position(after, name) == Some(i) && i < |before| && i < |after| && after[i] == before[i]
  }

  lemma OtherNameUntouched(libs: seq<Ref>, rel: Release, isDep: bool, noOverwrite: bool, name: string)
    requires rel.name != name
    ensures Untouched(libs, AddOne(libs, rel, isDep, noOverwrite), name)
  {
    var after := AddOne(libs, rel, isDep, noOverwrite);
    PositionIs(libs, rel.name);
    PositionIs(libs, name);
    PositionIs(after, name);
    assert |libs| <= |after| && forall j :: 0 <= j < |libs| ==> after[j].library == libs[j].library;
    if Position(libs, name).Some? { PositionOf(after, name, Position(libs, name).value); }
  }

  /** Adding releases of other names does not touch the entry of a name. */
  lemma {:induction false} OtherNamesUntouched(libs: seq<Ref>, rels: seq<Release>, root: string, noOverwrite: bool, name: string)
    requires forall i :: 0 <= i < |rels| ==> rels[i].name != name
    ensures Untouched(libs, AddAll(libs, rels, root, noOverwrite), name)
  {
    if rels == [] {
      PositionIs(libs, name);
    } else {
      var n := |rels| - 1;
      OtherNamesUntouched(libs, rels[..n], root, noOverwrite, name);
      OtherNameUntouched(AddAll(libs, rels[..n], root, noOverwrite), rels[n], rels[n].name != root, noOverwrite, name);
    }
  }

  /** After the call a resolved release whose name does not refer to a directory has its entry: the
      root's is not a dependency, and its version is the resolved one unless overwriting an old
      entry was forbidden. */
  lemma {:induction false} AddAllEnters(libs: seq<Ref>, rels: seq<Release>, root: string, noOverwrite: bool, i: nat)
    requires DistinctNames(rels) && i < |rels| && !Shadowed(libs, rels[i].name)
    ensures Entered(AddAll(libs, rels, root, noOverwrite), rels[i], rels[i].name != root, noOverwrite, libs)
  {
    var n := |rels| - 1;
    if i < n {
      AddAllEnters(libs, rels[..n], root, noOverwrite, i);
      assert NameOf(rels[i]) != NameOf(rels[n]);
      EnteredStays(libs, AddAll(libs, rels[..n], root, noOverwrite), rels[i], rels[i].name != root, noOverwrite, rels[n], rels[n].name != root);
    } else {
      NewEntriesDiffer(libs, rels, root, noOverwrite);
      LastEnters(libs, AddAll(libs, rels[..n], root, noOverwrite), rels[n], rels[n].name != root, noOverwrite);
    }
  }

  lemma NewEntriesDiffer(libs: seq<Ref>, rels: seq<Release>, root: string, noOverwrite: bool)
    requires DistinctNames(rels) && rels != []
    ensures var n := |rels| - 1;
      var m := AddAll(libs, rels[..n], root, noOverwrite);
      && |libs| <= |m| && (forall j :: |libs| <= j < |m| ==> m[j].library != rels[n].name)
      && Untouched(libs, m, rels[n].name)
  {
    var n := |rels| - 1;
    NewEntries(libs, rels[..n], root, noOverwrite);
    assert forall k :: 0 <= k < n ==> NameOf(rels[k]) != NameOf(rels[n]);
    OtherNamesUntouched(libs, rels[..n], root, noOverwrite, rels[n].name);
  }

  lemma LastEnters(libs: seq<Ref>, m: seq<Ref>, rel: Release, isDep: bool, noOverwrite: bool)
    requires |libs| <= |m| && forall j :: |libs| <= j < |m| ==> m[j].library != rel.name
    requires Untouched(libs, m, rel.name) && !Shadowed(libs, rel.name)
    ensures Entered(AddOne(m, rel, isDep, noOverwrite), rel, isDep, noOverwrite, libs)
  {
    var after := AddOne(m, rel, isDep, noOverwrite);
    PositionIs(m, rel.name);
    match Position(m, rel.name) {
      case None => assert after[|m|].library == rel.name;
      case Some(i) => assert after[i].library == rel.name;
    }
  }

  /** While a name refers to a directory, its index entries stay as they are. */
  ghost predicate IndexEntriesKept(libs: seq<Ref>, after: seq<Ref>, name: string) {
    && |libs| <= |after|
    && (forall j :: 0 <= j < |libs| && libs[j].library == name && libs[j].installDir.None? ==> after[j] == libs[j])
    && (forall j :: |libs| <= j < |after| ==> after[j].library != name)
  }

  lemma ShadowedStays(libs: seq<Ref>, after: seq<Ref>, name: string)
    requires Extends(libs, after) && Shadowed(libs, name)
    ensures Shadowed(after, name) && Position(after, name) == Position(libs, name)
  {
    PositionIs(libs, name);
    PositionOf(after, name, Position(libs, name).value);
  }

  lemma {:induction false} ShadowedKeeps(libs: seq<Ref>, rels: seq<Release>, root: string, noOverwrite: bool, name: string)
    requires Shadowed(libs, name)
    ensures IndexEntriesKept(libs, AddAll(libs, rels, root, noOverwrite), name)
  {
    if rels != [] {
      var n := |rels| - 1;
      var m := AddAll(libs, rels[..n], root, noOverwrite);
      ShadowedKeeps(libs, rels[..n], root, noOverwrite, name);
      AddAllExtends(libs, rels[..n], root, noOverwrite);
      ShadowedStays(libs, m, name);
      PositionIs(m, rels[n].name);
      PositionIs(libs, name);
    }
  }

  /** The exact condition: a resolved release has its entry after the call unless its name refers to
      a directory, or if another entry of that name was already as it should be. */
  lemma AddAllEntersIff(libs: seq<Ref>, rels: seq<Release>, root: string, noOverwrite: bool, i: nat)
    requires DistinctNames(rels) && i < |rels|
    ensures var isDep := rels[i].name != root;
      Entered(AddAll(libs, rels, root, noOverwrite), rels[i], isDep, noOverwrite, libs) <==>
        !Shadowed(libs, rels[i].name) || Entered(libs, rels[i], isDep, noOverwrite, libs)
  {
    if !Shadowed(libs, rels[i].name) {
      AddAllEnters(libs, rels, root, noOverwrite, i);
    } else {
      AddAllExtends(libs, rels, root, noOverwrite);
      ShadowedKeeps(libs, rels, root, noOverwrite, rels[i].name);
      EnteredAsBefore(libs, AddAll(libs, rels, root, noOverwrite), rels[i], rels[i].name != root, noOverwrite);
    }
  }

  lemma EnteredAsBefore(libs: seq<Ref>, after: seq<Ref>, rel: Release, isDep: bool, noOverwrite: bool)
    requires Extends(libs, after) && IndexEntriesKept(libs, after, rel.name)
    ensures Entered(after, rel, isDep, noOverwrite, libs) <==> Entered(libs, rel, isDep, noOverwrite, libs)
  {
    if Entered(libs, rel, isDep, noOverwrite, libs) {
      var k :| 0 <= k < |libs| && libs[k].library == rel.name && libs[k].installDir.None?
        && (!isDep ==> !libs[k].isDependency)
        && (!(noOverwrite && k < |libs|) ==> EqualVersions(libs[k].version, Some(rel.version)));
      assert after[k] == libs[k];
    }
  }

  ghost predicate InIndex(libs: seq<Ref>, name: string) {
    exists j :: 0 <= j < |libs| && libs[j].library == name && libs[j].installDir.None?
  }

  /** A resolved name has an index entry after the call exactly when it had one, or had none at all:
      if it only names directories, the release does not get into the profile. */
  lemma AddAllListsIff(libs: seq<Ref>, rels: seq<Release>, root: string, noOverwrite: bool, name: string)
    requires name in Names(rels)
    ensures InIndex(AddAll(libs, rels, root, noOverwrite), name) <==> InIndex(libs, name) || Count(libs, name) == 0
  {
    var after := AddAll(libs, rels, root, noOverwrite);
    AddAllExtends(libs, rels, root, noOverwrite);
    NewEntries(libs, rels, root, noOverwrite);
    if InIndex(libs, name) {
      var j :| 0 <= j < |libs| && libs[j].library == name && libs[j].installDir.None?;
      assert after[j].library == name && after[j].installDir.None?;
    }
    if Count(libs, name) == 0 {
      AddAllCounts(libs, rels, root, noOverwrite, name);
      CountZero(libs, name);
      CountZero(after, name);
    }
  }

  lemma NamesSnoc(rels: seq<Release>)
    requires rels != []
    ensures Names(rels) == Names(rels[..|rels| - 1]) + {rels[|rels| - 1].name}
  {
    var n := |rels| - 1;
    forall x | x in Names(rels[..n]) ensures x in Names(rels) {
      var i :| 0 <= i < n && rels[..n][i].name == x;
      assert rels[i] == rels[..n][i];
    }
    forall x | x in Names(rels) ensures x in Names(rels[..n]) + {rels[n].name} {
      var i :| 0 <= i < |rels| && rels[i].name == x;
      if i < n { assert rels[..n][i] == rels[i]; }
    }
  }

  // ----- removing undoes adding

  function Fresh(rels: seq<Release>, root: string): (r: seq<Ref>)
    ensures |r| == |rels|
  {
    seq(|rels|, i requires 0 <= i < |rels| => Ref(rels[i].name, Some(rels[i].version), rels[i].name != root, None))
  }

  ghost predicate Foreign(libs: seq<Ref>, names: set<string>) {
    forall i :: 0 <= i < |libs| ==> libs[i].library !in names
  }

  /** New names are simply appended. */
  lemma {:induction false} AddAllAppends(libs: seq<Ref>, rels: seq<Release>, root: string, noOverwrite: bool)
    requires DistinctNames(rels) && Foreign(libs, Names(rels))
    ensures AddAll(libs, rels, root, noOverwrite) == libs + Fresh(rels, root)
  {
    if rels == [] {
      assert libs + Fresh(rels, root) == libs;
    } else {
      var n := |rels| - 1;
      NamesSnoc(rels);
      AddAllAppends(libs, rels[..n], root, noOverwrite);
      var m := libs + Fresh(rels[..n], root);
      PositionIs(m, rels[n].name);
      assert m + [Fresh(rels, root)[n]] == libs + Fresh(rels, root);
    }
  }

  lemma {:induction false} RemoveFirstAfter(libs: seq<Ref>, tail: seq<Ref>, l: Ref)
    requires l.installDir.None? && forall i :: 0 <= i < |libs| ==> libs[i].library != l.library
    ensures RemoveFirst(libs + tail, l) == libs + RemoveFirst(tail, l)
  {
    if libs == [] {
      assert libs + tail == tail;
    } else {
      assert (libs + tail)[1..] == libs[1..] + tail;
      RemoveFirstAfter(libs[1..], tail, l);
    }
  }

  lemma {:induction false} RemoveCandidatesAfter(libs: seq<Ref>, tail: seq<Ref>, cands: seq<Release>, required: set<string>)
    requires Foreign(libs, Names(cands))
    ensures RemoveCandidates(libs + tail, cands, required) == libs + RemoveCandidates(tail, cands, required)
  {
    if cands != [] {
      var n := |cands| - 1;
      NamesSnoc(cands);
      RemoveCandidatesAfter(libs, tail, cands[..n], required);
      RemoveFirstAfter(libs, RemoveCandidates(tail, cands[..n], required), Wanted(cands[n]));
    }
  }

  lemma {:induction false} RequiredIgnoresDependencies(libs: seq<Ref>, deps: seq<Ref>, resolve: Resolver)
    requires forall i :: 0 <= i < |deps| ==> deps[i].isDependency
    ensures Required(libs + deps, resolve) == Required(libs, resolve)
  {
    if deps == [] {
      assert libs + deps == libs;
    } else {
      var n := |deps| - 1;
      RequiredIgnoresDependencies(libs, deps[..n], resolve);
      assert (libs + deps)[..|libs| + n] == libs + deps[..n];
    }
  }

  lemma {:induction false} AllDropped(libs: seq<Ref>, cands: seq<Release>, required: set<string>)
    requires forall i :: 0 <= i < |libs| ==> Dropped(libs[i], cands, required)
    ensures Survivors(libs, cands, required) == []
  {
    if libs != [] { AllDropped(libs[1..], cands, required); }
  }

  lemma {:induction false} RemoveFirstAt(libs: seq<Ref>, l: Ref, k: nat)
    requires k < |libs| && MatchRef(l, libs[k]) && forall i :: 0 <= i < k ==> !MatchRef(l, libs[i])
    ensures RemoveFirst(libs, l) == libs[..k] + libs[k + 1..]
    ensures HasMatch(libs, l)
  {
    if k > 0 {
      RemoveFirstAt(libs[1..], l, k - 1);
      assert libs[..k] + libs[k + 1..] == [libs[0]] + (libs[1..][..k - 1] + libs[1..][k..]);
    }
  }

  /** Adding a library with its dependencies and then removing the same version with its
      dependencies gives back the same list: whenever the closure is new to the profile and
      not needed by it. */
  lemma RemoveUndoesAdd(libs: seq<Ref>, root: Release, closure: seq<Release>, noOverwrite: bool, resolve: Resolver)
    requires resolve(root.name, Some(root.version)) == Some(closure)
    requires root in closure && DistinctNames(closure)
    requires Foreign(libs, Names(closure))
    requires Required(libs, resolve).Some? && Required(libs, resolve).value !! Names(closure)
    ensures Removal(AddAll(libs, SortReleases(closure), root.name, noOverwrite), Wanted(root), true, resolve) == Success(libs)
  {
    var rels := SortReleases(closure);
    SortReleasesPermutes(closure);
    SortedNames(closure);
    AddAllAppends(libs, rels, root.name, noOverwrite);
    var k :| 0 <= k < |rels| && rels[k] == root;
    RootRemoved(libs, rels, k);
    var added := Fresh(rels, root.name);
    RequiredIgnoresDependencies(libs, added[..k] + added[k + 1..], resolve);
    LeftoversGo(libs, rels, k, Required(libs, resolve).value);
  }

  /** The explicitly removed entry is the one of the root; what stays behind are dependencies. */
  lemma RootRemoved(libs: seq<Ref>, rels: seq<Release>, k: nat)
    requires k < |rels| && DistinctNames(rels) && Foreign(libs, Names(rels))
    ensures var added := Fresh(rels, rels[k].name);
      && HasMatch(libs + added, Wanted(rels[k]))
      && RemoveFirst(libs + added, Wanted(rels[k])) == libs + (added[..k] + added[k + 1..])
      && forall r :: r in added[..k] + added[k + 1..] ==> r.isDependency
  {
    var added := Fresh(rels, rels[k].name);
    RemoveFirstAt(added, Wanted(rels[k]), k);
    assert rels[k].name in Names(rels);
    RemoveFirstAfter(libs, added, Wanted(rels[k]));
    assert MatchRef(Wanted(rels[k]), (libs + added)[|libs| + k]);
  }

  lemma LeftoversGo(libs: seq<Ref>, rels: seq<Release>, k: nat, required: set<string>)
    requires k < |rels| && DistinctNames(rels) && Foreign(libs, Names(rels)) && required !! Names(rels)
    ensures var added := Fresh(rels, rels[k].name);
      RemoveCandidates(libs + (added[..k] + added[k + 1..]), rels, required) == libs
  {
    var added := Fresh(rels, rels[k].name);
    var rest := added[..k] + added[k + 1..];
    RemoveCandidatesAfter(libs, rest, rels, required);
    LeftoversDropped(rels, k, required);
    RemovalIsFilter(rest, rels, required);
    AllDropped(rest, rels, required);
    assert libs + [] == libs;
  }

  lemma LeftoversDropped(rels: seq<Release>, k: nat, required: set<string>)
    requires k < |rels| && DistinctNames(rels) && required !! Names(rels)
    ensures var added := Fresh(rels, rels[k].name);
      var rest := added[..k] + added[k + 1..];
      UniqueNames(rest) && forall i :: 0 <= i < |rest| ==> Dropped(rest[i], rels, required)
  {
    var added := Fresh(rels, rels[k].name);
    var rest := added[..k] + added[k + 1..];
    forall i | 0 <= i < |rest| ensures Dropped(rest[i], rels, required) {
      var j := if i < k then i else i + 1;
      assert rels[j].name in Names(rels);
      assert rest[i] == added[j] && MatchRef(Wanted(rels[j]), rest[i]);
    }
    forall i, j | 0 <= i < j < |rest| ensures rest[i].library != rest[j].library {
      var a, b := if i < k then i else i + 1, if j < k then j else j + 1;
      assert rest[i] == added[a] && rest[j] == added[b] && NameOf(rels[a]) != NameOf(rels[b]);
    }
  }

  lemma SortedNames(closure: seq<Release>)
    requires DistinctNames(closure)
    ensures DistinctNames(SortReleases(closure))
    ensures Names(SortReleases(closure)) == Names(closure)
  {
    var rels := SortReleases(closure);
    SortReleasesPermutes(closure);
    forall i, j | 0 <= i < j < |rels| ensures rels[i].name != rels[j].name {
      PermutedApart(NameOf, closure, rels, i, j);
    }
    forall x ensures x in Names(rels) <==> x in Names(closure) {
      if x in Names(rels) {
        var i :| 0 <= i < |rels| && rels[i].name == x;
        assert rels[i] in closure;
      }
      if x in Names(closure) {
        var i :| 0 <= i < |closure| && closure[i].name == x;
        assert closure[i] in rels;
      }
    }
  }

  // ----- the objects

  class LibraryReference {
    var library: string
    var version: Option<Version>
    var isDependency: bool
    var installDir: Option<string>

    constructor (r: Ref)
      ensures View() == r
    {
      library, version, isDependency, installDir := r.library, r.version, r.isDependency, r.installDir;
    }

    function View(): Ref
      reads this
    {
      Ref(library, version, isDependency, installDir)
    }

    /** The reference is already there: it may stop being a dependency and may get the new
        version. */
    method Update(rel: Release, isDep: bool, noOverwrite: bool) returns (added: bool)
      modifies this
      ensures View() == Updated(old(View()), rel, isDep, noOverwrite)
      ensures added <==> !(noOverwrite || EqualVersions(old(version), Some(rel.version)))
    {
      if !isDep && isDependency {
        isDependency := false;
      }
      if noOverwrite || EqualVersions(version, Some(rel.version)) {
        return false;
      }
      version := Some(rel.version);
      added := true;
    }
  }

  class Profile {
    var libraries: seq<LibraryReference>
    ghost var owned: set<LibraryReference>

    /** No reference object is listed twice, and all are owned by this profile. */
    ghost predicate Valid()
      reads this
    {
      && (forall i :: 0 <= i < |libraries| ==> libraries[i] in owned)
      && (forall i, j :: 0 <= i < j < |libraries| ==> libraries[i] != libraries[j])
    }

    function View(): (r: seq<Ref>)
      reads this, libraries
      ensures |r| == |libraries|
    {
      seq(|libraries|, i requires 0 <= i < |libraries| reads this, libraries => libraries[i].View())
    }

    /** The profile as loaded from the project file. */
    constructor Load(refs: seq<Ref>)
      ensures Valid() && fresh(owned) && View() == refs
    {
      libraries, owned := [], {};
      new;
      for i := 0 to |refs|
        invariant Valid() && fresh(owned) && |libraries| == i
        invariant forall j :: 0 <= j < i ==> libraries[j].View() == refs[j]
      {
        var l := new LibraryReference(refs[i]);
        libraries, owned := libraries + [l], owned + {l};
      }
    }

    /** The first reference with the name, or null. */
    method GetLibrary(libraryName: string) returns (l: LibraryReference?, ghost at: Option<nat>)
      ensures at == Position(View(), libraryName)
      ensures l == match at case None => null case Some(i) => if i < |libraries| then libraries[i] else null
    {
      PositionIs(View(), libraryName);
      for i := 0 to |libraries|
        invariant forall j :: 0 <= j < i ==> libraries[j].library != libraryName
      {
        if libraries[i].library == libraryName {
          assert View()[i].library == libraryName;
          return libraries[i], Position(View(), libraryName);
        }
        assert View()[i].library != libraryName;
      }
      return null, Position(View(), libraryName);
    }

    method RemoveLibrary(library: Ref) returns (removed: Option<Ref>)
      requires Valid()
      modifies this`libraries
      ensures Valid()
      ensures removed.Some? <==> HasMatch(old(View()), library)
      ensures View() == RemoveFirst(old(View()), library)
      ensures removed.None? <==> forall i :: 0 <= i < |old(View())| ==> !Means(library, old(View())[i])
      ensures if removed.Some? then FirstTaken(old(View()), library, View()) && Means(library, removed.value) else View() == old(View())
      ensures removed.Some? ==> multiset(old(View())) == multiset(View()) + multiset{removed.value}
    {
      ghost var before := View();
      RemoveFirstIs(before, library);
      var i := IndexOf(library);
      if i == |libraries| {
        RemoveFirstKeeps(before, library, library);
        return None;
      }
      removed := Some(libraries[i].View());
      RemoveFirstAt(before, library, i);
      Without(before, i);
      DeleteAt(i);
    }

    /** slices.Delete of one element. */
    method DeleteAt(i: nat)
      requires Valid() && i < |libraries|
      modifies this`libraries
      ensures Valid()
      ensures View() == old(View())[..i] + old(View())[i + 1..]
    {
      ghost var before := View();
      libraries := libraries[..i] + libraries[i + 1..];
      assert View() == before[..i] + before[i + 1..];
    }

    /** slices.IndexFunc; the length stands for "not found". */
    method IndexOf(library: Ref) returns (i: nat)
      ensures i <= |libraries| && (i == |libraries| <==> !HasMatch(View(), library))
      ensures i < |libraries| ==> MatchRef(library, View()[i])
      ensures forall j :: 0 <= j < i ==> !MatchRef(library, View()[j])
    {
      for k := 0 to |libraries|
        invariant forall j :: 0 <= j < k ==> !MatchRef(library, View()[j])
      {
        if MatchRef(library, libraries[k].View()) {
          assert MatchRef(library, View()[k]);
          return k;
        }
      }
      i := |libraries|;
    }

    /** The inner function of ProfileLibAdd: appends a new reference or updates the old one in
        place, and says which reference is reported as added or skipped. */
    method Add(rel: Release, isDep: bool, noOverwrite: bool) returns (added: bool)
      requires Valid()
      modifies this, owned
      ensures Valid() && fresh(owned - old(owned))
      ensures View() == AddOne(old(View()), rel, isDep, noOverwrite)
      ensures added <==> ReportedAdded(old(View()), rel, noOverwrite)
    {
      ghost var before := View();
      PositionIs(before, rel.name);
      var libRefToAdd := new LibraryReference(Ref(rel.name, Some(rel.version), isDep, None));
      var existingLibRef, at := GetLibrary(rel.name);
      if existingLibRef == null {
        libraries, owned := libraries + [libRefToAdd], owned + {libRefToAdd};
        assert View() == before + [libRefToAdd.View()];
        return true;
      }
      added := existingLibRef.Update(rel, isDep, noOverwrite);
      ghost var i := at.value;
      forall j | 0 <= j < |libraries| ensures View()[j] == before[i := existingLibRef.View()][j] {
        if j != i { assert libraries[j] != libraries[i]; }
      }
    }
  }

  /** The names reported as added, and those reported as skipped. */
  ghost function Reported(libs: seq<Ref>, rels: seq<Release>, root: string, noOverwrite: bool, added: bool): seq<string> {
    if rels == [] then []
    else
      var n := |rels| - 1;
      var rest := Reported(libs, rels[..n], root, noOverwrite, added);
      if ReportedAdded(AddAll(libs, rels[..n], root, noOverwrite), rels[n], noOverwrite) == added
      then rest + [rels[n].name] else rest
  }

  lemma ReportUntouched(before: seq<Ref>, after: seq<Ref>, rel: Release, noOverwrite: bool)
    requires Untouched(before, after, rel.name)
    ensures ReportedAdded(after, rel, noOverwrite) == ReportedAdded(before, rel, noOverwrite)
  {}

  /** The names of the releases that pass the test, in order. */
  ghost function NamesWhere(rels: seq<Release>, test: Release -> bool): seq<string> {
    if rels == [] then []
    else
      var n := |rels| - 1;
      NamesWhere(rels[..n], test) + if test(rels[n]) then [rels[n].name] else []
  }

  /** What the reports say, in terms of the profile before the call: with one release a name, the
      releases reported as added are exactly those the profile had no entry for, or had in
      another version that may be overwritten; the others are reported as skipped. Both
      reports keep the order of the releases. */
  lemma {:induction false} ReportsAre(libs: seq<Ref>, rels: seq<Release>, root: string, noOverwrite: bool, added: bool)
    requires DistinctNames(rels)
    ensures Reported(libs, rels, root, noOverwrite, added)
         == NamesWhere(rels, r => ReportedAdded(libs, r, noOverwrite) == added)
  {
    if rels != [] {
      var n := |rels| - 1;
      ReportsAre(libs, rels[..n], root, noOverwrite, added);
      forall i | 0 <= i < n ensures rels[..n][i].name != rels[n].name {
        assert NameOf(rels[i]) != NameOf(rels[n]);
      }
      OtherNamesUntouched(libs, rels[..n], root, noOverwrite, rels[n].name);
      ReportUntouched(libs, AddAll(libs, rels[..n], root, noOverwrite), rels[n], noOverwrite);
    }
  }

  /** The profile has an entry of that name, and the first one is in another version. */
  ghost predicate InOtherVersion(libs: seq<Ref>, rel: Release) {
    exists i :: 0 <= i < |libs| && libs[i].library == rel.name && !EqualVersions(libs[i].version, Some(rel.version))
      && forall j :: 0 <= j < i ==> libs[j].library != rel.name
  }

  lemma ReportedAddedIff(libs: seq<Ref>, rel: Release, noOverwrite: bool)
    ensures ReportedAdded(libs, rel, noOverwrite) <==>
      Count(libs, rel.name) == 0 || (!noOverwrite && InOtherVersion(libs, rel))
  {
    PositionIs(libs, rel.name);
    CountZero(libs, rel.name);
  }

  ghost predicate SomePasses(rels: seq<Release>, test: Release -> bool, name: string) {
    exists i :: 0 <= i < |rels| && rels[i].name == name && test(rels[i])
  }

  lemma SomePassesSnoc(rels: seq<Release>, test: Release -> bool, name: string)
    requires rels != []
    ensures var n := |rels| - 1;
      SomePasses(rels, test, name) <==> SomePasses(rels[..n], test, name) || (rels[n].name == name && test(rels[n]))
  {
    assert forall i :: 0 <= i < |rels| - 1 ==> rels[..|rels| - 1][i] == rels[i];
  }

  lemma {:induction false} NamedOnce(rels: seq<Release>, test: Release -> bool, name: string)
    requires DistinctNames(rels)
    ensures multiset(NamesWhere(rels, test))[name] == if SomePasses(rels, test, name) then 1 else 0
  {
    if rels != [] {
      var n := |rels| - 1;
      NamedOnce(rels[..n], test, name);
      SomePassesSnoc(rels, test, name);
      CountSnoc(NamesWhere(rels[..n], test), rels[n].name, name);
      assert forall i :: 0 <= i < n ==> NameOf(rels[i]) != NameOf(rels[n]);
    }
  }

  /** Each resolved release is reported exactly once. It is reported as added exactly when the
      original profile has no entry of its name, or has one in another version and overwriting
      is allowed, and as skipped otherwise. */
  lemma ReportedOnce(libs: seq<Ref>, rels: seq<Release>, root: string, noOverwrite: bool, i: nat)
    requires DistinctNames(rels) && i < |rels|
    ensures var hit := Count(libs, rels[i].name) == 0 || (!noOverwrite && InOtherVersion(libs, rels[i]));
      && multiset(Reported(libs, rels, root, noOverwrite, true))[rels[i].name] == (if hit then 1 else 0)
      && multiset(Reported(libs, rels, root, noOverwrite, false))[rels[i].name] == (if hit then 0 else 1)
  {
    ReportedAddedIff(libs, rels[i], noOverwrite);
    ReportsAre(libs, rels, root, noOverwrite, true);
    ReportsAre(libs, rels, root, noOverwrite, false);
    NamedOnce(rels, r => ReportedAdded(libs, r, noOverwrite) == true, rels[i].name);
    NamedOnce(rels, r => ReportedAdded(libs, r, noOverwrite) == false, rels[i].name);
    assert forall j :: 0 <= j < |rels| && j != i ==> NameOf(rels[j]) != NameOf(rels[i]);
  }

  method AddResolved(profile: Profile, rels: seq<Release>, root: string, noOverwrite: bool)
    returns (added: seq<string>, skipped: seq<string>)
    requires profile.Valid()
    modifies profile, profile.owned
    ensures profile.View() == AddAll(old(profile.View()), rels, root, noOverwrite)
    ensures added == Reported(old(profile.View()), rels, root, noOverwrite, true)
    ensures skipped == Reported(old(profile.View()), rels, root, noOverwrite, false)
  {
    ghost var libs := profile.View();
    added, skipped := [], [];
    for i := 0 to |rels|
      invariant profile.Valid() && fresh(profile.owned - old(profile.owned))
      invariant profile.View() == AddAll(libs, rels[..i], root, noOverwrite)
      invariant added == Reported(libs, rels[..i], root, noOverwrite, true)
      invariant skipped == Reported(libs, rels[..i], root, noOverwrite, false)
    {
      assert rels[..i + 1][..i] == rels[..i];
      var isAdded := profile.Add(rels[i], rels[i].name != root, noOverwrite);
      if isAdded {
        added := added + [rels[i].name];
      } else {
        skipped := skipped + [rels[i].name];
      }
    }
    assert rels[..|rels|] == rels;
  }

  method CollectRequired(profile: Profile, resolve: Resolver) returns (requiredDeps: Option<set<string>>)
    ensures requiredDeps == Required(profile.View(), resolve)
  {
    ghost var libs := profile.View();
    var names: set<string> := {};
    for i := 0 to |profile.libraries|
      invariant Required(libs[..i], resolve) == Some(names)
    {
      assert libs[..i + 1][..i] == libs[..i];
      var profLib := profile.libraries[i];
      assert profLib.View() == libs[i];
      if profLib.isDependency || profLib.library == "" {
        continue;
      }
      match resolve(profLib.library, profLib.version) {
        case None =>
          RequiredFails(libs, resolve, i + 1);
          return None;
        case Some(deps) =>
          ghost var before := names;
          for k := 0 to |deps|
            invariant names == before + Names(deps[..k])
          {
            NamesSnoc(deps[..k + 1]);
            assert deps[..k + 1][..k] == deps[..k];
            names := names + {deps[k].name};
          }
          assert deps[..|deps|] == deps;
      }
    }
    assert libs[..|libs|] == libs;
    requiredDeps := Some(names);
  }

  lemma {:induction false} RequiredFails(libs: seq<Ref>, resolve: Resolver, i: nat)
    requires i <= |libs| && Required(libs[..i], resolve).None?
    ensures Required(libs, resolve).None?
  {
    if i < |libs| {
      assert libs[..|libs| - 1][..i] == libs[..i];
      RequiredFails(libs[..|libs| - 1], resolve, i);
    } else {
      assert libs[..i] == libs;
    }
  }

  method RemoveUnneeded(profile: Profile, cands: seq<Release>, requiredDeps: set<string>) returns (removed: seq<Ref>)
    requires profile.Valid()
    modifies profile
    ensures profile.View() == RemoveCandidates(old(profile.View()), cands, requiredDeps)
    ensures multiset(old(profile.View())) == multiset(profile.View()) + multiset(removed)
  {
    ghost var libs := profile.View();
    removed := [];
    for i := 0 to |cands|
      invariant profile.Valid()
      invariant profile.View() == RemoveCandidates(libs, cands[..i], requiredDeps)
      invariant multiset(libs) == multiset(profile.View()) + multiset(removed)
    {
      assert cands[..i + 1][..i] == cands[..i];
      if cands[i].name in requiredDeps {
        continue;
      }
      ghost var before := profile.View();
      var gone := profile.RemoveLibrary(Wanted(cands[i]));
      if gone.Some? {
        removed := removed + [gone.value];
      } else {
        RemoveFirstKeeps(before, Wanted(cands[i]), Wanted(cands[i]));
      }
    }
    assert cands[..|cands|] == cands;
  }
}
