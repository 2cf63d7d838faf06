/** The library list of a profile as the project file holds it, and the two calls that load it,
    change it and write it back. A local library is written as its directory only, and read back
    under the name of that directory. */
module ProfileFile {
  import opened Wrappers
  import opened ProfileLibs

  // ----- the file

  /** One line of the list. */
  datatype Entry = Dir(path: string) | Lib(name: string, version: Option<Version>, isDependency: bool)

  /** The last element of a path. */
  type Base = string -> string

  function Read(e: Entry, base: Base): Ref {
    match e
    case Dir(path) => Ref(base(path), None, false, Some(path))
    case Lib(name, version, isDependency) => Ref(name, version, isDependency, None)
  }

  function Write(r: Ref): Entry {
    match r.installDir
    case Some(path) => Dir(path)
    case None => Lib(r.library, r.version, r.isDependency)
  }

  function ReadAll(entries: seq<Entry>, base: Base): (libs: seq<Ref>)
    ensures |libs| == |entries|
  {
    seq(|entries|, i requires 0 <= i < |entries| => Read(entries[i], base))
  }

  function WriteAll(libs: seq<Ref>): (entries: seq<Entry>)
    ensures |entries| == |libs|
  {
    seq(|libs|, i requires 0 <= i < |libs| => Write(libs[i]))
  }

  /** Loading and writing back changes nothing in the file. */
  lemma WriteRead(entries: seq<Entry>, base: Base)
    ensures WriteAll(ReadAll(entries, base)) == entries
  {}

  /** A list survives being written and read back exactly when every directory in it has no version,
      is no dependency and goes by its own name. */
  lemma ReadWriteIff(libs: seq<Ref>, base: Base)
    ensures ReadAll(WriteAll(libs), base) == libs <==>
      forall r :: r in libs && r.installDir.Some? ==> r == Ref(base(r.installDir.value), None, false, r.installDir)
  {
    var again := ReadAll(WriteAll(libs), base);
    forall i | 0 <= i < |libs|
      ensures again[i] == libs[i] <==>
        (libs[i].installDir.Some? ==> libs[i] == Ref(base(libs[i].installDir.value), None, false, libs[i].installDir))
    {}
    if again == libs {
      forall r | r in libs && r.installDir.Some? ensures r == Ref(base(r.installDir.value), None, false, r.installDir) {
        var i :| 0 <= i < |libs| && libs[i] == r;
        assert again[i] == libs[i];
      }
    }
  }

  // ----- what the file does to adding

  /** A release whose name refers to a directory does not get into the file, which stays as it is;
      the call reports it as added nevertheless, unless overwriting is forbidden. */
  lemma DirectoryTakesRelease(entries: seq<Entry>, base: Base, rel: Release, isDep: bool, noOverwrite: bool)
    requires Shadowed(ReadAll(entries, base), rel.name)
    ensures WriteAll(AddOne(ReadAll(entries, base), rel, isDep, noOverwrite)) == entries
    ensures ReportedAdded(ReadAll(entries, base), rel, noOverwrite) <==> !noOverwrite
  {
    var libs := ReadAll(entries, base);
    PositionIs(libs, rel.name);
    var i := Position(libs, rel.name).value;
    var after := AddOne(libs, rel, isDep, noOverwrite);
    forall k | 0 <= k < |entries| ensures Write(after[k]) == entries[k] {
      if k != i { assert after[k] == libs[k]; }
    }
  }

  /** An instance: a local copy of a library is listed, and the library is added from the index. It is
      reported as added, but the file has the directory only, and removing the library finds
      nothing to remove. */
  lemma LocalCopyTakesRelease(path: string, name: string, v: Version, base: Base)
    requires base(path) == name
    ensures var libs, rel := ReadAll([Dir(path)], base), Release(name, v);
      && ReportedAdded(libs, rel, false)
      && WriteAll(AddAll(libs, [rel], name, false)) == [Dir(path)]
      && !HasMatch(AddAll(libs, [rel], name, false), Wanted(rel))
  {
    var libs, rel := ReadAll([Dir(path)], base), Release(name, v);
    assert libs == [Ref(name, None, false, Some(path))];
    assert Position(libs, name) == Some(0);
    assert [rel][..0] == [];
    assert AddAll(libs, [rel], name, false) == AddOne(libs, rel, false, false);
    DirectoryTakesRelease([Dir(path)], base, rel, false, false);
  }

  /** Over the file: adding a library with its dependencies, and in a later call removing the same
      version with its dependencies, gives back the same file, whenever the closure is new to
      the profile and not needed by it. */
  lemma RemoveUndoesAddInFile(entries: seq<Entry>, base: Base, root: Release, closure: seq<Release>, noOverwrite: bool, resolve: Resolver)
    requires resolve(root.name, Some(root.version)) == Some(closure)
    requires root in closure && DistinctNames(closure)
    requires Foreign(ReadAll(entries, base), Names(closure))
    requires Required(ReadAll(entries, base), resolve).Some?
    requires Required(ReadAll(entries, base), resolve).value !! Names(closure)
    ensures var added := WriteAll(AddAll(ReadAll(entries, base), SortReleases(closure), root.name, noOverwrite));
      var removed := Removal(ReadAll(added, base), Wanted(root), true, resolve);
      removed.Success? && WriteAll(removed.value) == entries
  {
    var libs, rels := ReadAll(entries, base), SortReleases(closure);
    SortedNames(closure);
    AddAllAppends(libs, rels, root.name, noOverwrite);
    var after := libs + Fresh(rels, root.name);
    forall r | r in after && r.installDir.Some? ensures r == Ref(base(r.installDir.value), None, false, r.installDir) {
      var i :| 0 <= i < |after| && after[i] == r;
      if i < |libs| { assert r == Read(entries[i], base); }
    }
    ReadWriteIff(after, base);
    RemoveUndoesAdd(libs, root, closure, noOverwrite, resolve);
    WriteRead(entries, base);
  }

  // ----- what the file does to removing

  /** Removing with dependencies is refused exactly when the library does not resolve, or some
      remaining library outside of dependencies does not: a directory, too, has to have the
      name of a library the index can resolve. */
  lemma RemovalRefusedIff(entries: seq<Entry>, base: Base, lib: Ref, resolve: Resolver)
    requires HasMatch(ReadAll(entries, base), lib) && lib.installDir.None?
    ensures Removal(ReadAll(entries, base), lib, true, resolve) == Failure(CannotResolve) <==>
      || resolve(lib.library, lib.version).None?
      || !AllResolve(RemoveFirst(ReadAll(entries, base), lib), resolve)
  {
    RequiredIff(RemoveFirst(ReadAll(entries, base), lib), resolve);
  }

  /** So with one directory in the list whose name the index does not know, no library can be removed
      along with its dependencies. */
  lemma LocalLibraryBlocksRemoval(entries: seq<Entry>, base: Base, path: string, lib: Ref, resolve: Resolver)
    requires Dir(path) in entries && base(path) != "" && resolve(base(path), None).None?
    requires HasMatch(ReadAll(entries, base), lib) && lib.installDir.None?
    ensures Removal(ReadAll(entries, base), lib, true, resolve) == Failure(CannotResolve)
  {
    var libs, dir := ReadAll(entries, base), Read(Dir(path), base);
    var i :| 0 <= i < |entries| && entries[i] == Dir(path);
    assert libs[i] == dir && dir in multiset(libs);
    RemoveFirstKeeps(libs, lib, dir);
    assert dir in multiset(RemoveFirst(libs, lib));
    RemovalRefusedIff(entries, base, lib, resolve);
  }

  // ----- the calls

  datatype Request = Local(path: string) | Index(name: string, version: Option<Version>) | Missing

  datatype AddError = InvalidPath | LibraryMissing | ReleaseNotFound | DependenciesNotResolved

  /** The new library list of an add request, or the error. A local library has no name until it
      is read back. */
  ghost function Addition(libs: seq<Ref>, req: Request, addDependencies: bool, noOverwrite: bool,
                          find: Finder, resolve: Resolver): Result<seq<Ref>, AddError> {
    match req
    case Missing => Failure(LibraryMissing)
    case Local(path) => if path == "" then Failure(InvalidPath) else Success(libs + [Ref("", None, false, Some(path))])
    case Index(name, version) =>
      match find(name, version)
      case None => Failure(ReleaseNotFound)
      case Some(rel) =>
        if !addDependencies then Success(AddOne(libs, rel, false, noOverwrite))
        else match resolve(rel.name, Some(rel.version))
          case None => Failure(DependenciesNotResolved)
          case Some(rels) => Success(AddAll(libs, SortReleases(rels), rel.name, noOverwrite))
  }

  /** The releases an index request adds: the one that is found, or its whole closure in order. */
  ghost predicate Wants(req: Request, addDependencies: bool, find: Finder, resolve: Resolver, root: Release, rels: seq<Release>) {
    && req.Index? && find(req.name, req.version) == Some(root)
    && if addDependencies then
         && resolve(root.name, Some(root.version)).Some? && InOrder(rels)
         && multiset(rels) == multiset(resolve(root.name, Some(root.version)).value)
       else rels == [root]
  }

  /** What a request comes to: the errors, a local library as one more directory in the file, or the
      releases added one by one, all but the root as dependencies. */
  lemma AdditionOutcome(entries: seq<Entry>, req: Request, addDependencies: bool, noOverwrite: bool,
                        find: Finder, resolve: Resolver, base: Base)
    ensures var libs := ReadAll(entries, base);
      var r := Addition(libs, req, addDependencies, noOverwrite, find, resolve);
      match req
      case Missing => r == Failure(LibraryMissing)
      case Local(path) => if path == "" then r == Failure(InvalidPath) else r.Success? && WriteAll(r.value) == entries + [Dir(path)]
      case Index(name, version) =>
        if find(name, version).None? then r == Failure(ReleaseNotFound)
        else
          var root := find(name, version).value;
          if addDependencies && resolve(root.name, Some(root.version)).None? then r == Failure(DependenciesNotResolved)
          else exists rels :: Wants(req, addDependencies, find, resolve, root, rels) && r == Success(AddAll(libs, rels, root.name, noOverwrite))
  {
    var libs := ReadAll(entries, base);
    match req
    case Local(path) =>
      assert path != "" ==> WriteAll(libs + [Ref("", None, false, Some(path))]) == entries + [Dir(path)];
    case Index(name, version) =>
      if find(name, version).Some? {
        var root := find(name, version).value;
        if !addDependencies {
          AddSingle(libs, root, noOverwrite);
          assert Wants(req, addDependencies, find, resolve, root, [root]);
        } else if resolve(root.name, Some(root.version)).Some? {
          var rels := SortReleases(resolve(root.name, Some(root.version)).value);
          SortReleasesOrders(resolve(root.name, Some(root.version)).value);
          assert Wants(req, addDependencies, find, resolve, root, rels);
        }
      }
    case Missing =>
  }

  lemma AddSingle(libs: seq<Ref>, rel: Release, noOverwrite: bool)
    ensures AddAll(libs, [rel], rel.name, noOverwrite) == AddOne(libs, rel, false, noOverwrite)
    ensures forall added ::
      Reported(libs, [rel], rel.name, noOverwrite, added) == if ReportedAdded(libs, rel, noOverwrite) == added then [rel.name] else []
  {
    assert [rel][..0] == [];
  }

  /** The reports of a request that succeeds: the nameless local library, or the reports of the
      releases it adds. */
  lemma ReportsOutcome(libs: seq<Ref>, req: Request, addDependencies: bool, noOverwrite: bool, find: Finder, resolve: Resolver)
    requires Addition(libs, req, addDependencies, noOverwrite, find, resolve).Success?
    ensures var r := Reports(libs, req, addDependencies, noOverwrite, find, resolve);
      if req.Local? then r == ([""], [])
      else exists root, rels ::
        && Wants(req, addDependencies, find, resolve, root, rels)
        && r == (Reported(libs, rels, root.name, noOverwrite, true), Reported(libs, rels, root.name, noOverwrite, false))
  {
    if req.Index? {
      var root := find(req.name, req.version).value;
      if addDependencies {
        var rels := SortReleases(resolve(root.name, Some(root.version)).value);
        SortReleasesOrders(resolve(root.name, Some(root.version)).value);
        assert Wants(req, addDependencies, find, resolve, root, rels);
      } else {
        AddSingle(libs, root, noOverwrite);
        assert Wants(req, addDependencies, find, resolve, root, [root]);
      }
    }
  }

  /** The names a successful add request reports as added and as skipped; a local library has
      no name. */
  ghost function Reports(libs: seq<Ref>, req: Request, addDependencies: bool, noOverwrite: bool,
                         find: Finder, resolve: Resolver): (seq<string>, seq<string>)
    requires Addition(libs, req, addDependencies, noOverwrite, find, resolve).Success?
  {
    match req
    case Local(_) => ([""], [])
    case Index(name, version) =>
      var rel := find(name, version).value;
      if addDependencies then
        var rels := SortReleases(resolve(rel.name, Some(rel.version)).value);
        (Reported(libs, rels, rel.name, noOverwrite, true), Reported(libs, rels, rel.name, noOverwrite, false))
      else if ReportedAdded(libs, rel, noOverwrite) then ([rel.name], []) else ([], [rel.name])
  }

  /** The project file of a sketch, as far as one profile's libraries go. A call works on a
      profile loaded from it and writes it back only when everything succeeded. */
  class ProjectFile {
    var entries: seq<Entry>

    method ProfileLibAdd(req: Request, addDependencies: bool, noOverwrite: bool, find: Finder, resolve: Resolver, base: Base)
      returns (r: Result<(seq<string>, seq<string>), AddError>)
      modifies this
      ensures match Addition(ReadAll(old(entries), base), req, addDependencies, noOverwrite, find, resolve)
        case Failure(e) => r == Failure(e) && entries == old(entries)
        case Success(libs) => r.Success? && entries == WriteAll(libs)
      ensures r.Success? ==> r.value == Reports(ReadAll(old(entries), base), req, addDependencies, noOverwrite, find, resolve)
    {
      ghost var libs := ReadAll(entries, base);
      var profile := new Profile.Load(ReadAll(entries, base));
      var added, skipped := [], [];
      match req {
        case Missing => return Failure(LibraryMissing);
        case Local(path) =>
          if path == "" {
            return Failure(InvalidPath);
          }
          var addedLib := new LibraryReference(Ref("", None, false, Some(path)));
          profile.libraries := profile.libraries + [addedLib];
          added := [""];
          assert profile.View() == libs + [addedLib.View()];
        case Index(name, version) =>
          match find(name, version) {
            case None => return Failure(ReleaseNotFound);
            case Some(rel) =>
              if addDependencies {
                match resolve(rel.name, Some(rel.version)) {
                  case None => return Failure(DependenciesNotResolved);
                  case Some(rels) =>
                    added, skipped := AddResolved(profile, SortReleases(rels), rel.name, noOverwrite);
                }
              } else {
                var isAdded := profile.Add(rel, false, noOverwrite);
                if isAdded { added := [rel.name]; } else { skipped := [rel.name]; }
              }
          }
      }
      entries := WriteAll(profile.View());
      r := Success((added, skipped));
    }

    /** Removes a library, and with it the dependencies nothing else needs. On an error the
        file is not written. The removed entries and the remaining ones are the original ones. */
    method ProfileLibRemove(lib: Ref, removeDependencies: bool, resolve: Resolver, base: Base)
      returns (r: Result<seq<Ref>, RemoveError>)
      modifies this
      ensures match Removal(ReadAll(old(entries), base), lib, removeDependencies, resolve)
        case Failure(e) => r == Failure(e) && entries == old(entries)
        case Success(libs) =>
          && r.Success? && entries == WriteAll(libs)
          && multiset(ReadAll(old(entries), base)) == multiset(libs) + multiset(r.value)
    {
      var profile := new Profile.Load(ReadAll(entries, base));
      r := RemoveFrom(profile, lib, removeDependencies, resolve);
      if r.Success? {
        entries := WriteAll(profile.View());
      }
    }
  }

  /** The removal from a loaded profile. */
  method RemoveFrom(profile: Profile, lib: Ref, removeDependencies: bool, resolve: Resolver) returns (r: Result<seq<Ref>, RemoveError>)
    requires profile.Valid()
    modifies profile
    ensures match Removal(old(profile.View()), lib, removeDependencies, resolve)
      case Failure(e) => r == Failure(e)
      case Success(libs) => r.Success? && profile.View() == libs && multiset(old(profile.View())) == multiset(libs) + multiset(r.value)
  {
    var removedLib := profile.RemoveLibrary(lib);
    if removedLib.None? {
      return Failure(LibraryNotFound);
    }
    var removed := [removedLib.value];
    if removeDependencies {
      if lib.installDir.Some? {
        return Failure(OnlyIndexLibraries);
      }
      var requiredDeps := CollectRequired(profile, resolve);
      if requiredDeps.None? {
        return Failure(CannotResolve);
      }
      match resolve(lib.library, lib.version) {
        case None => return Failure(CannotResolve);
        case Some(cands) =>
          var more := RemoveUnneeded(profile, SortReleases(cands), requiredDeps.value);
          removed := removed + more;
      }
    }
    r := Success(removed);
  }
}
