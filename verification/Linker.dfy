/** When the command line would be too long, the linker collects the object files into one
    archive per directory and links the archives instead. */
module Linker {
  import opened Lists
  import opened Strings

  /** A path, split at its last separator. */
  datatype Path = Path(dir: string, name: string)

  function Text(p: Path): string { p.dir + "/" + p.name }

  predicate IsArchive(p: Path) {
    |p.name| >= 2 && p.name[|p.name| - 2..] == ".a"
  }

  predicate IsObject(p: Path) { !IsArchive(p) }

  function InDirectory(dir: string): Path -> bool { (p: Path) => p.dir == dir }

  function ArchiveFor(file: Path): Path { Path(file.dir, "objs.a") }

  datatype Archive = Archive(path: Path, members: seq<Path>)

  /** What is handed to the linker: the files themselves, or archives, with the contents of the
      newly made ones. */
  datatype Plan = Direct(files: seq<Path>) | Archived(existing: seq<Path>, made: seq<Archive>)

  /** Length of the list of quoted file names separated by spaces. */
  function CommandLength(files: seq<Path>): nat {
    if files == [] then 0
    else CommandLength(files[..|files| - 1]) + |Text(files[|files| - 1])| + 2 + if |files| > 1 then 1 else 0
  }

  const LIMIT := 30000

  function Directories(files: seq<Path>): set<string> {
    set f | f in files :: f.dir
  }

  /** PathList.Filter */
  method FilterList(files: seq<Path>, keep: Path -> bool) returns (r: seq<Path>)
    ensures r == Filter(files, keep)
  {
    r := [];
    for i := 0 to |files|
      invariant r == Filter(files[..i], keep)
    {
      assert files[..i + 1][..i] == files[..i];
      if keep(files[i]) { r := r + [files[i]]; }
    }
    assert files[..|files|] == files;
  }

  /** Every archive holds exactly the objects of its directory, in order; there is one for each
      directory of an object and no other. */
  ghost predicate Grouped(objects: seq<Path>, made: seq<Archive>) {
    && (forall i :: 0 <= i < |made| ==>
          made[i].path.name == "objs.a" && made[i].members == Filter(objects, InDirectory(made[i].path.dir)))
    && (forall i, j :: 0 <= i < j < |made| ==> made[i].path.dir != made[j].path.dir)
    && (forall d :: d in Directories(objects) <==> exists i :: 0 <= i < |made| && made[i].path.dir == d)
  }

  /** The list of quoted file names as it is written on the command line. */
  ghost function CommandLine(files: seq<Path>): string {
    Join(seq(|files|, i requires 0 <= i < |files| => "\"" + files[i].dir + "/" + files[i].name + "\""), ' ')
  }

  lemma {:induction false} CommandLengthIs(files: seq<Path>)
    ensures CommandLength(files) == |CommandLine(files)|
  {
    if files != [] {
      var n := |files| - 1;
      CommandLengthIs(files[..n]);
      var texts := seq(|files|, i requires 0 <= i < |files| => "\"" + files[i].dir + "/" + files[i].name + "\"");
      var before := seq(n, i requires 0 <= i < n => "\"" + files[..n][i].dir + "/" + files[..n][i].name + "\"");
      assert texts == before + [texts[n]];
      JoinSnoc(before, texts[n], ' ');
    }
  }

  /** The name of an archive ends in ".a". */
  ghost predicate EndsInA(name: string) {
    exists stem :: name == stem + ".a"
  }

  lemma IsArchiveIff(p: Path)
    ensures IsArchive(p) <==> EndsInA(p.name)
    ensures IsObject(p) <==> !EndsInA(p.name)
  {
    if IsArchive(p) { assert p.name == p.name[..|p.name| - 2] + ".a"; }
  }

  /** The files whose names end in ".a", or the others, in their order and as often as listed. */
  ghost predicate Selected(files: seq<Path>, archives: bool, r: seq<Path>) {
    && (forall f :: multiset(r)[f] == if EndsInA(f.name) == archives then multiset(files)[f] else 0)
    && InOrderOf(r, files)
  }

  ghost predicate InOrderOf(r: seq<Path>, files: seq<Path>) {
    r == [] || (files != [] && ((r[|r| - 1] == files[|files| - 1] && InOrderOf(r[..|r| - 1], files[..|files| - 1]))
                                || InOrderOf(r, files[..|files| - 1])))
  }

  lemma {:induction false} FilterInOrder(files: seq<Path>, keep: Path -> bool)
    ensures InOrderOf(Filter(files, keep), files)
  {
    if files != [] {
      var last, rest := files[|files| - 1], Filter(files[..|files| - 1], keep);
      FilterInOrder(files[..|files| - 1], keep);
      if keep(last) {
        assert (rest + [last])[..|rest|] == rest;
      } else {
        assert rest + [] == rest;
      }
    }
  }

  lemma FilterSelects(files: seq<Path>)
    ensures Selected(files, true, Filter(files, IsArchive)) && Selected(files, false, Filter(files, IsObject))
  {
    FilterInOrder(files, IsArchive);
    FilterInOrder(files, IsObject);
    forall f ensures multiset(Filter(files, IsArchive))[f] == (if EndsInA(f.name) then multiset(files)[f] else 0)
      && multiset(Filter(files, IsObject))[f] == if EndsInA(f.name) then 0 else multiset(files)[f]
    {
      IsArchiveIff(f);
      FilterCount(files, IsArchive, f);
      FilterCount(files, IsObject, f);
    }
  }

  method Link(objectFiles: seq<Path>) returns (r: Plan)
    ensures r.Direct? <==> |CommandLine(objectFiles)| <= 30000
    ensures r.Direct? ==> r.files == objectFiles
    ensures r.Archived? ==>
      r.existing == Filter(objectFiles, IsArchive) && Grouped(Filter(objectFiles, IsObject), r.made)
    // the archives passed through are those whose names end in ".a"
    ensures r.Archived? ==> Selected(objectFiles, true, r.existing)
  {
    CommandLengthIs(objectFiles);
    FilterSelects(objectFiles);
    if CommandLength(objectFiles) <= LIMIT {
      return Direct(objectFiles);
    }
    var existingArchives := FilterList(objectFiles, IsArchive);
    var objects := FilterList(objectFiles, IsObject);
    var made := MakeArchives(objects);
    r := Archived(existingArchives, made);
  }

  method MakeArchives(objects: seq<Path>) returns (made: seq<Archive>)
    ensures Grouped(objects, made)
  {
    var newArchives := NewArchives(objects);
    made := [];
    for i := 0 to |newArchives|
      invariant |made| == i
      invariant forall j :: 0 <= j < i ==> made[j] == Archive(newArchives[j], Filter(objects, InDirectory(newArchives[j].dir)))
    {
      var relatedObjectFiles := FilterList(objects, InDirectory(newArchives[i].dir));
      made := made + [Archive(newArchives[i], relatedObjectFiles)];
    }
    forall d | d in Directories(objects) ensures exists i :: 0 <= i < |made| && made[i].path.dir == d {
      var i :| 0 <= i < |newArchives| && newArchives[i].dir == d;
      assert made[i].path.dir == d;
    }
    forall i | 0 <= i < |made| ensures made[i].path.dir in Directories(objects) {
      assert newArchives[i].dir in Directories(objects);
    }
  }

  /** One archive path per directory, in order of first appearance. */
  method NewArchives(objects: seq<Path>) returns (r: seq<Path>)
    ensures forall i :: 0 <= i < |r| ==> r[i].name == "objs.a" && r[i].dir in Directories(objects)
    ensures forall i, j :: 0 <= i < j < |r| ==> r[i].dir != r[j].dir
    ensures forall d :: d in Directories(objects) ==> exists i :: 0 <= i < |r| && r[i].dir == d
  {
    r := [];
    for i := 0 to |objects|
      invariant forall j :: 0 <= j < |r| ==> r[j].name == "objs.a" && r[j].dir in Directories(objects)
      invariant forall j, k :: 0 <= j < k < |r| ==> r[j].dir != r[k].dir
      invariant forall j :: 0 <= j < i ==> ArchiveFor(objects[j]) in r
    {
      var archive := ArchiveFor(objects[i]);
      if archive !in r {
        r := r + [archive];
      }
    }
    forall d | d in Directories(objects) ensures exists i :: 0 <= i < |r| && r[i].dir == d {
      var j :| 0 <= j < |objects| && objects[j].dir == d;
      assert ArchiveFor(objects[j]) in r;
      var i :| 0 <= i < |r| && r[i] == ArchiveFor(objects[j]);
    }
  }

  // ----- nothing is lost, duplicated or overwritten

  /** How often a file is linked through the archives. */
  ghost function Linked(made: seq<Archive>, f: Path): nat {
    if made == [] then 0 else Linked(made[..|made| - 1], f) + multiset(made[|made| - 1].members)[f]
  }

  ghost predicate HasArchive(made: seq<Archive>, n: nat, dir: string)
    requires n <= |made|
  {
    exists i :: 0 <= i < n && made[i].path.dir == dir
  }

  lemma {:induction false} LinkedOnce(objects: seq<Path>, made: seq<Archive>, f: Path, n: nat)
    requires Grouped(objects, made) && n <= |made|
    ensures Linked(made[..n], f) == if HasArchive(made, n, f.dir) then multiset(objects)[f] else 0
  {
    if n > 0 {
      LinkedOnce(objects, made, f, n - 1);
      assert made[..n][..n - 1] == made[..n - 1];
      MembersOf(objects, made, f, n - 1);
      assert HasArchive(made, n, f.dir) <==> HasArchive(made, n - 1, f.dir) || made[n - 1].path.dir == f.dir;
    }
  }

  lemma MembersOf(objects: seq<Path>, made: seq<Archive>, f: Path, i: nat)
    requires Grouped(objects, made) && i < |made|
    ensures multiset(made[i].members)[f] == if made[i].path.dir == f.dir then multiset(objects)[f] else 0
    ensures made[i].path.dir == f.dir ==> !HasArchive(made, i, f.dir)
  {
    FilterCount(objects, InDirectory(made[i].path.dir), f);
  }

  /** Regrouping preserves the link set: every file is linked as often as it was listed, either
      as an archive passed through or as a member of the one archive of its directory. */
  lemma LinkSetPreserved(objectFiles: seq<Path>, made: seq<Archive>, f: Path)
    requires Grouped(Filter(objectFiles, IsObject), made)
    ensures multiset(Filter(objectFiles, IsArchive))[f] + Linked(made, f) == multiset(objectFiles)[f]
  {
    var objects := Filter(objectFiles, IsObject);
    FilterCount(objectFiles, IsArchive, f);
    FilterCount(objectFiles, IsObject, f);
    LinkedOnce(objects, made, f, |made|);
    assert made[..|made|] == made;
    if f in multiset(objects) {
      assert f in objects;
      assert f.dir in Directories(objects);
    }
  }

  /** File names inside an archive are distinct, so no member overwrites another. */
  lemma MembersDistinct(objects: seq<Path>, made: seq<Archive>, k: nat, i: nat, j: nat)
    requires Grouped(objects, made) && k < |made|
    requires forall a, b :: 0 <= a < b < |objects| ==> objects[a] != objects[b]
    requires i < j < |made[k].members|
    ensures made[k].members[i].name != made[k].members[j].name
  {
    var keep := InDirectory(made[k].path.dir);
    var m := made[k].members;
    FilterDistinct(objects, keep);
    FilterCount(objects, keep, m[i]);
    FilterCount(objects, keep, m[j]);
    assert m[i] in multiset(m) && m[j] in multiset(m);
    assert m[i].dir == m[j].dir;
    assert m[i] != m[j];
  }
}
