/** The parallel compile pool of Builder.compileFiles: one feeder, an unbuffered queue and a
    fixed number of workers appending to two mutex-guarded lists. The goroutines are an
    interleaving step relation; each step is one atomic action of one goroutine. */
module CompilePool {
  import opened Lists

  /** What compileFileWithRecipe answers for one source. */
  datatype Outcome = Object(path: string) | Failed(error: string)

  /** The fixed part of a call: the source list, the number of spawned workers, and the
      compiler as a function of the source. */
  datatype Build = Build(sources: seq<string>, workers: nat, compile: string -> Outcome)

  /** `Checking` is about to test errorsList, `Handing` is blocked on `queue <- source`,
      `Closed` has left the loop and closed the queue. */
  datatype Feeder = Checking | Handing | Closed

  datatype Worker = Idle | Busy(job: nat) | Exited

  /** `next` sources have been handed over. The two lists record, in order of arrival, the
      index of the source behind every entry of objectFiles and errorsList. */
  datatype State = State(feeder: Feeder, next: nat, workers: seq<Worker>, compiled: seq<nat>, failed: seq<nat>)

  datatype Result = Files(files: seq<string>) | Error(error: string)

  /** b.jobs == 0 means one worker per CPU; a negative count spawns none. */
  function WorkerCount(jobs: int, cpus: nat): nat {
    if jobs == 0 then cpus else if jobs < 0 then 0 else jobs
  }

  function Init(b: Build): State {
    State(Checking, 0, seq(b.workers, _ => Idle), [], [])
  }

  // ----- the steps

  datatype Action = Check | Hand(w: nat) | Finish(w: nat) | Exit(w: nat)

  ghost predicate Enabled(b: Build, s: State, a: Action) {
    match a
    case Check => s.feeder == Checking
    case Hand(w) => s.feeder == Handing && s.next < |b.sources| && w < |s.workers| && s.workers[w] == Idle
    case Finish(w) => w < |s.workers| && s.workers[w].Busy? && s.workers[w].job < |b.sources|
    case Exit(w) => s.feeder == Closed && w < |s.workers| && s.workers[w] == Idle
  }

  ghost function Do(b: Build, s: State, a: Action): State
    requires Enabled(b, s, a)
  {
    match a
    case Check => s.(feeder := if s.next == |b.sources| || s.failed != [] then Closed else Handing)
    case Hand(w) => s.(feeder := Checking, next := s.next + 1, workers := s.workers[w := Busy(s.next)])
    case Finish(w) =>
      var job := s.workers[w].job;
      var t := s.(workers := s.workers[w := Idle]);
      if b.compile(b.sources[job]).Object? then t.(compiled := s.compiled + [job]) else t.(failed := s.failed + [job])
    case Exit(w) => s.(workers := s.workers[w := Exited])
  }

  ghost predicate Step(b: Build, s: State, t: State) {
    exists a :: Enabled(b, s, a) && Do(b, s, a) == t
  }

  /** wg.Wait returns: the queue is closed and every worker has left its loop. */
  predicate Done(s: State) {
    s.feeder == Closed && forall w :: 0 <= w < |s.workers| ==> s.workers[w] == Exited
  }

  ghost predicate Run(b: Build, tr: seq<State>) {
    && tr != [] && tr[0] == Init(b)
    && forall i :: 0 <= i < |tr| - 1 ==> Step(b, tr[i], tr[i + 1])
  }

  function ObjectOf(b: Build, job: nat): string {
    if job < |b.sources| && b.compile(b.sources[job]).Object? then b.compile(b.sources[job]).path else ""
  }

  function Objects(b: Build, jobs: seq<nat>): seq<string> {
    Map(job => ObjectOf(b, job), jobs)
  }

  function ErrorOf(b: Build, job: nat): string {
    if job < |b.sources| && b.compile(b.sources[job]).Failed? then b.compile(b.sources[job]).error else ""
  }

  /** What compileFiles returns once the workers are gone: the first recorded error, or the
      sorted object list. */
  function Answer(b: Build, compiled: seq<nat>, failed: seq<nat>): Result {
    if failed != [] then Error(ErrorOf(b, failed[0])) else Files(Sort(Objects(b, compiled), StringLe))
  }

  // ----- conservation: every handed source is in exactly one place

  ghost function InFlight(ws: seq<Worker>, job: nat): nat {
    if ws == [] then 0 else InFlight(ws[1..], job) + Holds(ws[0], job)
  }

  ghost function Holds(w: Worker, job: nat): nat {
    if w == Busy(job) then 1 else 0
  }

  /** In how many places a source is. */
  ghost function Places(s: State, job: nat): nat {
    InFlight(s.workers, job) + multiset(s.compiled)[job] + multiset(s.failed)[job]
  }

  ghost predicate Conserved(s: State) {
    forall j: nat :: Places(s, j) == if j < s.next then 1 else 0
  }

  ghost predicate Sane(b: Build, s: State) {
    && |s.workers| == b.workers
    && s.next <= |b.sources|
    && (forall j :: j in s.compiled ==> j < |b.sources| && b.compile(b.sources[j]).Object?)
    && (forall j :: j in s.failed ==> j < |b.sources| && b.compile(b.sources[j]).Failed?)
    && (s.feeder == Handing ==> s.next < |b.sources|)
    && (s.feeder == Closed ==> s.next == |b.sources| || s.failed != [])
    && (s.feeder != Closed ==> forall w :: 0 <= w < |s.workers| ==> s.workers[w] != Exited)
  }

  ghost predicate Inv(b: Build, s: State) {
    Sane(b, s) && Conserved(s)
  }

  lemma {:induction false} InFlightSet(ws: seq<Worker>, w: nat, x: Worker, job: nat)
    requires w < |ws|
    ensures InFlight(ws[w := x], job) + Holds(ws[w], job) == InFlight(ws, job) + Holds(x, job)
  {
    if w == 0 {
      assert ws[w := x][1..] == ws[1..];
    } else {
      InFlightSet(ws[1..], w - 1, x, job);
      assert ws[w := x][1..] == ws[1..][w - 1 := x];
    }
  }

  lemma {:induction false} NoneInFlight(ws: seq<Worker>, job: nat)
    requires forall w :: 0 <= w < |ws| ==> ws[w] != Busy(job)
    ensures InFlight(ws, job) == 0
  {
    if ws != [] { NoneInFlight(ws[1..], job); }
  }

  lemma InitInv(b: Build)
    ensures Inv(b, Init(b))
  {
    forall j: nat ensures Places(Init(b), j) == 0 { NoneInFlight(Init(b).workers, j); }
  }

  /** A job in flight is one that was handed over. */
  lemma BusyJob(b: Build, s: State, w: nat)
    requires Inv(b, s) && w < |s.workers| && s.workers[w].Busy?
    ensures s.workers[w].job < s.next
  {
    InFlightSet(s.workers, w, Idle, s.workers[w].job);
    assert Places(s, s.workers[w].job) > 0;
  }

  lemma StepPlaces(b: Build, s: State, a: Action, j: nat)
    requires Inv(b, s) && Enabled(b, s, a)
    ensures Places(Do(b, s, a), j) == if j < Do(b, s, a).next then 1 else 0
  {
    assert Places(s, j) == if j < s.next then 1 else 0;
    if a.Finish? {
      FinishPlaces(b, s, a.w, j);
    } else if !a.Check? {
      InFlightSet(s.workers, a.w, Do(b, s, a).workers[a.w], j);
    }
  }

  /** A finished job moves from the worker to one of the two lists. */
  lemma FinishPlaces(b: Build, s: State, w: nat, j: nat)
    requires Enabled(b, s, Finish(w))
    ensures Places(Do(b, s, Finish(w)), j) == Places(s, j)
  {
    var t, job := Do(b, s, Finish(w)), s.workers[w].job;
    InFlightSet(s.workers, w, Idle, j);
    if b.compile(b.sources[job]).Object? {
      CountSnoc(s.compiled, job, j);
      assert t.compiled == s.compiled + [job] && t.failed == s.failed;
    } else {
      CountSnoc(s.failed, job, j);
      assert t.failed == s.failed + [job] && t.compiled == s.compiled;
    }
  }

  lemma StepInv(b: Build, s: State, a: Action)
    requires Inv(b, s) && Enabled(b, s, a)
    ensures Inv(b, Do(b, s, a))
  {
    forall j: nat ensures Places(Do(b, s, a), j) == if j < Do(b, s, a).next then 1 else 0 {
      StepPlaces(b, s, a, j);
    }
  }

  lemma {:induction false} RunInv(b: Build, tr: seq<State>, i: nat)
    requires Run(b, tr) && i < |tr|
    ensures Inv(b, tr[i])
  {
    if i == 0 {
      InitInv(b);
    } else {
      RunInv(b, tr, i - 1);
      assert Step(b, tr[i - 1], tr[i - 1 + 1]);
      var a :| Enabled(b, tr[i - 1], a) && Do(b, tr[i - 1], a) == tr[i];
      StepInv(b, tr[i - 1], a);
    }
  }

  /** Conservation over every schedule: in every state of every run, each source handed over
      is in exactly one of in-flight, compiled and failed, once, and no other source is. */
  lemma Conservation(b: Build, tr: seq<State>, i: nat, j: nat)
    requires Run(b, tr) && i < |tr|
    ensures InFlight(tr[i].workers, j) + multiset(tr[i].compiled)[j] + multiset(tr[i].failed)[j]
         == if j < tr[i].next then 1 else 0
  {
    RunInv(b, tr, i);
    assert Places(tr[i], j) == if j < tr[i].next then 1 else 0;
  }

  /** After an error has been recorded at most one more source is handed over, and none when
      the feeder is not already blocked on the queue. */
  lemma {:induction false} AtMostOneAfterError(b: Build, tr: seq<State>, i: nat, j: nat)
    requires Run(b, tr) && i <= j < |tr|
    requires tr[i].failed != []
    ensures tr[j].failed != []
    ensures tr[j].next + (if tr[j].feeder == Handing then 1 else 0)
         <= tr[i].next + (if tr[i].feeder == Handing then 1 else 0)
  {
    if i < j {
      AtMostOneAfterError(b, tr, i, j - 1);
      assert Step(b, tr[j - 1], tr[j - 1 + 1]);
    }
  }

  // ----- the result does not depend on the schedule

  ghost predicate AllCompile(b: Build) {
    forall i :: 0 <= i < |b.sources| ==> b.compile(b.sources[i]).Object?
  }

  function Indices(n: nat): (r: seq<nat>) {
    seq(n, i => i)
  }

  lemma {:induction false} IndicesCount(n: nat, j: nat)
    ensures multiset(Indices(n))[j] == if j < n then 1 else 0
  {
    if n > 0 {
      IndicesCount(n - 1, j);
      assert Indices(n) == Indices(n - 1) + [n - 1];
    }
  }

  /** The sources that compile to this object file. */
  ghost function Makers(b: Build, n: nat, path: string): set<nat> {
    set i: nat | i < n && i < |b.sources| && b.compile(b.sources[i]) == Object(path)
  }

  /** One object file for each source, as the compiler made it, in dictionary order. */
  ghost predicate ObjectsOfAll(b: Build, files: seq<string>) {
    && |files| == |b.sources|
    && (forall path :: multiset(files)[path] == |Makers(b, |b.sources|, path)|)
    && Ascending(files)
  }

  lemma ObjectsSnoc(b: Build, jobs: seq<nat>, job: nat)
    ensures Objects(b, jobs + [job]) == Objects(b, jobs) + [ObjectOf(b, job)]
  {
    MapConcat((j: nat) => ObjectOf(b, j), jobs, [job]);
    assert [job][1..] == [];
  }

  lemma {:induction false} MakersCount(b: Build, n: nat, path: string)
    requires AllCompile(b) && n <= |b.sources|
    ensures multiset(Objects(b, Indices(n)))[path] == |Makers(b, n, path)|
  {
    if n == 0 {
      assert Makers(b, 0, path) == {};
    } else {
      MakersCount(b, n - 1, path);
      assert Indices(n) == Indices(n - 1) + [n - 1];
      ObjectsSnoc(b, Indices(n - 1), n - 1);
      CountSnoc(Objects(b, Indices(n - 1)), ObjectOf(b, n - 1), path);
      MakersSnoc(b, n, path);
    }
  }

  lemma MakersSnoc(b: Build, n: nat, path: string)
    requires 0 < n <= |b.sources|
    ensures |Makers(b, n, path)| == |Makers(b, n - 1, path)| + if b.compile(b.sources[n - 1]) == Object(path) then 1 else 0
  {
    assert Makers(b, n, path)
      == Makers(b, n - 1, path) + if b.compile(b.sources[n - 1]) == Object(path) then {n - 1} else {};
  }

  lemma ObjectsAreSorted(b: Build, jobs: seq<nat>)
    requires AllCompile(b) && multiset(jobs) == multiset(Indices(|b.sources|))
    ensures ObjectsOfAll(b, Sort(Objects(b, jobs), StringLe))
  {
    var files := Sort(Objects(b, jobs), StringLe);
    StringLeTotal();
    SortSorts(Objects(b, jobs), StringLe);
    SortedAscends(files);
    MapPermutes(job => ObjectOf(b, job), jobs, Indices(|b.sources|));
    forall path ensures multiset(files)[path] == |Makers(b, |b.sources|, path)| {
      MakersCount(b, |b.sources|, path);
    }
    assert |files| == |multiset(files)| == |multiset(Objects(b, Indices(|b.sources|)))| == |b.sources|;
  }

  /** The list of objects is fixed by the sources. */
  lemma ObjectsDetermined(b: Build, files: seq<string>, files': seq<string>)
    requires ObjectsOfAll(b, files) && ObjectsOfAll(b, files')
    ensures files == files'
  {
    assert multiset(files) == multiset(files') by {
      forall path ensures multiset(files)[path] == multiset(files')[path] {}
    }
    StringLeTotal();
    SortedAscends(files);
    SortedAscends(files');
    SortedUnique(files, files', StringLe);
  }

  /** The specification of the whole call: it succeeds exactly when every source compiles, and
      then returns one object file per source, in order; otherwise it returns the error of one
      of the sources. */
  ghost predicate Correct(b: Build, r: Result) {
    && (r.Files? <==> AllCompile(b))
    && (AllCompile(b) ==> ObjectsOfAll(b, r.files))
    && (!AllCompile(b) ==> FailsWith(b, |b.sources|, r.error))
  }

  /** One of the first `n` sources fails with this error. */
  ghost predicate FailsWith(b: Build, n: nat, error: string) {
    exists i :: 0 <= i < n && i < |b.sources| && b.compile(b.sources[i]) == Failed(error)
  }

  /** With `handed` sources handed over, success means all of them were, and an error is the error
      of one that was. */
  ghost predicate FromHanded(b: Build, handed: nat, r: Result) {
    match r
    case Files(_) => handed == |b.sources|
    case Error(error) => FailsWith(b, handed, error)
  }

  lemma DoneCount(b: Build, s: State, j: nat)
    requires Inv(b, s) && Done(s)
    ensures multiset(s.compiled)[j] + multiset(s.failed)[j] == if j < s.next then 1 else 0
  {
    NoneInFlight(s.workers, j);
    assert Places(s, j) == if j < s.next then 1 else 0;
  }

  lemma DoneIsCorrect(b: Build, s: State)
    requires Inv(b, s) && Done(s)
    ensures Correct(b, Answer(b, s.compiled, s.failed)) && FromHanded(b, s.next, Answer(b, s.compiled, s.failed))
  {
    if s.failed == [] {
      var n := |b.sources|;
      forall j: nat ensures multiset(s.compiled)[j] == multiset(Indices(n))[j] {
        DoneCount(b, s, j);
        IndicesCount(n, j);
      }
      forall i | 0 <= i < n ensures b.compile(b.sources[i]).Object? {
        DoneCount(b, s, i);
        assert i in multiset(s.compiled);
      }
      assert multiset(s.compiled) == multiset(Indices(n));
      ObjectsAreSorted(b, s.compiled);
    } else {
      var j := s.failed[0];
      assert j in s.failed && j in multiset(s.failed);
      DoneCount(b, s, j);
    }
  }

  /** Any two completed schedules agree on success, and on the files when they succeed. */
  lemma ScheduleIndependent(b: Build, x: seq<State>, y: seq<State>)
    requires Run(b, x) && Done(x[|x| - 1]) && Run(b, y) && Done(y[|y| - 1])
    ensures Inv(b, x[|x| - 1]) && Inv(b, y[|y| - 1])
    ensures var rx, ry := Answer(b, x[|x| - 1].compiled, x[|x| - 1].failed), Answer(b, y[|y| - 1].compiled, y[|y| - 1].failed);
      (rx.Files? || ry.Files?) ==> rx == ry
  {
    RunInv(b, x, |x| - 1);
    RunInv(b, y, |y| - 1);
    DoneIsCorrect(b, x[|x| - 1]);
    DoneIsCorrect(b, y[|y| - 1]);
    var rx, ry := Answer(b, x[|x| - 1].compiled, x[|x| - 1].failed), Answer(b, y[|y| - 1].compiled, y[|y| - 1].failed);
    if rx.Files? { ObjectsDetermined(b, rx.files, ry.files); }
  }

  // ----- progress

  ghost function Weight(ws: seq<Worker>): nat {
    if ws == [] then 0 else WorkerWeight(ws[0]) + Weight(ws[1..])
  }

  ghost function WorkerWeight(w: Worker): nat {
    match w case Busy(_) => 2 case Idle => 1 case Exited => 0
  }

  /** Strictly decreasing in every step: sources not yet handed, jobs in flight, live workers. */
  ghost function Measure(b: Build, s: State): nat
    requires Inv(b, s)
  {
    4 * (|b.sources| - s.next) + (match s.feeder case Checking => 2 case Handing => 1 case Closed => 0) + Weight(s.workers)
  }

  lemma {:induction false} WeightSet(ws: seq<Worker>, w: nat, x: Worker)
    requires w < |ws|
    ensures Weight(ws[w := x]) + WorkerWeight(ws[w]) == Weight(ws) + WorkerWeight(x)
  {
    if w == 0 {
      assert ws[w := x][1..] == ws[1..];
    } else {
      WeightSet(ws[1..], w - 1, x);
      assert ws[w := x][1..] == ws[1..][w - 1 := x];
    }
  }

  lemma StepDecreases(b: Build, s: State, a: Action)
    requires Inv(b, s) && Enabled(b, s, a)
    ensures Inv(b, Do(b, s, a)) && Measure(b, Do(b, s, a)) < Measure(b, s)
  {
    StepInv(b, s, a);
    if !a.Check? {
      WeightSet(s.workers, a.w, Do(b, s, a).workers[a.w]);
    }
  }

  /** No schedule is longer than the measure of the first state. */
  lemma {:induction false} RunsAreBounded(b: Build, tr: seq<State>, i: nat)
    requires Run(b, tr) && i < |tr|
    ensures Inv(b, Init(b)) && Inv(b, tr[i])
    ensures i + Measure(b, tr[i]) <= Measure(b, Init(b))
  {
    InitInv(b);
    if i > 0 {
      RunsAreBounded(b, tr, i - 1);
      assert Step(b, tr[i - 1], tr[i - 1 + 1]);
      var a :| Enabled(b, tr[i - 1], a) && Do(b, tr[i - 1], a) == tr[i];
      StepDecreases(b, tr[i - 1], a);
    }
  }

  ghost predicate Stuck(b: Build, s: State) {
    !Done(s) && forall t :: !Step(b, s, t)
  }

  lemma Progress(b: Build, s: State) returns (a: Action)
    requires Inv(b, s) && b.workers > 0 && !Done(s)
    ensures Enabled(b, s, a)
  {
    match s.feeder {
      case Checking => a := Check;
      case Handing => a := if s.workers[0] == Idle then Hand(0) else Finish(0);
      case Closed =>
        var w :| 0 <= w < |s.workers| && s.workers[w] != Exited;
        a := if s.workers[w] == Idle then Exit(w) else Finish(w);
    }
    if a.Finish? { BusyJob(b, s, a.w); }
  }

  /** The pool can deadlock exactly when there is work and no worker (a negative job count). */
  lemma DeadlockIff(b: Build)
    requires b.sources != []
    ensures (exists tr :: Run(b, tr) && Stuck(b, tr[|tr| - 1])) <==> b.workers == 0
  {
    if b.workers == 0 {
      var s := Init(b);
      var t := Do(b, s, Check);
      var tr := [s, t];
      assert Enabled(b, s, Check);
      assert Step(b, tr[0], tr[1]);
      assert Run(b, tr);
      assert Stuck(b, tr[|tr| - 1]);
    } else {
      forall tr | Run(b, tr) ensures !Stuck(b, tr[|tr| - 1]) {
        RunInv(b, tr, |tr| - 1);
        if !Done(tr[|tr| - 1]) {
          var a := Progress(b, tr[|tr| - 1]);
          assert Step(b, tr[|tr| - 1], Do(b, tr[|tr| - 1], a));
        }
      }
    }
  }

  /** In terms of the requested number of jobs: the pool can deadlock exactly when that is negative,
      or stands for the number of processors and there is none. */
  lemma DeadlockByJobs(sources: seq<string>, jobs: int, cpus: nat, compile: string -> Outcome)
    requires sources != []
    ensures var b := Build(sources, WorkerCount(jobs, cpus), compile);
      (exists tr :: Run(b, tr) && Stuck(b, tr[|tr| - 1])) <==> jobs < 0 || (jobs == 0 && cpus == 0)
  {
    DeadlockIff(Build(sources, WorkerCount(jobs, cpus), compile));
  }

  // ----- how many sources are compiled at a time

  ghost function BusyWorkers(s: State): set<nat> {
    set w: nat | w < |s.workers| && s.workers[w].Busy?
  }

  ghost predicate CanBeBusy(b: Build, n: nat) {
    exists tr :: Run(b, tr) && |BusyWorkers(tr[|tr| - 1])| == n
  }

  lemma {:induction false} UpTo(n: nat) returns (all: set<nat>)
    ensures |all| == n && forall w: nat :: w in all <==> w < n
  {
    if n == 0 {
      all := {};
    } else {
      var rest := UpTo(n - 1);
      all := rest + {n - 1};
    }
  }

  lemma AtMost(s: set<nat>, n: nat)
    requires forall w :: w in s ==> w < n
    ensures |s| <= n
  {
    var all := UpTo(n);
    assert s <= all;
    SubsetSize(s, all);
  }

  lemma {:induction false} SubsetSize(a: set<nat>, b: set<nat>)
    requires a <= b
    ensures |a| <= |b|
  {
    if x :| x in a { SubsetSize(a - {x}, b - {x}); }
  }

  /** The jobs of two busy workers differ. */
  lemma {:induction false} BusyApart(ws: seq<Worker>, v: nat, w: nat)
    requires v < w < |ws| && ws[v].Busy? && ws[v] == ws[w]
    ensures InFlight(ws, ws[v].job) >= 2
  {
    var job := ws[v].job;
    InFlightSet(ws, v, Idle, job);
    InFlightSet(ws[v := Idle], w, Idle, job);
  }

  lemma HeldOnce(s: State, job: nat)
    requires Conserved(s)
    ensures InFlight(s.workers, job) <= 1
  {
    assert Places(s, job) <= 1;
  }

  ghost function BusyUpTo(ws: seq<Worker>, n: nat): set<nat> {
    set w: nat | w < n && w < |ws| && ws[w].Busy?
  }

  ghost function JobsUpTo(ws: seq<Worker>, n: nat): set<nat> {
    set w: nat | w < n && w < |ws| && ws[w].Busy? :: ws[w].job
  }

  lemma UpToSnoc(ws: seq<Worker>, n: nat)
    requires n < |ws|
    ensures BusyUpTo(ws, n + 1) == BusyUpTo(ws, n) + if ws[n].Busy? then {n} else {}
    ensures JobsUpTo(ws, n + 1) == JobsUpTo(ws, n) + if ws[n].Busy? then {ws[n].job} else {}
  {}

  lemma NewJob(s: State, n: nat)
    requires Conserved(s) && n < |s.workers| && s.workers[n].Busy?
    ensures s.workers[n].job !in JobsUpTo(s.workers, n)
  {
    if s.workers[n].job in JobsUpTo(s.workers, n) {
      var w :| 0 <= w < n && s.workers[w].Busy? && s.workers[w].job == s.workers[n].job;
      BusyApart(s.workers, w, n);
      HeldOnce(s, s.workers[n].job);
      assert false;
    }
  }

  /** As many busy workers as jobs in flight. */
  lemma {:induction false} JobsOfBusy(s: State, n: nat)
    requires Conserved(s) && n <= |s.workers|
    ensures |BusyUpTo(s.workers, n)| == |JobsUpTo(s.workers, n)|
  {
    if n > 0 {
      JobsOfBusy(s, n - 1);
      UpToSnoc(s.workers, n - 1);
      if s.workers[n - 1].Busy? { NewJob(s, n - 1); }
    }
  }

  lemma BusyBound(b: Build, s: State)
    requires Inv(b, s)
    ensures |BusyWorkers(s)| <= b.workers && |BusyWorkers(s)| <= |b.sources|
  {
    AtMost(BusyWorkers(s), b.workers);
    var n := |s.workers|;
    assert BusyWorkers(s) == BusyUpTo(s.workers, n);
    JobsOfBusy(s, n);
    forall j | j in JobsUpTo(s.workers, n) ensures j < |b.sources| {
      var w :| 0 <= w < n && s.workers[w].Busy? && s.workers[w].job == j;
      BusyJob(b, s, w);
    }
    AtMost(JobsUpTo(s.workers, n), |b.sources|);
  }

  /** The first `n` sources handed to the first `n` workers, one after the other. */
  lemma {:induction false} HandOut(b: Build, n: nat) returns (tr: seq<State>)
    requires n <= b.workers && n <= |b.sources|
    ensures Run(b, tr)
    ensures var s := tr[|tr| - 1];
      && s.feeder == Checking && s.next == n && |s.workers| == b.workers && s.failed == []
      && (forall w :: 0 <= w < n ==> s.workers[w].Busy?) && forall w :: n <= w < b.workers ==> s.workers[w] == Idle
  {
    if n == 0 {
      tr := [Init(b)];
    } else {
      tr := HandOut(b, n - 1);
      var s := tr[|tr| - 1];
      var t := Do(b, s, Check);
      RunOneMore(b, tr, t);
      tr := tr + [t];
      assert Enabled(b, t, Hand(n - 1));
      RunOneMore(b, tr, Do(b, t, Hand(n - 1)));
      tr := tr + [Do(b, t, Hand(n - 1))];
    }
  }

  /** The pool can compile `n` sources at a time exactly when there are that many sources and
      workers. */
  lemma BusyIff(b: Build, n: nat)
    ensures CanBeBusy(b, n) <==> n <= b.workers && n <= |b.sources|
  {
    if n <= b.workers && n <= |b.sources| {
      var tr := HandOut(b, n);
      var all := UpTo(n);
      assert BusyWorkers(tr[|tr| - 1]) == all;
    }
    if CanBeBusy(b, n) {
      var tr :| Run(b, tr) && |BusyWorkers(tr[|tr| - 1])| == n;
      RunInv(b, tr, |tr| - 1);
      BusyBound(b, tr[|tr| - 1]);
    }
  }

  /** In terms of the requested number of jobs, zero standing for one job per processor. */
  lemma BusyByJobs(sources: seq<string>, jobs: int, cpus: nat, compile: string -> Outcome, n: nat)
    ensures CanBeBusy(Build(sources, WorkerCount(jobs, cpus), compile), n) <==>
      n <= |sources| && (n == 0 || (0 < n <= jobs) || (jobs == 0 && n <= cpus))
  {
    BusyIff(Build(sources, WorkerCount(jobs, cpus), compile), n);
  }

  // ----- one worker: the reported error is the one of the first failing source

  ghost predicate FirstFailureFirst(b: Build, s: State) {
    && (forall w :: 0 <= w < |s.workers| && s.workers[w].Busy? ==> s.workers[w].job == s.next - 1)
    && (s.failed != [] ==> forall k :: 0 <= k < |b.sources| && k < s.failed[0] ==> b.compile(b.sources[k]).Object?)
  }

  lemma AllBeforeCompiled(b: Build, s: State, k: nat)
    requires Inv(b, s) && |s.workers| == 1 && s.failed == []
    requires s.workers[0].Busy? && k < s.workers[0].job == s.next - 1
    ensures k in s.compiled
  {
    InFlightSet(s.workers, 0, Idle, k);
    assert Places(s, k) == 1;
    NoneInFlight(s.workers, k);
    assert k in multiset(s.compiled);
  }

  lemma StepFirstFailure(b: Build, s: State, a: Action)
    requires b.workers == 1 && Inv(b, s) && FirstFailureFirst(b, s) && Enabled(b, s, a)
    ensures FirstFailureFirst(b, Do(b, s, a))
  {
    if a.Finish? && s.failed == [] {
      forall k | 0 <= k < s.workers[0].job ensures b.compile(b.sources[k]).Object? {
        AllBeforeCompiled(b, s, k);
      }
    }
  }

  lemma {:induction false} RunFirstFailure(b: Build, tr: seq<State>, i: nat)
    requires b.workers == 1 && Run(b, tr) && i < |tr|
    ensures FirstFailureFirst(b, tr[i])
  {
    if i > 0 {
      RunInv(b, tr, i - 1);
      RunFirstFailure(b, tr, i - 1);
      assert Step(b, tr[i - 1], tr[i - 1 + 1]);
      var a :| Enabled(b, tr[i - 1], a) && Do(b, tr[i - 1], a) == tr[i];
      StepFirstFailure(b, tr[i - 1], a);
    }
  }

  /** With one worker the answer does not depend on the schedule at all: an error is the one of
      the first source that fails. */
  lemma SingleWorkerFirstError(b: Build, tr: seq<State>, first: nat)
    requires b.workers == 1 && Run(b, tr) && Done(tr[|tr| - 1])
    requires first < |b.sources| && b.compile(b.sources[first]).Failed?
    requires forall k :: 0 <= k < first ==> b.compile(b.sources[k]).Object?
    ensures Answer(b, tr[|tr| - 1].compiled, tr[|tr| - 1].failed) == Error(b.compile(b.sources[first]).error)
  {
    var s := tr[|tr| - 1];
    RunInv(b, tr, |tr| - 1);
    DoneIsCorrect(b, s);
    RunFirstFailure(b, tr, |tr| - 1);
    assert s.failed[0] in s.failed;
  }

  // ----- the call itself

  /** One goroutine that can move, chosen by the scheduler, takes one step. */
  method Schedule(b: Build, s: State) returns (t: State)
    requires Inv(b, s) && b.workers > 0 && !Done(s)
    ensures Inv(b, t) && Step(b, s, t) && Measure(b, t) < Measure(b, s)
  {
    ghost var can := Progress(b, s);
    ghost var act;
    if {
    case s.feeder == Checking =>
      act := Check;
      t := s.(feeder := if s.next == |b.sources| || s.failed != [] then Closed else Handing);
    case s.feeder == Handing && exists w :: 0 <= w < |s.workers| && s.workers[w] == Idle =>
      var w :| 0 <= w < |s.workers| && s.workers[w] == Idle;
      act := Hand(w);
      t := s.(workers := s.workers[w := Busy(s.next)], next := s.next + 1, feeder := Checking);
    case exists w :: 0 <= w < |s.workers| && s.workers[w].Busy? =>
      var w :| 0 <= w < |s.workers| && s.workers[w].Busy?;
      var job := s.workers[w].job;
      act := Finish(w);
      BusyJob(b, s, w);
      t := s.(workers := s.workers[w := Idle]);
      match b.compile(b.sources[job]) {
        case Object(_) => t := t.(compiled := t.compiled + [job]);
        case Failed(_) => t := t.(failed := t.failed + [job]);
      }
    case s.feeder == Closed && exists w :: 0 <= w < |s.workers| && s.workers[w] == Idle =>
      var w :| 0 <= w < |s.workers| && s.workers[w] == Idle;
      act := Exit(w);
      t := s.(workers := s.workers[w := Exited]);
    }
    assert t == Do(b, s, act);
    StepDecreases(b, s, act);
  }

  lemma RunOneMore(b: Build, tr: seq<State>, t: State)
    requires Run(b, tr) && Step(b, tr[|tr| - 1], t)
    ensures Run(b, tr + [t])
  {
    var u := tr + [t];
    forall i | 0 <= i < |u| - 1 ensures Step(b, u[i], u[i + 1]) {
      if i < |tr| - 1 { assert Step(b, tr[i], tr[i + 1]); }
    }
  }

  /** compileFiles under an arbitrary scheduler. It ends under every scheduler, with the answer
      of the run `tr` that was scheduled, and that answer is correct. Without sources it
      answers at once. */
  method CompileFiles(sources: seq<string>, jobs: int, cpus: nat, compile: string -> Outcome) returns (r: Result, ghost tr: seq<State>)
    requires sources == [] || WorkerCount(jobs, cpus) > 0
    ensures Correct(Build(sources, WorkerCount(jobs, cpus), compile), r)
    ensures sources != [] ==>
      var b := Build(sources, WorkerCount(jobs, cpus), compile);
      && Run(b, tr) && Done(tr[|tr| - 1])
      && r == Answer(b, tr[|tr| - 1].compiled, tr[|tr| - 1].failed)
      && FromHanded(b, tr[|tr| - 1].next, r)
  {
    var b := Build(sources, WorkerCount(jobs, cpus), compile);
    if sources == [] {
      assert ObjectsOfAll(b, []) by {
        forall path ensures Makers(b, 0, path) == {} {}
      }
      return Files([]), [];
    }
    var s := State(Checking, 0, seq(b.workers, _ => Idle), [], []);
    InitInv(b);
    assert s.workers == Init(b).workers;
    tr := [s];
    while !Done(s)
      invariant Inv(b, s) && Run(b, tr) && tr[|tr| - 1] == s
      decreases Measure(b, s)
    {
      var t := Schedule(b, s);
      RunOneMore(b, tr, t);
      s, tr := t, tr + [t];
    }
    DoneIsCorrect(b, s);
    r := Answer(b, s.compiled, s.failed);
  }
}
