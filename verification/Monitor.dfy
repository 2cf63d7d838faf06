/** The shutdown protocol of the port monitor: the main goroutine, the receiver (gRPC stream
    to monitor) and the sender (monitor to gRPC stream) share an atomic flag and two
    cancellation contexts. One action is one atomic step of one goroutine, or the client
    dropping the stream; what the stream and the port answer is arbitrary. */
module Monitor {

  newtype Byte = x: int | 0 <= x < 0x100

  type Bytes = seq<Byte>

  /** `Woken` has seen ctx.Done but not yet loaded the flag; `Returned(graceful)` records what
      the load gave. */
  datatype Main = Waiting | Woken | AwaitGraceful | Closing | Returned(graceful: bool)

  /** `GotClose` is about to store the flag, `InClose` is inside monitorClose, `AfterClose` is
      about to cancel the graceful-close context, `Leaving` is about to run the deferred
      cancel. */
  datatype Receiver = Receiving | GotClose | InClose | AfterClose | Writing(tx: Bytes) | Leaving | Gone

  datatype Sender = Reading | Sending(rx: Bytes) | Quitting | Finished

  datatype State = State(
    main: Main, receiver: Receiver, sender: Sender,
    closeInitiated: bool, ctxDone: bool, gracefulDone: bool,
    // observations: Close messages handled, monitorClose calls begun and completed, the flag
    // at the moment the context ended, and the bytes that went each way
    handled: nat, begun: nat, completed: nat, flagAtEnd: bool,
    received: Bytes, written: Bytes, read: Bytes, sent: Bytes)

  const INIT := State(Waiting, Receiving, Reading, false, false, false, 0, 0, 0, false, [], [], [], [])

  datatype Action =
    | Wake | Load | GracefulSeen | MainCloses
    | RecvClose | RecvTx(data: Bytes) | RecvConfig | RecvEnd
    | Store | ReceiverCloses | CancelGraceful
    | Write(n: nat) | WriteFails(n: nat) | ReceiverLeaves
    | Read(data: Bytes) | ReadEnd | SendOk | SendFails | SenderLeaves
    | StreamDropped

  ghost predicate Enabled(s: State, a: Action) {
    match a
    case Wake => s.main == Waiting && s.ctxDone
    case Load => s.main == Woken
    case GracefulSeen => s.main == AwaitGraceful && s.gracefulDone
    case MainCloses => s.main == Closing
    case RecvClose => s.receiver == Receiving
    case RecvTx(_) => s.receiver == Receiving
    case RecvConfig => s.receiver == Receiving
    case RecvEnd => s.receiver == Receiving
    case Store => s.receiver == GotClose
    case ReceiverCloses => s.receiver == InClose
    case CancelGraceful => s.receiver == AfterClose
    case Write(n) => s.receiver.Writing? && n <= |s.receiver.tx|
    case WriteFails(n) => s.receiver.Writing? && n <= |s.receiver.tx|
    case ReceiverLeaves => s.receiver == Leaving
    case Read(_) => s.sender == Reading
    case ReadEnd => s.sender == Reading
    case SendOk => s.sender.Sending?
    case SendFails => s.sender.Sending?
    case SenderLeaves => s.sender == Quitting
    case StreamDropped => true
  }

  /** `for len(tx) > 0 { ... }`, left when nothing remains. */
  function StillWriting(tx: Bytes): Receiver {
    if tx == [] then Receiving else Writing(tx)
  }

  function EndContext(s: State): State {
    if s.ctxDone then s else s.(ctxDone := true, flagAtEnd := s.closeInitiated)
  }

  ghost function Do(s: State, a: Action): State
    requires Enabled(s, a)
  {
    match a
    case Wake => s.(main := Woken)
    case Load => if s.closeInitiated then s.(main := AwaitGraceful) else s.(main := Closing, begun := s.begun + 1)
    case GracefulSeen => s.(main := Returned(true))
    case MainCloses => s.(main := Returned(false), completed := s.completed + 1)
    case RecvClose => s.(receiver := GotClose)
    case RecvTx(data) => s.(receiver := StillWriting(data), received := s.received + data)
    case RecvConfig => s
    case RecvEnd => s.(receiver := Leaving)
    case Store => s.(receiver := InClose, closeInitiated := true, handled := s.handled + 1, begun := s.begun + 1)
    case ReceiverCloses => s.(receiver := AfterClose, completed := s.completed + 1)
    case CancelGraceful => s.(receiver := Receiving, gracefulDone := true)
    case Write(n) => s.(receiver := StillWriting(s.receiver.tx[n..]), written := s.written + s.receiver.tx[..n])
    case WriteFails(n) => s.(receiver := Leaving, written := s.written + s.receiver.tx[..n])
    case ReceiverLeaves => EndContext(s.(receiver := Gone))
    case Read(data) => s.(sender := Sending(data), read := s.read + data)
    case ReadEnd => s.(sender := Quitting)
    case SendOk => s.(sender := Reading, sent := s.sent + s.sender.rx)
    case SendFails => s.(sender := Quitting)
    case SenderLeaves => EndContext(s.(sender := Finished))
    case StreamDropped => EndContext(s)
  }

  /** `tr` is a run: it starts with both goroutines just spawned and each state follows from
      the one before by one action. */
  ghost predicate Run(tr: seq<State>, acts: seq<Action>) {
    && |tr| == |acts| + 1
    && tr[0] == INIT
    && forall i :: 0 <= i < |acts| ==> Enabled(tr[i], acts[i]) && tr[i + 1] == Do(tr[i], acts[i])
  }

  ghost predicate Reachable(s: State) {
    exists tr, acts :: Run(tr, acts) && tr[|acts|] == s
  }

  // ----- what every step keeps

  ghost function ReceiverClosing(s: State): nat {
    if s.receiver == InClose then 1 else 0
  }

  ghost predicate ClosesAccounted(s: State) {
    && s.begun == s.handled + (if s.main == Closing || s.main == Returned(false) then 1 else 0)
    && s.completed + ReceiverClosing(s) == s.handled + (if s.main == Returned(false) then 1 else 0)
  }

  ghost predicate FlagsConsistent(s: State) {
    && (s.closeInitiated <==> s.handled > 0)
    && (s.receiver == InClose || s.receiver == AfterClose ==> s.closeInitiated)
    && (s.gracefulDone ==> s.handled > ReceiverClosing(s))
    && (s.closeInitiated && !s.gracefulDone ==> s.receiver == InClose || s.receiver == AfterClose)
    && (s.main == AwaitGraceful ==> s.closeInitiated)
    && (s.main == Returned(true) ==> s.gracefulDone)
    && (s.main != Waiting ==> s.ctxDone)
    && (s.flagAtEnd ==> s.closeInitiated && s.main != Closing && s.main != Returned(false))
  }

  /** Bytes for the port: what is written and what is still pending is what was received. */
  ghost predicate ToPort(s: State) {
    match s.receiver
    case Writing(tx) => s.written + tx == s.received
    case Leaving => s.written <= s.received
    case Gone => s.written <= s.received
    case _ => s.written == s.received
  }

  /** Bytes from the port: what is sent and what is about to be is what was read. */
  ghost predicate FromPort(s: State) {
    match s.sender
    case Sending(rx) => s.sent + rx == s.read
    case Reading => s.sent == s.read
    case _ => s.sent <= s.read
  }

  ghost predicate Inv(s: State) {
    ClosesAccounted(s) && FlagsConsistent(s) && ToPort(s) && FromPort(s)
  }

  lemma StepToPort(s: State, a: Action)
    requires ToPort(s) && Enabled(s, a)
    ensures ToPort(Do(s, a))
  {
    match a
    case Write(n) => PartWritten(s.written, s.receiver.tx, n, s.received);
    case WriteFails(n) => PartWritten(s.written, s.receiver.tx, n, s.received);
    case _ =>
  }

  lemma PartWritten(written: Bytes, tx: Bytes, n: nat, received: Bytes)
    requires written + tx == received && n <= |tx|
    ensures written + tx[..n] + tx[n..] == received
    ensures written + tx[..n] <= received
    ensures tx[n..] == [] ==> written + tx[..n] == received
  {
    assert tx == tx[..n] + tx[n..];
    assert written + (tx[..n] + tx[n..]) == written + tx[..n] + tx[n..];
  }

  lemma StepFromPort(s: State, a: Action)
    requires FromPort(s) && Enabled(s, a)
    ensures FromPort(Do(s, a))
  {}

  lemma StepFlags(s: State, a: Action)
    requires ClosesAccounted(s) && FlagsConsistent(s) && Enabled(s, a)
    ensures ClosesAccounted(Do(s, a)) && FlagsConsistent(Do(s, a))
  {}

  lemma StepInv(s: State, a: Action)
    requires Inv(s) && Enabled(s, a)
    ensures Inv(Do(s, a))
  {
    StepToPort(s, a);
    StepFromPort(s, a);
    StepFlags(s, a);
  }

  lemma {:induction false} RunInv(tr: seq<State>, acts: seq<Action>, i: nat)
    requires Run(tr, acts) && i < |tr|
    ensures Inv(tr[i])
  {
    if i > 0 {
      RunInv(tr, acts, i - 1);
      StepInv(tr[i - 1], acts[i - 1]);
      assert tr[i - 1 + 1] == Do(tr[i - 1], acts[i - 1]);
    }
  }

  lemma ReachableInv(s: State)
    requires Reachable(s)
    ensures Inv(s)
  {
    var tr, acts :| Run(tr, acts) && tr[|acts|] == s;
    RunInv(tr, acts, |acts|);
  }

  lemma ReachableStep(s: State, a: Action)
    requires Reachable(s) && Enabled(s, a)
    ensures Reachable(Do(s, a))
  {
    var tr, acts :| Run(tr, acts) && tr[|acts|] == s;
    assert Run(tr + [Do(s, a)], acts + [a]);
    assert (tr + [Do(s, a)])[|acts + [a]|] == Do(s, a);
  }

  // ----- the guarantees, over every interleaving

  /** monitorClose calls: one per Close message handled, one more exactly when main found the
      flag unset. */
  lemma CloseCalls(s: State)
    requires Reachable(s)
    ensures s.begun == s.handled + if s.main == Closing || s.main == Returned(false) then 1 else 0
  {
    ReachableInv(s);
  }

  /** Monitor returns only after some monitorClose has completed. */
  lemma ReturnsAfterClose(s: State)
    requires Reachable(s) && s.main.Returned?
    ensures s.completed >= 1
  {
    ReachableInv(s);
  }

  /** The port is closed exactly once if no Close message was handled by the time of return,
      and also if one was and the flag was already up when the context ended. */
  lemma ClosedExactlyOnce(s: State)
    requires Reachable(s) && s.main.Returned?
    ensures s.handled == 0 ==> s.begun == s.completed == 1
    ensures s.handled == 1 && s.flagAtEnd ==> s.begun == s.completed == 1
    ensures s.handled == 1 ==> (s.begun == 1 <==> s.main == Returned(true))
  {
    ReachableInv(s);
  }

  /** With one Close message the port can still be closed twice: the client ends the context
      first, main reads the flag, and only then does the receiver handle the message. */
  lemma ClosedTwicePossible() returns (s: State)
    ensures Reachable(s) && s.main == Returned(false) && s.handled == 1
    ensures s.begun == s.completed == 2
  {
    var none: seq<Action> := [];
    assert Run([INIT], none);
    assert [INIT][|none|] == INIT;
    var s1 := DropWakeLoad(INIT);
    s := CloseBoth(s1);
  }

  lemma DropWakeLoad(s: State) returns (t: State)
    requires Reachable(s) && !s.ctxDone && !s.closeInitiated && s.main == Waiting
    ensures Reachable(t) && t == s.(ctxDone := true, flagAtEnd := false, main := Closing, begun := s.begun + 1)
  {
    t := s;
    ReachableStep(t, StreamDropped);
    t := Do(t, StreamDropped);
    ReachableStep(t, Wake);
    t := Do(t, Wake);
    ReachableStep(t, Load);
    t := Do(t, Load);
  }

  lemma CloseBoth(s: State) returns (t: State)
    requires Reachable(s) && s.main == Closing && s.receiver == Receiving
    ensures Reachable(t) && t.main == Returned(false) && t.handled == s.handled + 1
    ensures t.begun == s.begun + 1 && t.completed == s.completed + 2
  {
    t := s;
    ReachableStep(t, RecvClose);
    t := Do(t, RecvClose);
    ReachableStep(t, Store);
    t := Do(t, Store);
    ReachableStep(t, ReceiverCloses);
    t := Do(t, ReceiverCloses);
    ReachableStep(t, MainCloses);
    t := Do(t, MainCloses);
  }

  /** The port sees a prefix of the bytes the client sent, and the client a prefix of what the
      port produced, in order. */
  lemma BytesDelivered(s: State)
    requires Reachable(s)
    ensures s.written <= s.received && s.sent <= s.read
  {
    ReachableInv(s);
    InvBytes(s);
  }

  lemma InvBytes(s: State)
    requires ToPort(s) && FromPort(s)
    ensures s.written <= s.received && s.sent <= s.read
  {}

  // ----- the whole state, read off the actions

  /** All the bytes the client sent for the port. */
  ghost function TxData(acts: seq<Action>): Bytes {
    if acts == [] then []
    else TxData(acts[..|acts| - 1]) + match acts[|acts| - 1] case RecvTx(data) => data case _ => []
  }

  /** All the bytes the port produced. */
  ghost function RxData(acts: seq<Action>): Bytes {
    if acts == [] then []
    else RxData(acts[..|acts| - 1]) + match acts[|acts| - 1] case Read(data) => data case _ => []
  }

  ghost function Times(acts: seq<Action>, a: Action): nat {
    multiset(acts)[a]
  }

  /** The client closed the stream or sent something broken, or writing to the port failed. */
  ghost predicate ReceiverEnds(acts: seq<Action>) {
    exists i :: 0 <= i < |acts| && (acts[i] == RecvEnd || acts[i].WriteFails?)
  }

  ghost predicate WriteFailed(acts: seq<Action>) {
    exists i :: 0 <= i < |acts| && acts[i].WriteFails?
  }

  /** What the bytes are: everything received is written or pending, unless a write failed;
      everything read is sent or about to be, unless a send failed. */
  ghost predicate BytesAre(s: State, acts: seq<Action>) {
    && s.received == TxData(acts) && s.read == RxData(acts)
    && (!WriteFailed(acts) ==> s.written + (if s.receiver.Writing? then s.receiver.tx else []) == s.received)
    && (SendFails !in acts ==> s.sent + (if s.sender.Sending? then s.sender.rx else []) == s.read)
  }

  /** The contexts and the flag: what has ended or raised them. */
  ghost predicate FlagsAre(s: State, acts: seq<Action>) {
    && (s.ctxDone <==> StreamDropped in acts || ReceiverLeaves in acts || SenderLeaves in acts)
    && (s.closeInitiated <==> Store in acts)
    && (s.gracefulDone <==> CancelGraceful in acts)
  }

  /** Where the goroutines are: each keeps its loop going until its own end. */
  ghost predicate PlacesAre(s: State, acts: seq<Action>) {
    && (s.receiver == Leaving || s.receiver == Gone <==> ReceiverEnds(acts))
    && (s.receiver == Gone <==> ReceiverLeaves in acts)
    && (s.sender == Quitting || s.sender == Finished <==> ReadEnd in acts || SendFails in acts)
    && (s.sender == Finished <==> SenderLeaves in acts)
    && (s.main == Waiting <==> Wake !in acts)
    && (s.main.Returned? <==> GracefulSeen in acts || MainCloses in acts)
  }

  /** How often: close messages received and handled. */
  ghost predicate HandledAre(s: State, acts: seq<Action>) {
    && s.handled == Times(acts, Store)
    && Times(acts, RecvClose) == s.handled + (if s.receiver == GotClose then 1 else 0)
  }

  /** How often: completed closes. */
  ghost predicate ClosesAre(s: State, acts: seq<Action>) {
    s.completed == Times(acts, ReceiverCloses) + Times(acts, MainCloses)
  }

  lemma InSnoc(acts: seq<Action>, a: Action, x: Action)
    ensures x in acts + [a] <==> x in acts || x == a
    ensures Times(acts + [a], x) == Times(acts, x) + if x == a then 1 else 0
  {}

  lemma EndsSnoc(acts: seq<Action>, a: Action)
    ensures ReceiverEnds(acts + [a]) <==> ReceiverEnds(acts) || a == RecvEnd || a.WriteFails?
    ensures WriteFailed(acts + [a]) <==> WriteFailed(acts) || a.WriteFails?
  {
    var all := acts + [a];
    assert all[|acts|] == a && forall i :: 0 <= i < |acts| ==> all[i] == acts[i];
  }

  lemma BytesStep(s: State, acts: seq<Action>, a: Action)
    requires BytesAre(s, acts) && Enabled(s, a)
    ensures BytesAre(Do(s, a), acts + [a])
  {
    EndsSnoc(acts, a);
    InSnoc(acts, a, SendFails);
    assert (acts + [a])[..|acts|] == acts;
    match a
    case Write(n) => if !WriteFailed(acts) { PartWritten(s.written, s.receiver.tx, n, s.received); }
    case _ =>
  }

  lemma FlagsStep(s: State, acts: seq<Action>, a: Action)
    requires FlagsAre(s, acts) && Enabled(s, a)
    ensures FlagsAre(Do(s, a), acts + [a])
  {
    InSnoc(acts, a, StreamDropped);
    InSnoc(acts, a, ReceiverLeaves);
    InSnoc(acts, a, SenderLeaves);
    InSnoc(acts, a, Store);
    InSnoc(acts, a, CancelGraceful);
  }

  lemma PlacesStep(s: State, acts: seq<Action>, a: Action)
    requires PlacesAre(s, acts) && Enabled(s, a)
    ensures PlacesAre(Do(s, a), acts + [a])
  {
    EndsSnoc(acts, a);
    InSnoc(acts, a, ReceiverLeaves);
    InSnoc(acts, a, SenderLeaves);
    InSnoc(acts, a, ReadEnd);
    InSnoc(acts, a, SendFails);
    InSnoc(acts, a, Wake);
    InSnoc(acts, a, GracefulSeen);
    InSnoc(acts, a, MainCloses);
  }

  lemma HandledStep(s: State, acts: seq<Action>, a: Action)
    requires HandledAre(s, acts) && Enabled(s, a)
    ensures HandledAre(Do(s, a), acts + [a])
  {
    InSnoc(acts, a, Store);
    InSnoc(acts, a, RecvClose);
  }

  lemma ClosesStep(s: State, acts: seq<Action>, a: Action)
    requires ClosesAre(s, acts) && Enabled(s, a)
    ensures ClosesAre(Do(s, a), acts + [a])
  {
    InSnoc(acts, a, ReceiverCloses);
    InSnoc(acts, a, MainCloses);
  }

  /** In every run the whole state is determined by what happened. */
  lemma {:induction false} StateOfRun(tr: seq<State>, acts: seq<Action>, i: nat)
    requires Run(tr, acts) && i < |tr|
    ensures StateIs(tr[i], acts[..i])
  {
    if i == 0 {
      InitialState();
    } else {
      StateOfRun(tr, acts, i - 1);
      NextState(tr, acts, i - 1);
      StateStep(tr[i - 1], acts[..i - 1], acts[i - 1]);
    }
  }

  lemma NextState(tr: seq<State>, acts: seq<Action>, i: nat)
    requires Run(tr, acts) && i < |acts|
    ensures Enabled(tr[i], acts[i]) && tr[i + 1] == Do(tr[i], acts[i]) && acts[..i + 1] == acts[..i] + [acts[i]]
  {}

  ghost predicate StateIs(s: State, acts: seq<Action>) {
    BytesAre(s, acts) && FlagsAre(s, acts) && PlacesAre(s, acts) && HandledAre(s, acts) && ClosesAre(s, acts)
  }

  lemma InitialState()
    ensures StateIs(INIT, [])
  {}

  lemma StateStep(s: State, acts: seq<Action>, a: Action)
    requires StateIs(s, acts) && Enabled(s, a)
    ensures StateIs(Do(s, a), acts + [a])
  {
    BytesStep(s, acts, a);
    FlagsStep(s, acts, a);
    PlacesStep(s, acts, a);
    HandledStep(s, acts, a);
    ClosesStep(s, acts, a);
  }

  /** No goroutine waits for anything but its partner: the receiver and the sender can always go on
      until they have left, whatever the stream and the port answer, and main can exactly when
      the context, or the graceful close it waits for, has ended. */
  lemma WhoCanMove(s: State, data: Bytes, n: nat)
    requires Reachable(s)
    ensures s.receiver == Receiving ==>
      Enabled(s, RecvClose) && Enabled(s, RecvTx(data)) && Enabled(s, RecvConfig) && Enabled(s, RecvEnd)
    ensures s.receiver.Writing? && n <= |s.receiver.tx| ==> Enabled(s, Write(n)) && Enabled(s, WriteFails(n))
    ensures s.receiver == GotClose ==> Enabled(s, Store)
    ensures s.receiver == InClose ==> Enabled(s, ReceiverCloses)
    ensures s.receiver == AfterClose ==> Enabled(s, CancelGraceful)
    ensures s.receiver == Leaving ==> Enabled(s, ReceiverLeaves) && Do(s, ReceiverLeaves).ctxDone
    ensures s.sender == Reading ==> Enabled(s, Read(data)) && Enabled(s, ReadEnd)
    ensures s.sender.Sending? ==> Enabled(s, SendOk) && Enabled(s, SendFails)
    ensures s.sender == Quitting ==> Enabled(s, SenderLeaves) && Do(s, SenderLeaves).ctxDone
    ensures Enabled(s, StreamDropped) && Do(s, StreamDropped).ctxDone
    ensures Enabled(s, Wake) <==> s.main == Waiting && s.ctxDone
    ensures Enabled(s, GracefulSeen) <==> s.main == AwaitGraceful && s.gracefulDone
  {}

  // ----- Monitor returns

  /** Something has happened that ends the monitor: the stream was dropped, or one of the two
      goroutines has come to its end. */
  ghost predicate EndHappened(acts: seq<Action>) {
    ReceiverEnds(acts) || ReadEnd in acts || SendFails in acts || StreamDropped in acts
  }

  ghost predicate Ending(s: State) {
    s.ctxDone || s.receiver == Leaving || s.sender == Quitting
  }

  lemma EndingIff(tr: seq<State>, acts: seq<Action>, i: nat)
    requires Run(tr, acts) && i < |tr|
    ensures Ending(tr[i]) <==> EndHappened(acts[..i])
  {
    StateOfRun(tr, acts, i);
  }

  /** Steps main still needs, counting those it waits for in the other goroutines. */
  ghost function Remaining(s: State): nat {
    match s.main
    case Waiting => if s.ctxDone then 5 else 6
    case Woken => 4
    case AwaitGraceful => 1 + if s.gracefulDone then 0 else if s.receiver == InClose then 2 else 1
    case Closing => 1
    case Returned(_) => 0
  }

  /** The action that brings main closer to returning. */
  ghost function Closer(s: State): Action {
    match s.main
    case Waiting => if s.ctxDone then Wake else if s.receiver == Leaving then ReceiverLeaves else SenderLeaves
    case Woken => Load
    case Closing => MainCloses
    case _ => if s.gracefulDone then GracefulSeen else if s.receiver == InClose then ReceiverCloses else CancelGraceful
  }

  /** Once an end has happened, some step towards the return is always enabled and no other step
      leads away from it. */
  lemma NeverBlocked(s: State, a: Action)
    requires Reachable(s) && Ending(s) && !s.main.Returned? && Enabled(s, a)
    ensures Enabled(s, Closer(s)) && Remaining(Do(s, Closer(s))) < Remaining(s) <= 6
    ensures Remaining(Do(s, a)) <= Remaining(s) && Ending(Do(s, a))
    ensures a != Closer(s) && !Do(s, a).main.Returned? && Remaining(Do(s, a)) == Remaining(s) ==> Enabled(Do(s, a), Closer(s))
  {
    ReachableInv(s);
    FlagsNeverBlock(s, a);
  }

  lemma FlagsNeverBlock(s: State, a: Action)
    requires FlagsConsistent(s) && Ending(s) && !s.main.Returned? && Enabled(s, a)
    ensures Enabled(s, Closer(s)) && Remaining(Do(s, Closer(s))) < Remaining(s) <= 6
    ensures Remaining(Do(s, a)) <= Remaining(s) && Ending(Do(s, a))
    ensures a != Closer(s) && !Do(s, a).main.Returned? && Remaining(Do(s, a)) == Remaining(s) ==> Enabled(Do(s, a), Closer(s))
  {}

  /** How many of the actions taken since step `from` were the one that brings main closer. */
  ghost function CloserSteps(tr: seq<State>, acts: seq<Action>, from: nat): nat
    requires |tr| == |acts| + 1
    decreases |acts| - from
  {
    if from >= |acts| then 0
    else (if !tr[from].main.Returned? && acts[from] == Closer(tr[from]) then 1 else 0) + CloserSteps(tr, acts, from + 1)
  }

  lemma {:induction false} CloserStepsCount(tr: seq<State>, acts: seq<Action>, from: nat)
    requires Run(tr, acts) && from <= |acts| && Ending(tr[from])
    ensures Remaining(tr[|acts|]) + CloserSteps(tr, acts, from) <= Remaining(tr[from])
    ensures Ending(tr[|acts|])
    decreases |acts| - from
  {
    if from < |acts| {
      var s, a := tr[from], acts[from];
      RunInv(tr, acts, from);
      StepStaysEnding(s, a);
      assert tr[from + 1] == Do(s, a);
      CloserStepsCount(tr, acts, from + 1);
    }
  }

  lemma StepStaysEnding(s: State, a: Action)
    requires Inv(s) && Ending(s) && Enabled(s, a)
    ensures Ending(Do(s, a)) && Remaining(Do(s, a)) <= Remaining(s)
    ensures !s.main.Returned? && a == Closer(s) ==> Remaining(Do(s, a)) < Remaining(s)
  {
    if !s.main.Returned? { FlagsNeverBlock(s, a); }
  }

  /** Over a whole run: once an end has happened, at most six steps towards the return are taken
      (five once the context has ended), a run that takes six has returned, and until then the
      next one is enabled: under any fair schedule Monitor returns. */
  lemma SixStepsSuffice(tr: seq<State>, acts: seq<Action>, from: nat)
    requires Run(tr, acts) && from <= |acts| && EndHappened(acts[..from])
    ensures CloserSteps(tr, acts, from) <= 6 && (tr[from].ctxDone ==> CloserSteps(tr, acts, from) <= 5)
    ensures CloserSteps(tr, acts, from) == 6 ==> tr[|acts|].main.Returned?
    ensures !tr[|acts|].main.Returned? ==> Enabled(tr[|acts|], Closer(tr[|acts|]))
  {
    EndingIff(tr, acts, from);
    CloserStepsCount(tr, acts, from);
    RunInv(tr, acts, |acts|);
    RunInv(tr, acts, from);
    if !tr[|acts|].main.Returned? { FlagsNeverBlock(tr[|acts|], StreamDropped); }
  }

  /** However a run goes, once an end has happened it can be continued to the return. */
  lemma {:induction false} CanReturn(tr: seq<State>, acts: seq<Action>) returns (tr': seq<State>, acts': seq<Action>)
    requires Run(tr, acts) && EndHappened(acts)
    ensures Run(tr', acts') && acts <= acts' && |acts'| <= |acts| + 6 && tr'[|acts'|].main.Returned?
  {
    assert acts[..|acts|] == acts;
    EndingIff(tr, acts, |acts|);
    RunInv(tr, acts, |acts|);
    RemainingBound(tr[|acts|]);
    tr', acts' := ReturnWithin(tr, acts);
  }

  lemma RemainingBound(s: State)
    ensures Remaining(s) <= 6
  {}

  lemma {:induction false} ReturnWithin(tr: seq<State>, acts: seq<Action>) returns (tr': seq<State>, acts': seq<Action>)
    requires Run(tr, acts) && Ending(tr[|acts|])
    ensures Run(tr', acts') && acts <= acts' && |acts'| <= |acts| + Remaining(tr[|acts|]) && tr'[|acts'|].main.Returned?
    decreases Remaining(tr[|acts|])
  {
    var s := tr[|acts|];
    if s.main.Returned? {
      tr', acts' := tr, acts;
    } else {
      RunInv(tr, acts, |acts|);
      FlagsNeverBlock(s, StreamDropped);
      StepStaysEnding(s, Closer(s));
      var longer, more := tr + [Do(s, Closer(s))], acts + [Closer(s)];
      assert Run(longer, more);
      assert longer[|more|] == Do(s, Closer(s));
      tr', acts' := ReturnWithin(longer, more);
    }
  }
}
