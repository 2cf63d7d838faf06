/** detectUploadPort: which port the board shows up on after an upload. The function follows
    watcher events in two phases, keeping a candidate port and a re-armable timer. Event order
    and the moment a phase ends are arbitrary; real time is not modelled, so the timer may
    fire after any event. */
module UploadPort {
  import opened Wrappers

  datatype Port = Port(address: string, protocol: string, hardwareId: string)

  datatype Event = Add(port: Port) | Remove(port: Port) | Other

  /** How a phase ends: the watcher channel is closed, or the awaited signal arrives (upload
      completed in the first phase, timeout in the second). */
  datatype End = WatcherClosed | Signal

  datatype Timer = OneSecond | FiveSeconds

  /** The discovery library's notion of the same port. */
  type SamePort = (Port, Port) -> bool

  ghost predicate Equivalence(same: SamePort) {
    && (forall p :: same(p, p))
    && (forall p, q :: same(p, q) ==> same(q, p))
    && (forall p, q, r :: same(p, q) && same(q, r) ==> same(p, r))
  }

  function Priority(target: Port, p: Option<Port>): nat {
    match p
    case None => 0
    case Some(q) =>
      (if q.hardwareId == target.hardwareId then 1000 else 0)
      + (if q.protocol == target.protocol then 100 else 0)
      + (if q.address == target.address then 10 else 0)
  }

  /** Variables of the search. The three counters only observe: candidates lost, timers armed
      for a new candidate, five-second extensions. */
  datatype Search = Search(candidate: Option<Port>, wait: bool, timer: Timer, losses: nat, arms: nat, extensions: nat)

  predicate Loses(same: SamePort, s: Search, e: Event) {
    e.Remove? && s.candidate.Some? && same(s.candidate.value, e.port)
  }

  predicate Wins(target: Port, s: Search, e: Event) {
    e.Add? && Priority(target, Some(e.port)) > Priority(target, s.candidate)
  }

  function DuringUpload(same: SamePort, s: Search, e: Event): Search {
    if Loses(same, s, e) then s.(candidate := None, wait := true, losses := s.losses + 1) else s
  }

  function AfterUpload(target: Port, same: SamePort, s: Search, e: Event): Search {
    if Loses(same, s, e) then
      var t := s.(candidate := None, losses := s.losses + 1);
      if s.wait then t else t.(wait := true, timer := FiveSeconds, extensions := s.extensions + 1)
    else if Wins(target, s, e) then
      s.(candidate := Some(e.port), timer := OneSecond, arms := s.arms + 1)
    else s
  }

  function Start(target: Port, wait: bool): Search {
    Search(Some(target), wait, OneSecond, 0, 0, 0)
  }

  function StartTimer(s: Search): Search {
    s.(timer := if s.wait then FiveSeconds else OneSecond)
  }

  /** State after the events of the first phase. */
  function First(same: SamePort, s: Search, es: seq<Event>): Search {
    if es == [] then s
    else DuringUpload(same, First(same, s, es[..|es| - 1]), es[|es| - 1])
  }

  /** State after the events of the second phase. */
  function Second(target: Port, same: SamePort, s: Search, es: seq<Event>): Search {
    if es == [] then s
    else AfterUpload(target, same, Second(target, same, s, es[..|es| - 1]), es[|es| - 1])
  }

  /** The state when `during` was seen before the upload completed and `after` since. */
  function Searched(target: Port, wait: bool, same: SamePort, during: seq<Event>, after: seq<Event>): Search {
    Second(target, same, StartTimer(First(same, Start(target, wait), during)), after)
  }

  /** The function itself: the port it answers with, and the timer armed last. */
  method DetectUploadPort(target: Port, wait: bool, same: SamePort,
                          during: seq<Event>, end: End, after: seq<Event>) returns (result: Option<Port>, timeout: Timer)
    requires Equivalence(same)
    ensures end == WatcherClosed ==> result == First(same, Start(target, wait), during).candidate
    ensures end == Signal ==>
      var s := Searched(target, wait, same, during, after);
      result == s.candidate && timeout == s.timer
  {
    var candidate, waitForUploadPort := Some(target), wait;
    ghost var s := Start(target, wait);
    for i := 0 to |during|
      invariant s == First(same, Start(target, wait), during[..i])
      invariant candidate == s.candidate && waitForUploadPort == s.wait
    {
      assert during[..i + 1][..i] == during[..i];
      s := DuringUpload(same, s, during[i]);
      var ev := during[i];
      if candidate.Some? && ev.Remove? && same(ev.port, candidate.value) {
        waitForUploadPort := true;
        candidate := None;
      }
    }
    assert during[..|during|] == during;
    timeout := FiveSeconds;
    if end == WatcherClosed {
      return candidate, timeout;
    }
    if !waitForUploadPort {
      timeout := OneSecond;
    }
    ghost var s0 := StartTimer(s);
    s := s0;
    for i := 0 to |after|
      invariant s == Second(target, same, s0, after[..i])
      invariant candidate == s.candidate && waitForUploadPort == s.wait && timeout == s.timer
    {
      assert after[..i + 1][..i] == after[..i];
      s := AfterUpload(target, same, s, after[i]);
      var ev := after[i];
      if candidate.Some? && ev.Remove? && same(candidate.value, ev.port) {
        candidate := None;
        if !waitForUploadPort {
          waitForUploadPort := true;
          timeout := FiveSeconds;
        }
        continue;
      }
      if !ev.Add? {
        continue;
      }
      if Priority(target, Some(ev.port)) <= Priority(target, candidate) {
        continue;
      }
      candidate := Some(ev.port);
      // the code compares the candidate with the event it was just taken from, so the test
      // always succeeds
      if candidate.value.hardwareId == ev.port.hardwareId {
        timeout := OneSecond;
      }
    }
    assert after[..|after|] == after;
    result := candidate;
  }

  // ----- the answer is a port that is still there

  ghost predicate Removed(same: SamePort, p: Port, es: seq<Event>) {
    exists i :: 0 <= i < |es| && es[i].Remove? && same(p, es[i].port)
  }

  /** The user's port is the answer exactly as long as nobody removed it, in either phase. */
  lemma {:induction false} UserPortKept(same: SamePort, target: Port, wait: bool, es: seq<Event>)
    ensures First(same, Start(target, wait), es) == if Removed(same, target, es)
      then Search(None, true, OneSecond, 1, 0, 0) else Start(target, wait)
  {
    if es != [] {
      var n := |es| - 1;
      UserPortKept(same, target, wait, es[..n]);
      forall i | 0 <= i < |es| && es[i].Remove? && same(target, es[i].port) && i < n
        ensures Removed(same, target, es[..n])
      {
        assert es[..n][i] == es[i];
      }
    }
  }

  lemma {:induction false} UserPortNeverReplaced(target: Port, same: SamePort, s: Search, es: seq<Event>)
    requires s.candidate == Some(target)
    requires !Removed(same, target, es)
    ensures Second(target, same, s, es) == s
  {
    if es != [] {
      var n := |es| - 1;
      assert forall i :: 0 <= i < n ==> es[..n][i] == es[i];
      UserPortNeverReplaced(target, same, s, es[..n]);
      assert Priority(target, Some(target)) == 1110;
    }
  }

  /** If the user's port is never removed it is the result, and no timer is ever re-armed: it is the
      one-second one, or the five-second one if waiting was forced. */
  lemma UserPortIsTheResult(target: Port, wait: bool, same: SamePort, during: seq<Event>, after: seq<Event>)
    requires !Removed(same, target, during) && !Removed(same, target, after)
    ensures Searched(target, wait, same, during, after)
      == Search(Some(target), wait, if wait then FiveSeconds else OneSecond, 0, 0, 0)
  {
    UserPortKept(same, target, wait, during);
    UserPortNeverReplaced(target, same, StartTimer(Start(target, wait)), after);
  }

  /** Where the candidate of the second phase stands: last lost after `lost` events, and taken
      from event `since - 1` (or still the one the phase began with when `since == 0`). */
  datatype Stand = Stand(lost: nat, since: nat)

  ghost function Standing(target: Port, same: SamePort, s: Search, es: seq<Event>): (r: Stand)
    ensures r.lost <= |es| && r.since <= |es|
  {
    if es == [] then Stand(0, 0)
    else
      var n := |es| - 1;
      var t := Second(target, same, s, es[..n]);
      if Loses(same, t, es[n]) then Stand(n + 1, n + 1)
      else if Wins(target, t, es[n]) then Standing(target, same, s, es[..n]).(since := n + 1)
      else Standing(target, same, s, es[..n])
  }

  /** The candidate, read off the event list alone: it was added and not removed since, and
      beats strictly every earlier and weakly every later port added since the last loss. */
  ghost predicate IsBest(target: Port, same: SamePort, c: Option<Port>, first: Option<Port>, es: seq<Event>, st: Stand)
    requires st.lost <= |es| && st.since <= |es|
  {
    && st.lost <= st.since
    && (st.lost == 0 && st.since == 0 ==> c == first)
    && (st.lost < st.since ==> es[st.since - 1].Add? && c == Some(es[st.since - 1].port))
    && (0 < st.lost == st.since ==> c == None)
    && (0 < st.lost ==> es[st.lost - 1].Remove?)
    && (c.Some? ==> forall i :: st.since <= i < |es| && es[i].Remove? ==> !same(c.value, es[i].port))
    && (forall i :: st.lost <= i < |es| && es[i].Add? ==> Priority(target, Some(es[i].port)) <= Priority(target, c))
    && (forall i :: st.lost <= i < st.since - 1 && es[i].Add? ==> Priority(target, Some(es[i].port)) < Priority(target, c))
  }

  lemma {:induction false} CandidateIsBest(target: Port, same: SamePort, s: Search, es: seq<Event>)
    ensures IsBest(target, same, Second(target, same, s, es).candidate, s.candidate, es, Standing(target, same, s, es))
  {
    if es != [] {
      CandidateIsBest(target, same, s, es[..|es| - 1]);
    }
  }

  /** Over every event sequence, the port returned has not been removed since it was chosen:
      it is the user's port, never removed, or one added after the upload and still there. */
  lemma ResultStillThere(target: Port, wait: bool, same: SamePort, during: seq<Event>, after: seq<Event>)
    ensures var c := Searched(target, wait, same, during, after).candidate;
      c.Some? ==>
        || (c.value == target && !Removed(same, target, during) && !Removed(same, target, after))
        || exists i :: 0 <= i < |after| && after[i] == Add(c.value) && !Removed(same, c.value, after[i + 1..])
  {
    UserPortKept(same, target, wait, during);
    var s := StartTimer(First(same, Start(target, wait), during));
    CandidateIsBest(target, same, s, after);
    var c, st := Second(target, same, s, after).candidate, Standing(target, same, s, after);
    if c.Some? && 0 < st.since {
      assert after[st.since - 1] == Add(c.value);
      assert !Removed(same, c.value, after[st.since - 1 + 1..]);
    }
  }

  /** A port sharing neither hardware id, protocol nor address with the user's port is never
      chosen: the second phase does not simply pick the first port that appears. */
  lemma {:induction false} UnrelatedPortNeverChosen(target: Port, same: SamePort, s: Search, es: seq<Event>)
    requires s.candidate.Some? ==> Priority(target, s.candidate) > 0
    ensures Second(target, same, s, es).candidate.Some? ==> Priority(target, Second(target, same, s, es).candidate) > 0
  {
    if es != [] {
      UnrelatedPortNeverChosen(target, same, s, es[..|es| - 1]);
    }
  }

  /** Every port added from event `lost` on has nothing in common with the user's port. */
  ghost predicate OnlyUnrelated(target: Port, es: seq<Event>, lost: nat) {
    forall i :: lost <= i < |es| && es[i].Add? ==> Priority(target, Some(es[i].port)) == 0
  }

  lemma OnlyUnrelatedSnoc(target: Port, es: seq<Event>, lost: nat)
    requires lost < |es|
    ensures var n := |es| - 1;
      OnlyUnrelated(target, es, lost) <==>
        OnlyUnrelated(target, es[..n], lost) && (es[n].Add? ==> Priority(target, Some(es[n].port)) == 0)
  {
    assert forall i :: 0 <= i < |es| - 1 ==> es[..|es| - 1][i] == es[i];
  }

  /** There is no candidate exactly when the one there was has been lost (or there was none) and
      every port added since has nothing in common with the user's port. */
  lemma {:induction false} NoCandidateIff(target: Port, same: SamePort, s: Search, es: seq<Event>)
    ensures var lost := Standing(target, same, s, es).lost;
      Second(target, same, s, es).candidate == None <==>
        (lost > 0 || s.candidate == None) && OnlyUnrelated(target, es, lost)
  {
    if es != [] {
      var n := |es| - 1;
      var t := Second(target, same, s, es[..n]);
      NoCandidateIff(target, same, s, es[..n]);
      OnlyUnrelatedSnoc(target, es, Standing(target, same, s, es[..n]).lost);
      if Loses(same, t, es[n]) {
        assert Second(target, same, s, es).candidate == None;
      } else if Wins(target, t, es[n]) {
        assert Second(target, same, s, es).candidate == Some(es[n].port);
      } else {
        assert Second(target, same, s, es) == t;
      }
    }
  }

  /** The first event's port has something in common with the user's port, no port added has more,
      and it is not removed. */
  ghost predicate FirstIsBest(target: Port, same: SamePort, es: seq<Event>)
    requires es != [] && es[0].Add?
  {
    && Priority(target, Some(es[0].port)) > 0
    && (forall i :: 0 <= i < |es| && es[i].Add? ==> Priority(target, Some(es[i].port)) <= Priority(target, Some(es[0].port)))
    && !Removed(same, es[0].port, es[1..])
  }

  lemma {:induction false} FirstIsTaken(target: Port, same: SamePort, s: Search, es: seq<Event>)
    requires s.candidate == None && es != [] && es[0].Add? && FirstIsBest(target, same, es)
    ensures Standing(target, same, s, es) == Stand(0, 1) && Second(target, same, s, es).candidate == Some(es[0].port)
  {
    var n := |es| - 1;
    if n == 0 {
      assert es[..0] == [];
    } else {
      assert es[..n][0] == es[0];
      assert forall i :: 0 <= i < |es[..n][1..]| ==> es[..n][1..][i] == es[1..][i];
      FirstIsTaken(target, same, s, es[..n]);
      assert es[1..][n - 1] == es[n];
    }
  }

  /** When the wait starts without a candidate, the first port that appears is picked and stays picked
      exactly when it has something in common with the user's port, no port that appears later
      has more, and it is not removed. Picked at the first event and never given up is what the
      standing (0, 1) says. */
  lemma FirstPortPickedIff(target: Port, same: SamePort, s: Search, es: seq<Event>)
    requires s.candidate == None && es != [] && es[0].Add?
    ensures Standing(target, same, s, es) == Stand(0, 1) <==> FirstIsBest(target, same, es)
    ensures FirstIsBest(target, same, es) ==> Second(target, same, s, es).candidate == Some(es[0].port)
  {
    if FirstIsBest(target, same, es) {
      FirstIsTaken(target, same, s, es);
    }
    if Standing(target, same, s, es) == Stand(0, 1) {
      CandidateIsBest(target, same, s, es);
      UnrelatedPortNeverChosen(target, same, s, es);
      assert forall i :: 0 <= i < |es| - 1 ==> es[1..][i] == es[i + 1];
    }
  }

  /** The first port that appears is passed over: the user's port goes during the upload, an
      unrelated one appears afterwards, and the search ends with nothing. */
  lemma FirstPortPassedOver(same: SamePort, wait: bool)
    requires Equivalence(same)
    ensures var target, other := Port("ttyACM0", "serial", "A"), Port("192.168.1.9", "network", "B");
      Searched(target, wait, same, [Remove(target)], [Add(other)]).candidate == None
  {
    var target, other := Port("ttyACM0", "serial", "A"), Port("192.168.1.9", "network", "B");
    UserPortKept(same, target, wait, [Remove(target)]);
    assert Removed(same, target, [Remove(target)]) by { assert [Remove(target)][0] == Remove(target); }
    var s := StartTimer(Search(None, true, OneSecond, 1, 0, 0));
    assert [Add(other)][..0] == [];
    assert Second(target, same, s, [Add(other)]) == AfterUpload(target, same, s, Add(other));
  }

  // ----- the timer is shortened for other boards too

  /** The second phase as its comment describes it: only a candidate with the hardware id of the
      user's port shortens the timer. */
  function AsDescribed(target: Port, same: SamePort, s: Search, e: Event): Search {
    if !Loses(same, s, e) && Wins(target, s, e) && e.port.hardwareId != target.hardwareId
    then s.(candidate := Some(e.port))
    else AfterUpload(target, same, s, e)
  }

  function SecondAsDescribed(target: Port, same: SamePort, s: Search, es: seq<Event>): Search {
    if es == [] then s
    else AsDescribed(target, same, SecondAsDescribed(target, same, s, es[..|es| - 1]), es[|es| - 1])
  }

  /** Some port becomes the candidate without having the hardware id of the user's port. */
  ghost predicate OtherBoardWins(target: Port, same: SamePort, s: Search, es: seq<Event>) {
    exists i :: 0 <= i < |es| && Wins(target, Second(target, same, s, es[..i]), es[i]) && es[i].port.hardwareId != target.hardwareId
  }

  /** The candidate is always the one described, and the timer is armed at least as often; it is
      armed as described exactly when no port of another board ever becomes the candidate. */
  lemma {:induction false} TimerAsDescribedIff(target: Port, same: SamePort, s: Search, es: seq<Event>)
    ensures var t, u := Second(target, same, s, es), SecondAsDescribed(target, same, s, es);
      && t.(timer := u.timer, arms := u.arms) == u && u.arms <= t.arms
      && (t.arms == u.arms <==> !OtherBoardWins(target, same, s, es))
      && (t.arms == u.arms ==> t == u)
  {
    if es != [] {
      var n := |es| - 1;
      TimerAsDescribedIff(target, same, s, es[..n]);
      OtherBoardSnoc(target, same, s, es);
    }
  }

  lemma OtherBoardSnoc(target: Port, same: SamePort, s: Search, es: seq<Event>)
    requires es != []
    ensures var n := |es| - 1;
      OtherBoardWins(target, same, s, es) <==>
        || OtherBoardWins(target, same, s, es[..n])
        || (Wins(target, Second(target, same, s, es[..n]), es[n]) && es[n].port.hardwareId != target.hardwareId)
  {
    var n := |es| - 1;
    assert forall i :: 0 <= i < n ==> es[..n][..i] == es[..i] && es[..n][i] == es[i];
  }

  /** Another board on the same kind of port: the search settles for it after one second, where
      the description says five. */
  lemma OtherBoardShortens(same: SamePort, wait: bool)
    requires Equivalence(same)
    ensures var target, other := Port("ttyACM0", "serial", "A"), Port("ttyACM1", "serial", "B");
      var s := StartTimer(First(same, Start(target, wait), [Remove(target)]));
      && Second(target, same, s, [Add(other)]).candidate == Some(other)
      && Second(target, same, s, [Add(other)]).timer == OneSecond
      && SecondAsDescribed(target, same, s, [Add(other)]).timer == FiveSeconds
  {
    var target, other := Port("ttyACM0", "serial", "A"), Port("ttyACM1", "serial", "B");
    UserPortKept(same, target, wait, [Remove(target)]);
    assert Removed(same, target, [Remove(target)]) by { assert [Remove(target)][0] == Remove(target); }
    var s := StartTimer(Search(None, true, OneSecond, 1, 0, 0));
    assert [Add(other)][..0] == [];
    assert Second(target, same, s, [Add(other)]) == AfterUpload(target, same, s, Add(other));
    assert SecondAsDescribed(target, same, s, [Add(other)]) == AsDescribed(target, same, s, Add(other));
  }

  // ----- which port has more in common, and which timer is armed

  /** A port has more in common with the user's port than another if it has the hardware id and the
      other has not, or, when both or neither have it, by the protocol, and then by the address. */
  ghost predicate HasMore(target: Port, p: Port, q: Port) {
    if (p.hardwareId == target.hardwareId) != (q.hardwareId == target.hardwareId) then p.hardwareId == target.hardwareId
    else if (p.protocol == target.protocol) != (q.protocol == target.protocol) then p.protocol == target.protocol
    else p.address == target.address && q.address != target.address
  }

  lemma PriorityIs(target: Port, p: Port, q: Port)
    ensures Priority(target, Some(p)) > Priority(target, Some(q)) <==> HasMore(target, p, q)
    ensures Priority(target, Some(p)) > Priority(target, None) <==>
      p.hardwareId == target.hardwareId || p.protocol == target.protocol || p.address == target.address
  {}

  /** The search waits without being forced to, and the event takes its candidate away. */
  ghost predicate ArmsFive(target: Port, same: SamePort, s: Search, es: seq<Event>, i: nat)
    requires i < |es|
  {
    var t := Second(target, same, s, es[..i]);
    !t.wait && es[i].Remove? && t.candidate.Some? && same(t.candidate.value, es[i].port)
  }

  /** The event brings a port that has more in common than the candidate. */
  ghost predicate ArmsOne(target: Port, same: SamePort, s: Search, es: seq<Event>, i: nat)
    requires i < |es|
  {
    var t := Second(target, same, s, es[..i]);
    es[i].Add? && Priority(target, Some(es[i].port)) > Priority(target, t.candidate)
  }

  /** The timer armed at event `i - 1`, or the first one if `i` is zero, is the five-second one. */
  ghost predicate FiveSince(target: Port, same: SamePort, s: Search, es: seq<Event>, i: nat)
    requires i <= |es|
  {
    && (if i == 0 then s.timer == FiveSeconds else ArmsFive(target, same, s, es, i - 1))
    && forall j :: i <= j < |es| ==> !ArmsOne(target, same, s, es, j)
  }

  /** The timer of the second phase is the five-second one exactly when that was armed, at the start or
      at a loss that was not waited for, and no new candidate has come since. */
  lemma {:induction false} TimerIs(target: Port, same: SamePort, s: Search, es: seq<Event>)
    ensures Second(target, same, s, es).timer == FiveSeconds <==> exists i :: 0 <= i <= |es| && FiveSince(target, same, s, es, i)
  {
    if es == [] {
      assert FiveSince(target, same, s, es, 0) <==> s.timer == FiveSeconds;
    } else {
      var n := |es| - 1;
      TimerIs(target, same, s, es[..n]);
      forall i | 0 <= i < n
        ensures ArmsFive(target, same, s, es[..n], i) == ArmsFive(target, same, s, es, i)
        ensures ArmsOne(target, same, s, es[..n], i) == ArmsOne(target, same, s, es, i)
      {
        assert es[..n][..i] == es[..i];
      }
      forall i | 0 <= i <= n
        ensures FiveSince(target, same, s, es, i) <==> FiveSince(target, same, s, es[..n], i) && !ArmsOne(target, same, s, es, n) {}
      assert FiveSince(target, same, s, es, n + 1) <==> ArmsFive(target, same, s, es, n);
    }
  }

  /** Which timer the second phase starts with. */
  lemma FirstTimerIs(target: Port, wait: bool, same: SamePort, during: seq<Event>)
    ensures StartTimer(First(same, Start(target, wait), during)).timer
      == if wait || Removed(same, target, during) then FiveSeconds else OneSecond
  {
    UserPortKept(same, target, wait, during);
  }

  /** The event takes the candidate away. */
  ghost predicate LosesAt(target: Port, same: SamePort, s: Search, es: seq<Event>, i: nat)
    requires i < |es|
  {
    var t := Second(target, same, s, es[..i]);
    es[i].Remove? && t.candidate.Some? && same(t.candidate.value, es[i].port)
  }

  /** How many of the first `n` events take the candidate away. */
  ghost function LossEvents(target: Port, same: SamePort, s: Search, es: seq<Event>, n: nat): nat
    requires n <= |es|
  {
    if n == 0 then 0
    else LossEvents(target, same, s, es, n - 1) + if LosesAt(target, same, s, es, n - 1) then 1 else 0
  }

  /** How many of the first `n` events bring a new candidate. */
  ghost function NewCandidateEvents(target: Port, same: SamePort, s: Search, es: seq<Event>, n: nat): nat
    requires n <= |es|
  {
    if n == 0 then 0
    else NewCandidateEvents(target, same, s, es, n - 1) + if ArmsOne(target, same, s, es, n - 1) then 1 else 0
  }

  /** The counters count what their names say. */
  lemma {:induction false} CountersAre(target: Port, same: SamePort, s: Search, es: seq<Event>, n: nat)
    requires n <= |es|
    ensures Second(target, same, s, es[..n]).losses == s.losses + LossEvents(target, same, s, es, n)
    ensures Second(target, same, s, es[..n]).arms == s.arms + NewCandidateEvents(target, same, s, es, n)
  {
    if n > 0 {
      CountersAre(target, same, s, es, n - 1);
      assert es[..n][..n - 1] == es[..n - 1];
    }
  }

  // ----- how long it can take

  /** Position of a priority among the eight that exist. */
  function Rank(target: Port, p: Option<Port>): nat {
    match p
    case None => 0
    case Some(q) =>
      (if q.hardwareId == target.hardwareId then 4 else 0)
      + (if q.protocol == target.protocol then 2 else 0)
      + (if q.address == target.address then 1 else 0)
  }

  lemma RankIsPriority(target: Port, p: Option<Port>, q: Option<Port>)
    ensures Priority(target, p) < Priority(target, q) <==> Rank(target, p) < Rank(target, q)
    ensures Rank(target, p) <= 7
  {}

  /** Between two losses the timer is re-armed for a new candidate at most seven times: at most
      once for each step up among the eight priorities. */
  lemma {:induction false} ArmsBetweenLosses(target: Port, same: SamePort, s: Search, es: seq<Event>)
    ensures var t := Second(target, same, s, es);
      && s.losses <= t.losses
      && (t.losses == s.losses ==> t.arms + Rank(target, s.candidate) <= s.arms + Rank(target, t.candidate))
      && (t.losses == s.losses ==> t.arms <= s.arms + 7)
  {
    if es != [] {
      var n := |es| - 1;
      ArmsBetweenLosses(target, same, s, es[..n]);
      var m := Second(target, same, s, es[..n]);
      var t := Second(target, same, s, es);
      RankIsPriority(target, m.candidate, t.candidate);
      RankIsPriority(target, t.candidate, t.candidate);
    }
  }

  lemma {:induction false} ArmsAndLosses(target: Port, same: SamePort, s: Search, es: seq<Event>)
    requires s.arms + 7 <= 7 * s.losses + Rank(target, s.candidate)
    ensures var t := Second(target, same, s, es); t.arms + 7 <= 7 * t.losses + Rank(target, t.candidate)
  {
    if es != [] {
      var n := |es| - 1;
      ArmsAndLosses(target, same, s, es[..n]);
      RankIsPriority(target, Second(target, same, s, es[..n]).candidate, Second(target, same, s, es).candidate);
      RankIsPriority(target, Second(target, same, s, es[..n]).candidate, None);
    }
  }

  /** Over a whole run: at most seven re-arms for each loss of a candidate, none before the
      first, and at most one five-second extension, none when waiting was already forced. */
  lemma TimersAreBounded(target: Port, wait: bool, same: SamePort, during: seq<Event>, after: seq<Event>)
    ensures var t := Searched(target, wait, same, during, after);
      && t.arms <= 7 * t.losses
      && t.extensions <= 1
      && (wait || Removed(same, target, during) ==> t.extensions == 0)
      && (t.extensions == 1 ==> !wait && t.wait)
  {
    UserPortKept(same, target, wait, during);
    var s := StartTimer(First(same, Start(target, wait), during));
    ArmsAndLosses(target, same, s, after);
    RankIsPriority(target, Searched(target, wait, same, during, after).candidate, None);
    ExtendedOnce(target, same, s, after);
  }

  lemma {:induction false} ExtendedOnce(target: Port, same: SamePort, s: Search, es: seq<Event>)
    ensures var t := Second(target, same, s, es);
      t.extensions == s.extensions + if t.wait && !s.wait then 1 else 0
    ensures s.wait ==> Second(target, same, s, es).wait
  {
    if es != [] { ExtendedOnce(target, same, s, es[..|es| - 1]); }
  }
}
