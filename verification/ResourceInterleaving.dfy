/** Every interleaving of threads that use the resources of one connection: `3escore/BaseConnection.cpp`.

    An operation looks at the active flag before it takes any lock, so the flag may have changed when it
    gets in. Under the resource lock it changes the table, and sends its messages one by one while other
    threads send theirs. The packet lock and the send lock only rule schedules out; they are not here. */
module ResourceInterleaving {
  import opened Bytes
  import opened ResourceStates
  import opened ResourceRuns

  /** What is done under the resource lock: one of the two, or the whole loop of `updateTransfers`. */
  datatype Access = AddReference(resource: Resource) | DropReference(key: nat) | Update(byteLimit: nat) {
    function AsStep(): Step {
      match this
      case AddReference(r) => Reference(r)
      case DropReference(key) => Release(key)
      case Update(limit) => Begin(limit)
    }

    /** Its effect, which does not look at the active flag any more. */
    function Effect(m: Machine): Machine {
      var s := m.state.(active := true);
      match this
      case AddReference(r) => m.(state := Referenced(s, r).(active := m.state.active))
      case DropReference(key) => m.(state := Released(s, key).(active := m.state.active))
      case Update(limit) => m.(call := Transferring(limit, 0))
    }
  }

  /** The calls of a user. One that finds the connection inactive does nothing; `destroy` releases several
      resources after one look, and any thread may send something else. */
  datatype Call = Guarded(accesses: seq<Access>) | Switch(enable: bool) | SendOther

  /** Where a thread is in a call. */
  datatype Point =
    | Ready
    | Between(left: seq<Access>)
    | Holding(left: seq<Access>, entered: bool, unsent: seq<Message>)

  /** A thread, and which of its calls so far found the connection active. */
  datatype Thread = Thread(calls: seq<Call>, found: seq<bool>, point: Point)

  datatype Sent = AboutResource(message: Message) | Other(thread: nat)

  /** A step of the table, and the thread that took it. */
  datatype Event = Event(thread: nat, step: Step)

  datatype Session = Session(
    threads: map<nat, Thread>, owner: Option<nat>, machine: Machine, wire: seq<Sent>, history: seq<Event>)

  // ---------------------------------------------------------------- the steps of a thread

  function Events(t: nat, steps: seq<Step>): (e: seq<Event>)
    ensures |e| == |steps|
  {
    seq(|steps|, i requires 0 <= i < |steps| => Event(t, steps[i]))
  }

  /** The messages that a step of the table sends. */
  function NewMessages(before: Machine, after: Machine): seq<Message> {
    if |before.state.log| <= |after.state.log| then after.state.log[|before.state.log|..] else []
  }

  function Moved(s: Session, t: nat, thread: Thread): Session {
    s.(threads := s.threads[t := thread])
  }

  /** The next call of a thread: look at the flag, set it, or send. */
  function StartCall(s: Session, t: nat): Session
    requires t in s.threads && s.threads[t].calls != []
  {
    var th := s.threads[t];
    var active := s.machine.state.active;
    var next := Thread(th.calls[1..], th.found + [active], Ready);
    match th.calls[0]
    case Guarded(accesses) => Moved(s, t, next.(point := if active then Between(accesses) else Ready))
    case Switch(enable) =>
      Moved(s, t, next).(machine := Switched(s.machine, enable), history := s.history + Events(t, [SetActive(enable)]))
    case SendOther => Moved(s, t, next).(wire := s.wire + [Other(t)])
  }

  function Switched(m: Machine, enable: bool): Machine {
    m.(state := m.state.(active := enable))
  }

  /** An access takes the lock if it is free. */
  function TakeLock(s: Session, t: nat): Session
    requires t in s.threads && s.threads[t].point.Between?
  {
    var th := s.threads[t];
    if th.point.left == [] then Moved(s, t, th.(point := Ready))
    else if s.owner.Some? then s
    else Moved(s, t, th.(point := Holding(th.point.left, false, []))).(owner := Some(t))
  }

  /** Under the lock: change the table, send what is to be sent, go on with the transfers, and give the
      lock back. */
  function UnderLock(b: Behaviour, s: Session, t: nat): Session
    requires t in s.threads && s.threads[t].point.Holding? && s.threads[t].point.left != []
  {
    var th, p, m := s.threads[t], s.threads[t].point, s.machine;
    if !p.entered then
      var after := p.left[0].Effect(m);
      Moved(s, t, th.(point := Holding(p.left, true, NewMessages(m, after))))
        .(machine := after, history := s.history + Events(t, Disguised(p.left[0], m.state.active)))
    else if p.unsent != [] then
      Moved(s, t, th.(point := p.(unsent := p.unsent[1..]))).(wire := s.wire + [AboutResource(p.unsent[0])])
    else if m.call.Transferring? then
      var after := Stepped(b, m, Continue);
      Moved(s, t, th.(point := p.(unsent := NewMessages(m, after))))
        .(machine := after, history := s.history + Events(t, [Continue]))
    else Moved(s, t, th.(point := Between(p.left[1..]))).(owner := None)
  }

  /** An access that does not look at the flag is one that finds it set, whatever it is. */
  function Disguised(a: Access, active: bool): seq<Step> {
    [SetActive(true), a.AsStep(), SetActive(active)]
  }

  /** Thread `t` takes its next step if it can. */
  function Exec(b: Behaviour, s: Session, t: nat): Session {
    if t !in s.threads then s
    else
      match s.threads[t].point
      case Ready => if s.threads[t].calls == [] then s else StartCall(s, t)
      case Between(_) => TakeLock(s, t)
      case Holding(left, _, _) => if left == [] then s else UnderLock(b, s, t)
  }

  /** The state after a schedule: which thread moves, move by move. */
  function Run(b: Behaviour, programs: map<nat, seq<Call>>, schedule: seq<nat>): Session {
    if schedule == [] then Initial(programs)
    else Exec(b, Run(b, programs, schedule[..|schedule| - 1]), schedule[|schedule| - 1])
  }

  function Initial(programs: map<nat, seq<Call>>): Session {
    Session(map t | t in programs :: Thread(programs[t], [], Ready), None, Machine(Start(), Idle), [], [])
  }

  // ---------------------------------------------------------------- what the state is compared with

  function StepsIn(history: seq<Event>): (steps: seq<Step>)
    ensures |steps| == |history|
  {
    seq(|history|, i requires 0 <= i < |history| => history[i].step)
  }

  /** The messages about resources among those on the wire. */
  function ResourcePart(wire: seq<Sent>): seq<Message> {
    if wire == [] then []
    else
      var last := wire[|wire| - 1];
      ResourcePart(wire[..|wire| - 1]) + if last.AboutResource? then [last.message] else []
  }

  /** What whoever has the lock has still to send. */
  function Unsent(s: Session): seq<Message> {
    if s.owner.Some? && s.owner.value in s.threads && s.threads[s.owner.value].point.Holding? then
      s.threads[s.owner.value].point.unsent
    else []
  }

  /** What a thread did under the lock. */
  function AccessesBy(history: seq<Event>, t: nat): seq<Step> {
    if history == [] then []
    else
      var last := history[|history| - 1];
      AccessesBy(history[..|history| - 1], t)
      + if last.thread == t && (last.step.Reference? || last.step.Release? || last.step.Begin?) then [last.step] else []
  }

  function AsSteps(accesses: seq<Access>): (steps: seq<Step>)
    ensures |steps| == |accesses|
  {
    seq(|accesses|, i requires 0 <= i < |accesses| => accesses[i].AsStep())
  }

  /** The accesses of the calls that found the connection active. */
  function Accesses(calls: seq<Call>, found: seq<bool>): seq<Step>
    requires |calls| == |found|
  {
    if calls == [] then []
    else
      var last := |calls| - 1;
      Accesses(calls[..last], found[..last])
      + if found[last] && calls[last].Guarded? then AsSteps(calls[last].accesses) else []
  }

  /** The accesses of the current call that are to come. */
  function Left(p: Point): seq<Access> {
    match p
    case Ready => []
    case Between(left) => left
    case Holding(left, entered, _) => if entered && left != [] then left[1..] else left
  }

  // ---------------------------------------------------------------- the invariant

  /** One thread holds the lock, and it is in the middle of an access. */
  predicate Locked(s: Session) {
    && (s.owner.Some? ==> s.owner.value in s.threads)
    && (forall t :: t in s.threads ==> (s.threads[t].point.Holding? <==> s.owner == Some(t)))
    && (forall t :: t in s.threads && s.threads[t].point.Holding? ==> Proper(s.threads[t].point))
    && (s.machine.call.Transferring? ==> s.owner.Some? && s.threads[s.owner.value].point.entered)
  }

  predicate Proper(p: Point)
    requires p.Holding?
  {
    p.left != [] && (!p.entered ==> p.unsent == [])
  }

  /** The table is the one of a run, and its messages are on the wire or about to be. */
  predicate OfARun(b: Behaviour, s: Session) {
    && RunOf(b, StepsIn(s.history)) == s.machine
    && ResourcePart(s.wire) + Unsent(s) == s.machine.state.log
  }

  predicate ThreadInOrder(s: Session, t: nat, program: seq<Call>)
    requires t in s.threads
  {
    var th, n := s.threads[t], |s.threads[t].found|;
    && n <= |program| && th.calls == program[n..]
    && AccessesBy(s.history, t) + AsSteps(Left(th.point)) == Accesses(program[..n], th.found)
  }

  predicate InOrder(s: Session, programs: map<nat, seq<Call>>) {
    && s.threads.Keys == programs.Keys
    && forall t :: t in programs ==> ThreadInOrder(s, t, programs[t])
  }

  lemma LocksAgree(b: Behaviour, s: Session, t: nat)
    requires Locked(s)
    ensures Locked(Exec(b, s, t))
  {
  }

  // ---------------------------------------------------------------- steps of the table

  lemma OneMoreStep(b: Behaviour, history: seq<Event>, t: nat, step: Step)
    ensures RunOf(b, StepsIn(history + Events(t, [step]))) == Stepped(b, RunOf(b, StepsIn(history)), step)
  {
    assert StepsIn(history + Events(t, [step])) == StepsIn(history) + [step];
    RunOneMore(b, StepsIn(history), step);
  }

  /** An access that no longer looks at the flag is three steps of a run. */
  lemma EffectIsSteps(b: Behaviour, history: seq<Event>, t: nat, a: Access)
    requires RunOf(b, StepsIn(history)).call.Idle?
    ensures
      var m := RunOf(b, StepsIn(history));
      RunOf(b, StepsIn(history + Events(t, Disguised(a, m.state.active)))) == a.Effect(m)
  {
    var m := RunOf(b, StepsIn(history));
    var one, two, three := SetActive(true), a.AsStep(), SetActive(m.state.active);
    OneMoreStep(b, history, t, one);
    OneMoreStep(b, history + Events(t, [one]), t, two);
    OneMoreStep(b, history + Events(t, [one]) + Events(t, [two]), t, three);
    assert history + Events(t, [one]) + Events(t, [two]) + Events(t, [three]) == history + Events(t, [one, two, three]);
  }

  lemma EffectSends(a: Access, m: Machine)
    ensures a.Effect(m).state.log == m.state.log + NewMessages(m, a.Effect(m))
  {
  }

  lemma ContinueSends(b: Behaviour, m: Machine)
    ensures Stepped(b, m, Continue).state.log == m.state.log + NewMessages(m, Stepped(b, m, Continue))
  {
    var _ := StepSends(b, m, Continue);
  }

  lemma SendsNext(wire: seq<Sent>, unsent: seq<Message>)
    requires unsent != []
    ensures ResourcePart(wire + [AboutResource(unsent[0])]) + unsent[1..] == ResourcePart(wire) + unsent
  {
    assert unsent == [unsent[0]] + unsent[1..];
    assert ResourcePart(wire + [AboutResource(unsent[0])]) == ResourcePart(wire) + [unsent[0]];
  }

  lemma StartStaysOfARun(b: Behaviour, s: Session, t: nat)
    requires Locked(s) && OfARun(b, s) && t in s.threads && s.threads[t].point.Ready? && s.threads[t].calls != []
    ensures OfARun(b, StartCall(s, t))
  {
    var r := StartCall(s, t);
    assert Unsent(r) == Unsent(s);
    if s.threads[t].calls[0].Switch? {
      OneMoreStep(b, s.history, t, SetActive(s.threads[t].calls[0].enable));
    } else if s.threads[t].calls[0].SendOther? {
      assert ResourcePart(s.wire + [Other(t)]) == ResourcePart(s.wire) + [] == ResourcePart(s.wire);
    }
  }

  lemma UnderLockStaysOfARun(b: Behaviour, s: Session, t: nat)
    requires Locked(s) && OfARun(b, s) && t in s.threads && s.threads[t].point.Holding?
    ensures OfARun(b, UnderLock(b, s, t))
  {
    var p, m := s.threads[t].point, s.machine;
    if !p.entered {
      EffectIsSteps(b, s.history, t, p.left[0]);
      EffectSends(p.left[0], m);
      assert ResourcePart(s.wire) + [] == ResourcePart(s.wire);
    } else if p.unsent != [] {
      SendsNext(s.wire, p.unsent);
    } else if m.call.Transferring? {
      OneMoreStep(b, s.history, t, Continue);
      ContinueSends(b, m);
      assert ResourcePart(s.wire) + [] == ResourcePart(s.wire);
    }
  }

  lemma StaysOfARun(b: Behaviour, s: Session, t: nat)
    requires Locked(s) && OfARun(b, s)
    ensures OfARun(b, Exec(b, s, t))
  {
    if t in s.threads {
      match s.threads[t].point
      case Ready =>
        if s.threads[t].calls != [] {
          StartStaysOfARun(b, s, t);
        }
      case Between(_) =>
        assert ResourcePart(s.wire) + [] == ResourcePart(s.wire);
      case Holding(_, _, _) => UnderLockStaysOfARun(b, s, t);
    }
  }

  // ---------------------------------------------------------------- the order of a thread

  lemma {:induction false} AccessesByMore(history: seq<Event>, u: nat, steps: seq<Step>, t: nat)
    requires u != t
    ensures AccessesBy(history + Events(u, steps), t) == AccessesBy(history, t)
    decreases |steps|
  {
    if steps == [] {
      assert history + Events(u, steps) == history;
    } else {
      var n := |steps| - 1;
      var more := history + Events(u, steps);
      AccessesByMore(history, u, steps[..n], t);
      assert more[..|more| - 1] == history + Events(u, steps[..n]);
    }
  }

  lemma AccessesByOne(history: seq<Event>, t: nat, step: Step)
    ensures
      AccessesBy(history + Events(t, [step]), t)
      == AccessesBy(history, t) + if step.Reference? || step.Release? || step.Begin? then [step] else []
  {
    var more := history + Events(t, [step]);
    assert more[..|more| - 1] == history;
  }

  lemma AccessesByAccess(history: seq<Event>, t: nat, a: Access, active: bool)
    ensures AccessesBy(history + Events(t, Disguised(a, active)), t) == AccessesBy(history, t) + [a.AsStep()]
  {
    var one, two, three := SetActive(true), a.AsStep(), SetActive(active);
    AccessesByOne(history, t, one);
    AccessesByOne(history + Events(t, [one]), t, two);
    AccessesByOne(history + Events(t, [one]) + Events(t, [two]), t, three);
    assert history + Events(t, [one]) + Events(t, [two]) + Events(t, [three]) == history + Events(t, [one, two, three]);
  }

  lemma StartKeepsOrder(s: Session, t: nat, program: seq<Call>)
    requires t in s.threads && s.threads[t].point.Ready? && s.threads[t].calls != [] && ThreadInOrder(s, t, program)
    ensures ThreadInOrder(StartCall(s, t), t, program)
  {
    var th, n, r := s.threads[t], |s.threads[t].found|, StartCall(s, t);
    var found := r.threads[t].found;
    assert program[..n + 1][..n] == program[..n] && found[..n] == th.found && th.calls[0] == program[n];
    if th.calls[0].Switch? {
      AccessesByOne(s.history, t, SetActive(th.calls[0].enable));
    }
  }

  /** A move under the lock: what it adds to the history, and what then is left. */
  lemma UnderLockMoves(b: Behaviour, s: Session, t: nat) returns (steps: seq<Step>)
    requires Locked(s) && t in s.threads && s.threads[t].point.Holding?
    ensures
      var r, p := UnderLock(b, s, t), s.threads[t].point;
      && t in r.threads && r.threads[t].calls == s.threads[t].calls && r.threads[t].found == s.threads[t].found
      && r.history == s.history + Events(t, steps)
      && steps == (if !p.entered then Disguised(p.left[0], s.machine.state.active)
                   else if p.unsent == [] && s.machine.call.Transferring? then [Continue] else [])
      && Left(r.threads[t].point) == p.left[1..]
  {
    var p := s.threads[t].point;
    steps := if !p.entered then Disguised(p.left[0], s.machine.state.active)
      else if p.unsent == [] && s.machine.call.Transferring? then [Continue] else [];
  }

  /** A thread is where its accesses and what is left of them say. */
  lemma StillInOrder(s: Session, r: Session, t: nat, program: seq<Call>)
    requires t in s.threads && t in r.threads && ThreadInOrder(s, t, program)
    requires r.threads[t].calls == s.threads[t].calls && r.threads[t].found == s.threads[t].found
    requires
      AccessesBy(r.history, t) + AsSteps(Left(r.threads[t].point))
      == AccessesBy(s.history, t) + AsSteps(Left(s.threads[t].point))
    ensures ThreadInOrder(r, t, program)
  {
  }

  lemma FirstAccess(done: seq<Step>, left: seq<Access>)
    requires left != []
    ensures (done + [left[0].AsStep()]) + AsSteps(left[1..]) == done + AsSteps(left)
  {
    assert AsSteps(left) == [left[0].AsStep()] + AsSteps(left[1..]);
  }

  lemma NothingAdded(done: seq<Step>)
    ensures done + [] == done
  {
  }

  lemma UnderLockKeepsOrder(b: Behaviour, s: Session, t: nat, program: seq<Call>)
    requires Locked(s) && t in s.threads && s.threads[t].point.Holding? && ThreadInOrder(s, t, program)
    ensures t in UnderLock(b, s, t).threads && ThreadInOrder(UnderLock(b, s, t), t, program)
  {
    var p, r := s.threads[t].point, UnderLock(b, s, t);
    var steps := UnderLockMoves(b, s, t);
    if !p.entered {
      AccessesByAccess(s.history, t, p.left[0], s.machine.state.active);
      FirstAccess(AccessesBy(s.history, t), p.left);
    } else if steps != [] {
      AccessesByOne(s.history, t, Continue);
      NothingAdded(AccessesBy(s.history, t));
    } else {
      assert s.history + Events(t, []) == s.history;
    }
    StillInOrder(s, r, t, program);
  }

  /** The steps of the table that a thread takes in one move; other threads stay where they are. */
  lemma NewSteps(b: Behaviour, s: Session, t: nat) returns (steps: seq<Step>)
    ensures Exec(b, s, t).history == s.history + Events(t, steps)
    ensures Exec(b, s, t).threads.Keys == s.threads.Keys
    ensures forall u :: u in s.threads && u != t ==> Exec(b, s, t).threads[u] == s.threads[u]
  {
    var history := Exec(b, s, t).history;
    steps := if |history| == |s.history| then []
      else if |history| == |s.history| + 1 then [history[|s.history|].step]
      else Disguised(s.threads[t].point.left[0], s.machine.state.active);
  }

  lemma MoverStaysInOrder(b: Behaviour, s: Session, t: nat, program: seq<Call>)
    requires Locked(s) && t in s.threads && ThreadInOrder(s, t, program)
    ensures t in Exec(b, s, t).threads && ThreadInOrder(Exec(b, s, t), t, program)
  {
    match s.threads[t].point
    case Ready =>
      if s.threads[t].calls != [] {
        StartKeepsOrder(s, t, program);
      }
    case Between(_) => StillInOrder(s, Exec(b, s, t), t, program);
    case Holding(_, _, _) => UnderLockKeepsOrder(b, s, t, program);
  }

  lemma StaysInOrder(b: Behaviour, s: Session, t: nat, programs: map<nat, seq<Call>>)
    requires Locked(s) && InOrder(s, programs)
    ensures InOrder(Exec(b, s, t), programs)
  {
    var r := Exec(b, s, t);
    var steps := NewSteps(b, s, t);
    forall u | u in programs
      ensures ThreadInOrder(r, u, programs[u])
    {
      assert ThreadInOrder(s, u, programs[u]);
      if u == t {
        MoverStaysInOrder(b, s, t, programs[t]);
      } else {
        AccessesByMore(s.history, t, steps, u);
        StillInOrder(s, r, u, programs[u]);
      }
    }
  }

  lemma {:induction false} InvariantAlways(b: Behaviour, programs: map<nat, seq<Call>>, schedule: seq<nat>)
    ensures
      var s := Run(b, programs, schedule);
      Locked(s) && OfARun(b, s) && InOrder(s, programs)
  {
    if schedule != [] {
      var before := schedule[..|schedule| - 1];
      InvariantAlways(b, programs, before);
      var s, t := Run(b, programs, before), schedule[|schedule| - 1];
      LocksAgree(b, s, t);
      StaysOfARun(b, s, t);
      StaysInOrder(b, s, t, programs);
    }
  }

  // ---------------------------------------------------------------- the results

  predicate Done(s: Session) {
    forall t :: t in s.threads ==> s.threads[t].calls == [] && s.threads[t].point.Ready?
  }

  /** Whatever the threads and the schedule, and at any moment: the table is that of a run of the machine,
      and so are the messages on the wire, but for those that the thread with the lock is about to send.
      In the run are the accesses of each thread in program order, all of those of its calls that found
      the connection active once it is done. */
  lemma TableIsOfARun(b: Behaviour, programs: map<nat, seq<Call>>, schedule: seq<nat>)
    ensures
      var s := Run(b, programs, schedule);
      && RunOf(b, StepsIn(s.history)) == s.machine
      && ResourcePart(s.wire) + Unsent(s) == s.machine.state.log
      && (s.owner.None? ==> ResourcePart(s.wire) == s.machine.state.log && s.machine.call.Idle?)
      && s.threads.Keys == programs.Keys
      && forall t :: t in programs ==>
           var n := |s.threads[t].found|;
           && n <= |programs[t]|
           && AccessesBy(s.history, t) <= Accesses(programs[t][..n], s.threads[t].found)
           && (Done(s) ==> n == |programs[t]| && AccessesBy(s.history, t) == Accesses(programs[t], s.threads[t].found))
  {
    InvariantAlways(b, programs, schedule);
    var s := Run(b, programs, schedule);
    assert ResourcePart(s.wire) + [] == ResourcePart(s.wire);
    forall t | t in programs
      ensures
        var n := |s.threads[t].found|;
        && n <= |programs[t]|
        && AccessesBy(s.history, t) <= Accesses(programs[t][..n], s.threads[t].found)
        && (Done(s) ==> n == |programs[t]| && AccessesBy(s.history, t) == Accesses(programs[t], s.threads[t].found))
    {
      assert ThreadInOrder(s, t, programs[t]);
      assert programs[t][..|programs[t]|] == programs[t];
      assert AccessesBy(s.history, t) + [] == AccessesBy(s.history, t);
    }
  }

  lemma {:induction false} BrokenStays(b: Behaviour, log: seq<Message>, more: seq<Message>)
    requires !Unbroken(b, log)
    ensures !Unbroken(b, log + more)
    decreases |more|
  {
    if more == [] {
      assert log + more == log;
    } else {
      var n := |more| - 1;
      BrokenStays(b, log, more[..n]);
      var key :| PhaseOf(b, log + more[..n], key) == Broken;
      BrokenForGood(b, log + more[..n], more[n..], key);
      assert log + more == (log + more[..n]) + more[n..];
    }
  }

  /** Wire safety under every schedule: no receiver gets a message it has no use for, as long as no step of
      that run is one that breaks one; and if one is, some receiver is broken when the lock is free. */
  lemma SafeUnderEverySchedule(b: Behaviour, programs: map<nat, seq<Call>>, schedule: seq<nat>)
    ensures
      var s := Run(b, programs, schedule);
      && (Sensible(b, StepsIn(s.history)) ==> Unbroken(b, ResourcePart(s.wire)))
      && (s.owner.None? ==> (Unbroken(b, ResourcePart(s.wire)) <==> Sensible(b, StepsIn(s.history))))
      && (s.machine.state.failures == 0 ==> Unbroken(b, ResourcePart(s.wire)))
  {
    TableIsOfARun(b, programs, schedule);
    var s := Run(b, programs, schedule);
    WireIsSafeExactly(b, StepsIn(s.history));
    if s.machine.state.failures == 0 {
      WithoutFailureSafe(b, StepsIn(s.history));
    }
    if !Unbroken(b, ResourcePart(s.wire)) {
      BrokenStays(b, ResourcePart(s.wire), Unsent(s));
    }
  }

  lemma HolderMoves(b: Behaviour, s: Session, t: nat)
    requires Locked(s) && s.owner == Some(t)
    ensures Exec(b, s, t) != s
  {
    var r, p := Exec(b, s, t), s.threads[t].point;
    if p.entered && p.unsent == [] && s.machine.call.Transferring? {
      assert |r.history| == |s.history| + 1;
    } else if p.entered && p.unsent != [] {
      assert |r.wire| == |s.wire| + 1;
    } else {
      assert r.threads[t].point != p;
    }
  }

  lemma OthersMove(b: Behaviour, s: Session, t: nat)
    requires Locked(s) && s.owner.None? && t in s.threads && !(s.threads[t].calls == [] && s.threads[t].point.Ready?)
    ensures Exec(b, s, t) != s
  {
    var r := Exec(b, s, t);
    if s.threads[t].point.Ready? {
      assert |r.threads[t].calls| == |s.threads[t].calls| - 1;
    } else {
      assert r.threads[t].point != s.threads[t].point;
    }
  }

  /** No deadlock: while a thread is not done, some thread moves. */
  lemma SomeoneMoves(b: Behaviour, programs: map<nat, seq<Call>>, schedule: seq<nat>) returns (t: nat)
    requires !Done(Run(b, programs, schedule))
    ensures Exec(b, Run(b, programs, schedule), t) != Run(b, programs, schedule)
  {
    InvariantAlways(b, programs, schedule);
    var s := Run(b, programs, schedule);
    if s.owner.Some? {
      t := s.owner.value;
      HolderMoves(b, s, t);
    } else {
      t :| t in s.threads && !(s.threads[t].calls == [] && s.threads[t].point.Ready?);
      OthersMove(b, s, t);
    }
  }
}
