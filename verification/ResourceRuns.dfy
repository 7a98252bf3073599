/** Every run of a connection's resource operations, step by step, whatever its transfers do: the table
    is that of reference counters, and which steps send a receiver a message it has no use for. */
module ResourceRuns {
  import opened ResourceStates

  /** Whether somebody is in the loop of `updateTransfers`, with what limit and how far. The resource lock
      keeps all others out until the loop ends. */
  datatype Call = Idle | Transferring(byteLimit: nat, transferred: nat)

  datatype Machine = Machine(state: State, call: Call)

  /** What can happen next: an operation, or the next turn of the transfer loop, which may be its last.
      The active flag is under no lock. */
  datatype Step =
    | Reference(resource: Resource)
    | Release(key: nat)
    | SetActive(enable: bool)
    | Begin(byteLimit: nat)
    | Continue

  /** An operation that takes the resource lock gets in only when nobody is in the loop. */
  function Stepped(b: Behaviour, m: Machine, step: Step): Machine {
    match step
    case Reference(r) => if m.call.Idle? then m.(state := Referenced(m.state, r)) else m
    case Release(key) => if m.call.Idle? then m.(state := Released(m.state, key)) else m
    case SetActive(enable) => m.(state := m.state.(active := enable))
    case Begin(limit) => if m.call.Idle? && m.state.active then m.(call := Transferring(limit, 0)) else m
    case Continue =>
      if m.call.Idle? then m
      else if More(Work(m.state, m.call.transferred), m.call.byteLimit) then
        var w := Round(b, Work(m.state, m.call.transferred), m.call.byteLimit);
        Machine(w.state, Transferring(m.call.byteLimit, w.transferred))
      else m.(call := Idle)
  }

  function RunOf(b: Behaviour, steps: seq<Step>): Machine {
    if steps == [] then Machine(Start(), Idle)
    else Stepped(b, RunOf(b, steps[..|steps| - 1]), steps[|steps| - 1])
  }

  lemma RunOneMore(b: Behaviour, steps: seq<Step>, step: Step)
    ensures RunOf(b, steps + [step]) == Stepped(b, RunOf(b, steps), step)
  {
    var more := steps + [step];
    assert more[..|more| - 1] == steps;
  }

  // ---------------------------------------------------------------- bookkeeping, in every run

  /** How many references a key should have: a counter that stops at zero, of the operations that got in
      while the connection was active. */
  function Count(b: Behaviour, steps: seq<Step>, key: nat): nat {
    if steps == [] then 0
    else
      var before, step := steps[..|steps| - 1], steps[|steps| - 1];
      var m, count := RunOf(b, before), Count(b, before, key);
      if !m.state.active || !m.call.Idle? then count
      else if step.Reference? && step.resource.key == key then count + 1
      else if step.Release? && step.key == key && count > 0 then count - 1
      else count
  }

  function ReferenceCount(s: State, key: nat): nat {
    if key in s.resources then s.resources[key].referenceCount else 0
  }

  /** A resource off the queue is announced before the loop can end: that uses up no bytes. */
  predicate AnnouncesInTime(m: Machine) {
    AtRest(m.state) || (m.call.Transferring? && More(Work(m.state, m.call.transferred), m.call.byteLimit))
  }

  predicate Sound(m: Machine) {
    Bookkept(m.state) && AnnouncesInTime(m)
  }

  lemma RoundIsBookkept(b: Behaviour, w: Work, byteLimit: nat)
    requires Bookkept(w.state) && More(w, byteLimit)
    ensures Bookkept(Round(b, w, byteLimit).state)
    ensures AtRest(Round(b, w, byteLimit).state) || More(Round(b, w, byteLimit), byteLimit)
  {
    if w.state.packer.current.Nothing? {
      PopIsBookkept(w.state);
    } else {
      var left := if byteLimit != 0 then byteLimit - w.transferred else 0;
      PackIsBookkept(b, w.state, left);
      assert Round(b, w, byteLimit).state == Pack(b, w.state, left);
    }
  }

  lemma SetActiveKeeps(b: Behaviour, s: State, enable: bool)
    requires Bookkept(s)
    ensures Bookkept(s.(active := enable))
    ensures Known(b, s) ==> Known(b, s.(active := enable))
  {
    var t := s.(active := enable);
    forall key | key in t.resources
      ensures EntryOk(t, key)
    {
      assert EntryOk(s, key);
    }
    if Known(b, s) {
      forall key: nat
        ensures KnownAt(b, t, key)
      {
        assert KnownAt(b, s, key);
      }
    }
  }

  lemma StepIsSound(b: Behaviour, m: Machine, step: Step)
    requires Sound(m)
    ensures Sound(Stepped(b, m, step))
  {
    match step
    case Reference(r) => ReferencedKeeps(b, m.state, r);
    case Release(key) => ReleasedIsBookkept(m.state, key);
    case SetActive(enable) => SetActiveKeeps(b, m.state, enable);
    case Begin(limit) =>
    case Continue =>
      if m.call.Transferring? {
        var w := Work(m.state, m.call.transferred);
        if More(w, m.call.byteLimit) {
          RoundIsBookkept(b, w, m.call.byteLimit);
        }
      }
  }

  lemma RoundKeepsCounts(b: Behaviour, w: Work, byteLimit: nat, key: nat)
    requires More(w, byteLimit)
    ensures ReferenceCount(Round(b, w, byteLimit).state, key) == ReferenceCount(w.state, key)
  {
  }

  lemma ReferencedCounts(s: State, r: Resource, key: nat)
    ensures ReferenceCount(Referenced(s, r), key) == ReferenceCount(s, key) + if s.active && r.key == key then 1 else 0
  {
  }

  lemma ReleasedCounts(s: State, k: nat, key: nat)
    requires Bookkept(s)
    ensures
      var count := ReferenceCount(s, key);
      ReferenceCount(Released(s, k), key) == if s.active && k == key && count > 0 then count - 1 else count
  {
    assert key in s.resources ==> EntryOk(s, key);
  }

  /** In every run, whatever transfers do and whether they ever complete: an entry for each key with
      references, with their number, and its flags and the queue as they should be. */
  lemma {:induction false} RunIsCounted(b: Behaviour, steps: seq<Step>, key: nat)
    ensures Sound(RunOf(b, steps)) && ReferenceCount(RunOf(b, steps).state, key) == Count(b, steps, key)
    ensures key in RunOf(b, steps).state.resources <==> Count(b, steps, key) > 0
  {
    if steps != [] {
      var before, step := steps[..|steps| - 1], steps[|steps| - 1];
      var m := RunOf(b, before);
      RunIsCounted(b, before, key);
      StepIsSound(b, m, step);
      match step
      case Reference(r) => ReferencedCounts(m.state, r, key);
      case Release(k) => ReleasedCounts(m.state, k, key);
      case SetActive(enable) =>
      case Begin(limit) =>
      case Continue =>
        if m.call.Transferring? && More(Work(m.state, m.call.transferred), m.call.byteLimit) {
          RoundKeepsCounts(b, Work(m.state, m.call.transferred), m.call.byteLimit, key);
        }
    }
    var s := RunOf(b, steps).state;
    assert key in s.resources ==> EntryOk(s, key);
  }

  // ---------------------------------------------------------------- first come, first served

  /** The keys that were referenced while they had no references, in that order. */
  function NewKeys(b: Behaviour, steps: seq<Step>): seq<nat> {
    if steps == [] then []
    else
      var before, step := steps[..|steps| - 1], steps[|steps| - 1];
      var m := RunOf(b, before);
      NewKeys(b, before)
      + if step.Reference? && m.state.active && m.call.Idle? && Count(b, before, step.resource.key) == 0
        then [step.resource.key] else []
  }

  /** The keys that were announced. */
  function CreatedKeys(log: seq<Message>): seq<nat> {
    if log == [] then []
    else
      var last := log[|log| - 1];
      CreatedKeys(log[..|log| - 1]) + if last.CreateMessage? then [last.resource.key] else []
  }

  /** And the one that is about to be. */
  function Announced(s: State): seq<nat> {
    CreatedKeys(s.log)
    + if s.packer.current.Packing? && !s.packer.started then [s.packer.current.resource.key] else []
  }

  /** Some of these, in their order. */
  predicate Among(some: seq<nat>, all: seq<nat>) {
    some == []
    || (all != []
        && (Among(some, all[..|all| - 1])
            || (some[|some| - 1] == all[|all| - 1] && Among(some[..|some| - 1], all[..|all| - 1]))))
  }

  lemma AmongMore(some: seq<nat>, all: seq<nat>, key: nat)
    requires Among(some, all)
    ensures Among(some, all + [key]) && Among(some + [key], all + [key])
  {
    assert (some + [key])[..|some|] == some && (all + [key])[..|all|] == all;
  }

  lemma {:induction false} AmongFewer(some: seq<nat>, all: seq<nat>)
    requires some != [] && Among(some, all)
    ensures Among(some[..|some| - 1], all)
    decreases all
  {
    if Among(some, all[..|all| - 1]) {
      AmongFewer(some, all[..|all| - 1]);
    }
  }

  lemma CreatedOneMore(log: seq<Message>, m: Message)
    ensures CreatedKeys(log + [m]) == CreatedKeys(log) + if m.CreateMessage? then [m.resource.key] else []
  {
    assert (log + [m])[..|log|] == log;
  }

  /** What a release does to the announced keys: nothing, or one that is about to be will not. */
  lemma ReleasedAnnounces(s: State, key: nat)
    ensures Released(s, key).queue == s.queue
    ensures
      || Announced(Released(s, key)) == Announced(s)
      || (Announced(s) != [] && Announced(Released(s, key)) == Announced(s)[..|Announced(s)| - 1])
  {
    var r, created := Released(s, key), CreatedKeys(s.log);
    if r.log != s.log {
      CreatedOneMore(s.log, r.log[|s.log|]);
      assert created + [] == created;
    }
    assert CreatedKeys(r.log) == created;
    if s.packer.current.Packing? && !s.packer.started {
      assert (created + [s.packer.current.resource.key])[..|created|] == created == created + [];
    }
  }

  lemma ReleaseAnnouncesNone(s: State, key: nat, announced: seq<nat>, keys: seq<nat>)
    requires announced == Announced(s) && Among(announced, keys)
    ensures Among(Announced(Released(s, key)), keys) && Released(s, key).queue == s.queue
  {
    ReleasedAnnounces(s, key);
    if Announced(Released(s, key)) != announced {
      AmongFewer(announced, keys);
    }
  }

  predicate Named(s: State, key: nat) {
    key in s.resources ==> s.resources[key].resource.key == key
  }

  lemma PoppedAnnounces(s: State)
    requires s.queue != [] && s.packer.current.Nothing? && Named(s, s.queue[0])
    ensures Pop(s).queue == s.queue[1..]
    ensures Announced(Pop(s)) == Announced(s) || Announced(Pop(s)) == Announced(s) + [s.queue[0]]
  {
    assert CreatedKeys(s.log) + [] == CreatedKeys(s.log);
  }

  lemma PackAnnounces(b: Behaviour, s: State, limit: nat)
    requires s.packer.current.Packing?
    ensures Announced(Pack(b, s, limit)) == Announced(s) && Pack(b, s, limit).queue == s.queue
  {
    var messages := NextPacket(b, s.packer, limit).messages;
    if messages == [] {
      assert s.log + messages == s.log;
    } else {
      assert messages == [messages[0]];
      CreatedOneMore(s.log, messages[0]);
    }
  }

  /** A turn of the loop takes the next key of the queue, or none. */
  lemma RoundTakes(b: Behaviour, w: Work, byteLimit: nat) returns (next: seq<nat>)
    requires More(w, byteLimit) && (w.state.queue != [] ==> Named(w.state, w.state.queue[0]))
    ensures |next| <= 1 && next + Round(b, w, byteLimit).state.queue == w.state.queue
    ensures
      var s := Round(b, w, byteLimit).state;
      Announced(s) == Announced(w.state) || (next != [] && Announced(s) == Announced(w.state) + next)
  {
    if w.state.packer.current.Nothing? {
      next := [w.state.queue[0]];
      PoppedAnnounces(w.state);
    } else {
      next := [];
      var left := if byteLimit != 0 then byteLimit - w.transferred else 0;
      PackAnnounces(b, w.state, left);
    }
  }

  lemma AmongNext(some: seq<nat>, all: seq<nat>, next: seq<nat>, now: seq<nat>)
    requires Among(some, all) && |next| <= 1 && (now == some || (next != [] && now == some + next))
    ensures Among(now, all + next)
  {
    if next == [] {
      assert all + next == all;
    } else {
      AmongMore(some, all, next[0]);
      assert next == [next[0]];
    }
  }

  /** In every run, keys wait in the order in which they were referenced, and are announced in that order. */
  lemma {:induction false} AnnouncedInOrder(b: Behaviour, steps: seq<Step>) returns (taken: nat)
    ensures
      var keys, s := NewKeys(b, steps), RunOf(b, steps).state;
      taken <= |keys| && s.queue == keys[taken..] && Among(Announced(s), keys[..taken])
  {
    taken := 0;
    if steps != [] {
      var before, step := steps[..|steps| - 1], steps[|steps| - 1];
      taken := AnnouncedInOrder(b, before);
      taken := NextInOrder(b, before, step, taken);
      assert steps == before + [step];
    }
  }

  lemma NextInOrder(b: Behaviour, before: seq<Step>, step: Step, taken: nat) returns (now: nat)
    requires
      var keys, s := NewKeys(b, before), RunOf(b, before).state;
      taken <= |keys| && s.queue == keys[taken..] && Among(Announced(s), keys[..taken])
    ensures
      var keys, s := NewKeys(b, before + [step]), RunOf(b, before + [step]).state;
      now <= |keys| && s.queue == keys[now..] && Among(Announced(s), keys[..now])
  {
    var m, keys := RunOf(b, before), NewKeys(b, before);
    now := taken;
    RunOneMore(b, before, step);
    NewKeysOneMore(b, before, step);
    match step
    case Reference(r) =>
      RunIsCounted(b, before, r.key);
      assert (keys + [r.key])[..taken] == keys[..taken] && (keys + [r.key])[taken..] == keys[taken..] + [r.key];
      assert keys + [] == keys;
    case Release(key) =>
      assert keys + [] == keys;
      ReleaseAnnouncesNone(m.state, key, Announced(m.state), keys[..taken]);
    case SetActive(enable) => assert keys + [] == keys;
    case Begin(limit) => assert keys + [] == keys;
    case Continue =>
      assert keys + [] == keys;
      RunIsCounted(b, before, 0);
      if m.call.Transferring? && More(Work(m.state, m.call.transferred), m.call.byteLimit) {
        now := RoundInOrder(b, Work(m.state, m.call.transferred), m.call.byteLimit, keys, taken);
      }
  }

  lemma RoundInOrder(b: Behaviour, w: Work, byteLimit: nat, keys: seq<nat>, taken: nat) returns (now: nat)
    requires More(w, byteLimit) && Bookkept(w.state)
    requires taken <= |keys| && w.state.queue == keys[taken..] && Among(Announced(w.state), keys[..taken])
    ensures
      var s := Round(b, w, byteLimit).state;
      now <= |keys| && s.queue == keys[now..] && Among(Announced(s), keys[..now])
  {
    if w.state.queue != [] && w.state.queue[0] in w.state.resources {
      assert EntryOk(w.state, w.state.queue[0]);
    }
    var next := RoundTakes(b, w, byteLimit);
    var v := Round(b, w, byteLimit);
    now := NextTaken(keys, taken, next, v.state.queue, Announced(w.state), Announced(v.state));
  }

  lemma NextTaken(keys: seq<nat>, taken: nat, next: seq<nat>, rest: seq<nat>, some: seq<nat>, after: seq<nat>)
    returns (now: nat)
    requires taken <= |keys| && |next| <= 1 && next + rest == keys[taken..]
    requires Among(some, keys[..taken]) && (after == some || (next != [] && after == some + next))
    ensures now <= |keys| && rest == keys[now..] && Among(after, keys[..now])
  {
    AmongNext(some, keys[..taken], next, after);
    now := taken + |next|;
    TakeNext(keys, taken, next, rest);
  }

  lemma TakeNext(keys: seq<nat>, taken: nat, next: seq<nat>, rest: seq<nat>)
    requires taken <= |keys| && next + rest == keys[taken..]
    ensures taken + |next| <= |keys|
    ensures keys[..taken + |next|] == keys[..taken] + next && keys[taken + |next|..] == rest
  {
    var now := taken + |next|;
    assert |next| + |rest| == |keys| - taken;
    assert keys[now..] == keys[taken..][|next|..] == rest;
    assert keys[taken..now] == keys[taken..][..|next|] == next;
  }

  lemma NewKeysOneMore(b: Behaviour, before: seq<Step>, step: Step)
    ensures
      var m := RunOf(b, before);
      NewKeys(b, before + [step])
      == NewKeys(b, before)
         + if step.Reference? && m.state.active && m.call.Idle? && Count(b, before, step.resource.key) == 0
           then [step.resource.key] else []
  {
    assert (before + [step])[..|before|] == before;
  }

  // ---------------------------------------------------------------- wire safety, exactly

  /** The steps that break a receiver: releasing the last reference to an entry that a failed transfer had
      marked as sent before it was started, and announcing again what failed before. */
  predicate Breaks(m: Machine, step: Step) {
    || (step.Release? && m.call.Idle? && ReleaseBreaks(m.state, step.key))
    || (step.Continue? && m.call.Transferring? && More(Work(m.state, m.call.transferred), m.call.byteLimit)
        && PackBreaks(m.state))
  }

  /** No step of the run is one of those. */
  ghost predicate Sensible(b: Behaviour, steps: seq<Step>) {
    forall i :: 0 <= i < |steps| ==> !Breaks(RunOf(b, steps[..i]), steps[i])
  }

  lemma RoundKeepsKnown(b: Behaviour, w: Work, byteLimit: nat)
    requires Bookkept(w.state) && Known(b, w.state) && More(w, byteLimit)
    ensures !PackBreaks(w.state) ==> Known(b, Round(b, w, byteLimit).state)
    ensures PackBreaks(w.state) ==> !Unbroken(b, Round(b, w, byteLimit).state.log)
  {
    if w.state.packer.current.Nothing? {
      PopKeeps(b, w.state);
    } else {
      var left := if byteLimit != 0 then byteLimit - w.transferred else 0;
      PackKeeps(b, w.state, left);
      assert Round(b, w, byteLimit).state == Pack(b, w.state, left);
    }
  }

  /** From any state that no receiver is broken in, the next step breaks one exactly if it is one of
      those; else receivers know what they should. */
  lemma StepBreaksExactly(b: Behaviour, m: Machine, step: Step)
    requires Sound(m) && Known(b, m.state)
    ensures !Breaks(m, step) ==> Known(b, Stepped(b, m, step).state)
    ensures Breaks(m, step) ==> !Unbroken(b, Stepped(b, m, step).state.log)
  {
    match step
    case Reference(r) => ReferencedKeeps(b, m.state, r);
    case Release(key) =>
      if m.call.Idle? {
        ReleasedKeeps(b, m.state, key);
      }
    case SetActive(enable) => SetActiveKeeps(b, m.state, enable);
    case Begin(limit) =>
    case Continue =>
      if m.call.Transferring? && More(Work(m.state, m.call.transferred), m.call.byteLimit) {
        RoundKeepsKnown(b, Work(m.state, m.call.transferred), m.call.byteLimit);
      }
  }

  /** Every step sends at most one message. */
  lemma StepSends(b: Behaviour, m: Machine, step: Step) returns (more: seq<Message>)
    ensures Stepped(b, m, step).state.log == m.state.log + more && |more| <= 1
  {
    var log, after := m.state.log, Stepped(b, m, step).state.log;
    more := if |after| > |log| then [after[|log|]] else [];
  }

  lemma StepStaysBroken(b: Behaviour, m: Machine, step: Step)
    requires !Unbroken(b, m.state.log)
    ensures !Unbroken(b, Stepped(b, m, step).state.log)
  {
    var key :| PhaseOf(b, m.state.log, key) == Broken;
    var more := StepSends(b, m, step);
    BrokenForGood(b, m.state.log, more, key);
  }

  /** Wire safety over every run, failed transfers and all: no receiver ever got a message it has no use
      for, exactly if no step of the run was one of those that break one. */
  lemma {:induction false} WireIsSafeExactly(b: Behaviour, steps: seq<Step>)
    ensures Unbroken(b, RunOf(b, steps).state.log) <==> Sensible(b, steps)
    ensures Sensible(b, steps) ==> Known(b, RunOf(b, steps).state)
  {
    if steps == [] {
      StartKeeps(b);
      KnownIsUnbroken(b, Start());
    } else {
      var before, step := steps[..|steps| - 1], steps[|steps| - 1];
      var m := RunOf(b, before);
      WireIsSafeExactly(b, before);
      RunIsCounted(b, before, 0);
      SensibleOneMore(b, before, step);
      assert steps == before + [step];
      if !Unbroken(b, m.state.log) {
        StepStaysBroken(b, m, step);
      } else {
        StepBreaksExactly(b, m, step);
        if !Breaks(m, step) {
          KnownIsUnbroken(b, Stepped(b, m, step).state);
        }
      }
    }
  }

  lemma SensibleOneMore(b: Behaviour, before: seq<Step>, step: Step)
    ensures Sensible(b, before + [step]) <==> Sensible(b, before) && !Breaks(RunOf(b, before), step)
  {
    var steps := before + [step];
    assert steps[..|before|] == before;
    forall i | 0 <= i < |before|
      ensures steps[..i] == before[..i] && steps[i] == before[i]
    {
    }
    if Sensible(b, steps) {
      assert !Breaks(RunOf(b, steps[..|before|]), steps[|before|]);
      forall i | 0 <= i < |before|
        ensures !Breaks(RunOf(b, before[..i]), before[i])
      {
        assert !Breaks(RunOf(b, steps[..i]), steps[i]);
      }
    }
  }

  /** Failures are never forgotten. */
  lemma {:induction false} FailuresGrow(b: Behaviour, steps: seq<Step>, i: nat)
    requires i <= |steps|
    ensures RunOf(b, steps[..i]).state.failures <= RunOf(b, steps).state.failures
  {
    if i < |steps| {
      var before := steps[..|steps| - 1];
      FailuresGrow(b, before, i);
      assert before[..i] == steps[..i];
    } else {
      assert steps[..i] == steps;
    }
  }

  /** In particular, a run in which no transfer failed is safe. */
  lemma WithoutFailureSafe(b: Behaviour, steps: seq<Step>)
    requires RunOf(b, steps).state.failures == 0
    ensures Sensible(b, steps) && Unbroken(b, RunOf(b, steps).state.log)
  {
    forall i | 0 <= i < |steps|
      ensures !Breaks(RunOf(b, steps[..i]), steps[i])
    {
      FailuresGrow(b, steps, i);
      RunIsCounted(b, steps[..i], 0);
      var s := RunOf(b, steps[..i]).state;
      if steps[i].Release? && steps[i].key in s.resources {
        assert EntryOk(s, steps[i].key);
      }
    }
    WireIsSafeExactly(b, steps);
  }

  // ---------------------------------------------------------------- rounds as steps

  function Continues(n: nat): seq<Step> {
    seq(n, _ => Continue)
  }

  /** Rounds of the transfer loop that were all called for are turns of the machine. */
  lemma {:induction false} RoundsAreSteps(b: Behaviour, steps: seq<Step>, s: State, byteLimit: nat, n: nat)
    requires RunOf(b, steps) == Machine(s, Idle) && s.active
    requires AllCalledFor(b, Work(s, 0), byteLimit, n)
    ensures
      var w := Rounds(b, Work(s, 0), byteLimit, n);
      RunOf(b, steps + [Begin(byteLimit)] + Continues(n)) == Machine(w.state, Transferring(byteLimit, w.transferred))
    decreases n
  {
    var begun := steps + [Begin(byteLimit)];
    if n == 0 {
      RunOneMore(b, steps, Begin(byteLimit));
      assert begun + Continues(0) == begun;
    } else {
      RoundsAreSteps(b, steps, s, byteLimit, n - 1);
      var v := Rounds(b, Work(s, 0), byteLimit, n - 1);
      assert More(v, byteLimit) && Rounds(b, Work(s, 0), byteLimit, n) == Round(b, v, byteLimit);
      RunOneMore(b, begun + Continues(n - 1), Continue);
      assert begun + Continues(n) == (begun + Continues(n - 1)) + [Continue];
    }
  }

  // ---------------------------------------------------------------- two runs that break a receiver

  /** Resources complete with their first data packet, but the second cannot be transferred. */
  function SecondFails(): Behaviour {
    Behaviour(r => 20, (r: Resource, limit: nat, p: TransferProgress) =>
      Outcome(if r.key == 2 then 1 else 0, 20, TransferProgress(1, 0, true, false)))
  }

  function Entry(r: Resource, started: bool, sent: bool): ResourceInfo {
    ResourceInfo(r, 1, started, sent)
  }

  lemma Extend(b: Behaviour, steps: seq<Step>, m: Machine, step: Step) returns (more: seq<Step>, after: Machine)
    requires RunOf(b, steps) == m
    ensures more == steps + [step] && after == Stepped(b, m, step) && RunOf(b, more) == after
  {
    RunOneMore(b, steps, step);
    more, after := steps + [step], Stepped(b, m, step);
  }

  /** A resource whose key is in the queue twice, because it was released and referenced again before its
      turn. */
  lemma RetryStart() returns (steps: seq<Step>, m: Machine)
    ensures m == RunOf(SecondFails(), steps) && m.call == Transferring(0, 0) && m.state.active
    ensures m.state.queue == [2, 2] && m.state.packer.current.Nothing?
    ensures m.state.failed == {} && 2 in m.state.resources
      && m.state.resources[2] == Entry(Resource(2, 0), false, false)
  {
    var b, r := SecondFails(), Resource(2, 0);
    steps, m := [], Machine(Start(), Idle);
    steps, m := Extend(b, steps, m, Reference(r));
    steps, m := Extend(b, steps, m, Release(2));
    assert m.state.resources == map[];
    steps, m := Extend(b, steps, m, Reference(r));
    steps, m := Extend(b, steps, m, Begin(0));
  }

  /** Its transfer fails, and the second key announces it again. */
  lemma RetryExample() returns (steps: seq<Step>)
    ensures !Sensible(SecondFails(), steps) && !Unbroken(SecondFails(), RunOf(SecondFails(), steps).state.log)
  {
    var b, m := SecondFails(), Machine(Start(), Idle);
    steps, m := RetryStart();
    steps, m := Extend(b, steps, m, Continue);
    steps, m := Extend(b, steps, m, Continue);
    steps, m := Extend(b, steps, m, Continue);
    assert m.state.queue == [2] && m.state.failed == {2} && m.state.packer.current.Nothing?;
    steps, m := Extend(b, steps, m, Continue);
    assert Breaks(m, Continue);
    var before := steps;
    SensibleOneMore(b, before, Continue);
    steps, m := Extend(b, steps, m, Continue);
    WireIsSafeExactly(b, steps);
  }

  /** The first resource is transferred, released and referenced again behind two others. */
  lemma StaleStart() returns (steps: seq<Step>, m: Machine)
    ensures m == RunOf(SecondFails(), steps) && m.call.Idle? && m.state.active
    ensures m.state.queue == [2, 3, 1] && m.state.packer.current.Nothing? && m.state.packer.lastCompleted == 1
    ensures 1 in m.state.resources && m.state.resources[1] == Entry(Resource(1, 0), false, false)
    ensures 2 in m.state.resources && m.state.resources[2] == Entry(Resource(2, 0), false, false)
    ensures 3 in m.state.resources && m.state.resources[3] == Entry(Resource(3, 0), false, false)
  {
    var b, r := SecondFails(), Resource(1, 0);
    steps, m := [], Machine(Start(), Idle);
    steps, m := Extend(b, steps, m, Reference(r));
    steps, m := Extend(b, steps, m, Begin(0));
    steps, m := Extend(b, steps, m, Continue);
    steps, m := Extend(b, steps, m, Continue);
    steps, m := Extend(b, steps, m, Continue);
    assert m.state.resources == map[1 := Entry(r, true, true)] && m.state.queue == [];
    steps, m := Extend(b, steps, m, Continue);
    steps, m := Extend(b, steps, m, Release(1));
    assert m.state.resources == map[];
    steps, m := Extend(b, steps, m, Reference(Resource(2, 0)));
    steps, m := Extend(b, steps, m, Reference(Resource(3, 0)));
    steps, m := Extend(b, steps, m, Reference(r));
  }

  /** Of those two one fails, and the byte limit is used up before the first has its turn again. It is
      marked as sent, and releasing it destroys what was not created since. */
  lemma StaleExample() returns (steps: seq<Step>)
    ensures !Sensible(SecondFails(), steps) && !Unbroken(SecondFails(), RunOf(SecondFails(), steps).state.log)
  {
    var b, m := SecondFails(), Machine(Start(), Idle);
    steps, m := StaleStart();
    steps, m := Extend(b, steps, m, Begin(21));
    steps, m := Extend(b, steps, m, Continue);
    steps, m := Extend(b, steps, m, Continue);
    steps, m := Extend(b, steps, m, Continue);
    assert WronglySent(m.state, 1) && m.state.queue == [3, 1] && m.call == Transferring(21, 20);
    steps, m := Extend(b, steps, m, Continue);
    steps, m := Extend(b, steps, m, Continue);
    assert m.call == Transferring(21, 40);
    steps, m := Extend(b, steps, m, Continue);
    assert Breaks(m, Release(1));
    var before := steps;
    SensibleOneMore(b, before, Release(1));
    steps, m := Extend(b, steps, m, Release(1));
    WireIsSafeExactly(b, steps);
  }
}
