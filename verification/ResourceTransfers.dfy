/** The programs whose states and steps `ResourceStates` describes: `3escore/ResourcePacker.cpp` and
    the resource operations of `3escore/BaseConnection.cpp`, and every run of them. */
module ResourceTransfers {
  import opened Bytes
  import opened ResourceStates
  import opened ResourceRuns

  class ResourcePacker {
    var resource: Current
    var progress: TransferProgress
    var started: bool
    var lastCompletedId: nat

    function View(): Packer
      reads this
    {
      Packer(resource, progress, started, lastCompletedId)
    }

    constructor ()
      ensures View() == Packer(Nothing, Reset(), false, 0)
    {
      resource, progress, started, lastCompletedId := Nothing, Reset(), false, 0;
    }

    /** Drop the current resource; the last completed id stays. */
    method Cancel()
      modifies this
      ensures View() == Cancelled(old(View()))
    {
      progress := Reset();
      resource := Nothing;
      started := false;
    }

    method Transfer(r: Resource)
      modifies this
      ensures View() == Packer(Packing(r), Reset(), false, old(lastCompletedId))
    {
      Cancel();
      resource := Packing(r);
    }

    /** Write the next packet of the current resource, if there is one. */
    method NextPacket(b: Behaviour, byteLimit: nat) returns (messages: seq<Message>, size: nat, failed: bool)
      modifies this
      ensures Packed(View(), messages, size, failed) == ResourceStates.NextPacket(b, old(View()), byteLimit)
    {
      messages, size, failed := [], 0, false;
      if resource.Nothing? {
        return;
      }
      if !started {
        messages, size := [CreateMessage(resource.resource)], b.createSize(resource.resource);
        started := true;
        return;
      }
      var from, outcome := progress, b.transfer(resource.resource, byteLimit, progress);
      progress := outcome.progress;
      if outcome.status != 0 {
        failed := true;
        resource := Nothing;
        progress := Reset();
        return;
      }
      messages, size := [DataMessage(resource.resource, byteLimit, from)], outcome.size;
      if progress.complete || progress.failed {
        lastCompletedId := resource.resource.key;
        resource := Nothing;
        progress := Reset();
      }
    }
  }

  /** `rank` bounds how many more packets a transfer takes. It is negative on progress that no
      transfer reaches, where nothing is asked. */
  ghost predicate Completes(b: Behaviour, rank: (Resource, TransferProgress) -> int) {
    && (forall r: Resource :: rank(r, Reset()) >= 0)
    && forall r: Resource, limit: nat, p: TransferProgress :: rank(r, p) >= 0 ==>
         var o := b.transfer(r, limit, p);
         o.status != 0 || o.progress.complete || o.progress.failed || 0 <= rank(r, o.progress) < rank(r, p)
  }

  /** The transfer under way is one that `rank` is about. */
  ghost predicate Ranked(p: Packer, rank: (Resource, TransferProgress) -> int) {
    p.current.Packing? ==> rank(p.current.resource, p.progress) >= 0
  }

  /** With such a limit the count of bytes reaches it, as it cannot wrap around before. */
  predicate EndsByBytes(byteLimit: nat) {
    0 < byteLimit <= 0xFFFF_0001
  }

  function Budget(byteLimit: nat, transferred: nat): int {
    if EndsByBytes(byteLimit) then byteLimit - transferred else 0
  }

  ghost function PacketsLeft(p: Packer, rank: (Resource, TransferProgress) -> int): int {
    if p.current.Packing? then rank(p.current.resource, p.progress) else 0
  }

  /** One round uses up bytes of the limit, or takes a key off the queue, or finishes a resource, or
      announces it, or comes closer to its last packet. */
  ghost predicate GetsOn(w: Work, v: Work, byteLimit: nat, rank: (Resource, TransferProgress) -> int) {
    var before, after := w.state.packer, v.state.packer;
    || 0 <= Budget(byteLimit, v.transferred) < Budget(byteLimit, w.transferred)
    || Budget(byteLimit, v.transferred) < 0 < Budget(byteLimit, w.transferred)
    || (Budget(byteLimit, v.transferred) == Budget(byteLimit, w.transferred)
        && (|| |v.state.queue| < |w.state.queue|
            || (v.state.queue == w.state.queue && before.current.Packing?
                && (|| after.current.Nothing?
                    || (!before.started && after.started)
                    || (before.started && after.started
                      && 0 <= PacketsLeft(after, rank) < PacketsLeft(before, rank))))))
  }

  /** Every round gets on. */
  lemma RoundGetsOn(b: Behaviour, w: Work, byteLimit: nat, rank: (Resource, TransferProgress) -> int)
    requires More(w, byteLimit)
    requires EndsByBytes(byteLimit) || (Completes(b, rank) && Ranked(w.state.packer, rank))
    ensures Completes(b, rank) && Ranked(w.state.packer, rank) ==> Ranked(Round(b, w, byteLimit).state.packer, rank)
    ensures GetsOn(w, Round(b, w, byteLimit), byteLimit, rank)
  {
  }

  /** The loop has come this far from a state, every round of it called for. */
  ghost predicate Looping(b: Behaviour, s: State, byteLimit: nat, rank: (Resource, TransferProgress) -> int,
      rounds: nat, end: Work)
  {
    && end == Rounds(b, Work(s, 0), byteLimit, rounds) && AllCalledFor(b, Work(s, 0), byteLimit, rounds)
    && (Completes(b, rank) && Ranked(s.packer, rank) ==> Ranked(end.state.packer, rank))
  }

  lemma LoopingGoesOn(b: Behaviour, s: State, byteLimit: nat, rank: (Resource, TransferProgress) -> int, rounds: nat,
      end: Work)
    requires Looping(b, s, byteLimit, rank, rounds, end) && More(end, byteLimit)
    requires EndsByBytes(byteLimit) || (Completes(b, rank) && Ranked(s.packer, rank))
    ensures Looping(b, s, byteLimit, rank, rounds + 1, Round(b, end, byteLimit))
    ensures GetsOn(end, Round(b, end, byteLimit), byteLimit, rank)
  {
    OneMoreRound(b, Work(s, 0), byteLimit, rounds, end);
    RoundGetsOn(b, end, byteLimit, rank);
  }

  class ResourceConnection {
    const behaviour: Behaviour
    const packer: ResourcePacker
    var active: bool
    var resources: map<nat, ResourceInfo>
    var queue: seq<nat>
    var log: seq<Message>
    var failures: nat
    ghost var failed: set<nat>

    ghost function View(): State
      reads this, packer
    {
      State(active, resources, queue, packer.View(), log, failures, failed)
    }

    constructor (behaviour: Behaviour)
      ensures View() == Start() && this.behaviour == behaviour && fresh(packer)
    {
      this.behaviour := behaviour;
      active, resources, queue, log, failures, failed := true, map[], [], [], 0, {};
      packer := new ResourcePacker();
    }

    method SetActive(enable: bool)
      modifies this
      ensures View() == old(View()).(active := enable)
    {
      active := enable;
    }

    method ReferenceResource(resource: Resource) returns (referenceCount: nat)
      modifies this
      ensures View() == Referenced(old(View()), resource)
      ensures
        referenceCount
        == if active && resource.key in resources then resources[resource.key].referenceCount else 0
    {
      if !active {
        return 0;
      }
      var key := resource.key;
      if key in resources {
        referenceCount := resources[key].referenceCount + 1;
        resources := resources[key := resources[key].(referenceCount := referenceCount)];
      } else {
        resources := resources[key := ResourceInfo(resource, 1, false, false)];
        queue := queue + [key];
        referenceCount := 1;
      }
    }

    method ReleaseResource(key: nat) returns (referenceCount: nat)
      modifies this, packer
      ensures View() == Released(old(View()), key)
      ensures referenceCount == if active && key in resources then resources[key].referenceCount else 0
    {
      referenceCount := 0;
      if !active || key !in resources {
        return;
      }
      var existing := resources[key];
      if existing.referenceCount > 1 {
        referenceCount := existing.referenceCount - 1;
        resources := resources[key := existing.(referenceCount := referenceCount)];
      } else {
        if packer.resource.Packing? && packer.resource.resource.key == key {
          packer.Cancel();
        }
        if existing.started || existing.sent {
          log := log + [DestroyMessage(existing.resource)];
        }
        resources, failed := resources - {key}, failed - {key};
      }
    }

    /** The bytes sent are counted in 32 bits, which may wrap around only for limits within 64 KiB of
        the largest; then, as without a limit, the loop ends because every transfer does. */
    method UpdateTransfers(byteLimit: nat, ghost rank: (Resource, TransferProgress) -> int)
      returns (ghost rounds: nat, ghost end: Work)
      requires byteLimit < 0x1_0000_0000
      requires EndsByBytes(byteLimit) || (Completes(behaviour, rank) && Ranked(packer.View(), rank))
      modifies this, packer
      ensures active == old(active)
      ensures !active ==> View() == old(View())
      ensures active ==>
        Looping(behaviour, old(View()), byteLimit, rank, rounds, end) && View() == end.state && !More(end, byteLimit)
      ensures active ==> SentByCall(old(log), byteLimit)
    {
      rounds, end := 0, Work(View(), 0);
      if !active {
        return;
      }
      var transferred: nat := 0;
      while (byteLimit == 0 || transferred < byteLimit) && (packer.resource.Packing? || queue != [])
        invariant active && end == Work(View(), transferred)
        invariant Looping(behaviour, old(View()), byteLimit, rank, rounds, end)
        decreases Budget(byteLimit, transferred), |queue|, packer.resource.Packing?, !packer.started,
          PacketsLeft(packer.View(), rank)
      {
        transferred, end := NextTurn(byteLimit, transferred, old(View()), rank, rounds, end);
        rounds := rounds + 1;
      }
      ghost var sent := RoundsKeepLimit(behaviour, old(View()), byteLimit, rounds);
      assert log[|old(log)|..] == sent;
    }

    /** The messages that a call added to the log keep its byte limit, and the call went on to its end. */
    ghost predicate SentByCall(before: seq<Message>, byteLimit: nat)
      reads this, packer
    {
      && |before| <= |log| && log[..|before|] == before
      && KeepsLimit(behaviour, byteLimit, log[|before|..])
      && EndsAtLimit(behaviour, View(), byteLimit, log[|before|..])
    }

    /** A turn of that loop gets on. */
    method NextTurn(byteLimit: nat, soFar: nat, ghost s: State, ghost rank: (Resource, TransferProgress) -> int,
        ghost rounds: nat, ghost end: Work)
      returns (transferred: nat, ghost next: Work)
      requires EndsByBytes(byteLimit) || (Completes(behaviour, rank) && Ranked(s.packer, rank))
      requires end == Work(View(), soFar) && More(end, byteLimit) && Looping(behaviour, s, byteLimit, rank, rounds, end)
      modifies this, packer
      ensures active == old(active) && next == Work(View(), transferred)
      ensures Looping(behaviour, s, byteLimit, rank, rounds + 1, next) && GetsOn(end, next, byteLimit, rank)
    {
      LoopingGoesOn(behaviour, s, byteLimit, rank, rounds, end);
      next := Round(behaviour, end, byteLimit);
      transferred := OneTransfer(byteLimit, soFar);
    }

    /** The body of that loop. */
    method OneTransfer(byteLimit: nat, soFar: nat) returns (transferred: nat)
      requires More(Work(View(), soFar), byteLimit)
      modifies this, packer
      ensures Work(View(), transferred) == Round(behaviour, Work(old(View()), soFar), byteLimit)
    {
      if packer.resource.Nothing? {
        StartNext();
        return soFar;
      }
      var left := if byteLimit != 0 then byteLimit - soFar else 0;
      var size := SendNext(left);
      transferred := (soFar + size) % 0x1_0000_0000;
    }

    /** Take the next resource off the queue. */
    method StartNext()
      requires queue != []
      modifies this, packer
      ensures View() == Pop(old(View()))
    {
      var next := queue[0];
      queue := queue[1..];
      if next in resources {
        var info := resources[next];
        resources := resources[next := info.(started := true)];
        packer.Transfer(info.resource);
      }
    }

    /** Send the next packet of the current resource, and note it if that was the last. */
    method SendNext(byteLimit: nat) returns (size: nat)
      requires packer.resource.Packing?
      modifies this, packer
      ensures View() == Pack(behaviour, old(View()), byteLimit)
      ensures size == NextPacket(behaviour, old(packer.View()), byteLimit).size
    {
      var messages, fails;
      ghost var key := packer.resource.resource.key;
      messages, size, fails := packer.NextPacket(behaviour, byteLimit);
      log := log + messages;
      if fails {
        failures, failed := failures + 1, failed + {key};
      }
      if packer.resource.Nothing? {
        var completed := packer.lastCompletedId;
        if completed in resources {
          resources := resources[completed := resources[completed].(sent := true)];
        }
      }
    }
  }

  // ---------------------------------------------------------------- every run of the programs

  /** What users of a connection do with resources. */
  datatype Op =
    | ReferenceOp(resource: Resource)
    | ReleaseOp(key: nat)
    | UpdateOp(byteLimit: nat)
    | SetActiveOp(enable: bool)

  /** The operations that a run of the machine performs: those that got in. */
  function Performed(b: Behaviour, steps: seq<Step>): seq<Op> {
    if steps == [] then []
    else
      var before, step := steps[..|steps| - 1], steps[|steps| - 1];
      Performed(b, before) + PerformedBy(RunOf(b, before), step)
  }

  function PerformedBy(m: Machine, step: Step): seq<Op> {
    match step
    case Reference(r) => if m.call.Idle? then [ReferenceOp(r)] else []
    case Release(key) => if m.call.Idle? then [ReleaseOp(key)] else []
    case SetActive(enable) => [SetActiveOp(enable)]
    case Begin(limit) => if m.call.Idle? then [UpdateOp(limit)] else []
    case Continue => []
  }

  /** One step more. */
  lemma NextStep(b: Behaviour, steps: seq<Step>, step: Step)
    ensures RunOf(b, steps + [step]) == Stepped(b, RunOf(b, steps), step)
    ensures Performed(b, steps + [step]) == Performed(b, steps) + PerformedBy(RunOf(b, steps), step)
  {
    var more := steps + [step];
    assert more[..|more| - 1] == steps;
  }

  lemma ContinuesOneMore(steps: seq<Step>, n: nat)
    ensures n == 0 ==> steps + Continues(n) == steps
    ensures n > 0 ==> steps + Continues(n) == (steps + Continues(n - 1)) + [Continue]
  {
  }

  /** The loop of an operation performs no other. */
  lemma {:induction false} LoopPerformsNothing(b: Behaviour, steps: seq<Step>, n: nat)
    ensures Performed(b, steps + Continues(n)) == Performed(b, steps)
    decreases n
  {
    ContinuesOneMore(steps, n);
    if n != 0 {
      var before := steps + Continues(n - 1);
      LoopPerformsNothing(b, steps, n - 1);
      NextStep(b, before, Continue);
      assert Performed(b, before) + [] == Performed(b, before);
    }
  }

  /** Without a byte limit no transfer fails. */
  ghost predicate NeverFailsUnlimited(b: Behaviour, rank: (Resource, TransferProgress) -> int) {
    forall r: Resource, p: TransferProgress :: rank(r, p) >= 0 ==> b.transfer(r, 0, p).status == 0
  }

  lemma {:induction false} RoundsNeverFail(b: Behaviour, w: Work, n: nat, rank: (Resource, TransferProgress) -> int)
    requires Completes(b, rank) && NeverFailsUnlimited(b, rank) && Ranked(w.state.packer, rank)
    ensures Ranked(Rounds(b, w, 0, n).state.packer, rank) && Rounds(b, w, 0, n).state.failures == w.state.failures
    decreases n
  {
    if n != 0 {
      RoundsNeverFail(b, w, n - 1, rank);
      var v := Rounds(b, w, 0, n - 1);
      if More(v, 0) {
        RoundGetsOn(b, v, 0, rank);
      }
    }
  }

  /** The loop of `updateTransfers` comes to an end. */
  ghost predicate Ends(b: Behaviour, op: Op, rank: (Resource, TransferProgress) -> int) {
    op.UpdateOp? ==> op.byteLimit < 0x1_0000_0000 && (EndsByBytes(op.byteLimit) || Completes(b, rank))
  }

  /** The steps of a whole call of `updateTransfers`. */
  lemma UpdateIsSteps(b: Behaviour, steps: seq<Step>, s: State, byteLimit: nat, n: nat) returns (more: seq<Step>)
    requires RunOf(b, steps) == Machine(s, Idle) && s.active
    requires AllCalledFor(b, Work(s, 0), byteLimit, n)
    requires !More(Rounds(b, Work(s, 0), byteLimit, n), byteLimit)
    ensures RunOf(b, more) == Machine(Rounds(b, Work(s, 0), byteLimit, n).state, Idle)
    ensures Performed(b, more) == Performed(b, steps) + [UpdateOp(byteLimit)]
  {
    RoundsAreSteps(b, steps, s, byteLimit, n);
    NextStep(b, steps, Begin(byteLimit));
    LoopPerformsNothing(b, steps + [Begin(byteLimit)], n);
    var inside := steps + [Begin(byteLimit)] + Continues(n);
    NextStep(b, inside, Continue);
    more := inside + [Continue];
  }

  /** One operation is a series of steps; an update without a limit leaves nothing to send. */
  method Perform(c: ResourceConnection, ghost steps: seq<Step>, op: Op, ghost rank: (Resource, TransferProgress) -> int)
    returns (ghost more: seq<Step>)
    requires Ends(c.behaviour, op, rank) && RunOf(c.behaviour, steps) == Machine(c.View(), Idle)
    requires Completes(c.behaviour, rank) ==> Ranked(c.packer.View(), rank)
    modifies c, c.packer
    ensures RunOf(c.behaviour, more) == Machine(c.View(), Idle)
    ensures Performed(c.behaviour, more) == Performed(c.behaviour, steps) + [op]
    ensures Completes(c.behaviour, rank) ==> Ranked(c.packer.View(), rank)
    ensures op.UpdateOp? && old(c.active) ==> c.SentByCall(old(c.log), op.byteLimit)
    ensures (op == UpdateOp(0) && old(c.active) ==> Drained(c.View()))
      && (!op.SetActiveOp? ==> c.active == old(c.active))
    ensures
      && Completes(c.behaviour, rank) && NeverFailsUnlimited(c.behaviour, rank)
      && (op.UpdateOp? ==> op.byteLimit == 0) ==>
      c.failures == old(c.failures)
  {
    ghost var b, s := c.behaviour, c.View();
    match op
    case ReferenceOp(r) =>
      NextStep(b, steps, Reference(r));
      more := steps + [Reference(r)];
      var _ := c.ReferenceResource(r);
    case ReleaseOp(key) =>
      NextStep(b, steps, Release(key));
      more := steps + [Release(key)];
      var _ := c.ReleaseResource(key);
    case UpdateOp(limit) =>
      ghost var rounds, end := c.UpdateTransfers(limit, rank);
      if s.active {
        more := UpdateIsSteps(b, steps, s, limit, rounds);
        if Completes(b, rank) && NeverFailsUnlimited(b, rank) && limit == 0 {
          RoundsNeverFail(b, Work(s, 0), rounds, rank);
        }
      } else {
        NextStep(b, steps, Begin(limit));
        more := steps + [Begin(limit)];
      }
    case SetActiveOp(enable) =>
      NextStep(b, steps, SetActive(enable));
      more := steps + [SetActive(enable)];
      c.SetActive(enable);
  }

  predicate OnlyUnlimited(ops: seq<Op>) {
    forall i :: 0 <= i < |ops| && ops[i].UpdateOp? ==> ops[i].byteLimit == 0
  }

  /** Any series of operations is a run of the machine that performs just these: so its table is that of
      the counters, and no receiver ever got a message it has no use for exactly if the run is sensible.
      When it ends with a transfer without a limit, receivers of a sensible run have exactly the referenced
      resources, whole but for those of which a transfer failed. */
  method RunResources(b: Behaviour, ops: seq<Op>, ghost rank: (Resource, TransferProgress) -> int)
    returns (log: seq<Message>, resources: map<nat, ResourceInfo>, failures: nat, ghost failed: set<nat>,
      ghost steps: seq<Step>)
    requires forall i :: 0 <= i < |ops| ==> Ends(b, ops[i], rank)
    ensures Performed(b, steps) == ops
    ensures RunOf(b, steps).call.Idle? && RunOf(b, steps).state.log == log
      && RunOf(b, steps).state.resources == resources
    ensures RunOf(b, steps).state.failed == failed
    ensures forall key :: key in resources <==> Count(b, steps, key) > 0
    ensures forall key :: key in resources ==> resources[key].referenceCount == Count(b, steps, key)
    ensures Unbroken(b, log) <==> Sensible(b, steps)
    ensures failures == 0 ==> Unbroken(b, log) && failed == {}
    ensures Unbroken(b, log) && ops != [] && ops[|ops| - 1] == UpdateOp(0) && RunOf(b, steps).state.active ==>
      forall key :: Complete(b, log, resources, failed, key)
    ensures Completes(b, rank) && NeverFailsUnlimited(b, rank) && OnlyUnlimited(ops) ==> failures == 0
  {
    var c;
    c, steps := PerformAll(b, ops, rank);
    log, resources, failures, failed := c.log, c.resources, c.failures, c.failed;
    EndOfRun(b, steps);
  }

  /** The loop over the operations. */
  method PerformAll(b: Behaviour, ops: seq<Op>, ghost rank: (Resource, TransferProgress) -> int)
    returns (c: ResourceConnection, ghost steps: seq<Step>)
    requires forall i :: 0 <= i < |ops| ==> Ends(b, ops[i], rank)
    ensures fresh(c) && RunOf(b, steps) == Machine(c.View(), Idle) && Performed(b, steps) == ops
    ensures ops != [] && ops[|ops| - 1] == UpdateOp(0) && c.active ==> Drained(c.View())
    ensures Completes(b, rank) && NeverFailsUnlimited(b, rank) && OnlyUnlimited(ops) ==> c.failures == 0
  {
    c := new ResourceConnection(b);
    steps := [];
    for i := 0 to |ops|
      invariant fresh(c) && fresh(c.packer) && c.behaviour == b && RunOf(b, steps) == Machine(c.View(), Idle)
      invariant Performed(b, steps) == ops[..i]
      invariant Completes(b, rank) ==> Ranked(c.packer.View(), rank)
      invariant i != 0 && ops[i - 1] == UpdateOp(0) && c.active ==> Drained(c.View())
      invariant Completes(b, rank) && NeverFailsUnlimited(b, rank) && OnlyUnlimited(ops) ==> c.failures == 0
    {
      PrefixGrows(ops, i);
      steps := Perform(c, steps, ops[i], rank);
    }
    assert ops[..|ops|] == ops;
  }

  /** What a receiver has of a key when all is sent. */
  predicate Complete(b: Behaviour, log: seq<Message>, resources: map<nat, ResourceInfo>, failed: set<nat>, key: nat) {
    var phase := PhaseOf(b, log, key);
    if key !in resources then phase == Absent
    else if key in failed then phase.Sending?
    else phase == Done(resources[key].resource)
  }

  lemma EndOfRun(b: Behaviour, steps: seq<Step>)
    ensures
      var s := RunOf(b, steps).state;
      && (forall key :: key in s.resources <==> Count(b, steps, key) > 0)
      && (forall key :: key in s.resources ==> s.resources[key].referenceCount == Count(b, steps, key))
      && (Unbroken(b, s.log) <==> Sensible(b, steps))
      && (s.failures == 0 ==> Unbroken(b, s.log) && s.failed == {})
      && (Unbroken(b, s.log) && Drained(s) ==> forall key :: Complete(b, s.log, s.resources, s.failed, key))
  {
    var s := RunOf(b, steps).state;
    RunIsCounted(b, steps, 0);
    WireIsSafeExactly(b, steps);
    forall key: nat
      ensures key in s.resources <==> Count(b, steps, key) > 0
      ensures key in s.resources ==> s.resources[key].referenceCount == Count(b, steps, key)
      ensures Unbroken(b, s.log) && Drained(s) ==> Complete(b, s.log, s.resources, s.failed, key)
    {
      RunIsCounted(b, steps, key);
      if Unbroken(b, s.log) && Drained(s) {
        DrainedIsComplete(b, s, key);
      }
    }
    if s.failures == 0 {
      WithoutFailureSafe(b, steps);
    }
  }
}
