/** Meshes as the resources of a connection: from references and transfers on one side to the meshes that
    a receiver has on the other. */
module MeshDelivery {
  import opened Meshes
  import opened ResourceStates
  import opened MeshTransfers
  import Runs = ResourceRuns
  import Transfers = ResourceTransfers

  /** What a receiver has of a key, and whether it wrote past the end of a stream on the way. */
  datatype Held = Empty | Has(mesh: Mesh, overrun: bool)

  function NewMesh(m: Mesh): Mesh {
    ProcessCreate(Blank(0, {Vertex, Index}), Created(m))
  }

  /** The receiver's side of one message: a data message carries what `transfer` writes. */
  function HeldAfter(meshOf: Resource -> Mesh, room: nat, held: Held, msg: Message, key: nat): Held {
    if msg.resource.key != key then held
    else
      match msg
      case CreateMessage(r) => Has(NewMesh(meshOf(r)), false)
      case DataMessage(r, limit, from) =>
        var messages := Transferred(meshOf(r), limit, room, from).messages;
        if held.Empty? || messages == [] then held
        else Has(Received(held.mesh, messages[0]), held.overrun || Overruns(held.mesh, messages[0]))
      case DestroyMessage(r) => Empty
  }

  function HeldOf(meshOf: Resource -> Mesh, room: nat, log: seq<Message>, key: nat): Held {
    if log == [] then Empty
    else HeldAfter(meshOf, room, HeldOf(meshOf, room, log[..|log| - 1], key), log[|log| - 1], key)
  }

  /** The calls of `transfer` that a key's data messages come from, since it was created last. */
  function CallsOf(room: nat, log: seq<Message>, key: nat): seq<Call> {
    if log == [] then []
    else
      var before, last := CallsOf(room, log[..|log| - 1], key), log[|log| - 1];
      if last.resource.key != key then before
      else
        match last
        case CreateMessage(_) => []
        case DataMessage(_, limit, _) => before + [Call(limit, room)]
        case DestroyMessage(_) => []
  }

  /** What is held is what a run of `transfer` makes of the mesh. */
  predicate HoldsRun(held: Held, m: Mesh, calls: seq<Call>) {
    var run := RunOf(m, calls);
    held == Has(ReceivedAll(NewMesh(m), run.messages), AnyOverruns(NewMesh(m), run.messages))
  }

  /** A receiver that got only messages it has a use for holds what the transfer has come to. */
  ghost predicate InStep(b: Behaviour, meshOf: Resource -> Mesh, room: nat, log: seq<Message>, key: nat) {
    var held, calls := HeldOf(meshOf, room, log, key), CallsOf(room, log, key);
    match PhaseOf(b, log, key)
    case Absent => held == Empty
    case Sending(r, next) =>
      HoldsRun(held, meshOf(r), calls) && RunOf(meshOf(r), calls).progress == next && !next.complete
    case Done(r) => HoldsRun(held, meshOf(r), calls) && RunOf(meshOf(r), calls).progress.complete
    case Broken => true
  }

  lemma OneMoreCall(m: Mesh, calls: seq<Call>, call: Call, held: Held)
    requires WellMade(m) && HoldsRun(held, m, calls) && !RunOf(m, calls).progress.complete
    ensures
      var from := RunOf(m, calls).progress;
      var sent := Transferred(m, call.byteLimit, call.room, from);
      && RunOf(m, calls + [call]).progress == sent.progress && !sent.progress.failed
      && HoldsRun(if sent.messages == [] then held
                  else Has(Received(held.mesh, sent.messages[0]),
                           held.overrun || Overruns(held.mesh, sent.messages[0])),
                  m, calls + [call])
  {
    var more := calls + [call];
    assert more[..|more| - 1] == calls;
    var run := RunOf(m, calls);
    var sent := Transferred(m, call.byteLimit, call.room, run.progress);
    AtMostOneMessage(m, call.byteLimit, call.room, run.progress);
    if sent.messages == [] {
      assert run.messages + [] == run.messages;
    } else {
      ReceivedOneMore(NewMesh(m), run.messages, sent.messages[0]);
    }
    TransferSoFar(m, more, 0);
  }

  lemma {:induction false} StaysInStep(b: Behaviour, meshOf: Resource -> Mesh, room: nat, log: seq<Message>, key: nat)
    requires SendsMeshes(b, meshOf, room)
    ensures InStep(b, meshOf, room, log, key)
  {
    if log != [] {
      var before, last := log[..|log| - 1], log[|log| - 1];
      StaysInStep(b, meshOf, room, before, key);
      StepInStep(b, meshOf, room, log, before, last, key);
    }
  }

  lemma StepInStep(b: Behaviour, meshOf: Resource -> Mesh, room: nat, log: seq<Message>, before: seq<Message>,
                   last: Message, key: nat)
    requires SendsMeshes(b, meshOf, room) && log != [] && before == log[..|log| - 1] && last == log[|log| - 1]
    requires InStep(b, meshOf, room, before, key)
    ensures InStep(b, meshOf, room, log, key)
  {
    var phase, calls := PhaseOf(b, before, key), CallsOf(room, before, key);
    if last.DataMessage? && last.resource.key == key && phase == Sending(last.resource, last.from) {
      var call := Call(last.byteLimit, room);
      OneMoreCall(meshOf(last.resource), calls, call, HeldOf(meshOf, room, before, key));
    }
  }

  // ---------------------------------------------------------------- whole meshes

  /** The receiver's mesh equals the sender's, but for texture coordinates, which are lost; with normals as
      well they are written past the end. */
  predicate Rebuilt(m: Mesh, held: Held) {
    && held.Has? && held.mesh.id == m.id && held.mesh.tint == m.tint && held.mesh.drawType == m.drawType
    && held.mesh.transform == m.transform && held.mesh.vertices == m.vertices
    && Stream(held.mesh, MMT_INDEX) == Stream(m, MMT_INDEX)
    && Stream(held.mesh, MMT_VERTEX_COLOUR) == Stream(m, MMT_VERTEX_COLOUR)
    && Stream(held.mesh, MMT_NORMAL) == Stream(m, MMT_NORMAL)
    && (Stream(held.mesh, MMT_UV) == Stream(m, MMT_UV) <==> Stream(m, MMT_UV) == [])
    && (held.overrun <==> Stream(m, MMT_NORMAL) != [] && Stream(m, MMT_UV) != [])
  }

  /** The messages of a key since its last create message rebuild its mesh, once its transfer is done. */
  lemma DoneIsRebuilt(b: Behaviour, meshOf: Resource -> Mesh, room: nat, log: seq<Message>, key: nat)
    requires SendsMeshes(b, meshOf, room)
    ensures
      match PhaseOf(b, log, key)
      case Absent => HeldOf(meshOf, room, log, key) == Empty
      case Done(r) => Rebuilt(meshOf(r), HeldOf(meshOf, room, log, key))
      case _ => true
  {
    StaysInStep(b, meshOf, room, log, key);
    var phase := PhaseOf(b, log, key);
    if phase.Done? {
      TransferRebuildsMesh(meshOf(phase.resource), CallsOf(room, log, key), 0);
    }
  }

  /** From the operations of users to the meshes that receivers have. After an update without a limit, if no
      receiver got a message it has no use for, they have exactly the referenced meshes, each rebuilt, but
      for those of which a transfer failed. Without byte limits, and with streams that fit the packet buffer,
      that needs no condition at all. */
  method DeliverMeshes(b: Behaviour, meshOf: Resource -> Mesh, room: nat, ops: seq<Transfers.Op>)
    returns (log: seq<Message>, resources: map<nat, ResourceInfo>, ghost failed: set<nat>, ghost steps: seq<Runs.Step>)
    requires SendsMeshes(b, meshOf, room)
    requires forall i :: 0 <= i < |ops| && ops[i].UpdateOp? ==> ops[i].byteLimit < 0x1_0000_0000
    ensures Transfers.Performed(b, steps) == ops
    ensures forall key :: key in resources <==> Runs.Count(b, steps, key) > 0
    ensures AllStreamsFit(meshOf, room) && Transfers.OnlyUnlimited(ops) ==> Unbroken(b, log)
    ensures AllStreamsFit(meshOf, room) && Transfers.OnlyUnlimited(ops) ==> failed == {}
    ensures
      && Unbroken(b, log) && ops != [] && ops[|ops| - 1] == Transfers.UpdateOp(0)
      && Runs.RunOf(b, steps).state.active ==>
      forall key :: Delivered(meshOf, room, log, resources, failed, key)
  {
    ghost var rank := (r: Resource, p: TransferProgress) => MeshRank(meshOf(r), p);
    MeshesComplete(b, meshOf, room, rank);
    MeshesNeverFail(b, meshOf, room, rank);
    var failures;
    log, resources, failures, failed, steps := Transfers.RunResources(b, ops, rank);
    forall key: nat
      ensures Transfers.Complete(b, log, resources, failed, key) ==>
        Delivered(meshOf, room, log, resources, failed, key)
    {
      DoneIsRebuilt(b, meshOf, room, log, key);
    }
  }

  predicate Delivered(meshOf: Resource -> Mesh, room: nat, log: seq<Message>, resources: map<nat, ResourceInfo>,
                      failed: set<nat>, key: nat)
  {
    && (key !in resources ==> HeldOf(meshOf, room, log, key) == Empty)
    && (key in resources && key !in failed ==> Rebuilt(meshOf(resources[key].resource), HeldOf(meshOf, room, log, key)))
  }
}
