/** Any number of threads using one connection: the lock discipline of `3escore/BaseConnection.cpp`.

    Each public operation is the series of atomic steps its code takes. What it sends depends on the
    state it finds, so an operation is modelled with every list of packets it could send. The write of
    a packet is two steps, making room and putting the packet, so that only the send lock keeps other
    threads from getting in between; packets composed in the connection's own packet buffer are read
    back from there when they are put, so that only the packet lock keeps them intact. */
module Concurrency {
  import opened Bytes
  import opened Transport

  datatype Lock = PacketLock | ResourceLock | SendLock {
    function Rank(): nat {
      match this
      case PacketLock => 0
      case ResourceLock => 1
      case SendLock => 2
    }
  }

  /** Where `writePacket` takes its bytes from: the connection's packet buffer or the caller. */
  datatype Source = SharedBuffer | Caller(data: bytes)

  datatype Instr =
    | Acquire(l: Lock)
    | Release(l: Lock)
    | Compose(packet: bytes)
    | MakeRoom(source: Source, allowCollation: bool)
    | Put(source: Source, allowCollation: bool)
    | FlushAll
    | UseResources

  // ---------------------------------------------------------------- the operations

  /** `writePacket` with its guard. */
  function WriteSteps(source: Source, allowCollation: bool): seq<Instr> {
    [Acquire(SendLock), MakeRoom(source, allowCollation), Put(source, allowCollation), Release(SendLock)]
  }

  /** Compose a packet in the packet buffer and write it. */
  function ComposeAndWrite(p: bytes, allowCollation: bool): seq<Instr> {
    [Compose(p)] + WriteSteps(SharedBuffer, allowCollation)
  }

  function ComposeAndWriteAll(ps: seq<bytes>): seq<Instr> {
    if ps == [] then [] else ComposeAndWrite(ps[0], true) + ComposeAndWriteAll(ps[1..])
  }

  /** `referenceResource` */
  function ReferenceSteps(): seq<Instr> {
    [Acquire(ResourceLock), UseResources, Release(ResourceLock)]
  }

  function ReferenceAll(count: nat): seq<Instr> {
    if count == 0 then [] else ReferenceSteps() + ReferenceAll(count - 1)
  }

  /** `releaseResource(uint64_t)`, which may send a destroy message. */
  function ReleaseSteps(destroy: Option<bytes>): seq<Instr> {
    [Acquire(ResourceLock), UseResources]
      + (if destroy.Some? then ComposeAndWrite(destroy.value, true) else [])
      + [Release(ResourceLock)]
  }

  function ReleaseAll(destroys: seq<Option<bytes>>): seq<Instr> {
    if destroys == [] then [] else ReleaseSteps(destroys[0]) + ReleaseAll(destroys[1..])
  }

  /** `flushCollatedPacket` */
  function FlushSteps(): seq<Instr> {
    [Acquire(SendLock), FlushAll, Release(SendLock)]
  }

  /** The loop of `updateTransfers`, which may send any number of packets. */
  function TransferSteps(ps: seq<bytes>): seq<Instr> {
    [Acquire(ResourceLock), UseResources] + ComposeAndWriteAll(ps) + [Release(ResourceLock)]
  }

  /** Most operations hold the packet lock from beginning to end. */
  function Held(body: seq<Instr>): seq<Instr> {
    [Acquire(PacketLock)] + body + [Release(PacketLock)]
  }

  /** The public operations. */
  datatype Operation =
    | Send(packet: bytes, allowCollation: bool)
    | Create(packets: seq<bytes>, resources: nat)
    | Destroy(destroys: seq<Option<bytes>>, packet: bytes)
    | Update(packet: bytes)
    | UpdateTransfers(packets: seq<bytes>)
    | UpdateFrame(packet: bytes, allowCollation: bool)
    | ReferenceResource
    | ReleaseResource(destroy: Option<bytes>)
  {
    function Steps(): seq<Instr> {
      match this
      case Send(p, allow) => WriteSteps(Caller(p), allow)
      case Create(ps, n) => Held(ComposeAndWriteAll(ps) + ReferenceAll(n))
      case Destroy(ds, p) => Held(ReleaseAll(ds) + ComposeAndWrite(p, true))
      case Update(p) => Held(ComposeAndWrite(p, true))
      case UpdateTransfers(ps) => Held(TransferSteps(ps))
      case UpdateFrame(p, allow) => Held(ComposeAndWrite(p, allow) + FlushSteps())
      case ReferenceResource => ReferenceSteps()
      case ReleaseResource(d) => Held(ReleaseSteps(d))
    }

    /** The packets it passes to `writePacket`, in order. */
    function Packets(): seq<bytes> {
      match this
      case Send(p, _) => [p]
      case Create(ps, _) => ps
      case Destroy(ds, p) => Destroys(ds) + [p]
      case Update(p) => [p]
      case UpdateTransfers(ps) => ps
      case UpdateFrame(p, _) => [p]
      case ReferenceResource => []
      case ReleaseResource(d) => Destroys([d])
    }
  }

  function Destroys(ds: seq<Option<bytes>>): seq<bytes> {
    if ds == [] then []
    else (if ds[0].Some? then [ds[0].value] else []) + Destroys(ds[1..])
  }

  function StepsOf(ops: seq<Operation>): seq<Instr> {
    if ops == [] then [] else ops[0].Steps() + StepsOf(ops[1..])
  }

  function PacketsOf(ops: seq<Operation>): seq<bytes> {
    if ops == [] then [] else ops[0].Packets() + PacketsOf(ops[1..])
  }

  // ---------------------------------------------------------------- the lock discipline

  /** What a thread holds: locks, its packet in the packet buffer, and the room it made. */
  datatype Context = Context(held: set<Lock>, composed: Composed, room: Room)

  /** The packet a thread put in the packet buffer under the packet lock. */
  datatype Composed = NothingComposed | PacketComposed(packet: bytes)

  /** The packet a thread made room for under the send lock. */
  datatype Room = NoRoom | RoomFor(source: Source, allowCollation: bool)

  const IDLE := Context({}, NothingComposed, NoRoom)

  /** The packet that a source stands for. */
  function Meaning(c: Context, source: Source): Composed {
    match source
    case SharedBuffer => c.composed
    case Caller(p) => PacketComposed(p)
  }

  /** The discipline, one step at a time: locks are taken in rank order and never twice, every
      shared thing is used under its lock, and a packet is put right after room was made for it. */
  function Next(c: Context, i: Instr): Option<Context> {
    if c.room.RoomFor? then
      if i.Put? && c.room == RoomFor(i.source, i.allowCollation) then Some(c.(room := NoRoom)) else None
    else
      match i
      case Acquire(l) =>
        if forall h :: h in c.held ==> h.Rank() < l.Rank() then Some(c.(held := c.held + {l})) else None
      case Release(l) =>
        if l !in c.held then None
        else Some(Context(c.held - {l}, if l == PacketLock then NothingComposed else c.composed, NoRoom))
      case Compose(p) => if PacketLock in c.held && Sendable(p) then Some(c.(composed := PacketComposed(p))) else None
      case MakeRoom(source, allow) =>
        if SendLock in c.held && Meaning(c, source).PacketComposed? && Sendable(Meaning(c, source).packet)
        then Some(c.(room := RoomFor(source, allow))) else None
      case Put(_, _) => None
      case FlushAll => if SendLock in c.held then Some(c) else None
      case UseResources => if ResourceLock in c.held then Some(c) else None
  }

  /** Follow the discipline through a series of steps. */
  function Walk(c: Context, steps: seq<Instr>): Option<Context>
    decreases steps
  {
    if steps == [] then Some(c)
    else
      match Next(c, steps[0])
      case None => None
      case Some(d) => Walk(d, steps[1..])
  }

  /** The packets put on the way. */
  function Puts(c: Context, steps: seq<Instr>): seq<bytes>
    requires Walk(c, steps).Some?
    decreases steps
  {
    if steps == [] then []
    else
      var rest := Puts(Next(c, steps[0]).value, steps[1..]);
      var meant := if steps[0].Put? then Meaning(c, steps[0].source) else NothingComposed;
      if meant.PacketComposed? then [meant.packet] + rest else rest
  }

  lemma {:induction false} WalkAppend(c: Context, a: seq<Instr>, b: seq<Instr>)
    requires Walk(c, a).Some?
    ensures Walk(c, a + b) == Walk(Walk(c, a).value, b)
    ensures Walk(c, a + b).Some? ==> Puts(c, a + b) == Puts(c, a) + Puts(Walk(c, a).value, b)
    decreases a
  {
    if a == [] {
      assert a + b == b;
    } else {
      assert (a + b)[1..] == a[1..] + b && (a + b)[0] == a[0];
      WalkAppend(Next(c, a[0]).value, a[1..], b);
    }
  }

  /** A series of steps that goes through and puts just these packets, ending with these locks. */
  predicate Does(c: Context, steps: seq<Instr>, packets: seq<bytes>, held: set<Lock>) {
    && Walk(c, steps).Some? && Puts(c, steps) == packets
    && Walk(c, steps).value.held == held && Walk(c, steps).value.room.NoRoom?
  }

  lemma DoesAppend(c: Context, a: seq<Instr>, pa: seq<bytes>, ha: set<Lock>, b: seq<Instr>, pb: seq<bytes>,
      hb: set<Lock>)
    requires Does(c, a, pa, ha) && Does(Walk(c, a).value, b, pb, hb)
    ensures Does(c, a + b, pa + pb, hb) && Walk(c, a + b) == Walk(Walk(c, a).value, b)
  {
    WalkAppend(c, a, b);
  }

  lemma DoesOne(c: Context, i: Instr)
    requires c.room.NoRoom? && !i.Put? && !i.MakeRoom? && Next(c, i).Some?
    ensures Does(c, [i], [], Next(c, i).value.held) && Walk(c, [i]) == Next(c, i)
  {
  }

  /** In these contexts the send lock can be taken. */
  predicate CanWrite(c: Context) {
    c.room.NoRoom? && SendLock !in c.held
  }

  lemma WriteDoes(c: Context, source: Source, allow: bool)
    requires CanWrite(c) && Meaning(c, source).PacketComposed? && Sendable(Meaning(c, source).packet)
    ensures Does(c, WriteSteps(source, allow), [Meaning(c, source).packet], c.held)
    ensures Walk(c, WriteSteps(source, allow)) == Some(c)
  {
    var d := c.(held := c.held + {SendLock});
    var e := d.(room := RoomFor(source, allow));
    assert d.held - {SendLock} == c.held && Context(c.held, c.composed, NoRoom) == c;
    var w3 := [Release(SendLock)];
    assert w3[1..] == [] && Walk(d, w3) == Some(c) && Puts(d, w3) == [];
    var w2 := [Put(source, allow), Release(SendLock)];
    assert w2[1..] == w3 && Walk(e, w2) == Some(c) && Puts(e, w2) == [Meaning(c, source).packet];
    var w1 := [MakeRoom(source, allow), Put(source, allow), Release(SendLock)];
    assert w1[1..] == w2 && Walk(d, w1) == Some(c) && Puts(d, w1) == [Meaning(c, source).packet];
    assert WriteSteps(source, allow)[1..] == w1;
  }

  lemma ComposeDoes(c: Context, p: bytes, allow: bool)
    requires CanWrite(c) && PacketLock in c.held && Sendable(p)
    ensures Does(c, ComposeAndWrite(p, allow), [p], c.held)
    ensures Walk(c, ComposeAndWrite(p, allow)) == Some(c.(composed := PacketComposed(p)))
  {
    var d := c.(composed := PacketComposed(p));
    DoesOne(c, Compose(p));
    WriteDoes(d, SharedBuffer, allow);
    DoesAppend(c, [Compose(p)], [], c.held, WriteSteps(SharedBuffer, allow), [p], c.held);
  }

  predicate AllPacketsSendable(ps: seq<bytes>) {
    forall i :: 0 <= i < |ps| ==> Sendable(ps[i])
  }

  lemma {:induction false} ComposeAllDoes(c: Context, ps: seq<bytes>)
    requires CanWrite(c) && PacketLock in c.held && AllPacketsSendable(ps)
    ensures Does(c, ComposeAndWriteAll(ps), ps, c.held)
    decreases ps
  {
    if ps != [] {
      ComposeDoes(c, ps[0], true);
      var d := c.(composed := PacketComposed(ps[0]));
      ComposeAllDoes(d, ps[1..]);
      DoesAppend(c, ComposeAndWrite(ps[0], true), [ps[0]], c.held, ComposeAndWriteAll(ps[1..]), ps[1..], c.held);
      assert [ps[0]] + ps[1..] == ps;
    }
  }

  /** In these contexts the resource lock can be taken. */
  predicate CanUseResources(c: Context) {
    CanWrite(c) && ResourceLock !in c.held
  }

  lemma ReleaseDoes(c: Context, destroy: Option<bytes>)
    requires CanUseResources(c) && PacketLock in c.held && (destroy.Some? ==> Sendable(destroy.value))
    ensures Does(c, ReleaseSteps(destroy), Destroys([destroy]), c.held)
  {
    var d := c.(held := c.held + {ResourceLock});
    DoesOne(c, Acquire(ResourceLock));
    DoesOne(d, UseResources);
    DoesAppend(c, [Acquire(ResourceLock)], [], d.held, [UseResources], [], d.held);
    var start := [Acquire(ResourceLock), UseResources];
    assert [Acquire(ResourceLock)] + [UseResources] == start;
    assert Does(c, start, [], d.held) && Walk(c, start) == Some(d);
    var middle := if destroy.Some? then ComposeAndWrite(destroy.value, true) else [];
    DestroysOne(destroy);
    if destroy.Some? {
      ComposeDoes(d, destroy.value, true);
    }
    assert Does(d, middle, Destroys([destroy]), d.held);
    DoesAppend(c, start, [], d.held, middle, Destroys([destroy]), d.held);
    var e := Walk(c, start + middle).value;
    DoesOne(e, Release(ResourceLock));
    assert d.held - {ResourceLock} == c.held;
    DoesAppend(c, start + middle, Destroys([destroy]), d.held, [Release(ResourceLock)], [], c.held);
  }

  lemma DestroysOne(destroy: Option<bytes>)
    ensures Destroys([destroy]) == if destroy.Some? then [destroy.value] else []
  {
  }

  lemma {:induction false} ReleaseAllDoes(c: Context, ds: seq<Option<bytes>>)
    requires CanUseResources(c) && PacketLock in c.held
    requires forall i :: 0 <= i < |ds| && ds[i].Some? ==> Sendable(ds[i].value)
    ensures Does(c, ReleaseAll(ds), Destroys(ds), c.held)
    decreases ds
  {
    if ds != [] {
      ReleaseDoes(c, ds[0]);
      var d := Walk(c, ReleaseSteps(ds[0])).value;
      ReleaseAllDoes(d, ds[1..]);
      DoesAppend(c, ReleaseSteps(ds[0]), Destroys([ds[0]]), c.held, ReleaseAll(ds[1..]), Destroys(ds[1..]), c.held);
      DestroysOne(ds[0]);
    }
  }

  lemma ReferenceDoes(c: Context)
    requires CanUseResources(c)
    ensures Does(c, ReferenceSteps(), [], c.held)
    ensures Walk(c, ReferenceSteps()) == Some(c)
  {
  }

  lemma {:induction false} ReferenceAllDoes(c: Context, count: nat)
    requires CanUseResources(c)
    ensures Does(c, ReferenceAll(count), [], c.held)
    decreases count
  {
    if count != 0 {
      ReferenceDoes(c);
      ReferenceAllDoes(c, count - 1);
      DoesAppend(c, ReferenceSteps(), [], c.held, ReferenceAll(count - 1), [], c.held);
    }
  }

  /** What happens between taking and giving back the packet lock. */
  lemma UnderPacketLock(body: seq<Instr>, packets: seq<bytes>)
    requires Does(Context({PacketLock}, NothingComposed, NoRoom), body, packets, {PacketLock})
    ensures Does(IDLE, Held(body), packets, {}) && Walk(IDLE, Held(body)) == Some(IDLE)
  {
    var c := Context({PacketLock}, NothingComposed, NoRoom);
    DoesOne(IDLE, Acquire(PacketLock));
    assert IDLE.held + {PacketLock} == {PacketLock};
    DoesAppend(IDLE, [Acquire(PacketLock)], [], c.held, body, packets, c.held);
    var d := Walk(c, body).value;
    DoesOne(d, Release(PacketLock));
    assert d.held - {PacketLock} == {};
    DoesAppend(IDLE, [Acquire(PacketLock)] + body, packets, c.held, [Release(PacketLock)], [], {});
    assert [] + packets + [] == packets;
  }

  predicate OperationSendable(op: Operation) {
    AllPacketsSendable(op.Packets())
  }

  lemma {:induction false} DestroysSendable(ds: seq<Option<bytes>>, i: nat)
    requires i < |ds| && ds[i].Some? && AllPacketsSendable(Destroys(ds))
    ensures Sendable(ds[i].value)
    decreases ds
  {
    var head := if ds[0].Some? then [ds[0].value] else [];
    assert Destroys(ds) == head + Destroys(ds[1..]);
    if i == 0 {
      assert Destroys(ds)[0] == ds[0].value;
    } else {
      forall k | 0 <= k < |Destroys(ds[1..])|
        ensures Sendable(Destroys(ds[1..])[k])
      {
        assert Destroys(ds[1..])[k] == Destroys(ds)[|head| + k];
      }
      DestroysSendable(ds[1..], i - 1);
    }
  }

  lemma CreateDoes(ps: seq<bytes>, n: nat)
    requires AllPacketsSendable(ps)
    ensures Does(IDLE, Create(ps, n).Steps(), ps, {}) && Walk(IDLE, Create(ps, n).Steps()) == Some(IDLE)
  {
    var c := Context({PacketLock}, NothingComposed, NoRoom);
    ComposeAllDoes(c, ps);
    var d := Walk(c, ComposeAndWriteAll(ps)).value;
    ReferenceAllDoes(d, n);
    DoesAppend(c, ComposeAndWriteAll(ps), ps, c.held, ReferenceAll(n), [], c.held);
    assert ps + [] == ps;
    UnderPacketLock(ComposeAndWriteAll(ps) + ReferenceAll(n), ps);
  }

  lemma DestroyDoes(ds: seq<Option<bytes>>, p: bytes)
    requires AllPacketsSendable(Destroys(ds) + [p])
    ensures Does(IDLE, Destroy(ds, p).Steps(), Destroys(ds) + [p], {})
      && Walk(IDLE, Destroy(ds, p).Steps()) == Some(IDLE)
  {
    var c := Context({PacketLock}, NothingComposed, NoRoom);
    var all := Destroys(ds) + [p];
    assert all[|all| - 1] == p && forall k :: 0 <= k < |Destroys(ds)| ==> Destroys(ds)[k] == all[k];
    forall i | 0 <= i < |ds| && ds[i].Some?
      ensures Sendable(ds[i].value)
    {
      DestroysSendable(ds, i);
    }
    ReleaseAllDoes(c, ds);
    var d := Walk(c, ReleaseAll(ds)).value;
    ComposeDoes(d, p, true);
    DoesAppend(c, ReleaseAll(ds), Destroys(ds), c.held, ComposeAndWrite(p, true), [p], c.held);
    var body := ReleaseAll(ds) + ComposeAndWrite(p, true);
    UnderPacketLock(body, all);
  }

  lemma TransferDoes(c: Context, ps: seq<bytes>)
    requires CanUseResources(c) && PacketLock in c.held && AllPacketsSendable(ps)
    ensures Does(c, TransferSteps(ps), ps, c.held)
  {
    var d := c.(held := c.held + {ResourceLock});
    DoesOne(c, Acquire(ResourceLock));
    DoesOne(d, UseResources);
    DoesAppend(c, [Acquire(ResourceLock)], [], d.held, [UseResources], [], d.held);
    var start := [Acquire(ResourceLock), UseResources];
    assert [Acquire(ResourceLock)] + [UseResources] == start;
    assert Does(c, start, [], d.held) && Walk(c, start) == Some(d);
    ComposeAllDoes(d, ps);
    DoesAppend(c, start, [], d.held, ComposeAndWriteAll(ps), ps, d.held);
    var e := Walk(c, start + ComposeAndWriteAll(ps)).value;
    DoesOne(e, Release(ResourceLock));
    assert d.held - {ResourceLock} == c.held;
    DoesAppend(c, start + ComposeAndWriteAll(ps), [] + ps, d.held, [Release(ResourceLock)], [], c.held);
    assert [] + ps + [] == ps;
  }

  lemma UpdateTransfersDoes(ps: seq<bytes>)
    requires AllPacketsSendable(ps)
    ensures Does(IDLE, UpdateTransfers(ps).Steps(), ps, {}) && Walk(IDLE, UpdateTransfers(ps).Steps()) == Some(IDLE)
  {
    TransferDoes(Context({PacketLock}, NothingComposed, NoRoom), ps);
    UnderPacketLock(TransferSteps(ps), ps);
  }

  lemma FlushDoes(c: Context)
    requires CanWrite(c)
    ensures Does(c, FlushSteps(), [], c.held) && Walk(c, FlushSteps()) == Some(c)
  {
  }

  lemma UpdateFrameDoes(p: bytes, allow: bool)
    requires Sendable(p)
    ensures Does(IDLE, UpdateFrame(p, allow).Steps(), [p], {})
      && Walk(IDLE, UpdateFrame(p, allow).Steps()) == Some(IDLE)
  {
    var c := Context({PacketLock}, NothingComposed, NoRoom);
    ComposeDoes(c, p, allow);
    FlushDoes(Walk(c, ComposeAndWrite(p, allow)).value);
    DoesAppend(c, ComposeAndWrite(p, allow), [p], c.held, FlushSteps(), [], c.held);
    assert [p] + [] == [p];
    UnderPacketLock(ComposeAndWrite(p, allow) + FlushSteps(), [p]);
  }

  /** Every public operation keeps the discipline, gives back all it took, and passes its packets to
      `writePacket` in order. */
  lemma OperationDoes(op: Operation)
    requires OperationSendable(op)
    ensures Does(IDLE, op.Steps(), op.Packets(), {}) && Walk(IDLE, op.Steps()) == Some(IDLE)
  {
    var c := Context({PacketLock}, NothingComposed, NoRoom);
    match op
    case Send(p, allow) =>
      assert op.Packets()[0] == p;
      WriteDoes(IDLE, Caller(p), allow);
    case Create(ps, n) => CreateDoes(ps, n);
    case Destroy(ds, p) => DestroyDoes(ds, p);
    case Update(p) =>
      assert op.Packets()[0] == p;
      ComposeDoes(c, p, true);
      UnderPacketLock(ComposeAndWrite(p, true), [p]);
    case UpdateTransfers(ps) => UpdateTransfersDoes(ps);
    case UpdateFrame(p, allow) =>
      assert op.Packets()[0] == p;
      UpdateFrameDoes(p, allow);
    case ReferenceResource => ReferenceDoes(IDLE);
    case ReleaseResource(d) =>
      DestroysOne(d);
      if d.Some? {
        assert op.Packets()[0] == d.value;
      }
      ReleaseDoes(c, d);
      UnderPacketLock(ReleaseSteps(d), Destroys([d]));
  }

  lemma {:induction false} ProgramDoes(ops: seq<Operation>)
    requires forall i :: 0 <= i < |ops| ==> OperationSendable(ops[i])
    ensures Walk(IDLE, StepsOf(ops)) == Some(IDLE) && Puts(IDLE, StepsOf(ops)) == PacketsOf(ops)
  {
    if ops != [] {
      OperationDoes(ops[0]);
      ProgramDoes(ops[1..]);
      WalkAppend(IDLE, ops[0].Steps(), StepsOf(ops[1..]));
    }
  }
}
