/** What each operation of `3escore/BaseConnection.cpp` makes of a connection when its steps are not
    interleaved with those of other threads. */
module OperationEffects {
  import opened Bytes
  import opened Packets
  import opened Collating
  import opened Transport
  import opened Concurrency
  import opened Interleaving

  /** A series of steps, with nobody else in between. */
  function Alone(s: State, t: nat, steps: seq<Instr>): (r: State)
    requires Bounded(s)
    ensures Bounded(r)
    decreases steps
  {
    if steps == [] then s else Alone(Effect(s, t, steps[0]), t, steps[1..])
  }

  /** How often the steps use the resource table. */
  function Uses(steps: seq<Instr>): nat
    decreases steps
  {
    if steps == [] then 0 else (if steps[0].UseResources? then 1 else 0) + Uses(steps[1..])
  }

  function SubmitAll(s: Sender, packets: seq<bytes>): (r: Sender)
    requires |s.pending| + OVERHEAD <= MAX_SIZE
    ensures |r.pending| + OVERHEAD <= MAX_SIZE
    decreases packets
  {
    if packets == [] then s else SubmitAll(Submit(s, packets[0], true), packets[1..])
  }

  /** What an operation makes of the connection: it submits its packets, and the end of a frame pushes out all
      that waits. */
  function Made(s: Sender, op: Operation): Sender
    requires |s.pending| + OVERHEAD <= MAX_SIZE
  {
    match op
    case Send(p, allow) => Submit(s, p, allow)
    case Create(ps, _) => SubmitAll(s, ps)
    case Destroy(ds, p) => Submit(SubmitAll(s, Destroys(ds)), p, true)
    case Update(p) => Submit(s, p, true)
    case UpdateTransfers(ps) => SubmitAll(s, ps)
    case UpdateFrame(p, allow) => Flush(Submit(s, p, allow))
    case ReferenceResource => s
    case ReleaseResource(destroy) => if destroy.Some? then Submit(s, destroy.value, true) else s
  }

  /** How many resources it references, releases or transfers at once. */
  function ResourceUses(op: Operation): nat {
    match op
    case Create(_, resources) => resources
    case Destroy(destroys, _) => |destroys|
    case UpdateTransfers(_) => 1
    case ReferenceResource => 1
    case ReleaseResource(_) => 1
    case _ => 0
  }

  lemma {:induction false} AloneAppend(s: State, t: nat, a: seq<Instr>, b: seq<Instr>)
    requires Bounded(s)
    ensures Alone(s, t, a + b) == Alone(Alone(s, t, a), t, b) && Uses(a + b) == Uses(a) + Uses(b)
    decreases a
  {
    if a == [] {
      assert a + b == b;
    } else {
      assert (a + b)[0] == a[0] && (a + b)[1..] == a[1..] + b;
      AloneAppend(Effect(s, t, a[0]), t, a[1..], b);
    }
  }

  /** Steps that submit these packets and use the table so often. */
  ghost predicate Makes(s: State, t: nat, steps: seq<Instr>, sender: Sender, uses: nat)
    requires Bounded(s)
  {
    Alone(s, t, steps).sender == sender && Uses(steps) == uses
  }

  lemma OneMakes(s: State, t: nat, i: Instr)
    requires Bounded(s)
    ensures Alone(s, t, [i]) == Effect(s, t, i) && Uses([i]) == if i.UseResources? then 1 else 0
  {
    assert [i][1..] == [];
  }

  lemma WriteMakes(s: State, t: nat, source: Source, allow: bool)
    requires Bounded(s)
    ensures Makes(s, t, WriteSteps(source, allow), Submit(s.sender, Data(s, source), allow), 0)
    ensures Alone(s, t, WriteSteps(source, allow)).packetBuffer == s.packetBuffer
  {
    var w := WriteSteps(source, allow);
    var a := Effect(s, t, w[0]);
    var b := Effect(a, t, w[1]);
    var c := Effect(b, t, w[2]);
    assert w[1..] == [w[1], w[2], w[3]] && w[1..][1..] == [w[2], w[3]] && w[1..][1..][1..] == [w[3]];
    assert Alone(s, t, w) == Alone(a, t, w[1..]) == Alone(b, t, w[1..][1..]) == Alone(c, t, w[1..][1..][1..]);
    OneMakes(c, t, w[3]);
    assert Uses(w) == Uses(w[1..]) == Uses(w[1..][1..]) == Uses([w[3]]) == 0;
    TwoStepsAreOne(s.sender, Data(s, source), allow);
  }

  lemma ComposeMakes(s: State, t: nat, p: bytes, allow: bool)
    requires Bounded(s)
    ensures Makes(s, t, ComposeAndWrite(p, allow), Submit(s.sender, p, allow), 0)
  {
    OneMakes(s, t, Compose(p));
    AloneAppend(s, t, [Compose(p)], WriteSteps(SharedBuffer, allow));
    WriteMakes(Effect(s, t, Compose(p)), t, SharedBuffer, allow);
  }

  lemma {:induction false} ComposeAllMakes(s: State, t: nat, ps: seq<bytes>)
    requires Bounded(s)
    ensures Makes(s, t, ComposeAndWriteAll(ps), SubmitAll(s.sender, ps), 0)
    decreases ps
  {
    if ps != [] {
      ComposeMakes(s, t, ps[0], true);
      AloneAppend(s, t, ComposeAndWrite(ps[0], true), ComposeAndWriteAll(ps[1..]));
      ComposeAllMakes(Alone(s, t, ComposeAndWrite(ps[0], true)), t, ps[1..]);
    }
  }

  /** Between taking and giving back a lock. */
  lemma LockedMakes(s: State, t: nat, l: Lock, body: seq<Instr>)
    requires Bounded(s)
    ensures
      var r := Effect(s, t, Acquire(l));
      Makes(s, t, [Acquire(l)] + body + [Release(l)], Alone(r, t, body).sender, Uses(body))
  {
    OneMakes(s, t, Acquire(l));
    AloneAppend(s, t, [Acquire(l)], body);
    AloneAppend(s, t, [Acquire(l)] + body, [Release(l)]);
    OneMakes(Alone(s, t, [Acquire(l)] + body), t, Release(l));
  }

  lemma TableMakes(s: State, t: nat, ps: seq<bytes>)
    requires Bounded(s)
    ensures Makes(s, t, TransferSteps(ps), SubmitAll(s.sender, ps), 1)
  {
    var body := [UseResources] + ComposeAndWriteAll(ps);
    var r := Effect(s, t, Acquire(ResourceLock));
    assert TransferSteps(ps) == [Acquire(ResourceLock)] + body + [Release(ResourceLock)];
    LockedMakes(s, t, ResourceLock, body);
    OneMakes(r, t, UseResources);
    AloneAppend(r, t, [UseResources], ComposeAndWriteAll(ps));
    ComposeAllMakes(r, t, ps);
  }

  lemma SubmitOne(s: Sender, p: bytes)
    requires |s.pending| + OVERHEAD <= MAX_SIZE
    ensures SubmitAll(s, [p]) == Submit(s, p, true)
  {
    assert [p][1..] == [];
  }

  lemma {:induction false} SubmitAllAppend(s: Sender, a: seq<bytes>, b: seq<bytes>)
    requires |s.pending| + OVERHEAD <= MAX_SIZE
    ensures SubmitAll(s, a + b) == SubmitAll(SubmitAll(s, a), b)
    decreases a
  {
    if a == [] {
      assert a + b == b;
    } else {
      assert (a + b)[0] == a[0] && (a + b)[1..] == a[1..] + b;
      SubmitAllAppend(Submit(s, a[0], true), a[1..], b);
    }
  }

  lemma ReleaseMakes(s: State, t: nat, destroy: Option<bytes>)
    requires Bounded(s)
    ensures Makes(s, t, ReleaseSteps(destroy), SubmitAll(s.sender, Destroys([destroy])), 1)
  {
    var ps := if destroy.Some? then [destroy.value] else [];
    DestroysOne(destroy);
    TableMakes(s, t, ps);
    if destroy.Some? {
      var write := ComposeAndWrite(destroy.value, true);
      assert ComposeAndWriteAll(ps) == write + [] == write;
    }
    assert ReleaseSteps(destroy) == TransferSteps(ps);
  }

  lemma {:induction false} ReleaseAllMakes(s: State, t: nat, ds: seq<Option<bytes>>)
    requires Bounded(s)
    ensures Makes(s, t, ReleaseAll(ds), SubmitAll(s.sender, Destroys(ds)), |ds|)
    decreases ds
  {
    if ds != [] {
      ReleaseMakes(s, t, ds[0]);
      AloneAppend(s, t, ReleaseSteps(ds[0]), ReleaseAll(ds[1..]));
      ReleaseAllMakes(Alone(s, t, ReleaseSteps(ds[0])), t, ds[1..]);
      DestroysOne(ds[0]);
      SubmitAllAppend(s.sender, Destroys([ds[0]]), Destroys(ds[1..]));
    }
  }

  lemma {:induction false} ReferenceAllMakes(s: State, t: nat, n: nat)
    requires Bounded(s)
    ensures Makes(s, t, ReferenceAll(n), s.sender, n)
    decreases n
  {
    if n != 0 {
      LockedMakes(s, t, ResourceLock, [UseResources]);
      OneMakes(Effect(s, t, Acquire(ResourceLock)), t, UseResources);
      assert ReferenceSteps() == [Acquire(ResourceLock)] + [UseResources] + [Release(ResourceLock)];
      AloneAppend(s, t, ReferenceSteps(), ReferenceAll(n - 1));
      ReferenceAllMakes(Alone(s, t, ReferenceSteps()), t, n - 1);
    }
  }

  /** The body of an operation that holds the packet lock. */
  lemma BodyMakes(s: State, t: nat, op: Operation) returns (body: seq<Instr>)
    requires Bounded(s) && !op.Send? && !op.ReferenceResource?
    ensures op.Steps() == Held(body) && Makes(s, t, body, Made(s.sender, op), ResourceUses(op))
  {
    match op
    case Create(ps, n) =>
      body := ComposeAndWriteAll(ps) + ReferenceAll(n);
      ComposeAllMakes(s, t, ps);
      AloneAppend(s, t, ComposeAndWriteAll(ps), ReferenceAll(n));
      ReferenceAllMakes(Alone(s, t, ComposeAndWriteAll(ps)), t, n);
    case Destroy(ds, p) =>
      body := ReleaseAll(ds) + ComposeAndWrite(p, true);
      ReleaseAllMakes(s, t, ds);
      AloneAppend(s, t, ReleaseAll(ds), ComposeAndWrite(p, true));
      ComposeMakes(Alone(s, t, ReleaseAll(ds)), t, p, true);
    case Update(p) =>
      body := ComposeAndWrite(p, true);
      ComposeMakes(s, t, p, true);
    case UpdateTransfers(ps) =>
      body := TransferSteps(ps);
      TableMakes(s, t, ps);
    case UpdateFrame(p, allow) =>
      body := ComposeAndWrite(p, allow) + FlushSteps();
      ComposeMakes(s, t, p, allow);
      AloneAppend(s, t, ComposeAndWrite(p, allow), FlushSteps());
      FlushMakes(Alone(s, t, ComposeAndWrite(p, allow)), t);
    case ReleaseResource(d) =>
      body := ReleaseSteps(d);
      ReleaseMakes(s, t, d);
      DestroysOne(d);
      if d.Some? {
        SubmitOne(s.sender, d.value);
      }
  }

  lemma FlushMakes(s: State, t: nat)
    requires Bounded(s)
    ensures Makes(s, t, FlushSteps(), Flush(s.sender), 0)
  {
    LockedMakes(s, t, SendLock, [FlushAll]);
    OneMakes(Effect(s, t, Acquire(SendLock)), t, FlushAll);
    assert FlushSteps() == [Acquire(SendLock)] + [FlushAll] + [Release(SendLock)];
  }

  /** With nobody else in between, the steps of an operation are just that, and use the table so often. */
  lemma OperationMakes(s: State, t: nat, op: Operation)
    requires Bounded(s)
    ensures Makes(s, t, op.Steps(), Made(s.sender, op), ResourceUses(op))
  {
    match op
    case Send(p, allow) => WriteMakes(s, t, Caller(p), allow);
    case ReferenceResource =>
      ReferenceAllMakes(s, t, 1);
      assert ReferenceAll(1) == ReferenceSteps() + [] == ReferenceSteps();
    case _ =>
      var body := BodyMakes(Effect(s, t, Acquire(PacketLock)), t, op);
      LockedMakes(s, t, PacketLock, body);
  }
}
