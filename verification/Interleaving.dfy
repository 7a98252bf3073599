/** Every interleaving of threads that follow the lock discipline. */
module Interleaving {
  import opened Bytes
  import opened Packets
  import opened Collating
  import opened Transport
  import opened Concurrency

  datatype Thread = Thread(steps: seq<Instr>, context: Context)

  /** A packet as it reached `writePacket`, and the thread that passed it. */
  datatype Entry = Entry(thread: nat, packet: bytes)

  datatype State = State(
    threads: map<nat, Thread>, owner: map<Lock, nat>, packetBuffer: bytes, sender: Sender, log: seq<Entry>)

  // ---------------------------------------------------------------- one write in two steps

  function RoomMade(s: Sender, p: bytes, allow: bool): (r: Sender)
    requires |s.pending| + OVERHEAD <= MAX_SIZE
    ensures |r.pending| + OVERHEAD <= MAX_SIZE
  {
    if s.collate && (!allow || |p| >= MAX_SIZE - OVERHEAD - |s.pending|) then Flush(s) else s
  }

  function PutIn(s: Sender, p: bytes, allow: bool): (r: Sender)
    requires |s.pending| + OVERHEAD <= MAX_SIZE
    ensures |r.pending| + OVERHEAD <= MAX_SIZE
  {
    if !s.collate || !allow then s.(wire := s.wire + p)
    else if |s.pending| + |p| + OVERHEAD <= MAX_SIZE then s.(pending := s.pending + p)
    else var f := Flush(s); f.(wire := f.wire + p)
  }

  /** Undisturbed, the two steps are one `writePacket`. */
  lemma TwoStepsAreOne(s: Sender, p: bytes, allow: bool)
    requires |s.pending| + OVERHEAD <= MAX_SIZE
    ensures PutIn(RoomMade(s, p, allow), p, allow) == Submit(s, p, allow)
  {
  }

  // ---------------------------------------------------------------- the steps of a thread

  predicate Bounded(s: State) {
    |s.sender.pending| + OVERHEAD <= MAX_SIZE
  }

  /** A thread can move unless it is done or waits for a lock that is taken. */
  predicate Enabled(s: State, t: nat) {
    && t in s.threads && s.threads[t].steps != []
    && (s.threads[t].steps[0].Acquire? ==> s.threads[t].steps[0].l !in s.owner)
  }

  function Data(s: State, source: Source): bytes {
    match source
    case SharedBuffer => s.packetBuffer
    case Caller(p) => p
  }

  function Advance(th: Thread): Thread
    requires th.steps != []
  {
    var n := Next(th.context, th.steps[0]);
    Thread(th.steps[1..], if n.Some? then n.value else th.context)
  }

  /** The effect of a step on what the threads share. */
  function Effect(s: State, t: nat, i: Instr): (r: State)
    requires Bounded(s)
    ensures Bounded(r) && r.threads == s.threads
  {
    match i
    case Acquire(l) => s.(owner := s.owner[l := t])
    case Release(l) => s.(owner := s.owner - {l})
    case Compose(p) => s.(packetBuffer := p)
    case MakeRoom(source, allow) => s.(sender := RoomMade(s.sender, Data(s, source), allow))
    case Put(source, allow) =>
      s.(sender := PutIn(s.sender, Data(s, source), allow), log := s.log + [Entry(t, Data(s, source))])
    case FlushAll => s.(sender := Flush(s.sender))
    case UseResources => s
  }

  /** Thread `t` takes its next step if it can. */
  function Exec(s: State, t: nat): (r: State)
    requires Bounded(s)
    ensures Bounded(r)
  {
    if !Enabled(s, t) then s
    else Effect(s, t, s.threads[t].steps[0]).(threads := s.threads[t := Advance(s.threads[t])])
  }

  /** The state after a schedule: which thread moves, move by move. */
  function Run(s: State, schedule: seq<nat>): (r: State)
    requires Bounded(s)
    ensures Bounded(r)
  {
    if schedule == [] then s else Exec(Run(s, schedule[..|schedule| - 1]), schedule[|schedule| - 1])
  }

  function Initial(programs: map<nat, seq<Operation>>, collate: bool): State {
    State(map t | t in programs :: Thread(StepsOf(programs[t]), IDLE), map[], [], Sender(collate, [], []), [])
  }

  // ---------------------------------------------------------------- the invariant

  function PacketsIn(log: seq<Entry>): seq<bytes> {
    if log == [] then [] else PacketsIn(log[..|log| - 1]) + [log[|log| - 1].packet]
  }

  /** The packets of one thread. */
  function By(log: seq<Entry>, t: nat): seq<bytes> {
    if log == [] then []
    else By(log[..|log| - 1], t) + (if log[|log| - 1].thread == t then [log[|log| - 1].packet] else [])
  }

  /** Each thread will follow the discipline to the end of its program. */
  predicate Disciplined(s: State) {
    forall t :: t in s.threads ==> Walk(s.threads[t].context, s.threads[t].steps) == Some(IDLE)
  }

  /** The locks that threads hold are those that are owned, each by one thread. */
  predicate LocksAgree(s: State) {
    && (forall l :: l in s.owner ==> s.owner[l] in s.threads)
    && forall t, l :: t in s.threads ==> (l in s.threads[t].context.held <==> l in s.owner && s.owner[l] == t)
  }

  /** What a thread composed is still in the packet buffer, and room it made is still there. */
  predicate ThreadIntact(s: State, t: nat)
    requires t in s.threads
  {
    var c := s.threads[t].context;
    && (c.composed.PacketComposed? ==> PacketLock in c.held && s.packetBuffer == c.composed.packet)
    && (c.room.RoomFor? ==>
          && SendLock in c.held && Meaning(c, c.room.source).PacketComposed?
          && Sendable(Meaning(c, c.room.source).packet)
          && (s.sender.collate && !c.room.allowCollation ==> s.sender.pending == []))
  }

  predicate Intact(s: State) {
    forall t :: t in s.threads ==> ThreadIntact(s, t)
  }

  /** What a thread has put and what it will still put is what its program passes to `writePacket`. */
  predicate InOrder(s: State, programs: map<nat, seq<Operation>>)
    requires Disciplined(s)
  {
    && s.threads.Keys == programs.Keys
    && forall t :: t in s.threads ==>
         By(s.log, t) + Puts(s.threads[t].context, s.threads[t].steps) == PacketsOf(programs[t])
  }

  predicate Invariant(s: State, programs: map<nat, seq<Operation>>) {
    && Bounded(s) && Disciplined(s) && LocksAgree(s) && Intact(s) && InOrder(s, programs)
    && Transparent(s.sender, PacketsIn(s.log))
  }

  // ---------------------------------------------------------------- deadlock freedom

  /** The owner of a lock can move, or waits for a lock of higher rank; so somebody can move. */
  lemma {:induction false} SomeOwnerMoves(s: State, l: Lock) returns (t: nat)
    requires Disciplined(s) && LocksAgree(s) && l in s.owner
    ensures Enabled(s, t)
    decreases 3 - l.Rank()
  {
    t := s.owner[l];
    var th := s.threads[t];
    assert l in th.context.held;
    assert th.steps != [];
    if !Enabled(s, t) {
      var wanted := th.steps[0].l;
      assert Next(th.context, Acquire(wanted)).Some?;
      t := SomeOwnerMoves(s, wanted);
    }
  }

  /** No deadlock: while any thread has steps left, some thread can move. */
  lemma SomeoneMoves(s: State, u: nat) returns (t: nat)
    requires Disciplined(s) && LocksAgree(s) && u in s.threads && s.threads[u].steps != []
    ensures Enabled(s, t)
  {
    t := u;
    if !Enabled(s, u) {
      t := SomeOwnerMoves(s, s.threads[u].steps[0].l);
    }
  }

  // ---------------------------------------------------------------- every step keeps the invariant

  lemma NextStep(s: State, t: nat)
    requires Disciplined(s) && Enabled(s, t)
    ensures
      var th := s.threads[t];
      && Next(th.context, th.steps[0]).Some? && Advance(th).context == Next(th.context, th.steps[0]).value
      && Walk(Advance(th).context, Advance(th).steps) == Some(IDLE)
  {
  }

  lemma StaysDisciplined(s: State, t: nat)
    requires Bounded(s) && Disciplined(s) && Enabled(s, t)
    ensures Disciplined(Exec(s, t))
  {
  }

  /** What a step does to the locks that a thread holds. */
  lemma HeldAfter(c: Context, i: Instr, l: Lock)
    requires Next(c, i).Some?
    ensures l in Next(c, i).value.held <==> i == Acquire(l) || (l in c.held && i != Release(l))
  {
  }

  /** It does to the locks that the thread owns. */
  lemma OwnedAfter(s: State, t: nat, i: Instr, l: Lock)
    requires Bounded(s)
    ensures l in Effect(s, t, i).owner && Effect(s, t, i).owner[l] == t <==>
      i == Acquire(l) || (l in s.owner && s.owner[l] == t && i != Release(l))
  {
  }

  lemma MoverHoldsWhatItOwns(s: State, t: nat, l: Lock)
    requires Bounded(s) && Disciplined(s) && LocksAgree(s) && Enabled(s, t)
    ensures l in Advance(s.threads[t]).context.held <==> l in Exec(s, t).owner && Exec(s, t).owner[l] == t
  {
    var i := s.threads[t].steps[0];
    NextStep(s, t);
    HeldAfter(s.threads[t].context, i, l);
    OwnedAfter(s, t, i, l);
    assert l in s.threads[t].context.held <==> l in s.owner && s.owner[l] == t;
  }

  lemma OthersOwnAfter(s: State, t: nat, i: Instr, u: nat, l: Lock)
    requires Bounded(s) && u != t && (i.Acquire? ==> i.l !in s.owner)
    requires i.Release? ==> i.l in s.owner && s.owner[i.l] == t
    ensures l in Effect(s, t, i).owner && Effect(s, t, i).owner[l] == u <==> l in s.owner && s.owner[l] == u
  {
  }

  /** Locks of others are not touched. */
  lemma OthersKeepLocks(s: State, t: nat, u: nat, l: Lock)
    requires Bounded(s) && Disciplined(s) && LocksAgree(s) && Enabled(s, t) && u != t
    ensures l in Exec(s, t).owner && Exec(s, t).owner[l] == u <==> l in s.owner && s.owner[l] == u
  {
    var i := s.threads[t].steps[0];
    NextStep(s, t);
    if i.Release? {
      assert i.l in s.threads[t].context.held <==> i.l in s.owner && s.owner[i.l] == t;
    }
    OthersOwnAfter(s, t, i, u, l);
  }

  lemma LocksStayAgreed(s: State, t: nat)
    requires Bounded(s) && Disciplined(s) && LocksAgree(s) && Enabled(s, t)
    ensures LocksAgree(Exec(s, t))
  {
    var r := Exec(s, t);
    assert r.threads == s.threads[t := Advance(s.threads[t])];
    forall l | l in r.owner
      ensures r.owner[l] in r.threads
    {
      if r.owner[l] != t {
        OthersKeepLocks(s, t, r.owner[l], l);
      }
    }
    forall u, l | u in r.threads
      ensures l in r.threads[u].context.held <==> l in r.owner && r.owner[l] == u
    {
      if u == t {
        MoverHoldsWhatItOwns(s, t, l);
      } else {
        OthersKeepLocks(s, t, u, l);
      }
    }
  }

  /** Two threads never hold the same lock. */
  lemma Exclusive(s: State, t: nat, u: nat, l: Lock)
    requires LocksAgree(s) && t in s.threads && u in s.threads
    requires l in s.threads[t].context.held && l in s.threads[u].context.held
    ensures t == u
  {
    assert l in s.owner && s.owner[l] == t;
    assert l in s.owner && s.owner[l] == u;
  }

  /** What a thread is about to put is what it means to put. */
  lemma MeansWhatItPuts(s: State, t: nat)
    requires Disciplined(s) && Intact(s) && Enabled(s, t) && s.threads[t].steps[0].Put?
    ensures
      var c, i := s.threads[t].context, s.threads[t].steps[0];
      && Meaning(c, i.source) == PacketComposed(Data(s, i.source)) && Sendable(Data(s, i.source))
      && SendLock in c.held && (s.sender.collate && !i.allowCollation ==> s.sender.pending == [])
  {
  }

  lemma MoverStaysIntact(s: State, t: nat)
    requires Bounded(s) && Disciplined(s) && LocksAgree(s) && Intact(s) && Enabled(s, t)
    ensures ThreadIntact(Exec(s, t), t)
  {
  }

  lemma OthersStayIntact(s: State, t: nat, u: nat)
    requires Bounded(s) && Disciplined(s) && LocksAgree(s) && Intact(s) && Enabled(s, t) && u in s.threads && u != t
    ensures ThreadIntact(Exec(s, t), u)
  {
    NextStep(s, t);
    assert ThreadIntact(s, u) && ThreadIntact(s, t);
    var c := s.threads[u].context;
    if c.composed.PacketComposed? && PacketLock in s.threads[t].context.held {
      Exclusive(s, t, u, PacketLock);
    }
    if c.room.RoomFor? && SendLock in s.threads[t].context.held {
      Exclusive(s, t, u, SendLock);
    }
  }

  lemma StaysIntact(s: State, t: nat)
    requires Bounded(s) && Disciplined(s) && LocksAgree(s) && Intact(s) && Enabled(s, t)
    ensures Intact(Exec(s, t))
  {
    forall u | u in s.threads
      ensures ThreadIntact(Exec(s, t), u)
    {
      if u == t {
        MoverStaysIntact(s, t);
      } else {
        OthersStayIntact(s, t, u);
      }
    }
  }

  lemma PutIsTransparent(s: Sender, submitted: seq<bytes>, p: bytes, allow: bool)
    requires Transparent(s, submitted) && Sendable(p) && (s.collate && !allow ==> s.pending == [])
    ensures Transparent(PutIn(s, p, allow), submitted + [p])
  {
    if !s.collate || !allow {
      WriteThroughIsTransparent(s, submitted, p);
    } else if |s.pending| + |p| + OVERHEAD <= MAX_SIZE {
      CollateIsTransparent(s, submitted, p);
    } else {
      FlushIsTransparent(s, submitted);
      WriteThroughIsTransparent(Flush(s), submitted, p);
    }
  }

  /** The packets that the step of a thread passes on: one for a put, none otherwise. */
  function Entries(s: State, t: nat): seq<Entry>
    requires Enabled(s, t)
  {
    var i := s.threads[t].steps[0];
    if i.Put? then [Entry(t, Data(s, i.source))] else []
  }

  lemma LogGrows(s: State, t: nat)
    requires Bounded(s) && Enabled(s, t)
    ensures Exec(s, t).log == s.log + Entries(s, t)
  {
  }

  lemma PutChangesSender(s: State, t: nat)
    requires Bounded(s) && Enabled(s, t) && s.threads[t].steps[0].Put?
    ensures
      var i := s.threads[t].steps[0];
      Exec(s, t).sender == PutIn(s.sender, Data(s, i.source), i.allowCollation)
  {
  }

  lemma RoomOnlyFlushes(s: Sender, p: bytes, allow: bool)
    requires |s.pending| + OVERHEAD <= MAX_SIZE
    ensures RoomMade(s, p, allow) == s || RoomMade(s, p, allow) == Flush(s)
  {
  }

  lemma EffectOnlyFlushes(s: State, t: nat, i: Instr)
    requires Bounded(s) && !i.Put?
    ensures Effect(s, t, i).sender == s.sender || Effect(s, t, i).sender == Flush(s.sender)
  {
    if i.MakeRoom? {
      RoomOnlyFlushes(s.sender, Data(s, i.source), i.allowCollation);
    }
  }

  lemma OthersOnlyFlush(s: State, t: nat)
    requires Bounded(s) && Enabled(s, t) && !s.threads[t].steps[0].Put?
    ensures Exec(s, t).sender == s.sender || Exec(s, t).sender == Flush(s.sender)
  {
    EffectOnlyFlushes(s, t, s.threads[t].steps[0]);
  }

  lemma PacketsInOneMore(log: seq<Entry>, e: Entry)
    ensures PacketsIn(log + [e]) == PacketsIn(log) + [e.packet]
  {
  }

  lemma ByOneMore(log: seq<Entry>, e: Entry, t: nat)
    ensures By(log + [e], t) == By(log, t) + if e.thread == t then [e.packet] else []
  {
  }

  lemma StaysTransparent(s: State, t: nat)
    requires Bounded(s) && Disciplined(s) && Intact(s) && Enabled(s, t) && Transparent(s.sender, PacketsIn(s.log))
    ensures Transparent(Exec(s, t).sender, PacketsIn(Exec(s, t).log))
  {
    var i, r := s.threads[t].steps[0], Exec(s, t);
    var before, after := PacketsIn(s.log), PacketsIn(r.log);
    LogGrows(s, t);
    if i.Put? {
      var p := Data(s, i.source);
      MeansWhatItPuts(s, t);
      PutChangesSender(s, t);
      PacketsInOneMore(s.log, Entry(t, p));
      PutIsTransparent(s.sender, before, p, i.allowCollation);
    } else {
      assert s.log + [] == s.log;
      OthersOnlyFlush(s, t);
      FlushIsTransparent(s.sender, before);
    }
  }

  /** The packets the next step of a thread puts, by the thread's own account. */
  function Passed(th: Thread): seq<bytes>
    requires th.steps != []
  {
    var i := th.steps[0];
    if i.Put? && Meaning(th.context, i.source).PacketComposed? then [Meaning(th.context, i.source).packet] else []
  }

  lemma PutsNext(th: Thread)
    requires th.steps != [] && Walk(th.context, th.steps).Some?
    ensures Walk(Advance(th).context, Advance(th).steps).Some?
    ensures Puts(th.context, th.steps) == Passed(th) + Puts(Advance(th).context, Advance(th).steps)
  {
  }

  lemma LogsWhatItPasses(s: State, t: nat)
    requires Bounded(s) && Disciplined(s) && Intact(s) && Enabled(s, t)
    ensures By(Exec(s, t).log, t) == By(s.log, t) + Passed(s.threads[t])
  {
    var th := s.threads[t];
    LogGrows(s, t);
    if th.steps[0].Put? {
      MeansWhatItPuts(s, t);
      ByOneMore(s.log, Entry(t, Data(s, th.steps[0].source)), t);
    } else {
      assert s.log + [] == s.log;
    }
  }

  /** What a thread does at a step leaves its promise unchanged: put so far and still to put. */
  lemma MoverKeepsOrder(s: State, t: nat)
    requires Bounded(s) && Disciplined(s) && Intact(s) && Enabled(s, t)
    ensures Walk(Advance(s.threads[t]).context, Advance(s.threads[t]).steps).Some?
    ensures By(Exec(s, t).log, t) + Puts(Advance(s.threads[t]).context, Advance(s.threads[t]).steps)
         == By(s.log, t) + Puts(s.threads[t].context, s.threads[t].steps)
  {
    var th := s.threads[t];
    PutsNext(th);
    LogsWhatItPasses(s, t);
    Regroup(By(s.log, t), Passed(th), Puts(Advance(th).context, Advance(th).steps));
  }

  lemma OthersKeepOrder(s: State, t: nat, u: nat)
    requires Bounded(s) && Enabled(s, t) && u != t
    ensures By(Exec(s, t).log, u) == By(s.log, u)
  {
  }

  lemma StaysInOrder(s: State, t: nat, programs: map<nat, seq<Operation>>)
    requires Bounded(s) && Disciplined(s) && Intact(s) && Enabled(s, t) && InOrder(s, programs)
    requires Disciplined(Exec(s, t))
    ensures InOrder(Exec(s, t), programs)
  {
    var r := Exec(s, t);
    assert r.threads == s.threads[t := Advance(s.threads[t])];
    MoverKeepsOrder(s, t);
    forall u | u in r.threads
      ensures By(r.log, u) + Puts(r.threads[u].context, r.threads[u].steps) == PacketsOf(programs[u])
    {
      assert By(s.log, u) + Puts(s.threads[u].context, s.threads[u].steps) == PacketsOf(programs[u]);
      if u != t {
        OthersKeepOrder(s, t, u);
      }
    }
  }

  lemma StepKeepsInvariant(s: State, t: nat, programs: map<nat, seq<Operation>>)
    requires Invariant(s, programs)
    ensures Invariant(Exec(s, t), programs)
  {
    if Enabled(s, t) {
      StaysDisciplined(s, t);
      LocksStayAgreed(s, t);
      StaysIntact(s, t);
      StaysTransparent(s, t);
      StaysInOrder(s, t, programs);
    }
  }

  predicate ProgramsSendable(programs: map<nat, seq<Operation>>) {
    forall t :: t in programs ==> forall i :: 0 <= i < |programs[t]| ==> OperationSendable(programs[t][i])
  }

  lemma OrderAtStart(programs: map<nat, seq<Operation>>, collate: bool)
    requires ProgramsSendable(programs)
    ensures Disciplined(Initial(programs, collate)) && InOrder(Initial(programs, collate), programs)
  {
    var s := Initial(programs, collate);
    forall t | t in programs
      ensures Walk(IDLE, StepsOf(programs[t])) == Some(IDLE)
      ensures By(s.log, t) + Puts(IDLE, StepsOf(programs[t])) == PacketsOf(programs[t])
    {
      ProgramDoes(programs[t]);
      assert [] + PacketsOf(programs[t]) == PacketsOf(programs[t]);
    }
  }

  lemma InvariantAtStart(programs: map<nat, seq<Operation>>, collate: bool)
    requires ProgramsSendable(programs)
    ensures Invariant(Initial(programs, collate), programs)
  {
    OrderAtStart(programs, collate);
  }

  lemma {:induction false} InvariantAlways(programs: map<nat, seq<Operation>>, collate: bool, schedule: seq<nat>)
    requires ProgramsSendable(programs)
    ensures Invariant(Run(Initial(programs, collate), schedule), programs)
  {
    if schedule == [] {
      InvariantAtStart(programs, collate);
    } else {
      InvariantAlways(programs, collate, schedule[..|schedule| - 1]);
      StepKeepsInvariant(Run(Initial(programs, collate), schedule[..|schedule| - 1]), schedule[|schedule| - 1],
        programs);
    }
  }

  // ---------------------------------------------------------------- the results

  predicate HasStepsLeft(s: State, u: nat) {
    u in s.threads && s.threads[u].steps != []
  }

  /** Whatever the threads and the schedule: as long as a thread has steps left, some thread can
      take one. */
  lemma NoDeadlock(programs: map<nat, seq<Operation>>, collate: bool, schedule: seq<nat>, u: nat) returns (t: nat)
    requires ProgramsSendable(programs) && HasStepsLeft(Run(Initial(programs, collate), schedule), u)
    ensures Enabled(Run(Initial(programs, collate), schedule), t)
  {
    InvariantAlways(programs, collate, schedule);
    t := SomeoneMoves(Run(Initial(programs, collate), schedule), u);
  }

  /** Whatever the threads and the schedule, and at any moment: what the receiver finds on the wire,
      followed by what waits in the collation buffer, is an interleaving of the packets the threads
      passed to `writePacket`; each thread's packets are in it in program order, and all of them are
      once the thread is done. */
  lemma WireIsAnInterleaving(programs: map<nat, seq<Operation>>, collate: bool, schedule: seq<nat>)
    requires ProgramsSendable(programs)
    ensures
      var s := Run(Initial(programs, collate), schedule);
      && Receivable(s.sender.wire) && Split(s.sender.pending).Some?
      && Received(s.sender.wire) + Split(s.sender.pending).value == PacketsIn(s.log)
      && s.threads.Keys == programs.Keys
      && forall t :: t in programs ==>
           By(s.log, t) <= PacketsOf(programs[t])
           && (s.threads[t].steps == [] ==> By(s.log, t) == PacketsOf(programs[t]))
  {
    InvariantAlways(programs, collate, schedule);
    var s := Run(Initial(programs, collate), schedule);
    forall t | t in programs
      ensures By(s.log, t) <= PacketsOf(programs[t])
      ensures s.threads[t].steps == [] ==> By(s.log, t) == PacketsOf(programs[t])
    {
      assert By(s.log, t) + Puts(s.threads[t].context, s.threads[t].steps) == PacketsOf(programs[t]);
    }
  }
}
