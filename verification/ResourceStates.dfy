/** The resources of a connection (`3escore/BaseConnection.cpp`) and the packer that sends them
    (`3escore/ResourcePacker.cpp`), as states and steps, with what every run of them keeps. */
module ResourceStates {

  /** A resource: its unique key, and what it is made of. */
  datatype Resource = Resource(key: nat, content: nat)

  datatype TransferProgress = TransferProgress(progress: int, phase: int, complete: bool, failed: bool)

  function Reset(): TransferProgress {
    TransferProgress(0, 0, false, false)
  }

  type PacketSize = x: int | 1 <= x <= 0xFFFF witness 1

  /** What `Resource::transfer` returns: its status, the size of the packet and the new progress. */
  datatype Outcome = Outcome(status: int, size: PacketSize, progress: TransferProgress)

  /** What resources do when they are asked to write: any function at all. */
  datatype Behaviour = Behaviour(
    createSize: Resource -> PacketSize,
    transfer: (Resource, nat, TransferProgress) -> Outcome)

  /** The messages about resources: a data message is what `transfer` writes from that progress. */
  datatype Message =
    | CreateMessage(resource: Resource)
    | DataMessage(resource: Resource, byteLimit: nat, from: TransferProgress)
    | DestroyMessage(resource: Resource)

  // ---------------------------------------------------------------- the packer

  datatype Current = Nothing | Packing(resource: Resource)

  datatype Packer = Packer(current: Current, progress: TransferProgress, started: bool, lastCompleted: nat)

  datatype Packed = Packed(packer: Packer, messages: seq<Message>, size: nat, failed: bool)

  function Cancelled(p: Packer): Packer {
    Packer(Nothing, Reset(), false, p.lastCompleted)
  }

  /** `nextPacket`: a create message first, then what `transfer` writes; a failed transfer drops the
      resource without a packet and without a new last completed id. */
  function NextPacket(b: Behaviour, p: Packer, byteLimit: nat): Packed {
    match p.current
    case Nothing => Packed(p, [], 0, false)
    case Packing(r) =>
      if !p.started then Packed(p.(started := true), [CreateMessage(r)], b.createSize(r), false)
      else
        var o := b.transfer(r, byteLimit, p.progress);
        if o.status != 0 then Packed(p.(current := Nothing, progress := Reset()), [], 0, true)
        else
          var done := o.progress.complete || o.progress.failed;
          Packed(
            if done then p.(current := Nothing, progress := Reset(), lastCompleted := r.key)
            else p.(progress := o.progress),
            [DataMessage(r, byteLimit, p.progress)], o.size, false)
  }

  // ---------------------------------------------------------------- the connection

  datatype ResourceInfo = ResourceInfo(resource: Resource, referenceCount: nat, started: bool, sent: bool)

  /** The fields of a connection, and what it did: the messages it sent, how many transfers failed, and
      the live keys of which a transfer failed. */
  datatype State = State(
    active: bool, resources: map<nat, ResourceInfo>, queue: seq<nat>, packer: Packer, log: seq<Message>,
    failures: nat, failed: set<nat>)

  function Referenced(s: State, r: Resource): State {
    if !s.active then s
    else if r.key in s.resources then
      var info := s.resources[r.key];
      s.(resources := s.resources[r.key := info.(referenceCount := info.referenceCount + 1)])
    else
      s.(resources := s.resources[r.key := ResourceInfo(r, 1, false, false)], queue := s.queue + [r.key])
  }

  function Released(s: State, key: nat): State {
    if !s.active || key !in s.resources then s
    else
      var info := s.resources[key];
      if info.referenceCount > 1 then
        s.(resources := s.resources[key := info.(referenceCount := info.referenceCount - 1)])
      else
        State(s.active, s.resources - {key}, s.queue,
              if s.packer.current.Packing? && s.packer.current.resource.key == key
              then Cancelled(s.packer) else s.packer,
              if info.started || info.sent then s.log + [DestroyMessage(info.resource)] else s.log,
              s.failures, s.failed - {key})
  }

  /** A connection in the middle of `updateTransfers`, and the bytes counted so far (32 bits). */
  datatype Work = Work(state: State, transferred: nat)

  predicate More(w: Work, byteLimit: nat) {
    && (byteLimit == 0 || w.transferred < byteLimit)
    && (w.state.packer.current.Packing? || w.state.queue != [])
  }

  /** Take the next resource off the queue; a key that is no longer known is skipped. */
  function Pop(s: State): State
    requires s.queue != []
  {
    var key := s.queue[0];
    if key !in s.resources then s.(queue := s.queue[1..])
    else
      var info := s.resources[key];
      s.(queue := s.queue[1..], resources := s.resources[key := info.(started := true)],
         packer := Packer(Packing(info.resource), Reset(), false, s.packer.lastCompleted))
  }

  function MarkSent(resources: map<nat, ResourceInfo>, key: nat): map<nat, ResourceInfo> {
    if key in resources then resources[key := resources[key].(sent := true)] else resources
  }

  /** Send the next packet of the current resource. */
  function Pack(b: Behaviour, s: State, byteLimit: nat): State
    requires s.packer.current.Packing?
  {
    var n := NextPacket(b, s.packer, byteLimit);
    s.(packer := n.packer, log := s.log + n.messages, failures := if n.failed then s.failures + 1 else s.failures,
       failed := if n.failed then s.failed + {s.packer.current.resource.key} else s.failed,
       resources := if n.packer.current.Nothing? then MarkSent(s.resources, n.packer.lastCompleted) else s.resources)
  }

  /** One round of the loop of `updateTransfers`. */
  function Round(b: Behaviour, w: Work, byteLimit: nat): Work
    requires More(w, byteLimit)
  {
    var s := w.state;
    if s.packer.current.Nothing? then w.(state := Pop(s))
    else
      var left := if byteLimit != 0 then byteLimit - w.transferred else 0;
      Work(Pack(b, s, left), (w.transferred + NextPacket(b, s.packer, left).size) % 0x1_0000_0000)
  }

  /** `n` rounds, of which every one was called for. */
  function Rounds(b: Behaviour, w: Work, byteLimit: nat, n: nat): Work {
    if n == 0 then w
    else
      var v := Rounds(b, w, byteLimit, n - 1);
      if More(v, byteLimit) then Round(b, v, byteLimit) else v
  }

  /** Each of the first `n` rounds was called for. */
  ghost predicate AllCalledFor(b: Behaviour, w: Work, byteLimit: nat, n: nat) {
    forall k :: 0 <= k < n ==> More(Rounds(b, w, byteLimit, k), byteLimit)
  }

  lemma OneMoreRound(b: Behaviour, w: Work, byteLimit: nat, n: nat, v: Work)
    requires v == Rounds(b, w, byteLimit, n) && More(v, byteLimit) && AllCalledFor(b, w, byteLimit, n)
    ensures Rounds(b, w, byteLimit, n + 1) == Round(b, v, byteLimit) && AllCalledFor(b, w, byteLimit, n + 1)
  {
  }

  // ---------------------------------------------------------------- the byte limit of one call

  /** The size of the packet that carries a message. */
  function SizeOf(b: Behaviour, m: Message): nat {
    match m
    case CreateMessage(r) => b.createSize(r)
    case DataMessage(r, limit, from) => b.transfer(r, limit, from).size
    case DestroyMessage(_) => 0
  }

  function BytesOf(b: Behaviour, sent: seq<Message>): nat {
    if sent == [] then 0 else BytesOf(b, sent[..|sent| - 1]) + SizeOf(b, sent[|sent| - 1])
  }

  /** A message that may follow others in one call of `updateTransfers`: their bytes have not reached the
      limit, and what they leave of it is the limit of a transfer. They are counted in 32 bits. */
  predicate WithinLimit(b: Behaviour, byteLimit: nat, before: seq<Message>, m: Message) {
    var counted := BytesOf(b, before) % 0x1_0000_0000;
    && !m.DestroyMessage?
    && (byteLimit != 0 ==> counted < byteLimit)
    && (m.DataMessage? ==> m.byteLimit == if byteLimit == 0 then 0 else byteLimit - counted)
  }

  /** The messages of one call. */
  predicate KeepsLimit(b: Behaviour, byteLimit: nat, sent: seq<Message>) {
    forall i :: 0 <= i < |sent| ==> WithinLimit(b, byteLimit, sent[..i], sent[i])
  }

  /** A call ends when the limit is reached, or nothing is left to send. */
  predicate EndsAtLimit(b: Behaviour, s: State, byteLimit: nat, sent: seq<Message>) {
    || (byteLimit != 0 && BytesOf(b, sent) % 0x1_0000_0000 >= byteLimit)
    || (s.queue == [] && s.packer.current.Nothing?)
  }

  lemma KeepsOneMore(b: Behaviour, byteLimit: nat, sent: seq<Message>, m: Message)
    requires KeepsLimit(b, byteLimit, sent) && WithinLimit(b, byteLimit, sent, m)
    ensures KeepsLimit(b, byteLimit, sent + [m]) && BytesOf(b, sent + [m]) == BytesOf(b, sent) + SizeOf(b, m)
  {
    var more := sent + [m];
    assert more[..|sent|] == sent;
    forall i | 0 <= i < |more|
      ensures WithinLimit(b, byteLimit, more[..i], more[i])
    {
      if i < |sent| {
        assert more[..i] == sent[..i] && WithinLimit(b, byteLimit, sent[..i], sent[i]);
      }
    }
  }

  /** The packer writes no message, or one that asks for no more than it may. */
  lemma PacketWithin(b: Behaviour, p: Packer, limit: nat)
    requires p.current.Packing?
    ensures
      var n := NextPacket(b, p, limit);
      || (n.messages == [] && n.size == 0)
      || (&& n.messages == [n.messages[0]] && n.size == SizeOf(b, n.messages[0]) && !n.messages[0].DestroyMessage?
          && (n.messages[0].DataMessage? ==> n.messages[0].byteLimit == limit))
  {
  }

  lemma SumInWords(a: nat, n: nat)
    ensures (a % 0x1_0000_0000 + n) % 0x1_0000_0000 == (a + n) % 0x1_0000_0000
  {
  }

  /** What follows from the packet alone. */
  lemma CountedWithin(b: Behaviour, byteLimit: nat, sent: seq<Message>, more: seq<Message>, size: nat)
    requires KeepsLimit(b, byteLimit, sent)
    requires more == [] ==> size == 0
    requires more != [] ==> more == [more[0]] && size == SizeOf(b, more[0]) && WithinLimit(b, byteLimit, sent, more[0])
    ensures KeepsLimit(b, byteLimit, sent + more)
    ensures BytesOf(b, sent + more) % 0x1_0000_0000 == (BytesOf(b, sent) % 0x1_0000_0000 + size) % 0x1_0000_0000
  {
    if more == [] {
      assert sent + more == sent;
    } else {
      KeepsOneMore(b, byteLimit, sent, more[0]);
    }
    SumInWords(BytesOf(b, sent), size);
  }

  /** One round sends no message, or one within the limit, and counts its bytes. */
  lemma RoundSends(b: Behaviour, w: Work, byteLimit: nat, sent: seq<Message>, counted: nat)
    returns (more: seq<Message>, size: nat)
    requires More(w, byteLimit) && w.transferred == counted == BytesOf(b, sent) % 0x1_0000_0000
    ensures Round(b, w, byteLimit).state.log == w.state.log + more
    ensures Round(b, w, byteLimit).transferred == (counted + size) % 0x1_0000_0000
    ensures more == [] ==> size == 0
    ensures more != [] ==> more == [more[0]] && size == SizeOf(b, more[0]) && WithinLimit(b, byteLimit, sent, more[0])
  {
    more, size := [], 0;
    if w.state.packer.current.Packing? {
      var left := if byteLimit != 0 then byteLimit - w.transferred else 0;
      PacketWithin(b, w.state.packer, left);
      more, size := NextPacket(b, w.state.packer, left).messages, NextPacket(b, w.state.packer, left).size;
    }
  }

  /** A call has sent these messages since a state, and counted their bytes. */
  predicate CameTo(b: Behaviour, s: State, byteLimit: nat, w: Work, sent: seq<Message>) {
    && w.state.log == s.log + sent && KeepsLimit(b, byteLimit, sent)
    && w.transferred == BytesOf(b, sent) % 0x1_0000_0000
  }

  lemma ComesFurther(b: Behaviour, s: State, byteLimit: nat, w: Work, sent: seq<Message>) returns (all: seq<Message>)
    requires More(w, byteLimit) && CameTo(b, s, byteLimit, w, sent)
    ensures CameTo(b, s, byteLimit, Round(b, w, byteLimit), all)
  {
    var more, size := RoundSends(b, w, byteLimit, sent, w.transferred);
    CountedWithin(b, byteLimit, sent, more, size);
    assert (s.log + sent) + more == s.log + (sent + more);
    all := sent + more;
  }

  /** What one call of `updateTransfers` sends, told from the log alone. */
  lemma {:induction false} RoundsKeepLimit(b: Behaviour, s: State, byteLimit: nat, n: nat) returns (sent: seq<Message>)
    requires AllCalledFor(b, Work(s, 0), byteLimit, n)
    ensures CameTo(b, s, byteLimit, Rounds(b, Work(s, 0), byteLimit, n), sent)
    decreases n
  {
    if n == 0 {
      sent := [];
    } else {
      sent := RoundsKeepLimit(b, s, byteLimit, n - 1);
      sent := ComesFurther(b, s, byteLimit, Rounds(b, Work(s, 0), byteLimit, n - 1), sent);
    }
  }

  /** With a limit that ends a call by itself the count never wraps around: each transfer is given just
      what is left of the limit, and only the last packet can reach it. */
  lemma LimitWithoutWrap(b: Behaviour, byteLimit: nat, sent: seq<Message>, i: nat)
    requires KeepsLimit(b, byteLimit, sent) && 0 < byteLimit <= 0xFFFF_0001 && i < |sent|
    ensures BytesOf(b, sent[..i]) < byteLimit
    ensures sent[i].DataMessage? ==> sent[i].byteLimit == byteLimit - BytesOf(b, sent[..i])
  {
    BytesBelow(b, byteLimit, sent, i);
    assert WithinLimit(b, byteLimit, sent[..i], sent[i]);
  }

  lemma {:induction false} BytesBelow(b: Behaviour, byteLimit: nat, sent: seq<Message>, i: nat)
    requires KeepsLimit(b, byteLimit, sent) && 0 < byteLimit <= 0xFFFF_0001 && i < |sent|
    ensures BytesOf(b, sent[..i]) < byteLimit
  {
    assert WithinLimit(b, byteLimit, sent[..i], sent[i]);
    if i != 0 {
      BytesBelow(b, byteLimit, sent, i - 1);
      assert sent[..i][..i - 1] == sent[..i - 1];
    }
  }

  // ---------------------------------------------------------------- what a receiver has

  /** What a receiver knows of a key. `Broken`: it got a message it has no use for. */
  datatype Phase = Absent | Sending(resource: Resource, next: TransferProgress) | Done(resource: Resource) | Broken

  /** A create message starts a transfer from the beginning; each data message must continue exactly
      where the one before stopped; a destroy message must name what was created. */
  function After(b: Behaviour, phase: Phase, m: Message, key: nat): Phase {
    if m.resource.key != key then phase
    else
      match m
      case CreateMessage(r) => if phase.Absent? || phase.Done? then Sending(r, Reset()) else Broken
      case DataMessage(r, limit, from) =>
        if phase != Sending(r, from) then Broken
        else
          var next := b.transfer(r, limit, from).progress;
          if next.complete || next.failed then Done(r) else Sending(r, next)
      case DestroyMessage(r) =>
        if (phase.Sending? || phase.Done?) && phase.resource == r then Absent else Broken
  }

  function PhaseOf(b: Behaviour, log: seq<Message>, key: nat): Phase {
    if log == [] then Absent else After(b, PhaseOf(b, log[..|log| - 1], key), log[|log| - 1], key)
  }

  lemma PhaseOneMore(b: Behaviour, log: seq<Message>, m: Message, key: nat)
    ensures PhaseOf(b, log + [m], key) == After(b, PhaseOf(b, log, key), m, key)
  {
  }

  /** No receiver got a message it has no use for. */
  ghost predicate Unbroken(b: Behaviour, log: seq<Message>) {
    forall key :: PhaseOf(b, log, key) != Broken
  }

  /** A broken receiver stays broken. */
  lemma BrokenForGood(b: Behaviour, log: seq<Message>, more: seq<Message>, key: nat)
    requires PhaseOf(b, log, key) == Broken && |more| <= 1
    ensures PhaseOf(b, log + more, key) == Broken
  {
    if more == [] {
      assert log + more == log;
    } else {
      assert log + more == log + [more[0]];
      PhaseOneMore(b, log, more[0], key);
    }
  }

  // ---------------------------------------------------------------- what every run keeps

  /** An entry is counted; unstarted it waits in the queue; started it is sent, or the packer has it, or
      a transfer of it failed. */
  predicate EntryOk(s: State, key: nat)
    requires key in s.resources
  {
    var info := s.resources[key];
    && info.resource.key == key && info.referenceCount >= 1
    && (!info.started ==> key in s.queue)
    && (info.started && !info.sent ==> s.packer.current == Packing(info.resource) || key in s.failed)
    && (key in s.failed ==> info.started)
    && (s.failures == 0 && info.sent ==> info.started)
  }

  predicate CurrentOk(s: State) {
    s.packer.current.Packing? ==>
      var r := s.packer.current.resource;
      && r.key in s.resources && s.resources[r.key].resource == r && s.resources[r.key].started
      && (!s.packer.started ==> s.packer.progress == Reset())
  }

  /** What holds in every run, whatever transfers fail. */
  predicate Bookkept(s: State) {
    && CurrentOk(s) && s.failed <= s.resources.Keys && (s.failures == 0 ==> s.failed == {})
    && forall key :: key in s.resources ==> EntryOk(s, key)
  }

  /** What a receiver knows of a key as long as it is not broken: of an entry that failed, a part; of one
      under way, all up to now; of any other that was started, all of it. */
  ghost predicate KnownAt(b: Behaviour, s: State, key: nat) {
    var phase := PhaseOf(b, s.log, key);
    if key !in s.resources then phase == Absent
    else
      var info := s.resources[key];
      if s.packer.current == Packing(info.resource) && s.packer.started then
        phase == Sending(info.resource, s.packer.progress) && key !in s.failed
      else if key in s.failed then phase.Sending? && phase.resource == info.resource
      else if s.packer.current == Packing(info.resource) then phase == Absent || phase == Done(info.resource)
      else phase == if info.started then Done(info.resource) else Absent
  }

  ghost predicate Known(b: Behaviour, s: State) {
    forall key :: KnownAt(b, s, key)
  }

  /** Between calls a current resource has been announced. */
  predicate AtRest(s: State) {
    s.packer.current.Packing? ==> s.packer.started
  }

  function Start(): State {
    State(true, map[], [], Packer(Nothing, Reset(), false, 0), [], 0, {})
  }

  lemma StartKeeps(b: Behaviour)
    ensures Bookkept(Start()) && Known(b, Start()) && AtRest(Start())
  {
  }

  lemma KnownIsUnbroken(b: Behaviour, s: State)
    requires Known(b, s)
    ensures Unbroken(b, s.log)
  {
    forall key: nat
      ensures PhaseOf(b, s.log, key) != Broken
    {
      assert KnownAt(b, s, key);
    }
  }

  // ---------------------------------------------------------------- which steps break a receiver

  /** The last reference is released to an entry that is marked as sent and was never started. */
  predicate ReleaseBreaks(s: State, key: nat) {
    s.active && key in s.resources && s.resources[key].referenceCount <= 1 && s.resources[key].sent
      && !s.resources[key].started
  }

  /** A resource is announced again of which a transfer has failed. */
  predicate PackBreaks(s: State) {
    s.packer.current.Packing? && !s.packer.started && s.packer.current.resource.key in s.failed
  }

  lemma ReferencedKeeps(b: Behaviour, s: State, r: Resource)
    requires Bookkept(s)
    ensures Bookkept(Referenced(s, r))
    ensures Known(b, s) ==> Known(b, Referenced(s, r))
  {
    var t := Referenced(s, r);
    forall key | key in t.resources
      ensures EntryOk(t, key)
    {
      assert key in s.resources ==> EntryOk(s, key);
      if s.active && r.key !in s.resources {
        assert t.queue[|s.queue|] == r.key;
      }
    }
    if Known(b, s) {
      forall key: nat
        ensures KnownAt(b, t, key)
      {
        assert KnownAt(b, s, key);
      }
    }
  }

  lemma ReleasedIsBookkept(s: State, key: nat)
    requires Bookkept(s)
    ensures Bookkept(Released(s, key))
  {
    var t := Released(s, key);
    forall k | k in t.resources
      ensures EntryOk(t, k)
    {
      assert EntryOk(s, k);
    }
  }

  /** Releasing breaks the receiver exactly if it destroys what was never started. */
  lemma ReleasedKeeps(b: Behaviour, s: State, key: nat)
    requires Bookkept(s) && AtRest(s) && Known(b, s)
    ensures !ReleaseBreaks(s, key) ==> Known(b, Released(s, key))
    ensures ReleaseBreaks(s, key) ==> PhaseOf(b, Released(s, key).log, key) == Broken
  {
    var t := Released(s, key);
    assert KnownAt(b, s, key);
    if key in s.resources {
      assert EntryOk(s, key);
      PhaseOneMore(b, s.log, DestroyMessage(s.resources[key].resource), key);
    }
    if !ReleaseBreaks(s, key) {
      forall k: nat
        ensures KnownAt(b, t, k)
      {
        assert KnownAt(b, s, k);
        if t.log != s.log {
          PhaseOneMore(b, s.log, DestroyMessage(s.resources[key].resource), k);
        }
      }
    }
  }

  lemma PopIsBookkept(s: State)
    requires Bookkept(s) && s.packer.current.Nothing? && s.queue != []
    ensures Bookkept(Pop(s))
  {
    var t := Pop(s);
    forall k | k in t.resources
      ensures EntryOk(t, k)
    {
      assert EntryOk(s, k);
    }
  }

  /** Taking a key off the queue tells receivers nothing. */
  lemma PopKeeps(b: Behaviour, s: State)
    requires Bookkept(s) && Known(b, s) && s.packer.current.Nothing? && s.queue != []
    ensures Known(b, Pop(s))
  {
    var t := Pop(s);
    forall k: nat
      ensures KnownAt(b, t, k)
    {
      assert KnownAt(b, s, k);
      assert k in s.resources ==> EntryOk(s, k);
    }
  }

  lemma PackIsBookkept(b: Behaviour, s: State, byteLimit: nat)
    requires Bookkept(s) && s.packer.current.Packing?
    ensures Bookkept(Pack(b, s, byteLimit)) && AtRest(Pack(b, s, byteLimit))
  {
    var t := Pack(b, s, byteLimit);
    forall k | k in t.resources
      ensures EntryOk(t, k)
    {
      assert EntryOk(s, k);
    }
  }

  /** A packet breaks the receiver exactly if it announces what failed before. */
  lemma PackKeeps(b: Behaviour, s: State, byteLimit: nat)
    requires Bookkept(s) && Known(b, s) && s.packer.current.Packing?
    ensures !PackBreaks(s) ==> Known(b, Pack(b, s, byteLimit))
    ensures PackBreaks(s) ==> PhaseOf(b, Pack(b, s, byteLimit).log, s.packer.current.resource.key) == Broken
  {
    var t, r := Pack(b, s, byteLimit), s.packer.current.resource;
    var n := NextPacket(b, s.packer, byteLimit);
    assert KnownAt(b, s, r.key) && EntryOk(s, r.key);
    if n.messages != [] {
      assert n.messages == [n.messages[0]];
      PhaseOneMore(b, s.log, n.messages[0], r.key);
    }
    if !PackBreaks(s) {
      forall k: nat
        ensures KnownAt(b, t, k)
      {
        assert KnownAt(b, s, k);
        assert k in s.resources ==> EntryOk(s, k);
        if n.messages != [] {
          PhaseOneMore(b, s.log, n.messages[0], k);
        } else {
          assert s.log + [] == s.log;
        }
      }
    }
  }

  predicate Drained(s: State) {
    s.queue == [] && s.packer.current.Nothing?
  }

  /** Once nothing is queued or under way, receivers have exactly the live resources: whole, but for
      those of which a transfer failed. */
  lemma DrainedIsComplete(b: Behaviour, s: State, key: nat)
    requires Bookkept(s) && Known(b, s) && Drained(s)
    ensures key !in s.resources ==> PhaseOf(b, s.log, key) == Absent
    ensures key in s.resources && key !in s.failed ==>
      PhaseOf(b, s.log, key) == Done(s.resources[key].resource) && s.resources[key].sent
    ensures key in s.resources && key in s.failed ==> PhaseOf(b, s.log, key).Sending?
    ensures s.failures == 0 ==> key !in s.failed
  {
    assert KnownAt(b, s, key);
    assert key in s.resources ==> EntryOk(s, key);
  }

  // ---------------------------------------------------------------- how entries come to be marked so

  /** The entry is marked as sent and was never started. */
  predicate WronglySent(s: State, key: nat) {
    key in s.resources && s.resources[key].sent && !s.resources[key].started
  }

  /** Only a failed transfer marks an entry so, and just that of the resource completed before, if it is
      live again and still queued: it is marked instead of the one that failed. */
  lemma WhatMarksWrongly(b: Behaviour, s: State, byteLimit: nat, key: nat)
    requires Bookkept(s) && s.packer.current.Packing?
    ensures WronglySent(Pack(b, s, byteLimit), key) <==>
      (WronglySent(s, key)
        || (NextPacket(b, s.packer, byteLimit).failed && key == s.packer.lastCompleted
            && key in s.resources && !s.resources[key].started))
  {
    assert key in s.resources ==> EntryOk(s, key);
  }
}
