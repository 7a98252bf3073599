/** Sending a mesh piece by piece and putting it together again: `3escore/shapes/MeshResource.cpp` and
    the `process...` operations of `3escore/shapes/SimpleMesh.cpp`. */
module MeshTransfers {
  import opened Bytes
  import opened Meshes
  import opened ResourceStates
  import opened ResourceTransfers

  const MMT_VERTEX := 3
  const MMT_INDEX := 4
  const MMT_VERTEX_COLOUR := 5
  const MMT_NORMAL := 6
  const MMT_UV := 7
  const MMT_FINALISE := 10

  /** What precedes the slice in a component message: packet header and mesh id. */
  const HEADER_AND_ID := 20

  datatype MeshMessage =
    | MeshCreate(id: nat, vertexCount: nat, indexCount: nat, drawType: nat, transform: nat, tint: nat, drawScale: real)
    | MeshComponent(phase: int, id: nat, offset: nat, elements: seq<Element>)
    | MeshFinalise(id: nat, calculateNormals: bool)

  // ---------------------------------------------------------------- the sender

  /** The stream a phase sends; empty where the mesh has none to offer. */
  function Stream(m: Mesh, phase: int): seq<Element> {
    if phase == MMT_VERTEX then m.vertices
    else if phase == MMT_INDEX && Index in m.components then m.indices
    else if phase == MMT_VERTEX_COLOUR && Colour in m.components then m.colours
    else if phase == MMT_NORMAL && Normal in m.components then m.normals
    else if phase == MMT_UV && Uv in m.components then m.uvs
    else []
  }

  /** Bytes of an element on the wire: vectors are three floats, texture coordinates two. */
  function ItemSize(phase: int): nat {
    if phase == MMT_VERTEX || phase == MMT_NORMAL then 12 else if phase == MMT_UV then 8 else 4
  }

  /** Whether a phase has something to send; all but the indices need vertices. */
  predicate HasPhase(m: Mesh, phase: int) {
    Stream(m, phase) != [] && (phase == MMT_INDEX || m.vertices != [])
  }

  /** The first phase from `phase` on that has something to send. */
  function FirstPhase(m: Mesh, phase: int): (next: int)
    requires phase >= MMT_VERTEX
    decreases MMT_FINALISE - phase
  {
    if phase > MMT_UV then MMT_FINALISE
    else if HasPhase(m, phase) then phase
    else FirstPhase(m, phase + 1)
  }

  /** `DataBuffer::estimateTransferCount`, at most what is left: what the limit allows, and at most what a packet
      may hold. */
  function TransferCount(itemSize: nat, remaining: nat, limit: nat): nat
    requires itemSize > 0
  {
    var most := LARGEST_SLICE / itemSize;
    var count := if limit == 0 || limit / itemSize > most then most else limit / itemSize;
    if count > remaining then remaining else count
  }

  /** How many elements a data packet takes: none if the count does not fit the `room` left in the packet
      buffer. */
  function Written(itemSize: nat, remaining: nat, byteLimit: nat, room: nat): nat
    requires itemSize > 0
  {
    var transfer := TransferCount(itemSize, remaining, LimitOf(byteLimit, room));
    if room < 8 || transfer * itemSize > room - 8 then 0 else transfer
  }

  datatype Sent = Sent(status: int, progress: TransferProgress, messages: seq<MeshMessage>)

  function Begun(m: Mesh, p: TransferProgress): TransferProgress {
    if p.phase == 0 then p.(phase := FirstPhase(m, MMT_VERTEX), progress := 0) else p
  }

  /** A slice of the phase's stream, and the next phase behind its end; nothing if none fits. */
  function SliceSent(m: Mesh, byteLimit: nat, room: nat, p: TransferProgress): Sent
    requires MMT_VERTEX <= p.phase <= MMT_UV
  {
    var stream := Stream(m, p.phase);
    if stream == [] || !(0 <= p.progress < |stream|) then Sent(-1, p, [])
    else
      var n := Written(ItemSize(p.phase), |stream| - p.progress, byteLimit, room);
      if n == 0 then Sent(-1, p, [])
      else
        var reached := p.progress + n;
        Sent(0,
             if reached >= |stream| then p.(phase := FirstPhase(m, p.phase + 1), progress := 0)
             else p.(progress := reached),
             [MeshComponent(p.phase, m.id, p.progress, stream[p.progress..reached])])
  }

  /** `transfer`: the next packet, from what `progress` says was sent. */
  function Transferred(m: Mesh, byteLimit: nat, room: nat, progress: TransferProgress): Sent {
    var p := Begun(m, progress);
    if p.phase == MMT_FINALISE then
      Sent(0, p.(complete := true), [MeshFinalise(m.id, Stream(m, MMT_NORMAL) == [])])
    else if MMT_VERTEX <= p.phase <= MMT_UV then SliceSent(m, byteLimit, room, p)
    else
      var failed := p.(failed := true);
      Sent(0,
           if p.progress >= 0 then failed.(phase := MMT_FINALISE, progress := 0) else failed,
           [MeshComponent(p.phase, m.id, 0, [])])
  }

  function Created(m: Mesh): MeshMessage {
    MeshCreate(m.id, |m.vertices|, |Stream(m, MMT_INDEX)|, m.drawType, m.transform, m.tint,
               if m.drawScale > 0.0 then m.drawScale else 0.0)
  }

  // ---------------------------------------------------------------- the receiver

  /** `processCreate` */
  function ProcessCreate(r: Mesh, msg: MeshMessage): Mesh
    requires msg.MeshCreate?
  {
    var sized :=
      WithIndexCount(WithVertexCount(r.(id := msg.id, drawScale := msg.drawScale), msg.vertexCount), msg.indexCount);
    sized.(drawType := msg.drawType, transform := msg.transform, tint := msg.tint)
  }

  /** `processNormals`, where there is a normal for each vertex. */
  function ProcessNormals(r: Mesh, offset: nat, elements: seq<Element>): Mesh {
    WithNormals(r, offset, elements)
  }

  /** `processUVs`, which looks at the flag of the normals and sets that; what it writes past the end is
      dropped here. */
  function ProcessUvs(r: Mesh, offset: nat, elements: seq<Element>): Mesh {
    if Normal !in r.components && r.vertices != []
    then r.(components := r.components + {Normal}, uvs := Overlaid(Resized(r.uvs, |r.vertices|, 0), offset, elements))
    else r.(uvs := Overlaid(r.uvs, offset, elements))
  }

  function Larger(a: nat, b: nat): nat {
    if a < b then b else a
  }

  function Smaller(a: nat, b: nat): nat {
    if a < b then a else b
  }

  /** `processUVs` writes past the end of the texture coordinates: it does not make room for them where
      there are normals. */
  predicate Overruns(r: Mesh, msg: MeshMessage) {
    && msg.MeshComponent? && msg.phase == MMT_UV && (Normal in r.components || r.vertices == [])
    && Larger(msg.offset, |r.uvs|) < Smaller(msg.offset + |msg.elements|, |r.vertices|)
  }

  /** `readTransfer` */
  function Received(r: Mesh, msg: MeshMessage): Mesh {
    match msg
    case MeshCreate(_, _, _, _, _, _, _) => ProcessCreate(r, msg)
    case MeshComponent(phase, _, offset, elements) =>
      if phase == MMT_VERTEX then r.(vertices := Overlaid(r.vertices, offset, elements))
      else if phase == MMT_INDEX then r.(indices := Overlaid(r.indices, offset, elements))
      else if phase == MMT_VERTEX_COLOUR then WithColours(r, offset, elements)
      else if phase == MMT_NORMAL then ProcessNormals(r, offset, elements)
      else if phase == MMT_UV then ProcessUvs(r, offset, elements)
      else r
    case MeshFinalise(_, _) => r
  }

  function ReceivedAll(r: Mesh, messages: seq<MeshMessage>): Mesh {
    if messages == [] then r else Received(ReceivedAll(r, messages[..|messages| - 1]), messages[|messages| - 1])
  }

  /** Whether the receiver writes past the end for some of the messages. */
  predicate AnyOverruns(r: Mesh, messages: seq<MeshMessage>) {
    messages != [] &&
      (AnyOverruns(r, messages[..|messages| - 1])
       || Overruns(ReceivedAll(r, messages[..|messages| - 1]), messages[|messages| - 1]))
  }

  /** A vertex with a normal and texture coordinates: the latter are written where there is no room. */
  lemma UvExample()
    ensures
      var create := MeshCreate(0, 1, 0, TRIANGLES, IDENTITY_TRANSFORM, WHITE, 0.0);
      var messages :=
        [MeshComponent(MMT_VERTEX, 0, 0, [5]), MeshComponent(MMT_NORMAL, 0, 0, [6]), MeshComponent(MMT_UV, 0, 0, [7])];
      AnyOverruns(ProcessCreate(Blank(0, {Vertex, Index}), create), messages)
  {
    var r := ProcessCreate(Blank(0, {Vertex, Index}), MeshCreate(0, 1, 0, TRIANGLES, IDENTITY_TRANSFORM, WHITE, 0.0));
    var a, b, c :=
      MeshComponent(MMT_VERTEX, 0, 0, [5]), MeshComponent(MMT_NORMAL, 0, 0, [6]), MeshComponent(MMT_UV, 0, 0, [7]);
    assert [a, b, c][..2] == [a, b] && [a, b][..1] == [a] && [a][..0] == [];
    assert ReceivedAll(r, [a]) == Received(r, a);
    assert ReceivedAll(r, [a, b]) == Received(Received(r, a), b);
  }

  // ---------------------------------------------------------------- what the receiver has so far

  /** How much of a phase's stream is sent when a transfer has come to `p`. */
  function Reached(m: Mesh, p: TransferProgress, phase: int): int {
    if p.phase > phase || p.complete then |Stream(m, phase)| else if p.phase == phase then p.progress else 0
  }

  function Filled(s: seq<Element>, k: int): seq<Element>
    requires 0 <= k <= |s|
  {
    s[..k] + Zeroes(|s| - k)
  }

  /** A progress that a transfer of this mesh can come to. */
  predicate Legal(m: Mesh, p: TransferProgress) {
    && !p.failed
    && (p.phase == 0 ==> p.progress == 0 && !p.complete)
    && (MMT_VERTEX <= p.phase <= MMT_UV ==>
      HasPhase(m, p.phase) && 0 <= p.progress < |Stream(m, p.phase)| && !p.complete)
    && (p.phase == 0 || MMT_VERTEX <= p.phase <= MMT_UV || p.phase == MMT_FINALISE)
  }

  /** The mesh a receiver has made of what was sent so far: the sent part of each stream, zeroes for
      the rest, and no colours or normals before the first of them. Texture coordinates find no place
      behind normals, and are flagged as normals otherwise. */
  function Expected(m: Mesh, p: TransferProgress): Mesh
    requires Legal(m, p)
  {
    var colours, normals, uvs := Reached(m, p, MMT_VERTEX_COLOUR), Reached(m, p, MMT_NORMAL), Reached(m, p, MMT_UV);
    Mesh(
      Filled(m.vertices, Reached(m, p, MMT_VERTEX)),
      Filled(Stream(m, MMT_INDEX), Reached(m, p, MMT_INDEX)),
      if colours == 0 then [] else Filled(m.colours, colours),
      if normals == 0 then [] else Filled(m.normals, normals),
      if uvs == 0 || normals != 0 then [] else Filled(m.uvs, uvs), m.transform, m.id, m.tint,
      {Vertex, Index} + (if colours == 0 then {} else {Colour}) + (if normals == 0 && uvs == 0 then {} else {Normal}),
      m.drawType, if m.drawScale > 0.0 then m.drawScale else 0.0)
  }

  lemma {:induction false} SkippedAreEmpty(m: Mesh, from: int, phase: int)
    requires WellMade(m) && MMT_VERTEX <= from <= phase < FirstPhase(m, from)
    ensures phase <= MMT_UV ==> Stream(m, phase) == []
    decreases MMT_FINALISE - from
  {
  }

  lemma {:induction false} FirstPhaseHasSomething(m: Mesh, from: int)
    requires MMT_VERTEX <= from <= MMT_UV + 1
    ensures
      var next := FirstPhase(m, from);
      (from <= next <= MMT_UV && HasPhase(m, next)) || next == MMT_FINALISE
    decreases MMT_FINALISE - from
  {
  }

  /** Moving on to the first phase with something to send skips nothing. */
  lemma MovingOnKeepsReached(m: Mesh, p: TransferProgress, from: int, phase: int)
    requires WellMade(m) && MMT_VERTEX <= from <= MMT_UV + 1 && MMT_VERTEX <= phase <= MMT_UV && !p.complete
    ensures Reached(m, p.(phase := FirstPhase(m, from), progress := 0), phase)
      == if phase < from then |Stream(m, phase)| else 0
  {
  }

  lemma OverlayFills(s: seq<Element>, k: nat, n: nat)
    requires k + n <= |s|
    ensures Overlaid(Filled(s, k), k, s[k..k + n]) == Filled(s, k + n)
  {
  }

  lemma FilledNone(s: seq<Element>)
    ensures Filled(s, 0) == Zeroes(|s|) == Resized([], |s|, 0)
  {
  }

  lemma FilledAll(s: seq<Element>)
    ensures Filled(s, |s|) == s
  {
  }

  /** Right after the create message a receiver has what is expected. */
  lemma CreateIsExpected(m: Mesh, id: nat)
    requires WellMade(m)
    ensures Legal(m, Reset()) && ProcessCreate(Blank(id, {Vertex, Index}), Created(m)) == Expected(m, Reset())
  {
  }

  /** The first call finds its phase, and that changes nothing of what is expected. */
  lemma BeginIsLegal(m: Mesh, p: TransferProgress)
    requires WellMade(m) && Legal(m, p)
    ensures Legal(m, Begun(m, p)) && Expected(m, Begun(m, p)) == Expected(m, p)
  {
  }

  /** After a data packet its phase has reached that much more; the others are as before. */
  lemma PacketReaches(m: Mesh, byteLimit: nat, room: nat, p: TransferProgress, phase: int)
    requires WellMade(m) && Legal(m, p) && MMT_VERTEX <= p.phase <= MMT_UV && MMT_VERTEX <= phase <= MMT_UV
    requires Transferred(m, byteLimit, room, p).status == 0
    ensures
      var sent := Transferred(m, byteLimit, room, p);
      Reached(m, sent.progress, phase)
        == if phase == p.phase then p.progress + |sent.messages[0].elements| else Reached(m, p, phase)
  {
  }

  lemma PacketIsLegal(m: Mesh, byteLimit: nat, room: nat, p: TransferProgress)
    requires WellMade(m) && Legal(m, p) && Transferred(m, byteLimit, room, p).status == 0
    ensures Legal(m, Transferred(m, byteLimit, room, p).progress)
  {
  }

  /** A data packet carries the next elements of its phase, at least one. */
  lemma PacketShape(m: Mesh, byteLimit: nat, room: nat, p: TransferProgress) returns (n: nat)
    requires WellMade(m) && Legal(m, p) && MMT_VERTEX <= p.phase <= MMT_UV
    requires Transferred(m, byteLimit, room, p).status == 0
    ensures 1 <= n && p.progress + n <= |Stream(m, p.phase)|
    ensures Transferred(m, byteLimit, room, p).messages
         == [MeshComponent(p.phase, m.id, p.progress, Stream(m, p.phase)[p.progress..p.progress + n])]
    ensures forall phase :: MMT_VERTEX <= phase <= MMT_UV ==>
      Reached(m, Transferred(m, byteLimit, room, p).progress, phase)
      == Reached(m, p, phase) + if phase == p.phase then n else 0
  {
    n := |Transferred(m, byteLimit, room, p).messages[0].elements|;
    forall phase | MMT_VERTEX <= phase <= MMT_UV
      ensures Reached(m, Transferred(m, byteLimit, room, p).progress, phase)
           == Reached(m, p, phase) + if phase == p.phase then n else 0
    {
      PacketReaches(m, byteLimit, room, p, phase);
    }
  }

  /** Two progresses that have reached the same of a phase, or one of them `n` elements more. */
  predicate Differ(m: Mesh, p: TransferProgress, q: TransferProgress, n: nat) {
    forall phase :: MMT_VERTEX <= phase <= MMT_UV ==>
      Reached(m, q, phase) == Reached(m, p, phase) + if phase == p.phase then n else 0
  }

  lemma VerticesAreExpected(m: Mesh, p: TransferProgress, q: TransferProgress, n: nat)
    requires WellMade(m) && Legal(m, p) && Legal(m, q) && p.phase == MMT_VERTEX && Differ(m, p, q, n)
    requires p.progress + n <= |m.vertices|
    ensures
      var slice := m.vertices[p.progress..p.progress + n];
      Received(Expected(m, p), MeshComponent(p.phase, m.id, p.progress, slice)) == Expected(m, q)
  {
    assert forall phase :: MMT_INDEX <= phase <= MMT_UV ==> Reached(m, q, phase) == Reached(m, p, phase) == 0;
    OverlayFills(m.vertices, p.progress, n);
  }

  lemma IndicesAreExpected(m: Mesh, p: TransferProgress, q: TransferProgress, n: nat)
    requires WellMade(m) && Legal(m, p) && Legal(m, q) && p.phase == MMT_INDEX && Differ(m, p, q, n)
    requires p.progress + n <= |m.indices|
    ensures
      var slice := m.indices[p.progress..p.progress + n];
      Received(Expected(m, p), MeshComponent(p.phase, m.id, p.progress, slice)) == Expected(m, q)
  {
    assert Reached(m, q, MMT_VERTEX) == Reached(m, p, MMT_VERTEX);
    assert forall phase :: MMT_VERTEX_COLOUR <= phase <= MMT_UV ==> Reached(m, q, phase) == Reached(m, p, phase) == 0;
    OverlayFills(m.indices, p.progress, n);
  }

  lemma ColoursAreExpected(m: Mesh, p: TransferProgress, q: TransferProgress, n: nat)
    requires WellMade(m) && Legal(m, p) && Legal(m, q) && p.phase == MMT_VERTEX_COLOUR && Differ(m, p, q, n)
    requires n > 0 && p.progress + n <= |m.colours|
    ensures
      var slice := m.colours[p.progress..p.progress + n];
      Received(Expected(m, p), MeshComponent(p.phase, m.id, p.progress, slice)) == Expected(m, q)
  {
  }

  lemma NormalsAreExpected(m: Mesh, p: TransferProgress, q: TransferProgress, n: nat)
    requires WellMade(m) && Legal(m, p) && Legal(m, q) && p.phase == MMT_NORMAL && Differ(m, p, q, n)
    requires n > 0 && p.progress + n <= |m.normals|
    ensures
      var slice := m.normals[p.progress..p.progress + n];
      Received(Expected(m, p), MeshComponent(p.phase, m.id, p.progress, slice)) == Expected(m, q)
  {
    assert Reached(m, q, MMT_VERTEX) == Reached(m, p, MMT_VERTEX);
    assert Reached(m, q, MMT_INDEX) == Reached(m, p, MMT_INDEX);
    assert Reached(m, q, MMT_VERTEX_COLOUR) == Reached(m, p, MMT_VERTEX_COLOUR);
    assert Reached(m, q, MMT_NORMAL) == p.progress + n;
    OverlayFills(m.normals, p.progress, n);
    FilledNone(m.normals);
  }

  /** What is expected with texture coordinates and no normals. */
  lemma UvsChangeExpected(m: Mesh, p: TransferProgress, q: TransferProgress, n: nat)
    requires WellMade(m) && Legal(m, p) && Legal(m, q) && p.phase == MMT_UV && Differ(m, p, q, n)
    requires n > 0 && p.progress + n <= |m.uvs| && Stream(m, MMT_NORMAL) == []
    ensures Normal !in m.components || m.normals == []
    ensures Expected(m, q) == Expected(m, p).(
      uvs := Filled(m.uvs, p.progress + n), components := Expected(m, p).components + {Normal})
    ensures Expected(m, p).uvs == if p.progress == 0 then [] else Filled(m.uvs, p.progress)
    ensures Normal in Expected(m, p).components <==> p.progress != 0
    ensures |Expected(m, p).vertices| == |m.uvs| > 0
  {
    assert Reached(m, q, MMT_VERTEX) == Reached(m, p, MMT_VERTEX);
    assert Reached(m, q, MMT_INDEX) == Reached(m, p, MMT_INDEX);
    assert Reached(m, q, MMT_VERTEX_COLOUR) == Reached(m, p, MMT_VERTEX_COLOUR);
    assert Reached(m, q, MMT_NORMAL) == Reached(m, p, MMT_NORMAL) == 0;
    assert Reached(m, q, MMT_UV) == p.progress + n;
  }

  /** Texture coordinates without normals: their first packet makes room for all. */
  lemma UvsAreExpected(m: Mesh, p: TransferProgress, q: TransferProgress, n: nat)
    requires WellMade(m) && Legal(m, p) && Legal(m, q) && p.phase == MMT_UV && Differ(m, p, q, n)
    requires n > 0 && p.progress + n <= |m.uvs| && Stream(m, MMT_NORMAL) == []
    ensures
      var msg := MeshComponent(MMT_UV, m.id, p.progress, m.uvs[p.progress..p.progress + n]);
      Received(Expected(m, p), msg) == Expected(m, q) && !Overruns(Expected(m, p), msg)
  {
    UvsChangeExpected(m, p, q, n);
    OverlayFills(m.uvs, p.progress, n);
    FilledNone(m.uvs);
    var r := Expected(m, p);
    if p.progress != 0 {
      assert r.components + {Normal} == r.components;
    }
  }

  /** Texture coordinates after normals find no room. */
  lemma UvsFindNoRoom(m: Mesh, p: TransferProgress, q: TransferProgress, n: nat)
    requires WellMade(m) && Legal(m, p) && Legal(m, q) && p.phase == MMT_UV && Differ(m, p, q, n)
    requires n > 0 && p.progress + n <= |m.uvs| && Stream(m, MMT_NORMAL) != []
    ensures
      var msg := MeshComponent(MMT_UV, m.id, p.progress, m.uvs[p.progress..p.progress + n]);
      Received(Expected(m, p), msg) == Expected(m, q) && Overruns(Expected(m, p), msg)
  {
    assert Reached(m, q, MMT_VERTEX) == Reached(m, p, MMT_VERTEX);
    assert Reached(m, q, MMT_INDEX) == Reached(m, p, MMT_INDEX);
    assert Reached(m, q, MMT_VERTEX_COLOUR) == Reached(m, p, MMT_VERTEX_COLOUR);
    assert Reached(m, q, MMT_NORMAL) == Reached(m, p, MMT_NORMAL) == |Stream(m, MMT_NORMAL)|;
  }

  /** Every data packet brings the receiver from what is expected to what is expected. */
  lemma PacketIsExpected(m: Mesh, byteLimit: nat, room: nat, p: TransferProgress)
    requires WellMade(m) && Legal(m, p) && MMT_VERTEX <= p.phase <= MMT_UV
      && Transferred(m, byteLimit, room, p).status == 0
    requires Legal(m, Transferred(m, byteLimit, room, p).progress)
    ensures
      var sent := Transferred(m, byteLimit, room, p);
      && Received(Expected(m, p), sent.messages[0]) == Expected(m, sent.progress)
      && (Overruns(Expected(m, p), sent.messages[0]) <==> p.phase == MMT_UV && Stream(m, MMT_NORMAL) != [])
  {
    var n := PacketShape(m, byteLimit, room, p);
    var q := Transferred(m, byteLimit, room, p).progress;
    assert Differ(m, p, q, n);
    if p.phase == MMT_VERTEX_COLOUR {
      ColoursAreExpected(m, p, q, n);
    } else if p.phase == MMT_NORMAL {
      NormalsAreExpected(m, p, q, n);
    } else if p.phase == MMT_UV && Stream(m, MMT_NORMAL) == [] {
      UvsAreExpected(m, p, q, n);
    } else if p.phase == MMT_UV {
      UvsFindNoRoom(m, p, q, n);
    } else if p.phase == MMT_VERTEX {
      VerticesAreExpected(m, p, q, n);
    } else {
      IndicesAreExpected(m, p, q, n);
    }
  }

  // ---------------------------------------------------------------- whole transfers

  /** What one call of `transfer` is given. */
  datatype Call = Call(byteLimit: nat, room: nat)

  /** Call `transfer` again and again until it is complete; a call that fails sends nothing. */
  function RunOf(m: Mesh, calls: seq<Call>): Sent {
    if calls == [] then Sent(0, Reset(), [])
    else
      var run, call := RunOf(m, calls[..|calls| - 1]), calls[|calls| - 1];
      if run.progress.complete then run
      else
        var sent := Transferred(m, call.byteLimit, call.room, run.progress);
        Sent(sent.status, sent.progress, run.messages + sent.messages)
  }

  /** The elements of a phase, in the order sent. */
  function Collected(messages: seq<MeshMessage>, phase: int): seq<Element> {
    if messages == [] then []
    else
      var last := messages[|messages| - 1];
      Collected(messages[..|messages| - 1], phase)
        + if last.MeshComponent? && last.phase == phase then last.elements else []
  }

  /** Phases one after the other, each in contiguous slices from its beginning. */
  predicate InSlices(messages: seq<MeshMessage>) {
    && (forall i :: 0 <= i < |messages| && messages[i].MeshComponent? ==>
          messages[i].offset == |Collected(messages[..i], messages[i].phase)|)
    && forall i, j :: 0 <= i < j < |messages| && messages[i].MeshComponent? && messages[j].MeshComponent? ==>
         messages[i].phase <= messages[j].phase
  }

  /** Of each phase what is reached has been sent. */
  predicate CollectedUpTo(m: Mesh, p: TransferProgress, messages: seq<MeshMessage>) {
    forall phase :: MMT_VERTEX <= phase <= MMT_UV ==>
      && 0 <= Reached(m, p, phase) <= |Stream(m, phase)|
      && Collected(messages, phase) == Stream(m, phase)[..Reached(m, p, phase)]
  }

  /** Only component messages, of no later phase. */
  predicate ComponentsUpTo(messages: seq<MeshMessage>, phase: int) {
    forall i :: 0 <= i < |messages| ==> messages[i].MeshComponent? && messages[i].phase <= phase
  }

  /** Sent so far: of each phase what is reached, in slices, and no final message yet. */
  predicate SentSoFar(m: Mesh, p: TransferProgress, messages: seq<MeshMessage>) {
    CollectedUpTo(m, p, messages) && InSlices(messages) && ComponentsUpTo(messages, p.phase)
  }

  /** The messages of a transfer that is complete. */
  predicate SentWhole(m: Mesh, messages: seq<MeshMessage>) {
    && messages != [] && messages[|messages| - 1] == MeshFinalise(m.id, Stream(m, MMT_NORMAL) == [])
    && (forall i :: 0 <= i < |messages| - 1 ==> messages[i].MeshComponent?)
    && InSlices(messages[..|messages| - 1])
    && forall phase :: MMT_VERTEX <= phase <= MMT_UV ==>
         Collected(messages[..|messages| - 1], phase) == Stream(m, phase)
  }

  lemma InSlicesOneMore(messages: seq<MeshMessage>, msg: MeshMessage)
    requires InSlices(messages) && msg.MeshComponent? && msg.offset == |Collected(messages, msg.phase)|
    requires ComponentsUpTo(messages, msg.phase)
    ensures InSlices(messages + [msg])
  {
    var more := messages + [msg];
    forall i | 0 <= i < |more| && more[i].MeshComponent?
      ensures more[i].offset == |Collected(more[..i], more[i].phase)|
    {
      if i < |messages| {
        assert more[..i] == messages[..i];
      } else {
        assert more[..i] == messages;
      }
    }
  }

  lemma BeginSendsNothing(m: Mesh, p: TransferProgress, messages: seq<MeshMessage>)
    requires WellMade(m) && Legal(m, p) && SentSoFar(m, p, messages)
    ensures SentSoFar(m, Begun(m, p), messages)
  {
    if p.phase == 0 {
      forall phase | MMT_VERTEX <= phase <= MMT_UV
        ensures Reached(m, Begun(m, p), phase) == Reached(m, p, phase)
      {
        MovingOnKeepsReached(m, p, MMT_VERTEX, phase);
      }
      FirstPhaseHasSomething(m, MMT_VERTEX);
    }
  }

  lemma CollectedOneMore(messages: seq<MeshMessage>, msg: MeshMessage, phase: int)
    ensures Collected(messages + [msg], phase)
         == Collected(messages, phase) + if msg.MeshComponent? && msg.phase == phase then msg.elements else []
  {
    var more := messages + [msg];
    assert more[..|more| - 1] == messages;
  }

  lemma NextCollected(m: Mesh, p: TransferProgress, q: TransferProgress, n: nat, messages: seq<MeshMessage>,
      msg: MeshMessage)
    requires CollectedUpTo(m, p, messages) && MMT_VERTEX <= p.phase <= MMT_UV
    requires Differ(m, p, q, n) && 0 <= p.progress == Reached(m, p, p.phase) && p.progress + n <= |Stream(m, p.phase)|
    requires msg == MeshComponent(p.phase, m.id, p.progress, Stream(m, p.phase)[p.progress..p.progress + n])
    ensures CollectedUpTo(m, q, messages + [msg])
  {
    forall phase | MMT_VERTEX <= phase <= MMT_UV
      ensures 0 <= Reached(m, q, phase) <= |Stream(m, phase)|
      ensures Collected(messages + [msg], phase) == Stream(m, phase)[..Reached(m, q, phase)]
    {
      CollectedOneMore(messages, msg, phase);
      assert Reached(m, q, phase) == Reached(m, p, phase) + if phase == p.phase then n else 0;
    }
  }

  lemma NextSlice(m: Mesh, p: TransferProgress, q: TransferProgress, n: nat, messages: seq<MeshMessage>)
    requires Legal(m, p) && SentSoFar(m, p, messages) && MMT_VERTEX <= p.phase <= MMT_UV && p.phase <= q.phase
    requires Differ(m, p, q, n) && p.progress + n <= |Stream(m, p.phase)|
    ensures SentSoFar(m, q,
      messages + [MeshComponent(p.phase, m.id, p.progress, Stream(m, p.phase)[p.progress..p.progress + n])])
  {
    var msg := MeshComponent(p.phase, m.id, p.progress, Stream(m, p.phase)[p.progress..p.progress + n]);
    assert Reached(m, p, p.phase) == p.progress == |Collected(messages, p.phase)|;
    InSlicesOneMore(messages, msg);
    NextCollected(m, p, q, n, messages, msg);
  }

  lemma PacketIsTheNextSlice(m: Mesh, byteLimit: nat, room: nat, p: TransferProgress, messages: seq<MeshMessage>)
    requires WellMade(m) && Legal(m, p) && SentSoFar(m, p, messages) && MMT_VERTEX <= p.phase <= MMT_UV
    requires Transferred(m, byteLimit, room, p).status == 0
    ensures
      var sent := Transferred(m, byteLimit, room, p);
      SentSoFar(m, sent.progress, messages + sent.messages)
  {
    var n := PacketShape(m, byteLimit, room, p);
    var q := Transferred(m, byteLimit, room, p).progress;
    PacketMovesOn(m, byteLimit, room, p);
    NextSlice(m, p, q, n, messages);
  }

  lemma PacketMovesOn(m: Mesh, byteLimit: nat, room: nat, p: TransferProgress)
    requires WellMade(m) && Legal(m, p) && MMT_VERTEX <= p.phase <= MMT_UV
    requires Transferred(m, byteLimit, room, p).status == 0
    ensures p.phase <= Transferred(m, byteLimit, room, p).progress.phase
  {
    FirstPhaseHasSomething(m, p.phase + 1);
  }

  /** Whatever limits and packet sizes the calls are given: what was sent is a prefix of the whole in
      contiguous slices, and a receiver has put it in place, with zeroes for the rest. */
  lemma {:induction false} TransferSoFar(m: Mesh, calls: seq<Call>, id: nat)
    requires WellMade(m)
    ensures InPlace(m, RunOf(m, calls).progress, RunOf(m, calls).messages,
      ProcessCreate(Blank(id, {Vertex, Index}), Created(m)))
  {
    CreateIsExpected(m, id);
    if calls != [] {
      var before, call := RunOf(m, calls[..|calls| - 1]), calls[|calls| - 1];
      TransferSoFar(m, calls[..|calls| - 1], id);
      if !before.progress.complete {
        OneCall(m, call, before, ProcessCreate(Blank(id, {Vertex, Index}), Created(m)));
      }
    }
  }

  lemma ReceivedOneMore(r: Mesh, messages: seq<MeshMessage>, msg: MeshMessage)
    ensures ReceivedAll(r, messages + [msg]) == Received(ReceivedAll(r, messages), msg)
    ensures AnyOverruns(r, messages + [msg]) <==> AnyOverruns(r, messages) || Overruns(ReceivedAll(r, messages), msg)
  {
    var more := messages + [msg];
    assert more[..|more| - 1] == messages;
  }

  /** What was sent is what should have been, and a receiver has put it in place. */
  predicate InPlace(m: Mesh, p: TransferProgress, messages: seq<MeshMessage>, r: Mesh) {
    && Legal(m, p) && ReceivedAll(r, messages) == Expected(m, p)
    && (AnyOverruns(r, messages) <==> Reached(m, p, MMT_UV) > 0 && Stream(m, MMT_NORMAL) != [])
    && if p.complete then SentWhole(m, messages) else SentSoFar(m, p, messages)
  }

  lemma FinalCall(m: Mesh, p: TransferProgress, messages: seq<MeshMessage>, r: Mesh)
    requires WellMade(m) && p.phase == MMT_FINALISE && !p.complete && InPlace(m, p, messages, r)
    ensures InPlace(m, p.(complete := true), messages + [MeshFinalise(m.id, Stream(m, MMT_NORMAL) == [])], r)
  {
    ReceivedOneMore(r, messages, MeshFinalise(m.id, Stream(m, MMT_NORMAL) == []));
  }

  lemma DataCall(m: Mesh, call: Call, p: TransferProgress, messages: seq<MeshMessage>, r: Mesh)
    requires WellMade(m) && MMT_VERTEX <= p.phase <= MMT_UV && InPlace(m, p, messages, r)
    requires Transferred(m, call.byteLimit, call.room, p).status == 0
    ensures
      var sent := Transferred(m, call.byteLimit, call.room, p);
      InPlace(m, sent.progress, messages + sent.messages, r)
  {
    var sent := Transferred(m, call.byteLimit, call.room, p);
    PacketIsLegal(m, call.byteLimit, call.room, p);
    PacketIsExpected(m, call.byteLimit, call.room, p);
    PacketIsTheNextSlice(m, call.byteLimit, call.room, p, messages);
    assert sent.messages == [sent.messages[0]];
    ReceivedOneMore(r, messages, sent.messages[0]);
  }

  lemma BeginStaysInPlace(m: Mesh, p: TransferProgress, messages: seq<MeshMessage>, r: Mesh)
    requires WellMade(m) && !p.complete && InPlace(m, p, messages, r)
    ensures InPlace(m, Begun(m, p), messages, r) && !Begun(m, p).complete
  {
    BeginIsLegal(m, p);
    BeginSendsNothing(m, p, messages);
  }

  /** What a call does, by the phase it finds. */
  lemma CallShape(m: Mesh, byteLimit: nat, room: nat, progress: TransferProgress)
    requires WellMade(m) && Legal(m, progress) && !progress.complete
    ensures
      var p, sent := Begun(m, progress), Transferred(m, byteLimit, room, progress);
      && sent == Transferred(m, byteLimit, room, p)
      && (p.phase == MMT_FINALISE ==>
        sent == Sent(0, p.(complete := true), [MeshFinalise(m.id, Stream(m, MMT_NORMAL) == [])]))
      && (p.phase != MMT_FINALISE ==> MMT_VERTEX <= p.phase <= MMT_UV && !sent.progress.complete)
      && (sent.status != 0 ==> sent == Sent(-1, p, []))
  {
  }

  lemma OneCall(m: Mesh, call: Call, run: Sent, r: Mesh)
    requires WellMade(m) && !run.progress.complete && InPlace(m, run.progress, run.messages, r)
    ensures
      var sent := Transferred(m, call.byteLimit, call.room, run.progress);
      InPlace(m, sent.progress, run.messages + sent.messages, r)
  {
    var p, sent := Begun(m, run.progress), Transferred(m, call.byteLimit, call.room, run.progress);
    CallShape(m, call.byteLimit, call.room, run.progress);
    BeginStaysInPlace(m, run.progress, run.messages, r);
    if p.phase == MMT_FINALISE {
      FinalCall(m, p, run.messages, r);
    } else if sent.status == 0 {
      DataCall(m, call, p, run.messages, r);
    } else {
      assert run.messages + [] == run.messages;
    }
  }

  /** Every complete transfer sends each element just once, in order, and one final message; and the
      receiver's mesh equals the sender's, but for the texture coordinates. They never have their flag,
      and the receiver writes past the end exactly if there are both normals and texture coordinates. */
  lemma TransferRebuildsMesh(m: Mesh, calls: seq<Call>, id: nat)
    requires WellMade(m) && RunOf(m, calls).progress.complete
    ensures SentWhole(m, RunOf(m, calls).messages)
    ensures AnyOverruns(ProcessCreate(Blank(id, {Vertex, Index}), Created(m)), RunOf(m, calls).messages) <==>
      Stream(m, MMT_NORMAL) != [] && Stream(m, MMT_UV) != []
    ensures
      var r := ReceivedAll(ProcessCreate(Blank(id, {Vertex, Index}), Created(m)), RunOf(m, calls).messages);
      && r.id == m.id && r.tint == m.tint && r.drawType == m.drawType && r.transform == m.transform
      && r.vertices == m.vertices && Stream(r, MMT_INDEX) == Stream(m, MMT_INDEX)
      && Stream(r, MMT_VERTEX_COLOUR) == Stream(m, MMT_VERTEX_COLOUR) && Stream(r, MMT_NORMAL) == Stream(m, MMT_NORMAL)
      && (Stream(m, MMT_NORMAL) == [] ==> r.uvs == Stream(m, MMT_UV))
      && (Stream(r, MMT_UV) == Stream(m, MMT_UV) <==> Stream(m, MMT_UV) == [])
      && r.drawScale == (if m.drawScale > 0.0 then m.drawScale else 0.0)
      && {Vertex, Index} <= r.components && (Colour in r.components <==> Stream(m, MMT_VERTEX_COLOUR) != [])
      && Uv !in r.components && (Normal in r.components <==> Stream(m, MMT_NORMAL) != [] || Stream(m, MMT_UV) != [])
  {
    TransferSoFar(m, calls, id);
    FilledAll(m.vertices);
    FilledAll(Stream(m, MMT_INDEX));
    FilledAll(m.colours);
    FilledAll(m.normals);
    FilledAll(m.uvs);
  }

  // ---------------------------------------------------------------- how transfers end and fail

  lemma NoFewerBytes(fewer: nat, more: nat, itemSize: nat)
    requires fewer <= more
    ensures fewer * itemSize <= more * itemSize
  {
  }

  lemma SmallestExceeds(itemSize: nat, a: nat, b: nat, c: nat, space: int)
    ensures
      var ab := if b > a then a else b;
      var abc := if ab > c then c else ab;
      abc * itemSize > space <==> a * itemSize > space && b * itemSize > space && c * itemSize > space
  {
    var ab := if b > a then a else b;
    var abc := if ab > c then c else ab;
    NoFewerBytes(abc, a, itemSize);
    NoFewerBytes(abc, b, itemSize);
    NoFewerBytes(abc, c, itemSize);
  }

  /** Bytes of items in the largest packet that is filled. */
  const LARGEST_SLICE: nat := 0xFF00 - 26

  /** More is meant to be written than the packet has room for: what is left, what fills a packet, and
      what the limit allows. Without a limit the room stands for it, but the slice header is forgotten. */
  predicate TooMuch(itemSize: nat, remaining: nat, byteLimit: nat, room: nat)
    requires itemSize > 0
  {
    && remaining * itemSize + 8 > room && LARGEST_SLICE / itemSize * itemSize + 8 > room
    && (byteLimit == 0 ==> room % itemSize < 8)
    && (byteLimit > 8 ==> (byteLimit - 8) / itemSize * itemSize + 8 > room)
  }

  /** No element fits: beside the 8 bytes of the slice header limit or packet leave less than one, or no
      packet is ever filled with as much as one, or more is meant to be written than fits. A limit of up to 8
      counts as one without end. */
  predicate NothingFits(itemSize: nat, remaining: nat, byteLimit: nat, room: nat)
    requires itemSize > 0
  {
    || 8 < byteLimit < 8 + itemSize || room < 8 + itemSize || itemSize > LARGEST_SLICE
    || TooMuch(itemSize, remaining, byteLimit, room)
  }

  lemma RoundedDown(n: nat, size: nat)
    requires size > 0
    ensures n / size * size <= n < n / size * size + size && n / size * size + n % size == n
    ensures (n / size == 0 <==> n < size) && (n >= size ==> n / size * size >= size)
  {
    if n >= size {
      NoFewerBytes(1, n / size, size);
    }
  }

  /** When a count is none, or takes more than `space`. */
  lemma CountExceeds(itemSize: nat, remaining: nat, limit: nat, space: int)
    requires itemSize > 0 && remaining > 0
    ensures
      var transfer := TransferCount(itemSize, remaining, limit);
      (transfer == 0 || transfer * itemSize > space) <==>
        0 < limit < itemSize || itemSize > LARGEST_SLICE || (
          && remaining * itemSize > space && LARGEST_SLICE / itemSize * itemSize > space
          && (limit > 0 ==> limit / itemSize * itemSize > space))
  {
    var most := LARGEST_SLICE / itemSize;
    RoundedDown(limit, itemSize);
    RoundedDown(LARGEST_SLICE, itemSize);
    SmallestExceeds(itemSize, most, if limit == 0 then most else limit / itemSize, remaining, space);
  }

  /** What `Written` sets as its limit. */
  function LimitOf(byteLimit: nat, room: nat): nat {
    if byteLimit == 0 then room else if byteLimit > 8 then byteLimit - 8 else 0
  }

  /** The conditions compared, with products as numbers: the bytes of the count, of the rest of the stream, of
      a filled packet and within the limit, and what is left over of the room. */
  lemma SameCondition(itemSize: nat, byteLimit: nat, room: nat, none: bool, bytes: int, rest: int, filled: int,
      limited: int, left: int)
    requires itemSize > 0 && rest >= itemSize && (itemSize <= LARGEST_SLICE ==> filled >= itemSize)
    requires byteLimit == 0 ==> limited + left == room
    requires LimitOf(byteLimit, room) >= itemSize ==> limited >= itemSize
    requires (none || bytes > room - 8) <==>
      0 < LimitOf(byteLimit, room) < itemSize || itemSize > LARGEST_SLICE
      || (rest > room - 8 && filled > room - 8 && (LimitOf(byteLimit, room) > 0 ==> limited > room - 8))
    ensures (room < 8 || none || bytes > room - 8) <==>
      8 < byteLimit < 8 + itemSize || room < 8 + itemSize || itemSize > LARGEST_SLICE
      || (rest + 8 > room && filled + 8 > room && (byteLimit == 0 ==> left < 8)
        && (byteLimit > 8 ==> limited + 8 > room))
  {
  }

  /** For each size of items, rest of a stream, limit and room. */
  lemma WrittenExactly(itemSize: nat, remaining: nat, byteLimit: nat, room: nat)
    requires itemSize > 0 && remaining > 0
    ensures Written(itemSize, remaining, byteLimit, room) == 0 <==> NothingFits(itemSize, remaining, byteLimit, room)
  {
    var limit := LimitOf(byteLimit, room);
    var transfer := TransferCount(itemSize, remaining, limit);
    var rest, filled, limited := remaining * itemSize, LARGEST_SLICE / itemSize * itemSize, limit / itemSize * itemSize;
    CountExceeds(itemSize, remaining, limit, room - 8);
    RoundedDown(limit, itemSize);
    RoundedDown(LARGEST_SLICE, itemSize);
    NoFewerBytes(1, remaining, itemSize);
    SameCondition(
      itemSize, byteLimit, room, transfer == 0, transfer * itemSize, rest, filled, limited, limit % itemSize);
  }

  /** So many elements are within what a packet may hold and the limit allows: beside the slice header if there
      is a limit, of more than that header; without one the room stands for it, and the header is forgotten. */
  predicate Allowed(itemSize: nat, byteLimit: nat, room: nat, n: nat) {
    && n * itemSize <= LARGEST_SLICE
    && (byteLimit == 0 ==> n * itemSize <= room)
    && (byteLimit > 8 ==> n * itemSize + 8 <= byteLimit)
  }

  /** A slice has room for its header and elements, and one more element is not left or not allowed. */
  predicate IsMost(itemSize: nat, remaining: nat, byteLimit: nat, room: nat, n: nat) {
    && 0 < n <= remaining && n * itemSize + 8 <= room && Allowed(itemSize, byteLimit, room, n)
    && (n == remaining || !Allowed(itemSize, byteLimit, room, n + 1))
  }

  lemma QuotientIsMost(n: nat, size: nat, limit: nat)
    requires size > 0
    ensures n <= limit / size <==> n * size <= limit
  {
    RoundedDown(limit, size);
    if n <= limit / size {
      NoFewerBytes(n, limit / size, size);
    } else {
      NoFewerBytes(limit / size + 1, n, size);
      assert (limit / size + 1) * size == limit / size * size + size;
    }
  }

  /** What is written is as much as is allowed. */
  lemma WritesMost(itemSize: nat, remaining: nat, byteLimit: nat, room: nat)
    requires itemSize > 0
    ensures
      var n := Written(itemSize, remaining, byteLimit, room);
      n > 0 ==> IsMost(itemSize, remaining, byteLimit, room, n)
  {
    var n := Written(itemSize, remaining, byteLimit, room);
    if n > 0 {
      var limit := LimitOf(byteLimit, room);
      QuotientIsMost(n, itemSize, LARGEST_SLICE);
      QuotientIsMost(n + 1, itemSize, LARGEST_SLICE);
      QuotientIsMost(n, itemSize, limit);
      QuotientIsMost(n + 1, itemSize, limit);
    }
  }

  /** For each call of `transfer`, whatever mesh, progress, limit and packet. */
  lemma FailsExactly(m: Mesh, byteLimit: nat, room: nat, progress: TransferProgress)
    requires WellMade(m) && Legal(m, progress)
    ensures
      var p := Begun(m, progress);
      Transferred(m, byteLimit, room, progress).status != 0 <==>
        p.phase != MMT_FINALISE && NothingFits(ItemSize(p.phase), |Stream(m, p.phase)| - p.progress, byteLimit, room)
  {
    var p := Begun(m, progress);
    FirstPhaseHasSomething(m, MMT_VERTEX);
    if p.phase != MMT_FINALISE {
      WrittenExactly(ItemSize(p.phase), |Stream(m, p.phase)| - p.progress, byteLimit, room);
    }
  }

  /** In a packet of the largest sizes only limits can be the reason. */
  lemma LargeRoom(itemSize: nat, remaining: nat, byteLimit: nat, room: nat)
    requires 0 < itemSize <= LARGEST_SLICE && room >= LARGEST_SLICE / itemSize * itemSize + 8
    ensures NothingFits(itemSize, remaining, byteLimit, room) <==> 8 < byteLimit < 8 + itemSize
  {
    RoundedDown(LARGEST_SLICE, itemSize);
  }

  /** In a buffer of 4094 bytes the vertices of a larger mesh cannot be sent without a limit. */
  lemma SmallBufferExample(m: Mesh, progress: TransferProgress)
    requires WellMade(m) && |m.vertices| >= 1000 && progress == Reset()
    ensures Transferred(m, 0, 4094 - HEADER_AND_ID, progress).status != 0
  {
    FailsExactly(m, 0, 4094 - HEADER_AND_ID, progress);
  }

  /** A whole stream can be sent without a limit. */
  predicate StreamFits(itemSize: nat, length: nat, room: nat)
    requires itemSize > 0
  {
    !NothingFits(itemSize, length, 0, room)
  }

  /** How much is left to send: elements, and the final message. */
  function Left(m: Mesh, p: TransferProgress): int {
    |Stream(m, MMT_VERTEX)| - Reached(m, p, MMT_VERTEX) + |Stream(m, MMT_INDEX)| - Reached(m, p, MMT_INDEX)
      + |Stream(m, MMT_VERTEX_COLOUR)| - Reached(m, p, MMT_VERTEX_COLOUR)
      + |Stream(m, MMT_NORMAL)| - Reached(m, p, MMT_NORMAL) + |Stream(m, MMT_UV)| - Reached(m, p, MMT_UV) + 1
  }

  function MeshRank(m: Mesh, p: TransferProgress): int {
    if Legal(m, p) && !p.complete then Left(m, p) else -1
  }

  /** Every packet of a mesh leaves less to send. */
  lemma CallGetsOn(m: Mesh, byteLimit: nat, room: nat, progress: TransferProgress)
    requires WellMade(m) && MeshRank(m, progress) >= 0
    ensures
      var sent := Transferred(m, byteLimit, room, progress);
      sent.status != 0 || sent.progress.complete || 0 <= MeshRank(m, sent.progress) < MeshRank(m, progress)
  {
    var p, sent := Begun(m, progress), Transferred(m, byteLimit, room, progress);
    CallShape(m, byteLimit, room, progress);
    BeginReaches(m, progress);
    if sent.status == 0 && p.phase != MMT_FINALISE {
      var n := PacketShape(m, byteLimit, room, p);
      PacketIsLegal(m, byteLimit, room, p);
      DifferLeft(m, p, sent.progress, n);
    }
  }

  lemma BeginReaches(m: Mesh, p: TransferProgress)
    requires WellMade(m) && Legal(m, p) && !p.complete
    ensures Legal(m, Begun(m, p)) && !Begun(m, p).complete && Left(m, Begun(m, p)) == Left(m, p)
  {
  }

  lemma DifferLeft(m: Mesh, p: TransferProgress, q: TransferProgress, n: nat)
    requires Legal(m, p) && Legal(m, q) && Differ(m, p, q, n) && MMT_VERTEX <= p.phase <= MMT_UV
    ensures 0 <= Left(m, q) == Left(m, p) - n
  {
  }

  /** Resources that are meshes, written to packet buffers with this much room. */
  ghost predicate SendsMeshes(b: Behaviour, meshOf: Resource -> Mesh, room: nat) {
    && (forall r: Resource :: WellMade(meshOf(r)))
    && forall r: Resource, limit: nat, p: TransferProgress ::
         b.transfer(r, limit, p).status == Transferred(meshOf(r), limit, room, p).status
         && b.transfer(r, limit, p).progress == Transferred(meshOf(r), limit, room, p).progress
  }

  /** Each stream of each mesh can be sent without a limit. */
  ghost predicate AllStreamsFit(meshOf: Resource -> Mesh, room: nat) {
    forall r: Resource, phase: int :: HasPhase(meshOf(r), phase) ==>
      StreamFits(ItemSize(phase), |Stream(meshOf(r), phase)|, room)
  }

  /** Fewer elements fit where more do. */
  lemma FewerFit(itemSize: nat, fewer: nat, more: nat, room: nat)
    requires itemSize > 0 && fewer <= more && StreamFits(itemSize, more, room)
    ensures StreamFits(itemSize, fewer, room)
  {
    NoFewerBytes(fewer, more, itemSize);
  }

  /** Meshes finish, in packets of any size, so `updateTransfers` comes to an end. */
  lemma MeshesComplete(b: Behaviour, meshOf: Resource -> Mesh, room: nat, rank: (Resource, TransferProgress) -> int)
    requires SendsMeshes(b, meshOf, room)
    requires forall r: Resource, p: TransferProgress :: rank(r, p) == MeshRank(meshOf(r), p)
    ensures Completes(b, rank)
  {
    forall r: Resource
      ensures rank(r, Reset()) >= 0
    {
      assert rank(r, Reset()) == MeshRank(meshOf(r), Reset());
    }
    forall r: Resource, limit: nat, p: TransferProgress | rank(r, p) >= 0
      ensures
        var o := b.transfer(r, limit, p);
        o.status != 0 || o.progress.complete || o.progress.failed || 0 <= rank(r, o.progress) < rank(r, p)
    {
      CallGetsOn(meshOf(r), limit, room, p);
    }
  }

  /** They never fail without a limit, exactly if each of their streams fits. */
  lemma MeshesNeverFail(b: Behaviour, meshOf: Resource -> Mesh, room: nat, rank: (Resource, TransferProgress) -> int)
    requires SendsMeshes(b, meshOf, room)
    requires forall r: Resource, p: TransferProgress :: rank(r, p) == MeshRank(meshOf(r), p)
    ensures NeverFailsUnlimited(b, rank) <==> AllStreamsFit(meshOf, room)
  {
    if AllStreamsFit(meshOf, room) {
      forall r: Resource, p: TransferProgress | rank(r, p) >= 0
        ensures b.transfer(r, 0, p).status == 0
      {
        NeverFailsIfFits(meshOf(r), room, p);
      }
    }
    if NeverFailsUnlimited(b, rank) {
      forall r: Resource, phase: int | HasPhase(meshOf(r), phase)
        ensures StreamFits(ItemSize(phase), |Stream(meshOf(r), phase)|, room)
      {
        var m, p := meshOf(r), TransferProgress(0, phase, false, false);
        assert rank(r, p) == MeshRank(m, p) == Left(m, p);
        LeftIsPositive(m, p);
        assert b.transfer(r, 0, p).status == 0;
        FailsExactly(m, 0, room, p);
      }
    }
  }

  lemma LeftIsPositive(m: Mesh, p: TransferProgress)
    requires Legal(m, p)
    ensures Left(m, p) > 0
  {
  }

  lemma NeverFailsIfFits(m: Mesh, room: nat, progress: TransferProgress)
    requires WellMade(m) && Legal(m, progress)
    requires forall phase: int :: HasPhase(m, phase) ==> StreamFits(ItemSize(phase), |Stream(m, phase)|, room)
    ensures Transferred(m, 0, room, progress).status == 0
  {
    var p := Begun(m, progress);
    FailsExactly(m, 0, room, progress);
    FirstPhaseHasSomething(m, MMT_VERTEX);
    if p.phase != MMT_FINALISE {
      FewerFit(ItemSize(p.phase), |Stream(m, p.phase)| - p.progress, |Stream(m, p.phase)|, room);
    }
  }

  /** As they do in packets of the largest sizes, those of the default settings among them. */
  lemma LargeRoomFits(meshOf: Resource -> Mesh, room: nat)
    requires room >= 0xFF00 - HEADER_AND_ID
    ensures AllStreamsFit(meshOf, room)
  {
    forall r: Resource, phase: int | HasPhase(meshOf(r), phase)
      ensures StreamFits(ItemSize(phase), |Stream(meshOf(r), phase)|, room)
    {
      LargeRoom(ItemSize(phase), |Stream(meshOf(r), phase)|, 0, room);
    }
  }

  // ---------------------------------------------------------------- the programs

  /** `nextPhase`: the switch falls through until a phase has something to send. */
  method NextPhase(m: Mesh, progress: TransferProgress) returns (next: TransferProgress)
    requires progress.phase == 0 || MMT_VERTEX <= progress.phase
    ensures
      var from := if progress.phase == 0 then MMT_VERTEX else progress.phase + 1;
      next == progress.(progress := 0, phase := FirstPhase(m, from))
  {
    var vertices, phase := |m.vertices|, MMT_FINALISE;
    if progress.phase == 0 && vertices != 0 {
      phase := MMT_VERTEX;
    } else if (progress.phase == 0 || progress.phase == MMT_VERTEX) && Index in m.components && m.indices != [] {
      phase := MMT_INDEX;
    } else if (progress.phase == 0 || MMT_VERTEX <= progress.phase <= MMT_INDEX)
      && vertices != 0 && Colour in m.components && m.colours != [] {
      phase := MMT_VERTEX_COLOUR;
    } else if (progress.phase == 0 || MMT_VERTEX <= progress.phase <= MMT_VERTEX_COLOUR)
      && vertices != 0 && Normal in m.components && m.normals != [] {
      phase := MMT_NORMAL;
    } else if (progress.phase == 0 || MMT_VERTEX <= progress.phase <= MMT_NORMAL)
      && vertices != 0 && Uv in m.components && m.uvs != [] {
      phase := MMT_UV;
    }
    next := progress.(progress := 0, phase := phase);
    FirstPhases(m);
  }

  lemma FirstPhases(m: Mesh)
    ensures FirstPhase(m, MMT_VERTEX) == if m.vertices != [] then MMT_VERTEX else FirstPhase(m, MMT_INDEX)
    ensures FirstPhase(m, MMT_INDEX) == if HasPhase(m, MMT_INDEX) then MMT_INDEX else FirstPhase(m, MMT_VERTEX_COLOUR)
    ensures
      FirstPhase(m, MMT_VERTEX_COLOUR)
      == if HasPhase(m, MMT_VERTEX_COLOUR) then MMT_VERTEX_COLOUR else FirstPhase(m, MMT_NORMAL)
    ensures FirstPhase(m, MMT_NORMAL) == if HasPhase(m, MMT_NORMAL) then MMT_NORMAL else FirstPhase(m, MMT_UV)
    ensures FirstPhase(m, MMT_UV) == if HasPhase(m, MMT_UV) then MMT_UV else MMT_FINALISE
    ensures forall phase :: phase > MMT_UV ==> FirstPhase(m, phase) == MMT_FINALISE
  {
  }

  /** The first call finds its phase. */
  method Begin(m: Mesh, progress: TransferProgress) returns (next: TransferProgress)
    ensures next == Begun(m, progress)
  {
    next := progress;
    if progress.phase == 0 {
      next := next.(phase := MMT_VERTEX, progress := 0);
      if |m.vertices| == 0 {
        next := NextPhase(m, next);
      }
      FirstPhases(m);
      FirstPhaseHasSomething(m, MMT_VERTEX);
    }
  }

  /** The part of `transfer` that sends a slice. */
  method TransferSlice(m: Mesh, byteLimit: nat, room: nat, progress: TransferProgress)
    returns (status: int, next: TransferProgress, messages: seq<MeshMessage>)
    requires MMT_VERTEX <= progress.phase <= MMT_UV
    ensures Sent(status, next, messages) == SliceSent(m, byteLimit, room, progress)
  {
    var source := Stream(m, progress.phase);
    if source == [] || !(0 <= progress.progress < |source|) {
      return -1, progress, [];
    }
    var count := Written(ItemSize(progress.phase), |source| - progress.progress, byteLimit, room);
    if count == 0 {
      return -1, progress, [];
    }
    status := 0;
    messages :=
      [MeshComponent(progress.phase, m.id, progress.progress, source[progress.progress..progress.progress + count])];
    next := progress.(progress := progress.progress + count);
    if next.progress >= |source| {
      next := NextPhase(m, next);
    }
  }

  /** Every slice in a message is that part of the stream, and as much of it as is allowed; a final message
      asks for normals if there are none. */
  predicate AllRight(m: Mesh, byteLimit: nat, room: nat, messages: seq<MeshMessage>) {
    forall i :: 0 <= i < |messages| ==>
      match messages[i]
      case MeshComponent(phase, _, _, _) =>
        MMT_VERTEX <= phase <= MMT_UV ==> IsNextSlice(m, byteLimit, room, messages[i])
      case MeshFinalise(id, calculate) => id == m.id && (calculate <==> Normal !in m.components || m.normals == [])
      case MeshCreate(_, _, _, _, _, _, _) => false
  }

  predicate IsNextSlice(m: Mesh, byteLimit: nat, room: nat, msg: MeshMessage)
    requires msg.MeshComponent?
  {
    var stream, n := Stream(m, msg.phase), |msg.elements|;
    && msg.id == m.id && msg.offset + n <= |stream| && msg.elements == stream[msg.offset..msg.offset + n]
    && IsMost(ItemSize(msg.phase), |stream| - msg.offset, byteLimit, room, n)
  }

  lemma TransferredIsRight(m: Mesh, byteLimit: nat, room: nat, progress: TransferProgress)
    ensures AllRight(m, byteLimit, room, Transferred(m, byteLimit, room, progress).messages)
  {
    var p := Begun(m, progress);
    if MMT_VERTEX <= p.phase <= MMT_UV && 0 <= p.progress < |Stream(m, p.phase)| {
      WritesMost(ItemSize(p.phase), |Stream(m, p.phase)| - p.progress, byteLimit, room);
    }
  }

  /** A phase that no stream has is given up: the transfer counts as failed, after a message without elements,
      and a further call would send the final message. */
  lemma UnknownPhaseFails(m: Mesh, byteLimit: nat, room: nat, p: TransferProgress)
    requires p.phase != 0 && !(MMT_VERTEX <= p.phase <= MMT_UV) && p.phase != MMT_FINALISE && p.progress >= 0
    ensures
      var sent := Transferred(m, byteLimit, room, p);
      && sent.status == 0 && sent.progress.failed && sent.messages == [MeshComponent(p.phase, m.id, 0, [])]
      && Transferred(m, byteLimit, room, sent.progress).progress.complete
  {
  }

  /** `transfer` */
  method Transfer(m: Mesh, byteLimit: nat, room: nat, progress: TransferProgress)
    returns (status: int, next: TransferProgress, messages: seq<MeshMessage>)
    ensures Sent(status, next, messages) == Transferred(m, byteLimit, room, progress)
    ensures AllRight(m, byteLimit, room, messages)
  {
    TransferredIsRight(m, byteLimit, room, progress);
    status, messages := 0, [];
    next := Begin(m, progress);
    if next.phase == MMT_FINALISE {
      messages := [MeshFinalise(m.id, Stream(m, MMT_NORMAL) == [])];
      next := next.(complete := true);
    } else if MMT_VERTEX <= next.phase <= MMT_UV {
      status, next, messages := TransferSlice(m, byteLimit, room, next);
    } else {
      messages := [MeshComponent(next.phase, m.id, 0, [])];
      next := next.(failed := true);
      if next.progress >= 0 {
        next := next.(progress := 0, phase := MMT_FINALISE);
      }
    }
  }

  /** Send a mesh with calls that are given these limits, and put together what arrives. */
  method SendMesh(m: Mesh, calls: seq<Call>, id: nat) returns (complete: bool, received: Mesh, overrun: bool)
    requires WellMade(m)
    ensures complete == RunOf(m, calls).progress.complete
    ensures complete ==>
      && received.vertices == m.vertices && Stream(received, MMT_INDEX) == Stream(m, MMT_INDEX)
      && Stream(received, MMT_VERTEX_COLOUR) == Stream(m, MMT_VERTEX_COLOUR)
      && Stream(received, MMT_NORMAL) == Stream(m, MMT_NORMAL)
      && (overrun <==> Stream(m, MMT_NORMAL) != [] && Stream(m, MMT_UV) != [])
      && (Stream(received, MMT_UV) == Stream(m, MMT_UV) <==> Stream(m, MMT_UV) == [])
    ensures !complete ==> exists p :: Legal(m, p) && received == Expected(m, p)
  {
    var progress, messages := Reset(), [];
    overrun := false;
    received := ProcessCreate(Blank(id, {Vertex, Index}), Created(m));
    for i := 0 to |calls|
      invariant RunOf(m, calls[..i]).progress == progress && RunOf(m, calls[..i]).messages == messages
      invariant received == ReceivedAll(ProcessCreate(Blank(id, {Vertex, Index}), Created(m)), messages)
      invariant overrun == AnyOverruns(ProcessCreate(Blank(id, {Vertex, Index}), Created(m)), messages)
    {
      assert calls[..i + 1][..i] == calls[..i];
      if !progress.complete {
        var status, next, sent := Transfer(m, calls[i].byteLimit, calls[i].room, progress);
        AtMostOneMessage(m, calls[i].byteLimit, calls[i].room, progress);
        if sent != [] {
          ReceivedOneMore(ProcessCreate(Blank(id, {Vertex, Index}), Created(m)), messages, sent[0]);
          overrun := overrun || Overruns(received, sent[0]);
          received := Received(received, sent[0]);
        } else {
          assert messages + [] == messages;
        }
        progress, messages := next, messages + sent;
      }
    }
    assert calls[..|calls|] == calls;
    complete := progress.complete;
    TransferSoFar(m, calls, id);
    if complete {
      TransferRebuildsMesh(m, calls, id);
    }
  }

  lemma AtMostOneMessage(m: Mesh, byteLimit: nat, room: nat, progress: TransferProgress)
    ensures
      var messages := Transferred(m, byteLimit, room, progress).messages;
      messages == [] || messages == [messages[0]]
  {
  }
}
