/** Data of complex shapes, sent after their create message: `sendShapeData` of
    `3escore/BaseConnection.cpp` with `writeData` of `3escore/shapes/MeshShape.cpp` and
    `3escore/shapes/MultiShape.cpp`. */
module ShapeData {
  import opened Bytes
  import opened Meshes
  import opened MeshTransfers

  /** The attributes of one shape of a multi shape. */
  datatype Part = Part(attributes: nat, doublePrecision: bool)

  /** What the packet buffer holds when it is sent. */
  datatype ShapeMessage =
    | CreateShape(partCount: nat, parts: seq<Part>)
    | Slice(phase: nat, offset: nat, elements: seq<Element>)
    | SliceEnd
    | Block(blockParts: seq<Part>)

  datatype WriteResult = WriteResult(status: int, marker: nat, packet: ShapeMessage)

  // ---------------------------------------------------------------- mesh shapes

  /** The zero offset and count of the end message. */
  const END_SIZE := 6

  datatype Place = Place(phase: nat, offset: nat)

  /** Where in a series of streams a marker into all of them falls; after the last phase if it is past
      the end. */
  function Locate(streams: seq<seq<Element>>, marker: nat): Place
    decreases |streams|
  {
    if streams == [] || marker < |streams[0]| then Place(0, marker)
    else
      var rest := Locate(streams[1..], marker - |streams[0]|);
      Place(rest.phase + 1, rest.offset)
  }

  function Flat(streams: seq<seq<Element>>): seq<Element> {
    if streams == [] then [] else streams[0] + Flat(streams[1..])
  }

  /** Bytes of an element of each stream, as its type and the number of its components make them: the streams
      are vertices, indices, normals and colours. */
  type ItemSizes = nat -> ItemSize

  type ItemSize = size: nat | size > 0 witness 1

  function MeshDataWritten(streams: seq<seq<Element>>, sizes: ItemSizes, room: nat, marker: nat): WriteResult {
    var p := Locate(streams, marker);
    if p.phase >= |streams| then WriteResult(if room < END_SIZE then -1 else 0, marker, SliceEnd)
    else if p.offset >= |streams[p.phase]| then WriteResult(-1, marker, SliceEnd)
    else
      var stream := streams[p.phase];
      var n := Written(sizes(p.phase), |stream| - p.offset, 0, room);
      if n == 0 then WriteResult(-1, marker, Slice(p.phase, p.offset, []))
      else WriteResult(1, marker + n, Slice(p.phase, p.offset, stream[p.offset..p.offset + n]))
  }

  /** A marker inside all streams falls inside one of them. */
  lemma {:induction false} LocateFits(streams: seq<seq<Element>>, marker: nat)
    ensures
      var p := Locate(streams, marker);
      && p.phase <= |streams|
      && (p.phase < |streams| <==> marker < |Flat(streams)|)
      && (p.phase < |streams| ==>
        p.offset < |streams[p.phase]| && |streams[p.phase]| - p.offset <= |Flat(streams)| - marker)
    decreases |streams|
  {
    if streams != [] && marker >= |streams[0]| {
      LocateFits(streams[1..], marker - |streams[0]|);
    }
  }

  /** What follows there is what follows in all of them. */
  lemma {:induction false} FlatSlice(streams: seq<seq<Element>>, marker: nat, n: nat)
    requires Locate(streams, marker).phase < |streams|
    requires Locate(streams, marker).offset + n <= |streams[Locate(streams, marker).phase]|
    ensures marker + n <= |Flat(streams)|
    ensures
      var p := Locate(streams, marker);
      Flat(streams)[marker..marker + n] == streams[p.phase][p.offset..p.offset + n]
    decreases |streams|
  {
    var first, rest := streams[0], Flat(streams[1..]);
    if marker >= |first| {
      FlatSlice(streams[1..], marker - |first|, n);
      assert (first + rest)[marker..marker + n] == rest[marker - |first|..marker - |first| + n];
    }
  }

  /** The streams a receiver has (`readData`): each grows to hold the slice it gets. */
  function ReadSlice(streams: seq<seq<Element>>, msg: ShapeMessage): seq<seq<Element>> {
    if !msg.Slice? || msg.phase >= |streams| then streams
    else
      var s, end := streams[msg.phase], msg.offset + |msg.elements|;
      streams[msg.phase := Overlaid(if |s| < end then Resized(s, end, 0) else s, msg.offset, msg.elements)]
  }

  function ReadAll(streams: seq<seq<Element>>, messages: seq<ShapeMessage>): seq<seq<Element>> {
    if messages == [] then streams
    else ReadSlice(ReadAll(streams, messages[..|messages| - 1]), messages[|messages| - 1])
  }

  /** What a receiver has of the streams when this much was sent. */
  function Sofar(streams: seq<seq<Element>>, marker: nat): seq<seq<Element>>
    decreases |streams|
  {
    if streams == [] then []
    else if marker <= |streams[0]| then [streams[0][..marker]] + Sofar(streams[1..], 0)
    else [streams[0]] + Sofar(streams[1..], marker - |streams[0]|)
  }

  lemma {:induction false} SofarAt(streams: seq<seq<Element>>, marker: nat)
    ensures |Sofar(streams, marker)| == |streams|
    decreases |streams|
  {
    if streams != [] {
      SofarAt(streams[1..], if marker <= |streams[0]| then 0 else marker - |streams[0]|);
    }
  }

  lemma {:induction false} SofarAll(streams: seq<seq<Element>>, marker: nat)
    requires marker >= |Flat(streams)|
    ensures Sofar(streams, marker) == streams
    decreases |streams|
  {
    if streams != [] {
      if marker <= |streams[0]| {
        assert streams[0][..marker] == streams[0];
        SofarAll(streams[1..], 0);
      } else {
        SofarAll(streams[1..], marker - |streams[0]|);
      }
      assert [streams[0]] + streams[1..] == streams;
    }
  }

  lemma {:induction false} SofarNone(streams: seq<seq<Element>>)
    ensures Sofar(streams, 0) == seq(|streams|, _ => [])
    decreases |streams|
  {
    if streams != [] {
      SofarNone(streams[1..]);
      assert streams[0][..0] == [];
    }
  }

  lemma ReadSliceFirst(streams: seq<seq<Element>>, marker: nat, n: nat)
    requires streams != [] && n > 0 && marker + n <= |streams[0]|
    ensures ReadSlice(Sofar(streams, marker), Slice(0, marker, streams[0][marker..marker + n]))
      == Sofar(streams, marker + n)
  {
    var first, rest := streams[0], Sofar(streams[1..], 0);
    var before := first[..marker];
    assert Overlaid(Resized(before, marker + n, 0), marker, first[marker..marker + n]) == first[..marker + n];
    assert Sofar(streams, marker) == [before] + rest && Sofar(streams, marker + n) == [first[..marker + n]] + rest;
    assert ([before] + rest)[0 := first[..marker + n]] == [first[..marker + n]] + rest;
  }

  lemma ReadSliceShift(first: seq<Element>, rest: seq<seq<Element>>, phase: nat, offset: nat, elements: seq<Element>)
    requires phase < |rest|
    ensures ReadSlice([first] + rest, Slice(phase + 1, offset, elements))
      == [first] + ReadSlice(rest, Slice(phase, offset, elements))
  {
  }

  lemma SofarShift(streams: seq<seq<Element>>, marker: nat)
    requires streams != [] && marker >= |streams[0]|
    ensures Sofar(streams, marker) == [streams[0]] + Sofar(streams[1..], marker - |streams[0]|)
  {
    if marker == |streams[0]| {
      assert streams[0][..marker] == streams[0];
    }
  }

  /** The slice of `n` elements at a marker. */
  function SliceAt(streams: seq<seq<Element>>, marker: nat, n: nat): (r: ShapeMessage)
    requires Locate(streams, marker).phase < |streams|
    requires Locate(streams, marker).offset + n <= |streams[Locate(streams, marker).phase]|
  {
    var p := Locate(streams, marker);
    Slice(p.phase, p.offset, streams[p.phase][p.offset..p.offset + n])
  }

  lemma SliceAtShift(streams: seq<seq<Element>>, marker: nat, n: nat)
    requires streams != [] && marker >= |streams[0]| && Locate(streams, marker).phase < |streams|
    requires Locate(streams, marker).offset + n <= |streams[Locate(streams, marker).phase]|
    ensures Locate(streams[1..], marker - |streams[0]|).phase < |streams| - 1
    ensures
      var q := Locate(streams[1..], marker - |streams[0]|);
      && q.offset + n <= |streams[1..][q.phase]|
      && SliceAt(streams, marker, n).phase == SliceAt(streams[1..], marker - |streams[0]|, n).phase + 1
      && SliceAt(streams, marker, n).offset == SliceAt(streams[1..], marker - |streams[0]|, n).offset
      && SliceAt(streams, marker, n).elements == SliceAt(streams[1..], marker - |streams[0]|, n).elements
  {
  }

  /** The next slice makes it that much more. */
  lemma {:induction false} SliceAdds(streams: seq<seq<Element>>, marker: nat, n: nat)
    requires n > 0 && Locate(streams, marker).phase < |streams|
    requires Locate(streams, marker).offset + n <= |streams[Locate(streams, marker).phase]|
    ensures ReadSlice(Sofar(streams, marker), SliceAt(streams, marker, n)) == Sofar(streams, marker + n)
    decreases |streams|
  {
    var first, rest := streams[0], streams[1..];
    if marker < |first| {
      ReadSliceFirst(streams, marker, n);
    } else {
      var left := marker - |first|;
      SliceAtShift(streams, marker, n);
      SliceAdds(rest, left, n);
      SofarAt(rest, left);
      SofarShift(streams, marker);
      SofarShift(streams, marker + n);
      var msg := SliceAt(rest, left, n);
      ReadSliceShift(first, Sofar(rest, left), msg.phase, msg.offset, msg.elements);
      assert ReadSlice(Sofar(streams, marker), SliceAt(streams, marker, n)) == [first] + Sofar(rest, left + n);
    }
  }

  // ---------------------------------------------------------------- multi shapes

  function BlockCountLimit(doublePrecision: bool): nat {
    if doublePrecision then 512 else 1024
  }

  /** Bytes of the attributes of shapes: a colour, and ten numbers for position, rotation and scale. */
  function PartsSize(parts: seq<Part>): nat {
    if parts == [] then 0
    else PartsSize(parts[..|parts| - 1]) + if parts[|parts| - 1].doublePrecision then 84 else 44
  }

  function FirstBlock(parts: seq<Part>, doublePrecision: bool): seq<Part> {
    if |parts| <= BlockCountLimit(doublePrecision) then parts else parts[..BlockCountLimit(doublePrecision)]
  }

  function MultiCreate(parts: seq<Part>, doublePrecision: bool): ShapeMessage {
    CreateShape(|parts|, FirstBlock(parts, doublePrecision))
  }

  /** The create message announces all shapes, and holds the first of them, as many as its limit. */
  lemma CreateAnnounces(parts: seq<Part>, doublePrecision: bool)
    ensures
      var create, limit := MultiCreate(parts, doublePrecision), if doublePrecision then 512 else 1024;
      && create.partCount == |parts| && |create.parts| <= limit && (|create.parts| < limit ==> create.parts == parts)
      && forall i :: 0 <= i < |create.parts| ==> i < |parts| && create.parts[i] == parts[i]
  {
  }

  /** `MultiShape::writeData`; a set that the create message holds leaves the packet as it is. */
  function MultiDataWritten(parts: seq<Part>, doublePrecision: bool, room: nat, marker: nat,
      packet: ShapeMessage): WriteResult
  {
    var limit := BlockCountLimit(doublePrecision);
    if |parts| <= limit then WriteResult(0, marker, packet)
    else if marker + limit > |parts| then WriteResult(-1, marker, packet)
    else
      var from := marker + limit;
      var count := if |parts| - from < limit then |parts| - from else limit;
      var block := parts[from..from + count];
      WriteResult(
        if PartsSize(block) + 2 > room then -1 else if |parts| - from > count then 1 else 0,
        marker + count, Block(block))
  }

  /** The elements in all slices, in the order sent. */
  function Payload(messages: seq<ShapeMessage>): seq<Element> {
    if messages == [] then []
    else
      var last := messages[|messages| - 1];
      Payload(messages[..|messages| - 1]) + if last.Slice? then last.elements else []
  }

  /** The parts in all messages, in the order sent. */
  function PartsIn(messages: seq<ShapeMessage>): seq<Part> {
    if messages == [] then []
    else
      var last := messages[|messages| - 1];
      PartsIn(messages[..|messages| - 1])
        + if last.Block? then last.blockParts else if last.CreateShape? then last.parts else []
  }

  lemma PayloadOneMore(messages: seq<ShapeMessage>, msg: ShapeMessage)
    ensures Payload(messages + [msg]) == Payload(messages) + if msg.Slice? then msg.elements else []
  {
  }

  lemma PartsInOneMore(messages: seq<ShapeMessage>, msg: ShapeMessage)
    ensures PartsIn(messages + [msg])
         == PartsIn(messages) + if msg.Block? then msg.blockParts else if msg.CreateShape? then msg.parts else []
  {
  }

  lemma ReadOneMore(streams: seq<seq<Element>>, messages: seq<ShapeMessage>, msg: ShapeMessage)
    ensures ReadAll(streams, messages + [msg]) == ReadSlice(ReadAll(streams, messages), msg)
  {
  }

  lemma {:induction false} PartsSizeBound(parts: seq<Part>, doublePrecision: bool)
    requires doublePrecision || forall i :: 0 <= i < |parts| ==> !parts[i].doublePrecision
    ensures PartsSize(parts) <= |parts| * if doublePrecision then 84 else 44
  {
    if parts != [] {
      PartsSizeBound(parts[..|parts| - 1], doublePrecision);
    }
  }

  // ---------------------------------------------------------------- the programs

  /** `MeshShape::writeData`: pass over the phases that the marker is beyond, and send from the next. */
  method WriteMeshData(streams: seq<seq<Element>>, sizes: ItemSizes, room: nat, marker: nat) returns (r: WriteResult)
    ensures r == MeshDataWritten(streams, sizes, room, marker)
    ensures r.status > 0 ==> IsSlice(streams, sizes, room, r.packet) && r.marker == marker + |r.packet.elements|
  {
    if MeshDataWritten(streams, sizes, room, marker).status > 0 {
      WrittenIsSlice(streams, sizes, room, marker);
    }
    var phase, previous := 0, 0;
    while phase < |streams| && marker >= previous + |streams[phase]|
      invariant 0 <= phase <= |streams| && 0 <= previous <= marker
      invariant Locate(streams, marker)
             == Place(phase + Locate(streams[phase..], marker - previous).phase,
                      Locate(streams[phase..], marker - previous).offset)
    {
      assert streams[phase..][1..] == streams[phase + 1..];
      previous := previous + |streams[phase]|;
      phase := phase + 1;
    }
    var offset := marker - previous;
    assert phase < |streams| ==> streams[phase..][0] == streams[phase];
    if phase < |streams| {
      var count := Written(sizes(phase), |streams[phase]| - offset, 0, room);
      if count == 0 {
        return WriteResult(-1, marker, Slice(phase, offset, []));
      }
      return WriteResult(1, marker + count, Slice(phase, offset, streams[phase][offset..offset + count]));
    }
    r := WriteResult(if room < END_SIZE then -1 else 0, marker, SliceEnd);
  }

  /** `MultiShape::writeData` */
  method WriteMultiData(parts: seq<Part>, doublePrecision: bool, room: nat, marker: nat, packet: ShapeMessage)
    returns (r: WriteResult)
    ensures r == MultiDataWritten(parts, doublePrecision, room, marker, packet)
  {
    var limit := BlockCountLimit(doublePrecision);
    if |parts| <= limit {
      return WriteResult(0, marker, packet);
    }
    if marker + limit > |parts| {
      return WriteResult(-1, marker, packet);
    }
    var from := marker + limit;
    var remaining := |parts| - from;
    var count := if remaining < limit then remaining else limit;
    var fits := WriteAttributes(parts[from..from + count], room);
    var status := if !fits then -1 else if remaining > count then 1 else 0;
    r := WriteResult(status, marker + count, Block(parts[from..from + count]));
  }

  /** The loop over the attributes of a block, behind its count. */
  method WriteAttributes(block: seq<Part>, room: nat) returns (fits: bool)
    ensures fits <==> PartsSize(block) + 2 <= room
  {
    var used := 2;
    for i := 0 to |block|
      invariant used == 2 + PartsSize(block[..i])
    {
      assert block[..i + 1][..i] == block[..i];
      used := used + if block[i].doublePrecision then 84 else 44;
    }
    assert block[..|block|] == block;
    fits := used <= room;
  }

  /** What has been sent up to a marker, and what a receiver has made of it. */
  ghost predicate SentUpTo(streams: seq<seq<Element>>, marker: nat, messages: seq<ShapeMessage>) {
    && marker <= |Flat(streams)| && Payload(messages) == Flat(streams)[..marker]
    && ReadAll(seq(|streams|, _ => []), messages) == Sofar(streams, marker)
  }

  lemma SliceKeeps(streams: seq<seq<Element>>, marker: nat, n: nat, messages: seq<ShapeMessage>, next: nat)
    requires SentUpTo(streams, marker, messages) && n > 0 && Locate(streams, marker).phase < |streams|
      && next == marker + n
    requires Locate(streams, marker).offset + n <= |streams[Locate(streams, marker).phase]|
    ensures SentUpTo(streams, next, messages + [SliceAt(streams, marker, n)])
  {
    var msg := SliceAt(streams, marker, n);
    PayloadOneMore(messages, msg);
    ReadOneMore(seq(|streams|, _ => []), messages, msg);
    FlatSlice(streams, marker, n);
    SliceAdds(streams, marker, n);
    Adjacent(Flat(streams), marker, n);
  }

  lemma EndKeeps(streams: seq<seq<Element>>, marker: nat, messages: seq<ShapeMessage>)
    requires SentUpTo(streams, marker, messages) && marker >= |Flat(streams)|
    ensures Payload(messages + [SliceEnd]) == Flat(streams)
    ensures ReadAll(seq(|streams|, _ => []), messages + [SliceEnd]) == streams
  {
    PayloadOneMore(messages, SliceEnd);
    ReadOneMore(seq(|streams|, _ => []), messages, SliceEnd);
    SofarAll(streams, marker);
    assert Flat(streams)[..marker] == Flat(streams) && Flat(streams) + [] == Flat(streams);
  }

  /** Each stream fits packets of this size. */
  predicate AllFit(streams: seq<seq<Element>>, sizes: ItemSizes, room: nat) {
    forall k :: 0 <= k < |streams| && streams[k] != [] ==> StreamFits(sizes(k), |streams[k]|, room)
  }

  /** Each stream that lies at least partly before a marker does; the first has phase `k`. */
  predicate FitUpTo(streams: seq<seq<Element>>, sizes: ItemSizes, k: nat, marker: nat, room: nat)
    decreases |streams|
  {
    streams != [] ==>
      && (marker > 0 && streams[0] != [] ==> StreamFits(sizes(k), |streams[0]|, room))
      && FitUpTo(streams[1..], sizes, k + 1, if marker <= |streams[0]| then 0 else marker - |streams[0]|, room)
  }

  lemma {:induction false} FitAtStart(streams: seq<seq<Element>>, sizes: ItemSizes, k: nat, room: nat)
    ensures FitUpTo(streams, sizes, k, 0, room)
    decreases |streams|
  {
    if streams != [] {
      FitAtStart(streams[1..], sizes, k + 1, room);
    }
  }

  /** A slice written at the start of a stream shows that all of the stream fits. */
  lemma {:induction false} FitFurther(streams: seq<seq<Element>>, sizes: ItemSizes, k: nat, marker: nat, n: nat,
      room: nat)
    requires FitUpTo(streams, sizes, k, marker, room) && Locate(streams, marker).phase < |streams|
    requires
      var p := Locate(streams, marker);
      && p.offset + n <= |streams[p.phase]|
      && (p.offset == 0 ==> StreamFits(sizes(k + p.phase), |streams[p.phase]|, room))
    ensures FitUpTo(streams, sizes, k, marker + n, room)
    decreases |streams|
  {
    var first, rest := streams[0], streams[1..];
    if marker < |first| {
      assert marker + n <= |first|;
      FitAtStart(rest, sizes, k + 1, room);
    } else {
      var q := Locate(rest, marker - |first|);
      assert Locate(streams, marker) == Place(q.phase + 1, q.offset) && rest[q.phase] == streams[q.phase + 1];
      FitFurther(rest, sizes, k + 1, marker - |first|, n, room);
    }
  }

  lemma {:induction false} FitAtEnd(streams: seq<seq<Element>>, sizes: ItemSizes, k: nat, marker: nat, room: nat,
      i: nat)
    requires FitUpTo(streams, sizes, k, marker, room) && marker >= |Flat(streams)| && i < |streams| && streams[i] != []
    ensures StreamFits(sizes(k + i), |streams[i]|, room)
    decreases |streams|
  {
    if i > 0 {
      FitAtEnd(streams[1..], sizes, k + 1, if marker <= |streams[0]| then 0 else marker - |streams[0]|, room, i - 1);
    }
  }

  /** What one call of `writeData` does. */
  lemma NextData(streams: seq<seq<Element>>, sizes: ItemSizes, room: nat, marker: nat)
    requires marker <= |Flat(streams)| && FitUpTo(streams, sizes, 0, marker, room)
    ensures
      var r, p := MeshDataWritten(streams, sizes, room, marker), Locate(streams, marker);
      && (r.status == 0 ==> r.packet == SliceEnd && marker == |Flat(streams)| && room >= END_SIZE)
      && (r.status > 0 ==>
            && marker < r.marker && p.phase < |streams| && p.offset + (r.marker - marker) <= |streams[p.phase]|
            && r.packet == SliceAt(streams, marker, r.marker - marker) && FitUpTo(streams, sizes, 0, r.marker, room))
      && (r.status < 0 ==> room < END_SIZE || !AllFit(streams, sizes, room))
  {
    LocateFits(streams, marker);
    var p := Locate(streams, marker);
    if p.phase < |streams| {
      var itemSize, length := sizes(p.phase), |streams[p.phase]|;
      WrittenExactly(itemSize, length - p.offset, 0, room);
      var r := MeshDataWritten(streams, sizes, room, marker);
      if r.status < 0 && StreamFits(itemSize, length, room) {
        FewerFit(itemSize, length - p.offset, length, room);
      }
      if r.status > 0 {
        FitFurther(streams, sizes, 0, marker, r.marker - marker, room);
      }
    }
  }

  /** The state of the loop of `sendShapeData`. */
  ghost predicate Sending(streams: seq<seq<Element>>, sizes: ItemSizes, room: nat, marker: nat,
      messages: seq<ShapeMessage>)
  {
    && SentUpTo(streams, marker, messages) && FitUpTo(streams, sizes, 0, marker, room)
    && AllSlices(streams, sizes, room, messages)
  }

  /** A slice of a stream: of its elements from there on as many as are allowed. */
  predicate IsSlice(streams: seq<seq<Element>>, sizes: ItemSizes, room: nat, msg: ShapeMessage) {
    && msg.Slice? && msg.phase < |streams| && msg.offset + |msg.elements| <= |streams[msg.phase]|
    && msg.elements == streams[msg.phase][msg.offset..msg.offset + |msg.elements|]
    && IsMost(sizes(msg.phase), |streams[msg.phase]| - msg.offset, 0, room, |msg.elements|)
  }

  predicate AllSlices(streams: seq<seq<Element>>, sizes: ItemSizes, room: nat, messages: seq<ShapeMessage>) {
    forall i :: 0 <= i < |messages| ==> IsSlice(streams, sizes, room, messages[i])
  }

  lemma WrittenIsSlice(streams: seq<seq<Element>>, sizes: ItemSizes, room: nat, marker: nat)
    requires MeshDataWritten(streams, sizes, room, marker).status > 0
    ensures IsSlice(streams, sizes, room, MeshDataWritten(streams, sizes, room, marker).packet)
  {
    var p := Locate(streams, marker);
    WritesMost(sizes(p.phase), |streams[p.phase]| - p.offset, 0, room);
  }

  lemma OneMoreSlice(streams: seq<seq<Element>>, sizes: ItemSizes, room: nat, messages: seq<ShapeMessage>,
      msg: ShapeMessage)
    requires AllSlices(streams, sizes, room, messages) && IsSlice(streams, sizes, room, msg)
    ensures AllSlices(streams, sizes, room, messages + [msg])
  {
  }

  /** All slices and the end: what `sendShapeData` should have sent. */
  ghost predicate SentAllData(streams: seq<seq<Element>>, sizes: ItemSizes, room: nat, messages: seq<ShapeMessage>) {
    && messages != [] && messages[|messages| - 1] == SliceEnd
    && AllSlices(streams, sizes, room, messages[..|messages| - 1])
    && Payload(messages) == Flat(streams) && ReadAll(seq(|streams|, _ => []), messages) == streams
  }

  lemma SendingStarts(streams: seq<seq<Element>>, sizes: ItemSizes, room: nat)
    ensures Sending(streams, sizes, room, 0, [])
  {
    SofarNone(streams);
    assert Flat(streams)[..0] == [];
    FitAtStart(streams, sizes, 0, room);
  }

  lemma SendingGoesOn(streams: seq<seq<Element>>, sizes: ItemSizes, room: nat, marker: nat, messages: seq<ShapeMessage>)
    requires Sending(streams, sizes, room, marker, messages) && MeshDataWritten(streams, sizes, room, marker).status > 0
    ensures
      var r := MeshDataWritten(streams, sizes, room, marker);
      marker < r.marker <= |Flat(streams)| && Sending(streams, sizes, room, r.marker, messages + [r.packet])
  {
    WrittenIsSlice(streams, sizes, room, marker);
    OneMoreSlice(streams, sizes, room, messages, MeshDataWritten(streams, sizes, room, marker).packet);
    DataGoesOn(streams, sizes, room, marker, messages);
  }

  lemma DataGoesOn(streams: seq<seq<Element>>, sizes: ItemSizes, room: nat, marker: nat, messages: seq<ShapeMessage>)
    requires SentUpTo(streams, marker, messages) && FitUpTo(streams, sizes, 0, marker, room)
    requires MeshDataWritten(streams, sizes, room, marker).status > 0
    ensures
      var r := MeshDataWritten(streams, sizes, room, marker);
      && marker < r.marker <= |Flat(streams)| && SentUpTo(streams, r.marker, messages + [r.packet])
      && FitUpTo(streams, sizes, 0, r.marker, room)
  {
    var r := MeshDataWritten(streams, sizes, room, marker);
    NextData(streams, sizes, room, marker);
    SliceKeeps(streams, marker, r.marker - marker, messages, r.marker);
  }

  lemma SendingEnds(streams: seq<seq<Element>>, sizes: ItemSizes, room: nat, marker: nat, messages: seq<ShapeMessage>)
    requires Sending(streams, sizes, room, marker, messages)
      && MeshDataWritten(streams, sizes, room, marker).status == 0
    ensures SentAllData(streams, sizes, room, messages + [MeshDataWritten(streams, sizes, room, marker).packet])
    ensures room >= END_SIZE && AllFit(streams, sizes, room)
  {
    NextData(streams, sizes, room, marker);
    EndKeeps(streams, marker, messages);
    assert (messages + [SliceEnd])[..|messages|] == messages;
    forall k | 0 <= k < |streams| && streams[k] != []
      ensures StreamFits(sizes(k), |streams[k]|, room)
    {
      FitAtEnd(streams, sizes, 0, marker, room, k);
    }
  }

  /** `sendShapeData` of a mesh shape. It succeeds exactly if each stream fits packets of this size. Then the
      messages cut the streams into slices, one after the other, each as long as is allowed, and end with the
      only end message; a receiver gets the same streams. */
  method SendMeshShapeData(streams: seq<seq<Element>>, sizes: ItemSizes, room: nat)
    returns (status: int, messages: seq<ShapeMessage>)
    ensures status >= 0 <==> room >= END_SIZE && AllFit(streams, sizes, room)
    ensures status >= 0 ==> SentAllData(streams, sizes, room, messages)
    ensures status < 0 ==> AllSlices(streams, sizes, room, messages)
  {
    var marker: nat := 0;
    messages := [];
    SendingStarts(streams, sizes, room);
    while true
      invariant Sending(streams, sizes, room, marker, messages)
      decreases |Flat(streams)| - marker
    {
      var r := WriteMeshData(streams, sizes, room, marker);
      if r.status < 0 {
        NextData(streams, sizes, room, marker);
        return -1, messages;
      }
      if r.status == 0 {
        SendingEnds(streams, sizes, room, marker, messages);
        return 0, messages + [r.packet];
      }
      SendingGoesOn(streams, sizes, room, marker, messages);
      messages := messages + [r.packet];
      marker := r.marker;
    }
  }

  /** As each does in packets of the largest sizes. */
  lemma LargeRoomIsEnough(streams: seq<seq<Element>>, sizes: ItemSizes, room: nat)
    requires forall k :: 0 <= k < |streams| ==>
      sizes(k) <= LARGEST_SLICE && LARGEST_SLICE / sizes(k) * sizes(k) + 8 <= room
    ensures AllFit(streams, sizes, room)
  {
    forall k | 0 <= k < |streams| && streams[k] != []
      ensures StreamFits(sizes(k), |streams[k]|, room)
    {
      LargeRoom(sizes(k), |streams[k]|, 0, room);
    }
  }

  lemma Adjacent(s: seq<Element>, k: nat, n: nat)
    requires k + n <= |s|
    ensures s[..k] + s[k..k + n] == s[..k + n]
  {
  }

  /** What the data messages of a set carry that is larger than its create message: the next block. */
  lemma NextBlock(parts: seq<Part>, doublePrecision: bool, room: nat, marker: nat, packet: ShapeMessage)
    requires marker + BlockCountLimit(doublePrecision) < |parts|
    ensures
      var r, limit := MultiDataWritten(parts, doublePrecision, room, marker, packet), BlockCountLimit(doublePrecision);
      && r.packet.Block? && 0 < |r.packet.blockParts| <= limit && marker < r.marker && r.marker + limit <= |parts|
      && parts[..marker + limit] + r.packet.blockParts == parts[..r.marker + limit]
      && (r.status >= 0 ==> (r.status == 0 <==> r.marker + limit == |parts|))
      && (r.status > 0 ==> |r.packet.blockParts| == limit)
      && (BlocksFit(parts, limit, marker + limit, room) <==>
        r.status >= 0 && BlocksFit(parts, limit, r.marker + limit, room))
  {
    var limit := BlockCountLimit(doublePrecision);
    var from := marker + limit;
    var count := if |parts| - from < limit then |parts| - from else limit;
    assert parts[..from] + parts[from..from + count] == parts[..from + count];
  }

  /** Each block from here on fits, with its count. */
  predicate BlocksFit(parts: seq<Part>, limit: nat, from: nat, room: nat)
    requires limit > 0
    decreases |parts| - from
  {
    from < |parts| ==>
      var count := if |parts| - from < limit then |parts| - from else limit;
      PartsSize(parts[from..from + count]) + 2 <= room && BlocksFit(parts, limit, from + count, room)
  }

  /** As they do in packets of the default size, if no shape of the set needs more precision than the set. */
  lemma {:induction false} AgreeingBlocksFit(parts: seq<Part>, doublePrecision: bool, from: nat, room: nat)
    requires PartsAgree(parts, doublePrecision) && room >= 1024 * 44 + 2
    ensures BlocksFit(parts, BlockCountLimit(doublePrecision), from, room)
    decreases |parts| - from
  {
    if from < |parts| {
      var limit := BlockCountLimit(doublePrecision);
      var count := if |parts| - from < limit then |parts| - from else limit;
      PartsSizeBound(parts[from..from + count], doublePrecision);
      AgreeingBlocksFit(parts, doublePrecision, from + count, room);
    }
  }

  /** No shape of the set needs more precision than the set. */
  predicate PartsAgree(parts: seq<Part>, doublePrecision: bool) {
    doublePrecision || forall i :: 0 <= i < |parts| ==> !parts[i].doublePrecision
  }

  /** Blocks of that many parts, of which the last may have fewer. */
  predicate AllBlocks(messages: seq<ShapeMessage>, limit: nat) {
    forall i :: 0 <= i < |messages| ==>
      && messages[i].Block? && 0 < |messages[i].blockParts| <= limit
      && (i + 1 < |messages| ==> |messages[i].blockParts| == limit)
  }

  /** All blocks so far have that many. */
  predicate AllFull(messages: seq<ShapeMessage>, limit: nat) {
    forall i :: 0 <= i < |messages| ==> messages[i].Block? && |messages[i].blockParts| == limit
  }

  /** What has been sent of a set up to a marker. */
  predicate PartsUpTo(parts: seq<Part>, doublePrecision: bool, marker: nat, messages: seq<ShapeMessage>) {
    var limit := BlockCountLimit(doublePrecision);
    && marker + limit <= |parts|
    && PartsIn([MultiCreate(parts, doublePrecision)] + messages) == parts[..marker + limit]
  }

  lemma FullBlocks(messages: seq<ShapeMessage>, limit: nat, packet: ShapeMessage)
    requires AllFull(messages, limit) && packet.Block? && 0 < |packet.blockParts| <= limit
    ensures AllBlocks(messages, limit) && AllBlocks(messages + [packet], limit)
    ensures |packet.blockParts| == limit ==> AllFull(messages + [packet], limit)
  {
  }

  lemma NothingYet(parts: seq<Part>, doublePrecision: bool)
    requires |parts| > BlockCountLimit(doublePrecision)
    ensures PartsUpTo(parts, doublePrecision, 0, [])
  {
  }

  lemma BlockKeeps(parts: seq<Part>, doublePrecision: bool, marker: nat, next: nat, messages: seq<ShapeMessage>,
      packet: ShapeMessage)
    requires PartsUpTo(parts, doublePrecision, marker, messages)
    requires packet.Block? && next + BlockCountLimit(doublePrecision) <= |parts|
    requires parts[..marker + BlockCountLimit(doublePrecision)] + packet.blockParts
      == parts[..next + BlockCountLimit(doublePrecision)]
    ensures PartsUpTo(parts, doublePrecision, next, messages + [packet])
  {
    var create := MultiCreate(parts, doublePrecision);
    PartsInOneMore([create] + messages, packet);
    assert ([create] + messages) + [packet] == [create] + (messages + [packet]);
  }

  /** The state of the loop of `sendShapeData` for such a set. */
  predicate SendingBlocks(parts: seq<Part>, doublePrecision: bool, room: nat, marker: nat,
      messages: seq<ShapeMessage>)
  {
    var limit := BlockCountLimit(doublePrecision);
    && PartsUpTo(parts, doublePrecision, marker, messages) && marker + limit < |parts| && AllFull(messages, limit)
    && (AllBlocksFit(parts, doublePrecision, room) <==> BlocksFit(parts, limit, marker + limit, room))
  }

  predicate AllBlocksFit(parts: seq<Part>, doublePrecision: bool, room: nat) {
    BlocksFit(parts, BlockCountLimit(doublePrecision), BlockCountLimit(doublePrecision), room)
  }

  lemma SendingBlocksGoesOn(parts: seq<Part>, doublePrecision: bool, room: nat, marker: nat,
      messages: seq<ShapeMessage>, packet: ShapeMessage)
    requires SendingBlocks(parts, doublePrecision, room, marker, messages)
    ensures
      var r := MultiDataWritten(parts, doublePrecision, room, marker, packet);
      && marker < r.marker
      && (r.status < 0 ==> !AllBlocksFit(parts, doublePrecision, room))
      && (r.status > 0 ==> SendingBlocks(parts, doublePrecision, room, r.marker, messages + [r.packet]))
      && (r.status == 0 ==>
            && AllBlocksFit(parts, doublePrecision, room)
            && AllBlocks(messages + [r.packet], BlockCountLimit(doublePrecision))
            && PartsIn([MultiCreate(parts, doublePrecision)] + (messages + [r.packet])) == parts)
  {
    NextBlock(parts, doublePrecision, room, marker, packet);
    var r := MultiDataWritten(parts, doublePrecision, room, marker, packet);
    BlockKeeps(parts, doublePrecision, marker, r.marker, messages, r.packet);
    FullBlocks(messages, BlockCountLimit(doublePrecision), r.packet);
    assert parts[..|parts|] == parts;
  }

  /** The loop, for a set larger than its create message. */
  method SendBlocks(parts: seq<Part>, doublePrecision: bool, room: nat)
    returns (status: int, messages: seq<ShapeMessage>)
    requires |parts| > BlockCountLimit(doublePrecision)
    ensures status >= 0 <==> AllBlocksFit(parts, doublePrecision, room)
    ensures AllBlocks(messages, BlockCountLimit(doublePrecision))
    ensures status >= 0 ==> PartsIn([MultiCreate(parts, doublePrecision)] + messages) == parts
  {
    var packet, marker: nat := MultiCreate(parts, doublePrecision), 0;
    messages := [];
    NothingYet(parts, doublePrecision);
    while true
      invariant SendingBlocks(parts, doublePrecision, room, marker, messages)
      decreases |parts| - marker
    {
      SendingBlocksGoesOn(parts, doublePrecision, room, marker, messages, packet);
      var r := WriteMultiData(parts, doublePrecision, room, marker, packet);
      if r.status < 0 {
        return -1, messages;
      }
      messages := messages + [r.packet];
      packet, marker := r.packet, r.marker;
      if r.status == 0 {
        return 0, messages;
      }
    }
  }

  /** `sendShapeData` of a multi shape. A larger set than its create message holds follows in blocks, and
      create message and blocks have every part once, in order. For any other set the packet that is
      still in the buffer, the create message, is sent again. It fails exactly if a block does not fit. */
  method SendMultiShapeData(parts: seq<Part>, doublePrecision: bool, room: nat)
    returns (status: int, messages: seq<ShapeMessage>)
    ensures |parts| > BlockCountLimit(doublePrecision) ==> AllBlocks(messages, BlockCountLimit(doublePrecision))
    ensures |parts| <= BlockCountLimit(doublePrecision) ==>
      status == 0 && messages == [MultiCreate(parts, doublePrecision)]
    ensures status >= 0 ==>
      (PartsIn([MultiCreate(parts, doublePrecision)] + messages) == parts <==>
        (parts == [] || |parts| > BlockCountLimit(doublePrecision)))
    ensures |parts| > BlockCountLimit(doublePrecision) ==>
      (status >= 0 <==> AllBlocksFit(parts, doublePrecision, room))
  {
    if |parts| > BlockCountLimit(doublePrecision) {
      status, messages := SendBlocks(parts, doublePrecision, room);
    } else {
      var create := MultiCreate(parts, doublePrecision);
      var r := WriteMultiData(parts, doublePrecision, room, 0, create);
      status, messages := r.status, [r.packet];
      PartsInOneMore([], create);
      PartsInOneMore([create], create);
      assert [] + [create] == [create] && [create] + [create] == [create] + messages;
      assert |PartsIn([create] + messages)| == 2 * |parts|;
    }
  }
}
