/** Re-framing a byte stream read in chunks: `3escore/PacketStreamReader.cpp`. */
module StreamReading {
  import opened Bytes
  import opened Packets

  /** An input stream: bytes, a read position and the end-of-file and failure bits. */
  class InputStream {
    const data: bytes
    var pos: nat
    var eof: bool
    var fail: bool

    ghost predicate Valid()
      reads this
    {
      pos <= |data| && (eof ==> pos == |data|)
    }

    constructor (data: bytes)
      ensures Valid() && this.data == data && pos == 0 && !eof && !fail
    {
      this.data := data;
      pos, eof, fail := 0, false, false;
    }

    /** `std::istream::read`: a stream that is not good delivers nothing; asking for more than there
        is delivers the rest and sets both bits. */
    method Read(count: nat) returns (chunk: bytes)
      requires Valid()
      modifies this
      ensures Valid()
      ensures old(eof || fail) ==> chunk == [] && pos == old(pos) && eof == old(eof) && fail
      ensures !old(eof || fail) ==>
        && |chunk| == (if count <= |data| - old(pos) then count else |data| - old(pos))
        && chunk == data[old(pos)..old(pos) + |chunk|] && pos == old(pos) + |chunk|
        && eof == fail == (count > |data| - old(pos))
    {
      if eof || fail {
        chunk, fail := [], true;
      } else {
        var n := if count <= |data| - pos then count else |data| - pos;
        chunk := data[pos..pos + n];
        pos := pos + n;
        eof, fail := n < count, n < count;
      }
    }
  }

  datatype Status = Success | NoStream | Unavailable | Dropped | Incomplete | End

  /** A packet, when there is one, with the stream offset of its header. */
  datatype ExtractedPacket = ExtractedPacket(packet: Option<bytes>, status: Status, pos: nat)

  /** `checkMarker`: the marker, or as much of it as the buffer holds from `i` on. */
  predicate StartsMarker(buffer: bytes, i: nat) {
    forall j :: 0 <= j < 4 && i + j < |buffer| ==> buffer[i + j] == Marker()[j]
  }

  /** The first place from `i` on, where the marker starts. */
  function FirstMarker(buffer: bytes, i: nat): (r: Option<nat>)
    ensures r.Some? ==> i <= r.value < |buffer| && StartsMarker(buffer, r.value) && NoMarker(buffer, i, r.value)
    ensures r.None? ==> NoMarker(buffer, i, |buffer|)
    decreases |buffer| - i
  {
    if i >= |buffer| then None else if StartsMarker(buffer, i) then Some(i) else FirstMarker(buffer, i + 1)
  }

  predicate IsFirst(buffer: bytes, from: nat, at: nat) {
    FirstMarker(buffer, from) == Some(at)
  }

  predicate NoMarker(buffer: bytes, from: nat, to: nat) {
    forall i :: from <= i < to ==> !StartsMarker(buffer, i)
  }

  /** What a stream yields from `start` on, if `end - start` bytes of it are buffered for the scan: the
      bytes that the first marker there is a header of, as far as the stream has them. */
  function Extraction(data: bytes, start: nat, end: nat): ExtractedPacket {
    if start >= end || end > |data| then ExtractedPacket(None, End, 0)
    else match FirstMarker(data[..end], start)
      case None => ExtractedPacket(None, Unavailable, 0)
      case Some(at) => Taken(data, at, if at > start then Dropped else Success)
  }

  /** What a marker at `at` is taken for: the bytes that its header announces, if the stream has them. */
  function Taken(data: bytes, at: nat, status: Status): ExtractedPacket {
    if FitsAt(data, at) then ExtractedPacket(Some(PacketThere(data, at)), status, at)
    else ExtractedPacket(None, Incomplete, 0)
  }

  /** The first marker among the bytes of a stream from `start` to `end`, cut off at the end or not. */
  predicate MarkerFirst(data: bytes, start: nat, end: nat, at: nat) {
    start <= at < end <= |data| && StartsMarker(data[..end], at) && NoMarker(data[..end], start, at)
  }

  /** What a call answers, told from the bytes of the stream that are buffered for it and those behind: a
      packet behind the first marker, `Dropped` if that is not the first byte; `Incomplete` if the stream
      ends before the header there, or before the size that it announces. */
  ghost predicate Classified(data: bytes, start: nat, end: nat, r: ExtractedPacket)
    requires end <= |data|
  {
    && (r.packet.Some? <==> r.status.Success? || r.status.Dropped?)
    && (r.status.Success? ==> r.pos == start) && (r.status.Dropped? ==> r.pos > start)
    && (r.packet.Some? ==>
          && MarkerFirst(data, start, end, r.pos) && FitsAt(data, r.pos)
          && r.packet.value == data[r.pos..r.pos + ExpectedSize(data[r.pos..])])
    && (r.status.Incomplete? <==> exists at: nat :: MarkerFirst(data, start, end, at) && !FitsAt(data, at))
    && (r.status.Unavailable? <==> start < end && NoMarker(data[..end], start, end))
    && (r.status.End? <==> start >= end)
    && !r.status.NoStream?
  }

  lemma ExtractionIsClassified(data: bytes, start: nat, end: nat, r: ExtractedPacket)
    requires end <= |data| && r == Extraction(data, start, end)
    ensures Classified(data, start, end, r)
  {
    if start < end {
      var first := FirstMarker(data[..end], start);
      if first.Some? {
        assert MarkerFirst(data, start, end, first.value);
        forall at: nat | MarkerFirst(data, start, end, at)
          ensures at == first.value
        {
        }
      } else {
        forall at: nat
          ensures !MarkerFirst(data, start, end, at)
        {
        }
      }
    }
  }

  class PacketStreamReader {
    var stream: InputStream?
    var buffer: bytes
    const chunkSize: nat
    var currentPacketPos: nat

    /** The buffer shows where the stream is, unless the end of the stream cut off a packet. */
    ghost predicate Valid()
      reads this, stream
    {
      && chunkSize > 0
      && (stream != null ==> stream.Valid() && (stream.fail ==> stream.eof))
      && (stream != null ==> Synced() || (buffer == [] && stream.eof))
    }

    /** The buffer is the slice of the stream between the current packet and the read position. */
    ghost predicate Synced()
      reads this, stream
    {
      && stream != null && stream.pos <= |stream.data|
      && currentPacketPos + |buffer| == stream.pos
      && buffer == stream.data[currentPacketPos..stream.pos]
    }

    /** Whether the next call starts by dropping a complete packet from the buffer. */
    predicate HoldsPacket()
      reads this
    {
      |buffer| >= HEADER_SIZE && StartsMarker(buffer, 0) && |buffer| >= ExpectedSize(buffer)
    }

    /** Where the next call starts looking. */
    ghost function NextPos(): nat
      reads this
    {
      currentPacketPos + if HoldsPacket() then ExpectedSize(buffer) else 0
    }

    /** No marker is in the buffer, which holds the stream from one offset to another. */
    ghost predicate Stuck(start: nat, end: nat)
      reads this, stream
    {
      Synced() && buffer != [] && currentPacketPos == start && stream.pos == end && NoMarker(buffer, 0, |buffer|)
    }

    /** The stream ends behind a marker: what there is of a header stays in the buffer; what there is of a
        packet with a whole header is thrown away. */
    ghost predicate CutOff(at: nat)
      reads this, stream
    {
      && stream != null && stream.eof && currentPacketPos == at < |stream.data| == stream.pos
      && (if at + HEADER_SIZE > |stream.data| then Synced() else buffer == [])
    }

    /** How far the stream is buffered when the next call scans: an empty buffer is filled with a chunk. */
    ghost function ScanEnd(): nat
      requires Valid() && stream != null
      reads this, stream
    {
      if |buffer| > NextPos() - currentPacketPos then stream.pos
      else if chunkSize <= |stream.data| - stream.pos then stream.pos + chunkSize else |stream.data|
    }

    /** The stream holds exactly these packets from the next position on. */
    ghost predicate Ahead(packets: seq<bytes>)
      requires Valid() && stream != null
      reads this, stream
    {
      && Synced() && AllWellFormed(packets)
      && (HoldsPacket() || buffer == [])
      && NextPos() <= |stream.data| && stream.data[NextPos()..] == Concat(packets)
    }

    constructor (stream: InputStream?, chunkSize: nat)
      requires chunkSize > 0
      requires stream != null ==> stream.Valid() && (stream.fail ==> stream.eof)
      ensures Valid() && this.stream == stream && this.chunkSize == chunkSize && buffer == []
      ensures stream != null ==> Synced() && NextPos() == stream.pos
    {
      this.stream := stream;
      this.chunkSize := chunkSize;
      buffer := [];
      currentPacketPos := if stream != null then stream.pos else 0;
    }

    /** `isEof`. */
    predicate IsEof()
      reads this, stream
    {
      stream == null || (buffer == [] && stream.eof)
    }

    /** `readMore`: append up to `count` bytes of the stream to the buffer. */
    method ReadMore(count: nat) returns (read: nat)
      requires Valid() && stream != null
      modifies this`buffer, stream
      ensures Valid() && (old(Synced()) ==> Synced())
      ensures old(stream.pos) + read <= |stream.data|
      ensures buffer == old(buffer) + stream.data[old(stream.pos)..old(stream.pos) + read]
      ensures read < count ==> stream.eof
      ensures read == if old(stream.eof) then 0 else
        if count <= |stream.data| - old(stream.pos) then count else |stream.data| - old(stream.pos)
    {
      if IsEof() {
        return 0;
      }
      var chunk := stream.Read(count);
      buffer := buffer + chunk;
      read := |chunk|;
    }

    /** `consume`: drop the packet that the last call handed out. */
    method Consume()
      requires Valid() && stream != null
      modifies this`buffer, this`currentPacketPos
      ensures Valid() && currentPacketPos == old(NextPos()) && (old(Synced()) ==> Synced())
      ensures buffer == if old(HoldsPacket()) then old(buffer)[ExpectedSize(old(buffer))..] else old(buffer)
    {
      if |buffer| < HEADER_SIZE {
        return;
      }
      if !StartsMarker(buffer, 0) {
        return;
      }
      var target := ExpectedSize(buffer);
      if |buffer| >= target {
        currentPacketPos := currentPacketPos + target;
        buffer := buffer[target..];
      }
    }

    /** `extractPacket`. On any stream the result is what the stream holds at the first marker among
        the buffered bytes, with `Dropped` when bytes were skipped to get there. */
    method ExtractPacket() returns (r: ExtractedPacket)
      requires Valid()
      modifies this`buffer, this`currentPacketPos, stream
      ensures Valid()
      ensures stream == null <==> r.status == NoStream
      ensures stream != null ==>
        r
        == if old(Synced()) then Extraction(stream.data, old(NextPos()), old(ScanEnd()))
           else ExtractedPacket(None, End, 0)
      ensures stream != null && old(Synced()) ==> Classified(stream.data, old(NextPos()), old(ScanEnd()), r)
      ensures stream != null && !old(Synced()) ==> r.status == End && r.packet.None?
      ensures stream != null && r.packet.Some? ==> Synced() && currentPacketPos == r.pos && |r.packet.value| <= |buffer|
      ensures stream != null && r.status == End ==>
        buffer == [] && currentPacketPos == old(NextPos()) && (old(Synced()) ==> Synced())
      ensures stream != null && r.status == Unavailable ==>
        Stuck(old(NextPos()), old(ScanEnd())) && NextPos() == old(NextPos()) && ScanEnd() == old(ScanEnd())
      ensures stream != null && r.status == Incomplete ==>
        CutOff(FirstMarker(stream.data[..old(ScanEnd())], old(NextPos())).value)
    {
      if stream == null {
        return ExtractedPacket(None, NoStream, 0);
      }
      ghost var synced, start, end := Synced(), NextPos(), ScanEnd();
      Consume();
      r := FillAndScan(end);
      if synced {
        ExtractionIsClassified(stream.data, start, end, r);
      }
    }

    /** On a stream of packets each one comes out once and in order, with `Success` and its exact offset,
        whatever the chunk size; then comes the end. */
    method ExtractNext(ghost packets: seq<bytes>) returns (r: ExtractedPacket)
      requires Valid() && stream != null && Ahead(packets)
      modifies this`buffer, this`currentPacketPos, stream
      ensures Valid()
      ensures packets == [] ==> r == ExtractedPacket(None, End, 0) && Ahead([])
      ensures packets != [] ==>
        && r == ExtractedPacket(Some(packets[0]), Success, old(NextPos()))
        && Ahead(packets[1..]) && NextPos() == old(NextPos()) + |packets[0]|
    {
      ghost var start, end := NextPos(), ScanEnd();
      r := ExtractPacket();
      if packets != [] {
        PacketIsFound(stream.data, start, end, packets);
        AfterPacket(stream.data, start, packets, buffer, r.packet.value);
      }
    }

    /** Once a scan has found no marker, nothing moves any more, however often it is tried again. */
    method ExtractAgain(times: nat) returns (results: seq<ExtractedPacket>)
      requires Valid() && stream != null && Stuck(NextPos(), ScanEnd())
      modifies this`buffer, this`currentPacketPos, stream
      ensures Valid() && Stuck(old(NextPos()), old(ScanEnd())) && buffer == old(buffer)
      ensures |results| == times && forall i :: 0 <= i < times ==> results[i] == ExtractedPacket(None, Unavailable, 0)
    {
      results := [];
      ghost var start, end := NextPos(), ScanEnd();
      for i := 0 to times
        invariant Valid() && Stuck(start, end) && NextPos() == start && ScanEnd() == end
        invariant |results| == i && forall k :: 0 <= k < i ==> results[k] == ExtractedPacket(None, Unavailable, 0)
      {
        StuckIsUnavailable(stream.data, start, end, buffer);
        var r := ExtractPacket();
        results := results + [r];
      }
    }

    /** `extractPacket` after the last packet was dropped: read a chunk if the buffer is empty. */
    method FillAndScan(ghost end: nat) returns (r: ExtractedPacket)
      requires Valid() && stream != null
      requires buffer != [] ==> end == stream.pos
      requires buffer == [] ==>
        end == if chunkSize <= |stream.data| - stream.pos then stream.pos + chunkSize else |stream.data|
      modifies this`buffer, this`currentPacketPos, stream
      ensures Valid() && r.status != NoStream
      ensures
        r
        == if old(Synced()) then Extraction(stream.data, old(currentPacketPos), end)
           else ExtractedPacket(None, End, 0)
      ensures r.packet.Some? ==> Synced() && currentPacketPos == r.pos && |r.packet.value| <= |buffer|
      ensures r.status == End ==>
        buffer == [] && currentPacketPos == old(currentPacketPos) && (old(Synced()) ==> Synced())
      ensures r.status == Unavailable ==> Stuck(old(currentPacketPos), end)
      ensures r.status == Incomplete ==>
        end <= |stream.data| && IsFirst(stream.data[..end], old(currentPacketPos), currentPacketPos)
      ensures r.status == Incomplete ==> CutOff(currentPacketPos)
    {
      var filled := Fill(end);
      if !filled {
        return ExtractedPacket(None, End, 0);
      }
      r := Scan();
    }

    /** Read a chunk into an empty buffer. */
    method Fill(ghost end: nat) returns (filled: bool)
      requires Valid() && stream != null
      requires buffer != [] ==> end == stream.pos
      requires buffer == [] ==>
        end == if chunkSize <= |stream.data| - stream.pos then stream.pos + chunkSize else |stream.data|
      modifies this`buffer, stream
      ensures Valid() && (old(Synced()) ==> Synced())
      ensures filled ==> old(Synced()) && buffer != [] && stream.pos == end
      ensures !filled ==> buffer == [] && (old(Synced()) ==> currentPacketPos >= end)
    {
      filled := true;
      if buffer == [] {
        var read := ReadMore(chunkSize - |buffer|);
        filled := read != 0;
      }
    }

    /** The scan of `extractPacket` for a marker, dropping what lies before it. */
    method Scan() returns (r: ExtractedPacket)
      requires Valid() && stream != null && buffer != []
      modifies this`buffer, this`currentPacketPos, stream
      ensures Valid() && r.status != NoStream && r.status != End
      ensures r == Extraction(stream.data, old(currentPacketPos), old(stream.pos))
      ensures r.packet.Some? ==> Synced() && currentPacketPos == r.pos && |r.packet.value| <= |buffer|
      ensures r.status == Unavailable ==> Stuck(old(currentPacketPos), old(stream.pos))
      ensures r.status == Incomplete ==>
        CutOff(currentPacketPos) && IsFirst(stream.data[..old(stream.pos)], old(currentPacketPos), currentPacketPos)
    {
      var i, _ := LookForMarker();
      if i == |buffer| {
        return ExtractedPacket(None, Unavailable, 0);
      }
      r := TakeFrom(i);
    }

    /** What follows once a marker is found. */
    method TakeFrom(i: nat) returns (r: ExtractedPacket)
      requires Valid() && stream != null && i < |buffer|
      modifies this`buffer, this`currentPacketPos, stream
      ensures Valid() && currentPacketPos == old(currentPacketPos) + i
      ensures r == Taken(stream.data, old(currentPacketPos) + i, if i > 0 then Dropped else Success)
      ensures r.packet.Some? ==> Synced() && r.pos == currentPacketPos && |r.packet.value| <= |buffer|
      ensures r.packet.None? ==> r.status == Incomplete && CutOff(currentPacketPos)
      ensures r.packet.Some? ==> r.status == Success || r.status == Dropped
    {
      DropTrash(i);
      r := CompletePacket(if i > 0 then Dropped else Success);
    }

    /** The result of the loop: what comes out of the scan. */
    method LookForMarker() returns (i: nat, ghost found: ExtractedPacket)
      requires Valid() && stream != null && buffer != []
      ensures i <= |buffer| && found == Extraction(stream.data, currentPacketPos, stream.pos)
      ensures i == |buffer| ==> found == ExtractedPacket(None, Unavailable, 0) && Stuck(currentPacketPos, stream.pos)
      ensures i < |buffer| ==>
        && found == Taken(stream.data, currentPacketPos + i, if i > 0 then Dropped else Success)
        && IsFirst(stream.data[..stream.pos], currentPacketPos, currentPacketPos + i)
    {
      i := FindMarker();
      FoundInBuffer(stream.data, currentPacketPos, buffer, i);
      found := Extraction(stream.data, currentPacketPos, stream.pos);
    }

    /** The loop of the scan. */
    method FindMarker() returns (i: nat)
      requires Valid() && stream != null && buffer != []
      ensures i <= |buffer| && NoMarker(buffer, 0, i) && (i < |buffer| ==> StartsMarker(buffer, i))
    {
      i := 0;
      while i < |buffer| && !StartsMarker(buffer, i)
        invariant i <= |buffer| && NoMarker(buffer, 0, i)
      {
        i := i + 1;
      }
    }

    /** Shift down to drop what lies before a marker. */
    method DropTrash(n: nat)
      requires Valid() && stream != null && n < |buffer|
      modifies this`buffer, this`currentPacketPos
      ensures Valid() && Synced() && buffer != [] && currentPacketPos == old(currentPacketPos) + n
    {
      if n > 0 {
        buffer := buffer[n..];
        currentPacketPos := currentPacketPos + n;
      }
    }

    /** Read on until the buffer holds so many bytes, or the stream has no more. */
    method FillTo(target: nat)
      requires Valid() && stream != null && Synced()
      modifies this`buffer, stream
      ensures Valid() && Synced() && |buffer| >= |old(buffer)| && (|buffer| < target ==> stream.eof)
      ensures |buffer| >= target <==> target <= |old(buffer)| || currentPacketPos + target <= |stream.data|
    {
      if |buffer| < target {
        var _ := ReadMore(target - |buffer|);
      }
    }

    /** The rest of `extractPacket`, once a marker starts the buffer: read the header, then what it
        announces. A packet cut short by the end of the stream is thrown away. */
    method CompletePacket(status: Status) returns (r: ExtractedPacket)
      requires Valid() && stream != null && Synced() && buffer != []
      modifies this`buffer, stream
      ensures Valid()
      ensures r == Taken(stream.data, currentPacketPos, status)
      ensures r.packet.Some? ==> Synced() && |r.packet.value| <= |buffer|
      ensures r.packet.None? ==> CutOff(currentPacketPos)
    {
      FillTo(HEADER_SIZE);
      if |buffer| < HEADER_SIZE {
        return ExtractedPacket(None, Incomplete, 0);
      }
      var target := ExpectedSize(buffer);
      SliceSize(stream.data, currentPacketPos, buffer);
      FillTo(target);
      if |buffer| < target {
        if stream.eof {
          buffer := [];
        }
        return ExtractedPacket(None, Incomplete, 0);
      }
      SliceBegins(stream.data, currentPacketPos, buffer, target);
      return ExtractedPacket(Some(buffer[..target]), status, currentPacketPos);
    }
  }

  /** The first call of a new reader looks at one chunk, or at all of a shorter stream. */
  method FirstExtraction(data: bytes, chunkSize: nat) returns (r: ExtractedPacket)
    requires chunkSize > 0
    ensures Classified(data, 0, if chunkSize <= |data| then chunkSize else |data|, r)
  {
    var stream := new InputStream(data);
    var reader := new PacketStreamReader(stream, chunkSize);
    r := reader.ExtractPacket();
  }

  /** A header, and all that it announces, can be read from here. */
  predicate FitsAt(data: bytes, at: nat) {
    at + HEADER_SIZE <= |data| && at + ExpectedSize(data[at..]) <= |data|
  }

  /** The bytes of the stream from `at` on, as many as the header found there announces. */
  function PacketThere(data: bytes, at: nat): (p: bytes)
    requires FitsAt(data, at)
    ensures |p| >= HEADER_SIZE && |p| == ExpectedSize(p)
  {
    data[at..at + ExpectedSize(data[at..])]
  }

  lemma SliceSize(data: bytes, at: nat, buffer: bytes)
    requires |buffer| >= HEADER_SIZE && at + |buffer| <= |data| && buffer == data[at..at + |buffer|]
    ensures ExpectedSize(buffer) == ExpectedSize(data[at..])
  {
  }

  lemma SliceBegins(data: bytes, at: nat, buffer: bytes, size: nat)
    requires size <= |buffer| && at + |buffer| <= |data| && buffer == data[at..at + |buffer|]
    ensures buffer[..size] == data[at..at + size]
  {
  }

  lemma SameMarker(data: bytes, at: nat, buffer: bytes, i: nat)
    requires at + |buffer| <= |data| && buffer == data[at..at + |buffer|] && i < |buffer|
    ensures StartsMarker(buffer, i) == StartsMarker(data[..at + |buffer|], at + i)
  {
    var known := data[..at + |buffer|];
    assert forall j :: 0 <= j < 4 && i + j < |buffer| ==>
      (buffer[i + j] == Marker()[j] <==> known[at + (i + j)] == Marker()[j]);
  }

  lemma {:induction false} FirstIsAt(buffer: bytes, from: nat, at: nat)
    requires from <= at <= |buffer| && NoMarker(buffer, from, at) && (at < |buffer| ==> StartsMarker(buffer, at))
    ensures FirstMarker(buffer, from) == if at < |buffer| then Some(at) else None
    decreases at - from
  {
    if from < at {
      FirstIsAt(buffer, from + 1, at);
    }
  }

  /** The first marker in the buffer is the first in the part of the stream that is buffered. */
  lemma FoundInBuffer(data: bytes, at: nat, buffer: bytes, i: nat)
    requires at + |buffer| <= |data| && buffer == data[at..at + |buffer|] && i <= |buffer| && buffer != []
    requires NoMarker(buffer, 0, i) && (i < |buffer| ==> StartsMarker(buffer, i))
    ensures i < |buffer| ==> IsFirst(data[..at + |buffer|], at, at + i)
    ensures Extraction(data, at, at + |buffer|) ==
      if i < |buffer| then Taken(data, at + i, if i > 0 then Dropped else Success)
      else ExtractedPacket(None, Unavailable, 0)
  {
    var known := data[..at + |buffer|];
    forall k | at <= k < at + i
      ensures !StartsMarker(known, k)
    {
      SameMarker(data, at, buffer, k - at);
    }
    if i < |buffer| {
      SameMarker(data, at, buffer, i);
    }
    FirstIsAt(known, at, at + i);
  }

  lemma StuckIsUnavailable(data: bytes, start: nat, end: nat, buffer: bytes)
    requires start < end <= |data| && buffer == data[start..end] && NoMarker(buffer, 0, |buffer|)
    ensures Extraction(data, start, end) == ExtractedPacket(None, Unavailable, 0)
  {
    FoundInBuffer(data, start, buffer, |buffer|);
  }

  /** A reader gets past garbage to the packet behind it exactly if the garbage ends inside the bytes that are
      buffered for the scan: those of one chunk, or what is left of one. */
  lemma PastGarbage(data: bytes, start: nat, end: nat, at: nat)
    requires start < end <= |data| && start <= at && FitsAt(data, at) && HasMarker(data[at..])
    requires NoMarker(data[..end], start, if at < end then at else end)
    ensures at < end ==> Extraction(data, start, end) == Taken(data, at, if at > start then Dropped else Success)
    ensures at >= end ==> Extraction(data, start, end) == ExtractedPacket(None, Unavailable, 0)
  {
    if at < end {
      assert forall j :: 0 <= j < 4 ==> data[at..][..4][j] == Marker()[j];
      assert StartsMarker(data[..end], at);
      FirstIsAt(data[..end], start, at);
    } else {
      FirstIsAt(data[..end], start, end);
    }
  }

  /** What is handed out starts with the marker, if the scan had four bytes of it to look at. */
  lemma MarkerIsFound(data: bytes, start: nat, end: nat)
    requires end <= |data| && Extraction(data, start, end).packet.Some?
    ensures
      var r := Extraction(data, start, end);
      && start <= r.pos < end && NoMarker(data[..end], start, r.pos)
      && (HasMarker(r.packet.value) <==> StartsMarker(data, r.pos))
      && (r.pos + 4 <= end ==> HasMarker(r.packet.value))
  {
    var r := Extraction(data, start, end);
    var p := r.packet.value;
    assert forall j :: 0 <= j < 4 ==> p[j] == data[r.pos + j];
    if StartsMarker(data, r.pos) {
      assert p[..4] == Marker();
    }
    if HasMarker(p) {
      assert forall j :: 0 <= j < 4 ==> p[..4][j] == Marker()[j];
    }
  }

  /** The last byte of a chunk looks like a marker, though none follows: eighteen bytes come out. */
  lemma CutMarkerExample(chunkSize: nat)
    requires chunkSize > 0
    ensures
      var data := Zeros(chunkSize - 1) + [0x03] + Zeros(17);
      var r := Extraction(data, 0, chunkSize);
      r.packet == Some([0x03] + Zeros(17)) && r.pos == chunkSize - 1 && !HasMarker(r.packet.value)
  {
    var data, at := Zeros(chunkSize - 1) + [0x03] + Zeros(17), chunkSize - 1;
    var known := data[..chunkSize];
    assert known[at] == 0x03;
    forall i | 0 <= i < at
      ensures !StartsMarker(known, i)
    {
      assert known[i + 0] == 0 && Marker()[0] == 0x03;
    }
    FirstIsAt(known, 0, at);
    assert StartsMarker(known, at);
    FalseHeader();
    var p := [0x03] + Zeros(17);
    assert data[at..] == p && p[..18] == p;
    assert FitsAt(data, at) && PacketThere(data, at) == p;
  }

  lemma FalseHeader()
    ensures
      var p := [0x03] + Zeros(17);
      ExpectedSize(p) == |p| == 18 && !HasMarker(p)
  {
    var p := [0x03] + Zeros(17);
    assert p[12] == 0 && p[13] == 0 && p[15] == 0;
    assert p[..4][1] == 0 && Marker()[1] == 0xE5;
  }

  /** The first of the packets ahead is what the stream holds here. */
  lemma PacketIsFound(data: bytes, at: nat, end: nat, packets: seq<bytes>)
    requires at < end <= |data| && packets != [] && AllWellFormed(packets) && data[at..] == Concat(packets)
    ensures Extraction(data, at, end) == ExtractedPacket(Some(packets[0]), Success, at)
  {
    PacketAhead(data, at, packets);
    assert StartsMarker(data[..end], at);
  }

  /** The first of the packets ahead lies right here in the stream. */
  lemma PacketAhead(data: bytes, at: nat, packets: seq<bytes>)
    requires at <= |data| && packets != [] && AllWellFormed(packets) && data[at..] == Concat(packets)
    ensures FitsAt(data, at) && PacketThere(data, at) == packets[0] && StartsMarker(data, at)
    ensures data[at + |packets[0]|..] == Concat(packets[1..])
  {
  }

  lemma AfterPacket(data: bytes, at: nat, packets: seq<bytes>, buffer: bytes, p: bytes)
    requires at <= |data| && packets != [] && AllWellFormed(packets) && data[at..] == Concat(packets)
    requires at + |buffer| <= |data| && buffer == data[at..at + |buffer|]
    requires p == packets[0] && |p| <= |buffer|
    ensures StartsMarker(buffer, 0) && |buffer| >= HEADER_SIZE && ExpectedSize(buffer) == |p|
    ensures AllWellFormed(packets[1..]) && data[at + |p|..] == Concat(packets[1..])
  {
    PacketAhead(data, at, packets);
    SliceSize(data, at, buffer);
  }
}
