/** The create message of a mesh set, written and read back: `3escore/shapes/MeshSet.cpp` with
    `CreateMessage` and `ObjectAttributes` of `3escore/Messages.h`. Real numbers are bit patterns of the
    precision that the set's flag says; numbers of a set in single precision are such from the start, so
    that the rounding on the way is not modelled. */
module MeshSets {
  import opened Bytes
  import opened Crc
  import opened Packets
  import opened PacketWriting
  import opened PacketReading

  const SID_MESH_SET: uint16 := 73
  const OID_CREATE: uint16 := 1

  /** A number and the bytes it takes. */
  datatype Field = Field(value: nat, width: nat) {
    predicate Valid() {
      value < Pow256(width)
    }
  }

  /** Colour, and ten numbers for position, rotation and scale. */
  datatype Attributes = Attributes(colour: nat, reals: seq<nat>)

  datatype Part = Part(resourceId: nat, attributes: Attributes)

  datatype MeshSet = MeshSet(id: nat, category: nat, flags: nat, reserved: nat, attributes: Attributes,
      parts: seq<Part>)

  predicate DoublePrecision(flags: nat) {
    flags % 2 == 1
  }

  // ---------------------------------------------------------------- fields

  function FieldsOf(values: seq<nat>, width: nat): (f: seq<Field>)
    ensures |f| == |values|
  {
    seq(|values|, i requires 0 <= i < |values| => Field(values[i], width))
  }

  function AttributeFields(a: Attributes, doublePrecision: bool): seq<Field> {
    [Field(a.colour, 4)] + FieldsOf(a.reals, if doublePrecision then 8 else 4)
  }

  function IdFields(s: MeshSet): seq<Field> {
    [Field(s.id, 4), Field(s.category, 2), Field(s.flags, 2), Field(s.reserved, 2)]
  }

  function HeadFields(s: MeshSet): seq<Field> {
    IdFields(s) + AttributeFields(s.attributes, DoublePrecision(s.flags))
  }

  function PartFields(p: Part, doublePrecision: bool): seq<Field> {
    [Field(p.resourceId, 4)] + AttributeFields(p.attributes, doublePrecision)
  }

  predicate AllFieldsValid(fields: seq<Field>) {
    forall i :: 0 <= i < |fields| ==> fields[i].Valid()
  }

  predicate WellSizedPart(p: Part, doublePrecision: bool) {
    AllFieldsValid(PartFields(p, doublePrecision)) && |p.attributes.reals| == 10
  }

  predicate WellSizedParts(parts: seq<Part>, doublePrecision: bool) {
    forall i :: 0 <= i < |parts| ==> WellSizedPart(parts[i], doublePrecision)
  }

  /** Every number fits its width, which the types of the program see to. */
  predicate WellSized(s: MeshSet) {
    && AllFieldsValid(HeadFields(s)) && |s.attributes.reals| == 10
    && WellSizedParts(s.parts, DoublePrecision(s.flags))
  }

  /** On the wire every number is big endian. */
  function Wire(fields: seq<Field>): bytes {
    if fields == [] then []
    else Wire(fields[..|fields| - 1]) + Spell(fields[|fields| - 1].value, fields[|fields| - 1].width)
  }

  function WireOfAll(groups: seq<seq<Field>>): bytes {
    if groups == [] then [] else WireOfAll(groups[..|groups| - 1]) + Wire(groups[|groups| - 1])
  }

  function PartGroups(parts: seq<Part>, doublePrecision: bool): (g: seq<seq<Field>>)
    ensures |g| == |parts| && forall i :: 0 <= i < |parts| ==> g[i] == PartFields(parts[i], doublePrecision)
  {
    seq(|parts|, i requires 0 <= i < |parts| => PartFields(parts[i], doublePrecision))
  }

  // ---------------------------------------------------------------- writing

  /** A number as it is in the memory of a little-endian host. */
  function InMemory(f: Field): (s: bytes)
    ensures |s| == f.width
  {
    Reverse(Spell(f.value, f.width))
  }

  /** Writes of several numbers, of which one `ok` says whether all went well. */
  method WriteFields(writer: PacketWriter, fields: seq<Field>) returns (ok: bool)
    requires writer.Valid()
    modifies writer, writer.buffer
    ensures writer.Valid() && writer.ids == old(writer.ids) && writer.Room() <= old(writer.Room())
    ensures ok <==> |Wire(fields)| <= old(writer.Room())
    ensures ok ==>
      writer.payload == old(writer.payload) + Wire(fields) && writer.Room() == old(writer.Room()) - |Wire(fields)|
  {
    ok := true;
    ghost var before, room, done := writer.payload, writer.Room(), [];
    for i := 0 to |fields|
      invariant writer.Valid() && writer.ids == old(writer.ids) && writer.Room() <= room
      invariant done == Wire(fields[..i])
      invariant ok <==> |done| <= room
      invariant ok ==> writer.payload == before + done && writer.Room() == room - |done|
    {
      ghost var next := Spell(fields[i].value, fields[i].width);
      WireOneMore(fields, i);
      Regroup(before, done, next);
      var written := WriteField(writer, fields[i]);
      ok, done := written && ok, done + next;
    }
    assert fields[..|fields|] == fields;
  }

  /** One write of those. */
  method WriteField(writer: PacketWriter, f: Field) returns (ok: bool)
    requires writer.Valid()
    modifies writer, writer.buffer
    ensures writer.Valid() && writer.ids == old(writer.ids)
    ensures ok <==> f.width <= old(writer.Room())
    ensures writer.payload == old(writer.payload) + if ok then Spell(f.value, f.width) else []
    ensures writer.Room() == old(writer.Room()) - if ok then f.width else 0
  {
    var written := writer.WriteElement(InMemory(f));
    assert Reverse(Reverse(Spell(f.value, f.width))) == Spell(f.value, f.width);
    ok := written == f.width;
  }

  lemma WireOneMore(fields: seq<Field>, i: nat)
    requires i < |fields|
    ensures Wire(fields[..i + 1]) == Wire(fields[..i]) + Spell(fields[i].value, fields[i].width)
  {
    assert fields[..i + 1][..i] == fields[..i];
  }

  /** How `writeCreate` ends. In a build with exceptions, which is the default, a number of parts that does
      not fit sixteen bits throws; in one without it is cut off. */
  datatype Outcome = Written | NotWritten | Thrown

  /** The number of parts, as it is written where nothing is thrown. */
  function PartCount(s: MeshSet): uint16 {
    |s.parts| % 0x1_0000
  }

  /** The parts that are written. */
  function PartsWire(s: MeshSet): bytes {
    WireOfAll(PartGroups(s.parts[..PartCount(s)], DoublePrecision(s.flags)))
  }

  function CountAndPartsWire(s: MeshSet): bytes {
    U16(PartCount(s)) + PartsWire(s)
  }

  /** What is written of a set if all of it fits. */
  function CreateWire(s: MeshSet): bytes {
    Wire(HeadFields(s)) + CountAndPartsWire(s)
  }

  /** What `writeCreate` needs to fit: whether the number of parts did is not looked at. */
  function Checked(s: MeshSet): nat {
    if PartCount(s) == 0 then |Wire(HeadFields(s))| else |CreateWire(s)|
  }

  // ---------------------------------------------------------------- where everything stands

  function Precision(doublePrecision: bool): nat {
    if doublePrecision then 8 else 4
  }

  /** A real number, by its bit pattern. */
  function RealAt(p: bytes, offset: nat, doublePrecision: bool): nat
    requires offset + Precision(doublePrecision) <= |p|
  {
    if doublePrecision then U32At(p, offset) as int * 0x1_0000_0000 + U32At(p, offset + 4) else U32At(p, offset)
  }

  /** A colour, and ten numbers behind it, in order. */
  ghost predicate AttributesLie(p: bytes, at: nat, a: Attributes, doublePrecision: bool) {
    var size := Precision(doublePrecision);
    && at + 4 + 10 * size <= |p| && |a.reals| == 10
    && U32At(p, at) == a.colour
    && forall i :: 0 <= i < 10 ==> RealAt(p, at + 4 + i * size, doublePrecision) == a.reals[i]
  }

  ghost predicate PartLies(p: bytes, at: nat, part: Part, doublePrecision: bool) {
    at + 4 <= |p| && U32At(p, at) == part.resourceId && AttributesLie(p, at + 4, part.attributes, doublePrecision)
  }

  function HeadSize(doublePrecision: bool): nat {
    14 + 10 * Precision(doublePrecision)
  }

  function PartSize(doublePrecision: bool): nat {
    8 + 10 * Precision(doublePrecision)
  }

  /** The numbers before the attributes, and those. */
  ghost predicate HeadLies(p: bytes, s: MeshSet) {
    && |p| >= HeadSize(DoublePrecision(s.flags))
    && U32At(p, 0) == s.id && U16At(p, 4) == s.category && U16At(p, 6) == s.flags && U16At(p, 8) == s.reserved
    && AttributesLie(p, 10, s.attributes, DoublePrecision(s.flags))
  }

  ghost predicate AllPartsLie(parts: seq<Part>, doublePrecision: bool, p: bytes, at: nat) {
    forall i :: 0 <= i < |parts| ==> PartLies(p, at + i * PartSize(doublePrecision), parts[i], doublePrecision)
  }

  /** The whole message: behind its head the number of parts, and the parts one after the other. */
  ghost predicate LaidOut(p: bytes, s: MeshSet) {
    var dp := DoublePrecision(s.flags);
    var count := |s.parts| % 0x1_0000;
    && HeadLies(p, s)
    && |p| >= HeadSize(dp) + 2 && U16At(p, HeadSize(dp)) == count
    && AllPartsLie(s.parts[..count], dp, p, HeadSize(dp) + 2)
  }

  lemma U16Value(s: bytes)
    requires |s| == 2
    ensures ValueOf(s) == U16At(s, 0)
  {
    assert s[..1][..0] == [] && ValueOf(s[..1]) == ValueOf([]) * 0x100 + s[0];
  }

  lemma U32Value(s: bytes)
    requires |s| == 4
    ensures ValueOf(s) == U32At(s, 0)
  {
    assert s[..3][..2] == s[..2];
    U16Value(s[..2]);
    assert ValueOf(s[..3]) == ValueOf(s[..2]) * 0x100 + s[2];
  }

  lemma U64Value(s: bytes)
    requires |s| == 8
    ensures ValueOf(s) == RealAt(s, 0, true)
  {
    assert s[..7][..6] == s[..6] && s[..6][..5] == s[..5] && s[..5][..4] == s[..4];
    U32Value(s[..4]);
    assert ValueOf(s[..5]) == ValueOf(s[..4]) * 0x100 + s[4];
    assert ValueOf(s[..6]) == ValueOf(s[..5]) * 0x100 + s[5];
    assert ValueOf(s[..7]) == ValueOf(s[..6]) * 0x100 + s[6];
  }

  /** A number spelled somewhere is the number there. */
  lemma SpelledAt(p: bytes, at: nat, f: Field)
    requires f.Valid() && at + f.width <= |p| && p[at..at + f.width] == Spell(f.value, f.width)
    ensures f.width == 2 ==> U16At(p, at) == f.value
    ensures f.width == 4 ==> U32At(p, at) == f.value
    ensures f.width == 8 ==> RealAt(p, at, true) == f.value
  {
    var s := p[at..at + f.width];
    ValueOfSpell(f.value, f.width);
    assert forall i :: 0 <= i < f.width ==> s[i] == p[at + i];
    if f.width == 2 {
      U16Value(s);
    } else if f.width == 4 {
      U32Value(s);
    } else if f.width == 8 {
      U64Value(s);
    }
  }

  /** Each number stands behind those before it. */
  lemma {:induction false} FieldStands(fields: seq<Field>, i: nat, at: nat)
    requires i < |fields| && at == |Wire(fields[..i])|
    ensures at + fields[i].width <= |Wire(fields)|
    ensures Wire(fields)[at..at + fields[i].width] == Spell(fields[i].value, fields[i].width)
    decreases |fields|
  {
    var front := fields[..|fields| - 1];
    if i < |front| {
      assert front[..i] == fields[..i];
      FieldStands(front, i, at);
      assert Wire(fields)[at..at + fields[i].width] == Wire(front)[at..at + fields[i].width];
    }
  }

  lemma {:induction false} AttributesBefore(a: Attributes, doublePrecision: bool, i: nat)
    requires 1 <= i <= |a.reals| + 1
    ensures |Wire(AttributeFields(a, doublePrecision)[..i])| == 4 + (i - 1) * Precision(doublePrecision)
  {
    var fields := AttributeFields(a, doublePrecision);
    WireOneMore(fields, i - 1);
    if i == 1 {
      assert fields[..0] == [];
    } else {
      AttributesBefore(a, doublePrecision, i - 1);
      assert fields[i - 1] == Field(a.reals[i - 2], Precision(doublePrecision));
    }
  }

  lemma AttributesStand(a: Attributes, doublePrecision: bool)
    requires |a.reals| == 10 && AllFieldsValid(AttributeFields(a, doublePrecision))
    ensures |Wire(AttributeFields(a, doublePrecision))| == 4 + 10 * Precision(doublePrecision)
    ensures AttributesLie(Wire(AttributeFields(a, doublePrecision)), 0, a, doublePrecision)
  {
    var fields, size := AttributeFields(a, doublePrecision), Precision(doublePrecision);
    var p := Wire(fields);
    AttributesBefore(a, doublePrecision, 11);
    assert fields[..11] == fields && fields[..0] == [];
    FieldStands(fields, 0, 0);
    SpelledAt(p, 0, fields[0]);
    forall i | 0 <= i < 10
      ensures 4 + i * size + size <= |p| && RealAt(p, 4 + i * size, doublePrecision) == a.reals[i]
    {
      RealStands(a, doublePrecision, i, 4 + i * size);
    }
  }

  lemma RealStands(a: Attributes, doublePrecision: bool, i: nat, at: nat)
    requires i < |a.reals| == 10 && AllFieldsValid(AttributeFields(a, doublePrecision))
    requires at == 4 + i * Precision(doublePrecision)
    ensures
      var p := Wire(AttributeFields(a, doublePrecision));
      at + Precision(doublePrecision) <= |p| && RealAt(p, at, doublePrecision) == a.reals[i]
  {
    var fields := AttributeFields(a, doublePrecision);
    AttributesBefore(a, doublePrecision, i + 1);
    assert fields[i + 1] == Field(a.reals[i], Precision(doublePrecision)) && fields[i + 1].Valid();
    FieldStands(fields, i + 1, at);
    SpelledAt(Wire(fields), at, fields[i + 1]);
  }

  /** One byte string is part of another. */
  ghost predicate PartOf(part: bytes, p: bytes, at: nat) {
    at + |part| <= |p| && forall i :: 0 <= i < |part| ==> part[i] == p[at + i]
  }

  lemma PartsOfPart(a: bytes, b: bytes, p: bytes, at: nat)
    ensures PartOf(a + b, p, at) <==> PartOf(a, p, at) && PartOf(b, p, at + |a|)
  {
    if PartOf(a + b, p, at) {
      assert forall i :: 0 <= i < |a| ==> (a + b)[i] == a[i];
      assert forall i :: 0 <= i < |b| ==> (a + b)[|a| + i] == b[i] && (a + b)[|a| + i] == p[at + (|a| + i)];
    }
    if PartOf(a, p, at) && PartOf(b, p, at + |a|) {
      forall i | 0 <= i < |a + b|
        ensures (a + b)[i] == p[at + i]
      {
        if i >= |a| {
          assert b[i - |a|] == p[at + |a| + (i - |a|)];
        }
      }
    }
  }

  lemma RealsShift(part: bytes, p: bytes, at: nat, offset: nat, doublePrecision: bool)
    requires PartOf(part, p, at) && offset + Precision(doublePrecision) <= |part|
    ensures RealAt(part, offset, doublePrecision) == RealAt(p, at + offset, doublePrecision)
  {
    assert part[offset] == p[at + offset] && part[offset + 1] == p[at + (offset + 1)];
    assert part[offset + 2] == p[at + (offset + 2)] && part[offset + 3] == p[at + (offset + 3)];
    if doublePrecision {
      assert part[offset + 4] == p[at + (offset + 4)] && part[offset + 5] == p[at + (offset + 5)];
      assert part[offset + 6] == p[at + (offset + 6)] && part[offset + 7] == p[at + (offset + 7)];
    }
  }

  lemma AttributesShift(part: bytes, p: bytes, at: nat, offset: nat, a: Attributes, doublePrecision: bool)
    requires PartOf(part, p, at) && AttributesLie(part, offset, a, doublePrecision)
    ensures AttributesLie(p, at + offset, a, doublePrecision)
  {
    var size := Precision(doublePrecision);
    RealsShift(part, p, at, offset, false);
    forall i | 0 <= i < 10
      ensures RealAt(p, at + offset + 4 + i * size, doublePrecision) == a.reals[i]
    {
      RealsShift(part, p, at, offset + 4 + i * size, doublePrecision);
      assert a.reals[i] == RealAt(part, offset + 4 + i * size, doublePrecision);
      assert at + (offset + 4 + i * size) == at + offset + 4 + i * size;
    }
  }

  lemma PartStands(part: Part, doublePrecision: bool, p: bytes, at: nat)
    requires WellSizedPart(part, doublePrecision) && PartOf(Wire(PartFields(part, doublePrecision)), p, at)
    ensures |Wire(PartFields(part, doublePrecision))| == PartSize(doublePrecision)
    ensures PartLies(p, at, part, doublePrecision)
  {
    var id, others := [Field(part.resourceId, 4)], AttributeFields(part.attributes, doublePrecision);
    var w := Wire(PartFields(part, doublePrecision));
    assert id + others == PartFields(part, doublePrecision);
    ValidParts(id, others);
    WireAppend(id, others);
    assert id[..0] == [] && id[..1] == id;
    WireOneMore(id, 0);
    assert Wire(id) == Spell(part.resourceId, 4) && id[0].Valid();
    PartsOfPart(Wire(id), Wire(others), p, at);
    AttributesStand(part.attributes, doublePrecision);
    BothInPart(part, doublePrecision, Wire(id), Wire(others), p, at);
  }

  lemma BothInPart(part: Part, doublePrecision: bool, id: bytes, attributes: bytes, p: bytes, at: nat)
    requires id == Spell(part.resourceId, 4) && Field(part.resourceId, 4).Valid() && PartOf(id, p, at)
    requires AttributesLie(attributes, 0, part.attributes, doublePrecision) && PartOf(attributes, p, at + 4)
    ensures PartLies(p, at, part, doublePrecision)
  {
    SpelledAt(id, 0, Field(part.resourceId, 4));
    RealsShift(id, p, at, 0, false);
    AttributesShift(attributes, p, at + 4, 0, part.attributes, doublePrecision);
  }

  lemma IdsStand(s: MeshSet)
    requires AllFieldsValid(IdFields(s))
    ensures |Wire(IdFields(s))| == 10
    ensures
      var p := Wire(IdFields(s));
      U32At(p, 0) == s.id && U16At(p, 4) == s.category && U16At(p, 6) == s.flags && U16At(p, 8) == s.reserved
  {
    var ids := IdFields(s);
    var p := Wire(ids);
    assert ids[..0] == [] && ids[..4] == ids;
    WireOneMore(ids, 0);
    WireOneMore(ids, 1);
    WireOneMore(ids, 2);
    WireOneMore(ids, 3);
    FieldStands(ids, 0, 0);
    FieldStands(ids, 1, 4);
    FieldStands(ids, 2, 6);
    FieldStands(ids, 3, 8);
    SpelledAt(p, 0, ids[0]);
    SpelledAt(p, 4, ids[1]);
    SpelledAt(p, 6, ids[2]);
    SpelledAt(p, 8, ids[3]);
  }

  lemma HeadStands(s: MeshSet, rest: bytes)
    requires WellSized(s)
    ensures |Wire(HeadFields(s))| == HeadSize(DoublePrecision(s.flags)) && HeadLies(Wire(HeadFields(s)) + rest, s)
  {
    var dp := DoublePrecision(s.flags);
    var ids, others := IdFields(s), AttributeFields(s.attributes, dp);
    ValidParts(ids, others);
    WireAppend(ids, others);
    IdsStand(s);
    AttributesStand(s.attributes, dp);
    BothLie(s, Wire(ids), Wire(others), rest);
  }

  lemma BothLie(s: MeshSet, ids: bytes, attributes: bytes, rest: bytes)
    requires |ids| == 10 && |attributes| == 4 + 10 * Precision(DoublePrecision(s.flags))
    requires U32At(ids, 0) == s.id && U16At(ids, 4) == s.category && U16At(ids, 6) == s.flags
    requires U16At(ids, 8) == s.reserved && AttributesLie(attributes, 0, s.attributes, DoublePrecision(s.flags))
    ensures HeadLies(ids + attributes + rest, s)
  {
    var p := ids + attributes + rest;
    assert PartOf(attributes, p, 10);
    AttributesShift(attributes, p, 10, 0, s.attributes, DoublePrecision(s.flags));
    assert forall i :: 0 <= i < 10 ==> p[i] == ids[i];
  }

  lemma OneMoreGroup(parts: seq<Part>, doublePrecision: bool)
    requires parts != []
    ensures
      var n := |parts| - 1;
      WireOfAll(PartGroups(parts, doublePrecision))
      == WireOfAll(PartGroups(parts[..n], doublePrecision)) + Wire(PartFields(parts[n], doublePrecision))
  {
    var n := |parts| - 1;
    assert PartGroups(parts, doublePrecision)[..n] == PartGroups(parts[..n], doublePrecision);
  }

  lemma OneMoreLies(parts: seq<Part>, doublePrecision: bool, p: bytes, at: nat, last: nat)
    requires parts != [] && AllPartsLie(parts[..|parts| - 1], doublePrecision, p, at)
    requires last == (|parts| - 1) * PartSize(doublePrecision)
    requires PartLies(p, at + last, parts[|parts| - 1], doublePrecision)
    ensures AllPartsLie(parts, doublePrecision, p, at)
  {
    forall i | 0 <= i < |parts|
      ensures PartLies(p, at + i * PartSize(doublePrecision), parts[i], doublePrecision)
    {
      if i < |parts| - 1 {
        assert parts[..|parts| - 1][i] == parts[i];
      }
    }
  }

  lemma OneMoreSize(n: nat, size: nat, sum: nat)
    requires sum == n * size
    ensures sum + size == (n + 1) * size
  {
  }

  lemma {:induction false} GroupsSize(parts: seq<Part>, doublePrecision: bool)
    requires WellSizedParts(parts, doublePrecision)
    ensures |WireOfAll(PartGroups(parts, doublePrecision))| == |parts| * PartSize(doublePrecision)
  {
    if parts != [] {
      var n := |parts| - 1;
      var next := Wire(PartFields(parts[n], doublePrecision));
      OneMoreGroup(parts, doublePrecision);
      GroupsSize(parts[..n], doublePrecision);
      PartStands(parts[n], doublePrecision, next, 0);
      OneMoreSize(n, PartSize(doublePrecision), |WireOfAll(PartGroups(parts[..n], doublePrecision))|);
    }
  }

  lemma {:induction false} PartsStand(parts: seq<Part>, doublePrecision: bool, p: bytes, at: nat)
    requires WellSizedParts(parts, doublePrecision)
    requires PartOf(WireOfAll(PartGroups(parts, doublePrecision)), p, at)
    ensures AllPartsLie(parts, doublePrecision, p, at)
  {
    if parts != [] {
      var n := |parts| - 1;
      var front := WireOfAll(PartGroups(parts[..n], doublePrecision));
      var next := Wire(PartFields(parts[n], doublePrecision));
      OneMoreGroup(parts, doublePrecision);
      PartsOfPart(front, next, p, at);
      PartsStand(parts[..n], doublePrecision, p, at);
      PartStands(parts[n], doublePrecision, p, at + |front|);
      GroupsSize(parts[..n], doublePrecision);
      OneMoreLies(parts, doublePrecision, p, at, |front|);
    }
  }

  /** What `CreateWire` makes of a set is laid out so, whatever follows. */
  lemma CreateStands(s: MeshSet, rest: bytes)
    requires WellSized(s)
    ensures LaidOut(CreateWire(s) + rest, s)
  {
    var dp := DoublePrecision(s.flags);
    var head, count, parts := Wire(HeadFields(s)), U16(PartCount(s)), PartsWire(s);
    var p := CreateWire(s) + rest;
    FourParts(head, count, parts, rest);
    HeadStands(s, count + parts + rest);
    PartsStand(s.parts[..PartCount(s)], dp, p, |head| + 2);
  }

  /** The payload of a set that is written: all of it and no more, or the head alone of a set that counts as
      having no parts. */
  ghost predicate WrittenAs(p: bytes, s: MeshSet) {
    var dp, count := DoublePrecision(s.flags), |s.parts| % 0x1_0000;
    || (LaidOut(p, s) && |p| == HeadSize(dp) + 2 + count * PartSize(dp))
    || (count == 0 && HeadLies(p, s) && |p| == HeadSize(dp))
  }

  lemma WrittenIsLaidOut(s: MeshSet, room: nat)
    requires WellSized(s) && Checked(s) <= room
    ensures WrittenAs(if |CreateWire(s)| <= room then CreateWire(s) else Wire(HeadFields(s)), s)
  {
    CreateStands(s, []);
    HeadStands(s, []);
    GroupsSize(s.parts[..PartCount(s)], DoublePrecision(s.flags));
    assert CreateWire(s) + [] == CreateWire(s) && Wire(HeadFields(s)) + [] == Wire(HeadFields(s));
  }

  lemma FourParts(head: bytes, count: bytes, parts: bytes, rest: bytes)
    requires |count| == 2
    ensures
      var p := (head + (count + parts)) + rest;
      && p == head + (count + parts + rest) && U16At(p, |head|) == U16At(count, 0) && PartOf(parts, p, |head| + 2)
  {
    var p := (head + (count + parts)) + rest;
    assert p == head + (count + parts + rest);
    assert p[|head|] == count[0] && p[|head| + 1] == count[1];
  }

  lemma WireOfAllOneMore(groups: seq<seq<Field>>, i: nat)
    requires i < |groups|
    ensures WireOfAll(groups[..i + 1]) == WireOfAll(groups[..i]) + Wire(groups[i])
  {
    assert groups[..i + 1][..i] == groups[..i];
  }

  lemma SpellIsU16(n: uint16)
    ensures Spell(n, 2) == U16(n)
  {
  }

  /** The loop over the parts. */
  method WriteGroups(writer: PacketWriter, groups: seq<seq<Field>>) returns (ok: bool)
    requires writer.Valid()
    modifies writer, writer.buffer
    ensures writer.Valid() && writer.ids == old(writer.ids)
    ensures ok <==> |WireOfAll(groups)| <= old(writer.Room())
    ensures ok ==> writer.payload == old(writer.payload) + WireOfAll(groups)
  {
    ok := true;
    ghost var before, room, done := writer.payload, writer.Room(), [];
    for i := 0 to |groups|
      invariant writer.Valid() && writer.ids == old(writer.ids) && writer.Room() <= room
      invariant done == WireOfAll(groups[..i])
      invariant ok <==> |done| <= room
      invariant ok ==> writer.payload == before + done && writer.Room() == room - |done|
    {
      WireOfAllOneMore(groups, i);
      ghost var next := Wire(groups[i]);
      Regroup(before, done, next);
      var written := WriteFields(writer, groups[i]);
      ok, done := written && ok, done + next;
    }
    assert groups[..|groups|] == groups;
  }

  /** What follows the head of the message. */
  method WriteCountAndParts(writer: PacketWriter, s: MeshSet) returns (ok: bool)
    requires writer.Valid()
    modifies writer, writer.buffer
    ensures writer.Valid() && writer.ids == old(writer.ids)
    ensures ok <==> PartCount(s) == 0 || |CountAndPartsWire(s)| <= old(writer.Room())
    ensures ok ==>
      writer.payload
      == old(writer.payload) + if |CountAndPartsWire(s)| <= old(writer.Room()) then CountAndPartsWire(s) else []
  {
    ghost var count, parts, room := U16(PartCount(s)), PartsWire(s), writer.Room();
    if PartCount(s) != 0 {
      FirstPartIsLong(s);
    } else {
      assert parts == [];
    }
    ghost var before := writer.payload;
    WriteCount(writer, PartCount(s));
    ok := WriteGroups(writer, PartGroups(s.parts[..PartCount(s)], DoublePrecision(s.flags)));
    Regroup(before, if 2 <= room then count else [], parts);
    assert |CountAndPartsWire(s)| == 2 + |parts|;
  }

  /** Write the number of parts, if it fits. */
  method WriteCount(writer: PacketWriter, count: uint16)
    requires writer.Valid()
    modifies writer, writer.buffer
    ensures writer.Valid() && writer.ids == old(writer.ids)
    ensures writer.payload == old(writer.payload) + if 2 <= old(writer.Room()) then U16(count) else []
    ensures writer.Room() == old(writer.Room()) - if 2 <= old(writer.Room()) then 2 else 0
  {
    SpellIsU16(count);
    assert Reverse(Reverse(U16(count))) == U16(count);
    var _ := writer.WriteElement(InMemory(Field(count, 2)));
  }

  /** `MeshSet::writeCreate` */
  method WriteCreate(writer: PacketWriter, s: MeshSet, exceptions: bool) returns (outcome: Outcome)
    requires writer.Valid()
    modifies writer, writer.buffer
    ensures writer.Valid() && writer.ids == Ids(old(writer.ids).version, SID_MESH_SET, OID_CREATE)
    ensures outcome == OutcomeOf(s, writer.bufferSize - HEADER_SIZE, exceptions)
    ensures outcome.Written? ==>
      writer.payload
      == if |CreateWire(s)| <= writer.bufferSize - HEADER_SIZE then CreateWire(s) else Wire(HeadFields(s))
    ensures outcome.Written? && WellSized(s) ==> WrittenAs(writer.payload, s)
  {
    if WellSized(s) && Checked(s) <= writer.bufferSize - HEADER_SIZE {
      WrittenIsLaidOut(s, writer.bufferSize - HEADER_SIZE);
    }
    writer.Reset(SID_MESH_SET, OID_CREATE);
    ghost var head, room := Wire(HeadFields(s)), writer.Room();
    var ok := WriteFields(writer, HeadFields(s));
    if !ok {
      return NotWritten;
    }
    assert writer.payload == head && writer.Room() == room - |head|;
    if exceptions && |s.parts| > 0xFFFF {
      return Thrown;
    }
    ok := WriteCountAndParts(writer, s);
    outcome := if ok then Written else NotWritten;
  }

  function OutcomeOf(s: MeshSet, room: int, exceptions: bool): Outcome {
    if |Wire(HeadFields(s))| <= room && exceptions && |s.parts| >= 0x1_0000 then Thrown
    else if Checked(s) <= room then Written
    else NotWritten
  }

  lemma {:induction false} WireStartsWith(fields: seq<Field>)
    requires fields != []
    ensures |Wire(fields)| >= fields[0].width
  {
    if |fields| > 1 {
      WireStartsWith(fields[..|fields| - 1]);
    }
  }

  lemma {:induction false} WireHasAll(groups: seq<seq<Field>>, i: nat)
    requires i < |groups|
    ensures |WireOfAll(groups)| >= |Wire(groups[i])|
  {
    if i < |groups| - 1 {
      WireHasAll(groups[..|groups| - 1], i);
    }
  }

  /** No part fits where the number of parts did not. */
  lemma FirstPartIsLong(s: MeshSet)
    requires PartCount(s) != 0
    ensures |PartsWire(s)| >= 4
  {
  }

  // ---------------------------------------------------------------- reading

  /** The byte string starts with these bytes, and those follow them. */
  ghost predicate Leads(start: bytes, all: bytes, rest: bytes) {
    all == start + rest
  }

  lemma LeadsOn(a: bytes, b: bytes, all: bytes, middle: bytes, rest: bytes)
    requires Leads(a, all, middle) && Leads(b, middle, rest)
    ensures Leads(a + b, all, rest)
  {
    assert a + (b + rest) == (a + b) + rest;
  }

  /** What a byte string starts with is one thing if its length is known. */
  lemma LeadsAlike(a: bytes, b: bytes, all: bytes, rest: bytes)
    requires Leads(a, all, rest) && b <= all && |a| == |b|
    ensures a == b
  {
  }

  /** If one starts with the parts of the other, so does the rest with the second part. */
  lemma SecondPart(a: bytes, b: bytes, all: bytes, middle: bytes)
    requires Leads(a, all, middle)
    ensures a + b <= all <==> b <= middle
  {
    if a + b <= all {
      assert all == (a + b) + all[|a + b|..];
      assert forall i :: 0 <= i < |b| ==> middle[i] == all[|a| + i] && b[i] == (a + b)[|a| + i];
    }
    if b <= middle {
      assert all == a + (b + middle[|b|..]) == (a + b) + middle[|b|..];
    }
  }

  /** Read one number. */
  method ReadField(reader: PacketReader, width: nat) returns (ok: bool, value: nat)
    requires reader.Valid()
    modifies reader`payloadPosition
    ensures reader.Valid()
    ensures ok <==> width <= |old(reader.Rest())|
    ensures ok ==> Field(value, width).Valid() && Leads(Spell(value, width), old(reader.Rest()), reader.Rest())
  {
    ghost var rest := reader.Rest();
    var element := reader.ReadElement(width);
    ok, value := |element| == width, ValueOf(Reverse(element));
    if ok {
      AskedBytes(rest[..width]);
    }
  }

  /** Bytes turned round twice spell the number that they are read as. */
  lemma AskedBytes(s: bytes)
    ensures
      var value := ValueOf(Reverse(Reverse(s)));
      Field(value, |s|).Valid() && Spell(value, |s|) == s
  {
    assert Reverse(Reverse(s)) == s;
    SpellValueOf(s);
  }

  function Total(widths: seq<nat>): nat {
    if widths == [] then 0 else Total(widths[..|widths| - 1]) + widths[|widths| - 1]
  }

  ghost predicate OfWidths(fields: seq<Field>, widths: seq<nat>) {
    && |fields| == |widths|
    && AllFieldsValid(fields)
    && forall i :: 0 <= i < |widths| ==> fields[i].width == widths[i]
  }

  lemma {:induction false} WireLength(fields: seq<Field>, widths: seq<nat>)
    requires OfWidths(fields, widths)
    ensures |Wire(fields)| == Total(widths)
  {
    if fields != [] {
      WireLength(fields[..|fields| - 1], widths[..|widths| - 1]);
    }
  }

  lemma SameEnds(a: bytes, b: bytes, c: bytes, d: bytes)
    requires a + b == c + d && |b| == |d|
    ensures a == c && b == d
  {
    assert a == (a + b)[..|a|] && b == (a + b)[|a|..] && c == (c + d)[..|a|] && d == (c + d)[|a|..];
  }

  /** Numbers of known widths can be told from their bytes. */
  lemma {:induction false} WireTells(f: seq<Field>, g: seq<Field>, widths: seq<nat>)
    requires OfWidths(f, widths) && OfWidths(g, widths) && Wire(f) == Wire(g)
    ensures f == g
  {
    if f != [] {
      var n := |f| - 1;
      SameEnds(Wire(f[..n]), Spell(f[n].value, f[n].width), Wire(g[..n]), Spell(g[n].value, g[n].width));
      ValueOfSpell(f[n].value, f[n].width);
      ValueOfSpell(g[n].value, g[n].width);
      WireTells(f[..n], g[..n], widths[..n]);
      assert f == f[..n] + [f[n]] && g == g[..n] + [g[n]];
    }
  }

  /** Read numbers of these widths; one `ok` says whether all went well. */
  method ReadFields(reader: PacketReader, widths: seq<nat>) returns (ok: bool, values: seq<nat>, ghost got: seq<Field>)
    requires reader.Valid()
    modifies reader`payloadPosition
    ensures reader.Valid() && |values| == |got| == |widths|
    ensures forall i :: 0 <= i < |widths| ==> got[i] == Field(values[i], widths[i])
    ensures ok <==> Total(widths) <= |old(reader.Rest())|
    ensures ok ==> OfWidths(got, widths) && Leads(Wire(got), old(reader.Rest()), reader.Rest())
  {
    ok, values, got := true, [], [];
    ghost var rest, done := reader.Rest(), 0;
    for i := 0 to |widths|
      invariant reader.Valid() && |values| == |got| == i && done == Total(widths[..i])
      invariant forall k :: 0 <= k < i ==> got[k] == Field(values[k], widths[k])
      invariant ok ==> AllFieldsValid(got) && Leads(Wire(got), rest, reader.Rest()) && |reader.Rest()| == |rest| - done
      invariant !ok ==> done > |rest|
    {
      ghost var before := reader.Rest();
      var read, value := ReadField(reader, widths[i]);
      assert widths[..i + 1][..i] == widths[..i];
      if read && ok {
        WireGrows(got, Field(value, widths[i]));
        LeadsOn(Wire(got), Spell(value, widths[i]), rest, before, reader.Rest());
      }
      ok, done := read && ok, done + widths[i];
      values, got := values + [value], got + [Field(value, widths[i])];
    }
    assert widths[..|widths|] == widths;
  }

  lemma WireGrows(fields: seq<Field>, f: Field)
    ensures Wire(fields + [f]) == Wire(fields) + Spell(f.value, f.width)
  {
    assert (fields + [f])[..|fields|] == fields;
  }

  /** Numbers at the start of a byte string are the ones that are read there. */
  lemma ReadAsWritten(fields: seq<Field>, got: seq<Field>, widths: seq<nat>, all: bytes, rest: bytes)
    requires OfWidths(fields, widths) && OfWidths(got, widths) && Leads(Wire(got), all, rest) && Wire(fields) <= all
    ensures fields == got
  {
    WireLength(fields, widths);
    WireLength(got, widths);
    LeadsAlike(Wire(got), Wire(fields), all, rest);
    WireTells(fields, got, widths);
  }

  lemma {:induction false} WireAppend(a: seq<Field>, b: seq<Field>)
    ensures Wire(a + b) == Wire(a) + Wire(b)
    decreases |b|
  {
    if b == [] {
      assert a + b == a;
    } else {
      var front, last := b[..|b| - 1], b[|b| - 1];
      assert (a + b)[..|a + b| - 1] == a + front && (a + b)[|a + b| - 1] == last;
      WireAppend(a, front);
      var w := Spell(last.value, last.width);
      assert Wire(a + b) == Wire(a + front) + w && Wire(b) == Wire(front) + w;
      assert (Wire(a) + Wire(front)) + w == Wire(a) + (Wire(front) + w);
    }
  }

  /** The widths of attributes, by the precision that the flags say. */
  function AttributeWidths(doublePrecision: bool): (w: seq<nat>)
    ensures |w| == 11 && w[0] == 4 && forall i :: 1 <= i < 11 ==> w[i] == if doublePrecision then 8 else 4
  {
    [4] + seq(10, _ => if doublePrecision then 8 else 4)
  }

  ghost predicate ValidAttributes(a: Attributes, doublePrecision: bool) {
    |a.reals| == 10 && AllFieldsValid(AttributeFields(a, doublePrecision))
  }

  /** `ObjectAttributes::read`: what is read is what the bytes say, and attributes that lead are read. */
  method ReadAttributes(reader: PacketReader, doublePrecision: bool, ghost a: Attributes)
    returns (ok: bool, read: Attributes)
    requires reader.Valid() && ValidAttributes(a, doublePrecision)
    modifies reader`payloadPosition
    ensures reader.Valid()
    ensures ok ==>
      && ValidAttributes(read, doublePrecision)
      && Leads(Wire(AttributeFields(read, doublePrecision)), old(reader.Rest()), reader.Rest())
    ensures Wire(AttributeFields(a, doublePrecision)) <= old(reader.Rest()) ==> ok && read == a
  {
    ghost var rest, widths, fields :=
      reader.Rest(), AttributeWidths(doublePrecision), AttributeFields(a, doublePrecision);
    var values;
    ghost var got;
    ok, values, got := ReadFields(reader, AttributeWidths(doublePrecision));
    read := Attributes(values[0], values[1..]);
    assert got == AttributeFields(read, doublePrecision);
    WireLength(fields, widths);
    if Wire(fields) <= rest {
      ReadAsWritten(fields, got, widths, rest, reader.Rest());
      SameAttributes(a, read, doublePrecision);
    }
  }

  lemma SameAttributes(a: Attributes, b: Attributes, doublePrecision: bool)
    requires |a.reals| == |b.reals| && AttributeFields(a, doublePrecision) == AttributeFields(b, doublePrecision)
    ensures a == b
  {
    assert AttributeFields(a, doublePrecision)[0] == AttributeFields(b, doublePrecision)[0];
    forall i | 0 <= i < |a.reals| ensures a.reals[i] == b.reals[i] {
      assert AttributeFields(a, doublePrecision)[i + 1] == AttributeFields(b, doublePrecision)[i + 1];
    }
  }

  /** Read the numbers before the attributes. */
  method ReadIds(reader: PacketReader, widths: seq<nat>, ghost ids: seq<Field>)
    returns (ok: bool, values: seq<nat>, ghost got: seq<Field>)
    requires reader.Valid() && OfWidths(ids, widths)
    modifies reader`payloadPosition
    ensures reader.Valid() && |values| == |got| == |widths|
    ensures forall i :: 0 <= i < |widths| ==> got[i] == Field(values[i], widths[i])
    ensures ok ==> AllFieldsValid(got) && Leads(Wire(got), old(reader.Rest()), reader.Rest())
    ensures Wire(ids) <= old(reader.Rest()) ==> ok && got == ids
  {
    ghost var rest := reader.Rest();
    ok, values, got := ReadFields(reader, widths);
    WireLength(ids, widths);
    if Wire(ids) <= rest {
      ReadAsWritten(ids, got, widths, rest, reader.Rest());
    }
  }

  method ReadPart(reader: PacketReader, doublePrecision: bool, ghost p: Part) returns (ok: bool, part: Part)
    requires reader.Valid() && WellSizedPart(p, doublePrecision)
    modifies reader`payloadPosition
    ensures reader.Valid()
    ensures ok ==>
      && WellSizedPart(part, doublePrecision)
      && Leads(Wire(PartFields(part, doublePrecision)), old(reader.Rest()), reader.Rest())
    ensures Wire(PartFields(p, doublePrecision)) <= old(reader.Rest()) ==> ok && part == p
  {
    ghost var rest, id, others :=
      reader.Rest(), [Field(p.resourceId, 4)], AttributeFields(p.attributes, doublePrecision);
    ValidParts(id, others);
    var readId, values, got := ReadIds(reader, [4], id);
    ghost var middle := reader.Rest();
    var readAttributes, attributes := ReadAttributes(reader, doublePrecision, p.attributes);
    ok, part := readId && readAttributes, Part(values[0], attributes);
    WireAppend(id, others);
    if id + others == PartFields(p, doublePrecision) && Wire(id + others) <= rest {
      SecondPart(Wire(id), Wire(others), rest, middle);
    }
    if ok {
      TwoParts(got, AttributeFields(attributes, doublePrecision), rest, middle, reader.Rest());
      assert got == [Field(part.resourceId, 4)];
    }
  }

  /** Numbers of two parts are valid if those of each are, and the other way round. */
  lemma ValidParts(a: seq<Field>, b: seq<Field>)
    ensures AllFieldsValid(a + b) <==> AllFieldsValid(a) && AllFieldsValid(b)
  {
    if AllFieldsValid(a + b) {
      assert forall i :: 0 <= i < |a| ==> a[i] == (a + b)[i];
      assert forall i :: 0 <= i < |b| ==> b[i] == (a + b)[|a| + i];
    }
  }

  lemma TwoParts(a: seq<Field>, b: seq<Field>, all: bytes, middle: bytes, rest: bytes)
    requires AllFieldsValid(a) && AllFieldsValid(b) && Leads(Wire(a), all, middle) && Leads(Wire(b), middle, rest)
    ensures AllFieldsValid(a + b) && Leads(Wire(a + b), all, rest)
  {
    WireAppend(a, b);
    LeadsOn(Wire(a), Wire(b), all, middle, rest);
  }

  lemma {:induction false} PowerIsPositive(k: nat)
    ensures Pow256(k) > 0
  {
    if k != 0 {
      PowerIsPositive(k - 1);
    }
  }

  ghost function NoAttributes(): (a: Attributes)
    ensures ValidAttributes(a, true) && ValidAttributes(a, false)
  {
    PowerIsPositive(4);
    PowerIsPositive(8);
    Attributes(0, seq(10, _ => 0))
  }

  /** The head of the message; parts are not read yet. */
  method ReadHead(reader: PacketReader, ghost s: MeshSet) returns (ok: bool, head: MeshSet)
    requires reader.Valid() && WellSized(s)
    modifies reader`payloadPosition
    ensures reader.Valid() && head.parts == []
    ensures ok ==> WellSized(head) && Leads(Wire(HeadFields(head)), old(reader.Rest()), reader.Rest())
    ensures Wire(HeadFields(s)) <= old(reader.Rest()) ==> ok && head == s.(parts := [])
  {
    ghost var rest, ids := reader.Rest(), IdFields(s);
    ghost var others := AttributeFields(s.attributes, DoublePrecision(s.flags));
    ValidParts(ids, others);
    var readIds, values, got := ReadIds(reader, [4, 2, 2, 2], ids);
    ghost var middle := reader.Rest();
    ghost var fits := Wire(ids + others) <= rest;
    WireAppend(ids, others);
    if fits {
      assert values[2] == ids[2].value;
      SecondPart(Wire(ids), Wire(others), rest, middle);
    }
    var readAttributes, attributes;
    ghost var expected :=
      if DoublePrecision(values[2]) == DoublePrecision(s.flags) then s.attributes else NoAttributes();
    readAttributes, attributes := ReadAttributes(reader, DoublePrecision(values[2]), expected);
    ok, head := readIds && readAttributes, MeshSet(values[0], values[1], values[2], values[3], attributes, []);
    if ok {
      assert got == IdFields(head);
      TwoParts(got, AttributeFields(attributes, DoublePrecision(head.flags)), rest, middle, reader.Rest());
    }
  }

  lemma WireOfAllPrefix(groups: seq<seq<Field>>, i: nat)
    requires i < |groups|
    ensures WireOfAll(groups[..i]) + Wire(groups[i]) <= WireOfAll(groups)
    decreases |groups| - i
  {
    WireOfAllOneMore(groups, i);
    if i + 1 < |groups| {
      WireOfAllPrefix(groups, i + 1);
    } else {
      assert groups[..i + 1] == groups;
    }
  }

  /** The next part is where the last one ended. */
  lemma NextPart(groups: seq<seq<Field>>, i: nat, all: bytes, middle: bytes)
    requires i < |groups| && WireOfAll(groups) <= all && Leads(WireOfAll(groups[..i]), all, middle)
    ensures Wire(groups[i]) <= middle
  {
    WireOfAllPrefix(groups, i);
    SecondPart(WireOfAll(groups[..i]), Wire(groups[i]), all, middle);
  }

  /** The byte string starts with these parts, all of them valid. */
  ghost predicate PartsLead(parts: seq<Part>, doublePrecision: bool, all: bytes, rest: bytes) {
    && WellSizedParts(parts, doublePrecision)
    && Leads(WireOfAll(PartGroups(parts, doublePrecision)), all, rest)
  }

  lemma OneMorePart(parts: seq<Part>, part: Part, doublePrecision: bool, all: bytes, middle: bytes, rest: bytes)
    requires PartsLead(parts, doublePrecision, all, middle) && WellSizedPart(part, doublePrecision)
    requires Leads(Wire(PartFields(part, doublePrecision)), middle, rest)
    ensures PartsLead(parts + [part], doublePrecision, all, rest)
  {
    assert PartGroups(parts + [part], doublePrecision)[..|parts|] == PartGroups(parts, doublePrecision);
    LeadsOn(
      WireOfAll(PartGroups(parts, doublePrecision)), Wire(PartFields(part, doublePrecision)), all, middle, rest);
  }

  /** The loop over the parts. */
  method ReadParts(reader: PacketReader, count: nat, doublePrecision: bool, ghost parts: seq<Part>)
    returns (ok: bool, read: seq<Part>)
    requires reader.Valid() && |parts| == count && WellSizedParts(parts, doublePrecision)
    modifies reader`payloadPosition
    ensures reader.Valid() && |read| == count
    ensures ok ==> PartsLead(read, doublePrecision, old(reader.Rest()), reader.Rest())
    ensures WireOfAll(PartGroups(parts, doublePrecision)) <= old(reader.Rest()) ==> ok && read == parts
  {
    ok, read := true, [];
    ghost var rest, groups := reader.Rest(), PartGroups(parts, doublePrecision);
    ghost var fits := WireOfAll(groups) <= rest;
    for i := 0 to count
      invariant reader.Valid() && |read| == i
      invariant ok ==> PartsLead(read, doublePrecision, rest, reader.Rest())
      invariant fits ==> ok && read == parts[..i]
    {
      ghost var middle := reader.Rest();
      if fits {
        assert PartGroups(parts[..i], doublePrecision) == groups[..i];
        NextPart(groups, i, rest, middle);
      }
      PrefixGrows(parts, i);
      var readPart, part := ReadPart(reader, doublePrecision, parts[i]);
      if ok && readPart {
        OneMorePart(read, part, doublePrecision, rest, middle, reader.Rest());
      }
      ok, read := ok && readPart, read + [part];
    }
    assert parts[..count] == parts;
  }

  /** The parts that are looked for: those of a set, if their number and precision are the ones read. */
  ghost function PartsLookedFor(s: MeshSet, count: nat, doublePrecision: bool): (parts: seq<Part>)
    requires WellSized(s)
    ensures |parts| == count && WellSizedParts(parts, doublePrecision)
    ensures count == PartCount(s) && doublePrecision == DoublePrecision(s.flags) ==> parts == s.parts[..count]
  {
    if count == PartCount(s) && doublePrecision == DoublePrecision(s.flags) then s.parts[..count]
    else seq(count, _ => Part(0, NoAttributes()))
  }

  /** `MeshSet::readCreate`, on any payload: it is content exactly if the payload starts with what
      `writeCreate` makes of some set, which then is the set read. */
  method ReadCreate(reader: PacketReader, ghost s: MeshSet) returns (ok: bool, read: MeshSet)
    requires reader.Valid() && WellSized(s)
    modifies reader`payloadPosition
    ensures ok ==> WellSized(read) && |read.parts| <= 0xFFFF && CreateWire(read) <= old(reader.Rest())
    ensures ok ==> LaidOut(old(reader.Rest()), read)
    ensures CreateWire(s) <= old(reader.Rest()) ==> ok && read == s.(parts := s.parts[..PartCount(s)])
    ensures old(reader.Rest()) == Wire(HeadFields(s)) ==> !ok
  {
    ghost var rest, head := reader.Rest(), Wire(HeadFields(s));
    var readHead, readCount, count, parts;
    readHead, read := ReadHead(reader, s);
    ghost var afterHead := reader.Rest();
    readCount, count := ReadField(reader, 2);
    ghost var afterCount := reader.Rest();
    ghost var fits := CreateWire(s) <= rest;
    if head <= rest {
      SecondPart(head, CountAndPartsWire(s), rest, afterHead);
    }
    CountFits(s);
    assert rest == head ==> |afterHead| == 0;
    ok := readHead && readCount;
    if !ok {
      return;
    }
    CountIsRead(s, count, afterHead, afterCount);
    ok, parts :=
      ReadParts(reader, count, DoublePrecision(read.flags), PartsLookedFor(s, count, DoublePrecision(read.flags)));
    if ok {
      PutTogether(read, count, parts, rest, afterHead, afterCount, reader.Rest());
    }
    read := read.(parts := parts);
    if ok {
      CreateStands(read, reader.Rest());
    }
  }

  /** The number of parts is read where it was written, and the parts follow. */
  lemma CountIsRead(s: MeshSet, count: nat, all: bytes, rest: bytes)
    requires Field(count, 2).Valid() && Leads(Spell(count, 2), all, rest)
    ensures CountAndPartsWire(s) <= all ==> count == PartCount(s) && PartsWire(s) <= rest
    ensures count <= 0xFFFF
  {
    var c := PartCount(s);
    CountFits(s);
    SpellIsU16(c);
    ValueOfSpell(count, 2);
    ValueOfSpell(c, 2);
    if CountAndPartsWire(s) <= all {
      LeadsAlike(Spell(count, 2), U16(c), all, rest);
      SecondPart(U16(c), PartsWire(s), all, rest);
    }
  }

  lemma PutTogether(head: MeshSet, count: nat, parts: seq<Part>, all: bytes, afterHead: bytes, afterCount: bytes,
      rest: bytes)
    requires WellSized(head) && |parts| == count <= 0xFFFF
    requires Leads(Wire(HeadFields(head)), all, afterHead) && Leads(Spell(count, 2), afterHead, afterCount)
    requires PartsLead(parts, DoublePrecision(head.flags), afterCount, rest)
    ensures
      var read := head.(parts := parts);
      WellSized(read) && Leads(CreateWire(read), all, rest)
  {
    var read := head.(parts := parts);
    assert HeadFields(read) == HeadFields(head) && read.parts[..count] == parts;
    SpellIsU16(count);
    LeadsOn(U16(count), PartsWire(read), afterHead, afterCount, rest);
    LeadsOn(Wire(HeadFields(read)), CountAndPartsWire(read), all, afterHead, rest);
  }

  lemma CountFits(s: MeshSet)
    ensures Field(PartCount(s), 2).Valid()
    ensures U16(PartCount(s)) <= CountAndPartsWire(s) && CountAndPartsWire(s)[2..] == PartsWire(s)
    ensures |CreateWire(s)| > |Wire(HeadFields(s))|
  {
  }

  method ComposeCreate(buffer: array<byte>, s: MeshSet, exceptions: bool) returns (outcome: Outcome, packet: bytes)
    requires HEADER_SIZE <= buffer.Length <= MAX_SIZE
    modifies buffer
    ensures outcome == OutcomeOf(s, buffer.Length - HEADER_SIZE, exceptions)
    ensures outcome.Written? ==>
      WellFormed(packet)
      && PayloadOf(packet)
         == if |CreateWire(s)| <= buffer.Length - HEADER_SIZE then CreateWire(s) else Wire(HeadFields(s))
  {
    var calculator := new CrcCalc(Preset(), Generator());
    var writer := new PacketWriter(buffer, buffer.Length, SID_MESH_SET, OID_CREATE);
    outcome := WriteCreate(writer, s, exceptions);
    packet := [];
    if outcome.Written? {
      packet := Finish(writer, calculator);
    }
  }

  /** Cutting off parts that cannot be counted loses some. */
  lemma KeepsParts(s: MeshSet)
    ensures s.(parts := s.parts[..PartCount(s)]) == s <==> |s.parts| < 0x1_0000
  {
  }

  /** Write a set and read it back. In a build with exceptions too many parts throw. When `writeCreate`
      is content, `readCreate` restores the set exactly if its parts can be counted in sixteen bits, and
      there is one, or at least room for their number. */
  method CreateRoundTrip(bufferSize: nat, s: MeshSet, exceptions: bool)
    returns (outcome: Outcome, ok: bool, read: MeshSet)
    requires HEADER_SIZE <= bufferSize <= MAX_SIZE && WellSized(s)
    ensures outcome.Thrown? <==>
      exceptions && |s.parts| >= 0x1_0000 && |Wire(HeadFields(s))| <= bufferSize - HEADER_SIZE
    ensures outcome.Written? <==> !outcome.Thrown? && Checked(s) <= bufferSize - HEADER_SIZE
    ensures outcome.Written? ==>
      (ok && read == s <==> |s.parts| < 0x1_0000 && (s.parts != [] || |CreateWire(s)| <= bufferSize - HEADER_SIZE))
  {
    var buffer := new byte[bufferSize](_ => 0);
    var packet;
    outcome, packet := ComposeCreate(buffer, s, exceptions);
    ok, read := false, s;
    if outcome.Written? {
      var reader := new PacketReader(packet);
      CountFits(s);
      KeepsParts(s);
      ok, read := ReadCreate(reader, s);
    }
  }

  /** A set without parts, in a packet with room for the head of the message and one byte: it is said to be
      written, in any build, and is not restored. */
  method EmptySetExample(s: MeshSet, exceptions: bool) returns (outcome: Outcome, ok: bool, read: MeshSet)
    requires WellSized(s) && s.parts == [] && HEADER_SIZE + |Wire(HeadFields(s))| + 1 <= MAX_SIZE
    ensures outcome.Written? && !(ok && read == s)
  {
    CountFits(s);
    assert |CountAndPartsWire(s)| >= 2;
    outcome, ok, read := CreateRoundTrip(HEADER_SIZE + |Wire(HeadFields(s))| + 1, s, exceptions);
  }
}
