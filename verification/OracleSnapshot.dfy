/** The oracle snapshot: a schema-checked byte image of the owners' fields that is loaded whole or not at all. */
module OracleSnapshots {
  import opened GuestTypes
  import opened BlobCodecs

  // ---- the schema ------------------------------------------------------------------------------------

  const MAX_BYTES := 0x30_0000
  const MAX_FIELDS := 64
  const MAX_NAME := 95

  datatype Field = Field(name: seq<Byte>, bytes: nat, width: nat)

  /** So many bytes are whole lanes of an admissible width. */
  predicate InLanes(bytes: nat, width: nat) {
    || width == 1
    || (width == 2 && bytes % 2 == 0)
    || (width == 4 && bytes % 4 == 0)
    || (width == 8 && bytes % 8 == 0)
  }

  /** A field is whole lanes of one, two, four or eight bytes. */
  lemma WholeLanesIff(bytes: nat, width: nat)
    ensures InLanes(bytes, width) <==> width in {1, 2, 4, 8} && bytes % width == 0
  {
  }

  predicate WellFormed(f: Field) {
    0 < f.bytes <= MAX_BYTES && InLanes(f.bytes, f.width) && |f.name| <= MAX_NAME
  }

  predicate Acceptable(entries: seq<Field>, field: Field) {
    && WellFormed(field)
    && |entries| != MAX_FIELDS
    && forall i :: 0 <= i < |entries| ==> entries[i].name != field.name
  }

  /** The fields collected so far; one refused field makes the collection invalid for good. */
  datatype Fields = Fields(entries: seq<Field>, valid: bool)

  function Add(fields: Fields, field: Field): Fields {
    if Acceptable(fields.entries, field) then fields.(entries := fields.entries + [field]) else fields.(valid := false)
  }

  function AddAll(offered: seq<Field>): Fields {
    if |offered| == 0 then Fields([], true) else Add(AddAll(offered[..|offered| - 1]), offered[|offered| - 1])
  }

  ghost predicate Schema(fields: seq<Field>) {
    && |fields| <= MAX_FIELDS
    && (forall i :: 0 <= i < |fields| ==> WellFormed(fields[i]))
    && (forall i, j :: 0 <= i < j < |fields| ==> fields[i].name != fields[j].name)
  }

  lemma {:induction false} SchemaGrowsIff(entries: seq<Field>, field: Field)
    requires Schema(entries)
    ensures Schema(entries + [field]) <==> Acceptable(entries, field)
  {
    var all := entries + [field];
    assert all[|entries|] == field && forall i :: 0 <= i < |entries| ==> all[i] == entries[i];
    if Schema(all) {
      forall i | 0 <= i < |entries| ensures entries[i].name != field.name {
        assert all[i].name != all[|entries|].name;
      }
    }
  }

  lemma {:induction false} SchemaShrinks(entries: seq<Field>, field: Field)
    requires Schema(entries + [field])
    ensures Schema(entries)
  {
    var all := entries + [field];
    assert forall i :: 0 <= i < |entries| ==> all[i] == entries[i];
  }

  /** Whatever owners offer, the collected entries form a schema; the collection is valid exactly when the offered
      fields themselves form one, and then they are the entries, in order. */
  lemma {:induction false} CollectedFieldsAreASchema(offered: seq<Field>)
    ensures Schema(AddAll(offered).entries)
    ensures AddAll(offered).valid <==> Schema(offered)
    ensures AddAll(offered).valid ==> AddAll(offered).entries == offered
  {
    if |offered| > 0 {
      var init, last := offered[..|offered| - 1], offered[|offered| - 1];
      assert offered == init + [last];
      CollectedFieldsAreASchema(init);
      SchemaGrowsIff(AddAll(init).entries, last);
      if Schema(offered) {
        SchemaShrinks(init, last);
      }
    }
  }

  /** The collection as the owners fill it. */
  class FieldCollector {
    var entries: seq<Field>
    var valid: bool

    ghost function State(): Fields
      reads this
    {
      Fields(entries, valid)
    }

    constructor ()
      ensures State() == AddAll([])
    {
      entries, valid := [], true;
    }

    method Offer(field: Field)
      modifies this
      ensures State() == Add(old(State()), field)
      ensures old(Schema(entries)) ==> Schema(entries)
    {
      ghost var before := entries;
      var taken := 0 < field.bytes <= MAX_BYTES && InLanes(field.bytes, field.width) &&
                   |entries| != MAX_FIELDS && |field.name| <= MAX_NAME;
      var i := 0;
      while taken && i < |entries|
        invariant 0 <= i <= |entries|
        invariant taken ==> WellFormed(field) && |entries| != MAX_FIELDS
        invariant taken ==> forall k :: 0 <= k < i ==> entries[k].name != field.name
        invariant !taken ==> !Acceptable(entries, field)
      {
        taken := entries[i].name != field.name;
        i := i + 1;
      }
      if taken {
        entries := entries + [field];
      } else {
        valid := false;
      }
      if Schema(before) {
        SchemaGrowsIff(before, field);
      }
    }
  }

  // ---- lanes -----------------------------------------------------------------------------------------

  /** The place of byte i once its lane is mirrored. */
  function Mirror(i: nat, width: nat): nat {
    if width == 2 then i + 1 - 2 * (i % 2)
    else if width == 4 then i + 3 - 2 * (i % 4)
    else if width == 8 then i + 7 - 2 * (i % 8)
    else i
  }

  lemma MirrorWithin(q: nat, lane: nat, width: nat)
    requires (width == 1 || width == 2 || width == 4 || width == 8) && lane < width
    ensures Mirror(width * q + lane, width) == width * q + width - lane - 1
  {
    if width == 2 {
      assert (2 * q + lane) % 2 == lane;
    } else if width == 4 {
      assert (4 * q + lane) % 4 == lane;
    } else if width == 8 {
      assert (8 * q + lane) % 8 == lane;
    }
  }

  /** A count of whole lanes, as a number of lanes. */
  lemma Lanes(n: nat, width: nat) returns (q: nat)
    requires InLanes(n, width)
    ensures n == width * q
  {
    q := if width == 1 then n else if width == 2 then n / 2 else if width == 4 then n / 4 else n / 8;
  }

  lemma LaneOf(i: nat, width: nat) returns (q: nat, lane: nat)
    requires width == 1 || width == 2 || width == 4 || width == 8
    ensures i == width * q + lane && lane < width
  {
    if width == 1 {
      q, lane := i, 0;
    } else if width == 2 {
      q, lane := i / 2, i % 2;
    } else if width == 4 {
      q, lane := i / 4, i % 4;
    } else {
      q, lane := i / 8, i % 8;
    }
  }

  lemma MirrorStaysInside(i: nat, n: nat, width: nat)
    requires InLanes(n, width) && i < n
    ensures Mirror(i, width) < n && Mirror(Mirror(i, width), width) == i
  {
    var count := Lanes(n, width);
    var q, lane := LaneOf(i, width);
    MirrorWithin(q, lane, width);
    MirrorWithin(q, width - 1 - lane, width);
    LaneBelow(q, lane, count, width);
  }

  lemma LaneBelow(q: nat, lane: nat, count: nat, width: nat)
    requires (width == 1 || width == 2 || width == 4 || width == 8) && width * q + lane < width * count
    ensures width * q + width <= width * count
  {
    if width == 1 {
    } else if width == 2 {
    } else if width == 4 {
    } else {
    }
  }

  /** A field's storage in little-endian lanes: itself on a little-endian host, each lane mirrored on a big one. */
  function Transfer(bigEndian: bool, bytes: seq<Byte>, width: nat): (r: seq<Byte>)
    requires InLanes(|bytes|, width)
    ensures |r| == |bytes|
  {
    if !bigEndian then bytes
    else
      seq(|bytes|, i requires 0 <= i < |bytes| => MirrorStaysInside(i, |bytes|, width); bytes[Mirror(i, width)])
  }

  /** Taking a field out of its storage and putting it back changes nothing, on either kind of host. */
  lemma {:induction false} TransferUndoesItself(bigEndian: bool, bytes: seq<Byte>, width: nat)
    requires InLanes(|bytes|, width)
    ensures Transfer(bigEndian, Transfer(bigEndian, bytes, width), width) == bytes
  {
    var twice := Transfer(bigEndian, Transfer(bigEndian, bytes, width), width);
    forall i | 0 <= i < |bytes| ensures twice[i] == bytes[i] {
      MirrorStaysInside(i, |bytes|, width);
    }
  }

  /** Byte by byte: on a big-endian host each lane is mirrored in place, and nothing crosses a lane. */
  lemma TransferMirrorsEachLane(bytes: seq<Byte>, width: nat, base: nat, lane: nat)
    requires InLanes(|bytes|, width) && InLanes(base, width) && base < |bytes| && lane < width
    ensures base + width <= |bytes| && Transfer(true, bytes, width)[base + lane] == bytes[base + width - lane - 1]
  {
    LaneFits(base, |bytes|, width, lane);
  }

  lemma LaneFits(base: nat, n: nat, width: nat, lane: nat)
    requires InLanes(n, width) && InLanes(base, width) && base < n && lane < width
    ensures base + width <= n && Mirror(base + lane, width) == base + width - lane - 1
  {
    var count := Lanes(n, width);
    var q := Lanes(base, width);
    MirrorWithin(q, lane, width);
    LaneBelow(q, 0, count, width);
  }

  lemma NextLane(base: nat, width: nat)
    requires InLanes(base, width)
    ensures InLanes(base + width, width)
  {
  }

  /** The copy loop, lane by lane. */
  method TransferInto(bigEndian: bool, destination: array<Byte>, source: seq<Byte>, width: nat)
    requires InLanes(|source|, width) && destination.Length == |source|
    modifies destination
    ensures destination[..] == Transfer(bigEndian, source, width)
  {
    ghost var target := Transfer(bigEndian, source, width);
    if !bigEndian {
      var i := 0;
      while i < |source|
        invariant 0 <= i <= |source| && destination[..i] == source[..i]
      {
        destination[i] := source[i];
        i := i + 1;
      }
      assert source[..|source|] == source;
      return;
    }
    var start := 0;
    while start < |source|
      invariant 0 <= start <= |source| && InLanes(start, width)
      invariant forall k :: 0 <= k < start ==> destination[k] == target[k]
    {
      LaneFits(start, |source|, width, 0);
      NextLane(start, width);
      var lane := 0;
      while lane < width
        invariant 0 <= lane <= width && start + width <= |source|
        invariant forall k :: 0 <= k < start + lane ==> destination[k] == target[k]
      {
        TransferMirrorsEachLane(source, width, start, lane);
        destination[start + lane] := source[start + width - lane - 1];
        lane := lane + 1;
      }
      start := start + width;
    }
  }

  // ---- the image -------------------------------------------------------------------------------------

  const MAGIC: seq<Byte> := [0x4F, 0x52, 0x41, 0x53, 0x4E, 0x41, 0x50, 0x31]
  const VERSION := 1
  const HEADER_BYTES := 24

  /** What the image's layout leaves open: its checksum, and the values it admits in a field of a given name. Every
      theorem about images holds for any choice of the two; the program's own are `Oracle`. */
  datatype Format = Format(checksum: seq<Byte> -> Word, admits: (seq<Byte>, nat) -> bool)

  /** A four-byte word. */
  function Word32(v: nat): (bytes: seq<Byte>)
    ensures |bytes| == 4
  {
    Encode(v, 4)
  }

  function Read32(bytes: seq<Byte>, at: nat): nat
    requires at + 4 <= |bytes|
  {
    Value(bytes[at..at + 4])
  }

  function FieldHeader(f: Field): (bytes: seq<Byte>)
    ensures |bytes| == 12 + |f.name|
  {
    Word32(|f.name|) + (Word32(f.bytes) + (Word32(f.width) + f.name))
  }

  /** The lanes of each field, in schema order. */
  ghost predicate Fit(fields: seq<Field>, lanes: seq<seq<Byte>>) {
    |lanes| == |fields| && forall i :: 0 <= i < |fields| ==> |lanes[i]| == fields[i].bytes
  }

  function Body(fields: seq<Field>, lanes: seq<seq<Byte>>): seq<Byte>
    requires |lanes| == |fields|
  {
    if |fields| == 0 then []
    else
      var last := |fields| - 1;
      Body(fields[..last], lanes[..last]) + (FieldHeader(fields[last]) + lanes[last])
  }

  function Header(format: Format, count: nat, body: seq<Byte>): (bytes: seq<Byte>)
    ensures |bytes| == HEADER_BYTES
  {
    MAGIC + (Word32(VERSION) + (Word32(count) + (Word32(HEADER_BYTES + |body|) + Word32(format.checksum(body)))))
  }

  function Image(format: Format, fields: seq<Field>, lanes: seq<seq<Byte>>): seq<Byte>
    requires |lanes| == |fields|
  {
    Header(format, |fields|, Body(fields, lanes)) + Body(fields, lanes)
  }

  // ---- reading it back -------------------------------------------------------------------------------

  /** The value a field's state check looks at: its first word, or its first byte when it is shorter. */
  function StateValue(bytes: seq<Byte>): nat
    requires |bytes| > 0
  {
    if |bytes| >= 4 then Read32(bytes, 0) else bytes[0]
  }

  predicate HeaderAccepted(format: Format, data: seq<Byte>, count: nat) {
    && HEADER_BYTES <= |data| <= MAX_BYTES
    && data[..8] == MAGIC && Read32(data, 8) == VERSION && Read32(data, 12) == count
    && Read32(data, 16) == |data| && Read32(data, 20) == format.checksum(data[HEADER_BYTES..])
  }

  /** The twelve bytes and the name before a field's lanes, for a field that fits in what is left. */
  predicate FieldHeaderAccepted(data: seq<Byte>, cursor: nat, field: Field)
    requires cursor <= |data|
  {
    && |data| - cursor >= 12
    && Read32(data, cursor) == |field.name| && Read32(data, cursor + 4) == field.bytes
    && Read32(data, cursor + 8) == field.width
    && |field.name| <= |data| - (cursor + 12) && field.bytes <= |data| - (cursor + 12) - |field.name|
    && data[cursor + 12..cursor + 12 + |field.name|] == field.name
  }

  /** One field at `cursor`: where its bytes start, or None on a short, mismatched or invalid field. */
  function CheckField(format: Format, data: seq<Byte>, cursor: nat, field: Field): (start: Option<nat>)
    requires cursor <= |data| && field.bytes > 0
    ensures start.Some? ==> start.value + field.bytes <= |data| && start.value == cursor + 12 + |field.name|
  {
    if !FieldHeaderAccepted(data, cursor, field) then None
    else
      var start := cursor + 12 + |field.name|;
      if format.admits(field.name, StateValue(data[start..start + field.bytes])) then Some(start) else None
  }

  ghost predicate Sized(fields: seq<Field>) {
    forall i :: 0 <= i < |fields| ==> fields[i].bytes > 0
  }

  ghost predicate InBounds(size: nat, fields: seq<Field>, offsets: seq<nat>) {
    |offsets| == |fields| && forall i :: 0 <= i < |fields| ==> offsets[i] + fields[i].bytes <= size
  }

  datatype Scan = Scan(offsets: seq<nat>, cursor: nat)

  /** The offsets of the fields' bytes and the cursor past them. No read is past the end, whatever the bytes. */
  function CheckFields(format: Format, data: seq<Byte>, fields: seq<Field>): (r: Option<Scan>)
    requires |data| >= HEADER_BYTES && Sized(fields)
    ensures r.Some? ==> HEADER_BYTES <= r.value.cursor <= |data| && InBounds(|data|, fields, r.value.offsets)
  {
    if |fields| == 0 then Some(Scan([], HEADER_BYTES))
    else
      var last := |fields| - 1;
      match CheckFields(format, data, fields[..last])
      case None => None
      case Some(scan) =>
        match CheckField(format, data, scan.cursor, fields[last])
        case None => None
        case Some(start) => Some(Scan(scan.offsets + [start], start + fields[last].bytes))
  }

  /** The offset of each field's bytes, or None when the image is not of this schema. */
  function Decode(format: Format, data: seq<Byte>, fields: seq<Field>): (r: Option<seq<nat>>)
    requires Sized(fields)
    ensures r.Some? ==> InBounds(|data|, fields, r.value)
  {
    if !HeaderAccepted(format, data, |fields|) then None
    else
      match CheckFields(format, data, fields)
      case None => None
      case Some(scan) => if scan.cursor == |data| then Some(scan.offsets) else None
  }

  // ---- parts of the data at their places -------------------------------------------------------------

  ghost predicate At(data: seq<Byte>, at: nat, part: seq<Byte>) {
    at + |part| <= |data| && data[at..at + |part|] == part
  }

  /** The offsets name exactly the lanes' bytes. */
  ghost predicate Names(data: seq<Byte>, fields: seq<Field>, offsets: seq<nat>, lanes: seq<seq<Byte>>) {
    && Fit(fields, lanes) && |offsets| == |fields|
    && forall i :: 0 <= i < |fields| ==> At(data, offsets[i], lanes[i])
  }

  lemma {:induction false} AtParts(data: seq<Byte>, at: nat, a: seq<Byte>, b: seq<Byte>)
    ensures At(data, at, a + b) <==> At(data, at, a) && At(data, at + |a|, b)
  {
    if at + |a| + |b| <= |data| {
      assert data[at..at + |a + b|] == data[at..at + |a|] + data[at + |a|..at + |a| + |b|];
      assert At(data, at, a + b) ==> (a + b)[..|a|] == a && (a + b)[|a|..] == b;
    }
  }

  lemma {:induction false} Read32Iff(data: seq<Byte>, at: nat, v: nat)
    requires v < 0x1_0000_0000 && at + 4 <= |data|
    ensures Read32(data, at) == v <==> At(data, at, Word32(v))
  {
    Powers();
    ValueOfEncode(v, 4);
    EncodeOfValue(data[at..at + 4]);
  }

  lemma {:induction false} FieldHeaderIff(data: seq<Byte>, cursor: nat, f: Field)
    requires WellFormed(f) && cursor <= |data|
    ensures FieldHeaderAccepted(data, cursor, f) <==>
            At(data, cursor, FieldHeader(f)) && cursor + 12 + |f.name| + f.bytes <= |data|
  {
    AtParts(data, cursor, Word32(|f.name|), Word32(f.bytes) + (Word32(f.width) + f.name));
    AtParts(data, cursor + 4, Word32(f.bytes), Word32(f.width) + f.name);
    AtParts(data, cursor + 8, Word32(f.width), f.name);
    if |data| - cursor >= 12 {
      Read32Iff(data, cursor, |f.name|);
      Read32Iff(data, cursor + 4, f.bytes);
      Read32Iff(data, cursor + 8, f.width);
    }
  }

  lemma {:induction false} HeaderIff(format: Format, data: seq<Byte>, count: nat, body: seq<Byte>)
    requires count <= MAX_FIELDS && HEADER_BYTES + |body| == |data| < 0x1_0000_0000 && At(data, HEADER_BYTES, body)
    ensures HeaderAccepted(format, data, count) <==> |data| <= MAX_BYTES && At(data, 0, Header(format, count, body))
  {
    var sum := format.checksum(body);
    assert data[HEADER_BYTES..] == body;
    FiveParts(data, MAGIC, Word32(VERSION), Word32(count), Word32(HEADER_BYTES + |body|), Word32(sum));
    Read32Iff(data, 8, VERSION);
    Read32Iff(data, 12, count);
    Read32Iff(data, 16, HEADER_BYTES + |body|);
    Read32Iff(data, 20, sum);
  }

  lemma {:induction false} FiveParts(
      data: seq<Byte>, a: seq<Byte>, b: seq<Byte>, c: seq<Byte>, d: seq<Byte>, e: seq<Byte>)
    requires |a| == 8 && |b| == |c| == |d| == |e| == 4 && |data| >= HEADER_BYTES
    ensures At(data, 0, a + (b + (c + (d + e)))) <==>
            data[..8] == a && At(data, 8, b) && At(data, 12, c) && At(data, 16, d) && At(data, 20, e)
  {
    AtParts(data, 0, a, b + (c + (d + e)));
    AtParts(data, 8, b, c + (d + e));
    AtParts(data, 12, c, d + e);
    AtParts(data, 16, d, e);
    assert data[0..8] == data[..8];
  }

  lemma {:induction false} NamedLanesAreUnique(
      data: seq<Byte>, fields: seq<Field>, offsets: seq<nat>, a: seq<seq<Byte>>, b: seq<seq<Byte>>)
    requires Names(data, fields, offsets, a) && Names(data, fields, offsets, b)
    ensures a == b
  {
    forall i | 0 <= i < |fields| ensures a[i] == b[i] {
      assert At(data, offsets[i], a[i]) && At(data, offsets[i], b[i]);
    }
  }

  // ---- an accepted image is the image of what it holds -----------------------------------------------

  lemma {:induction false} NamesInit(data: seq<Byte>, fields: seq<Field>, offsets: seq<nat>, lanes: seq<seq<Byte>>)
    requires |fields| > 0 && |offsets| == |fields| && |lanes| == |fields|
    ensures var n := |fields| - 1;
            Names(data, fields, offsets, lanes) <==>
            && Names(data, fields[..n], offsets[..n], lanes[..n])
            && |lanes[n]| == fields[n].bytes && At(data, offsets[n], lanes[n])
  {
    var n := |fields| - 1;
    var f, o, l := fields[..n], offsets[..n], lanes[..n];
    assert forall i :: 0 <= i < n ==> f[i] == fields[i] && o[i] == offsets[i] && l[i] == lanes[i];
    if Names(data, f, o, l) && |lanes[n]| == fields[n].bytes && At(data, offsets[n], lanes[n]) {
      forall i | 0 <= i < |fields| ensures |lanes[i]| == fields[i].bytes && At(data, offsets[i], lanes[i]) {
        if i < n {
          assert |l[i]| == f[i].bytes && At(data, o[i], l[i]);
        }
      }
    }
  }

  ghost predicate AllWellFormed(fields: seq<Field>) {
    forall i :: 0 <= i < |fields| ==> WellFormed(fields[i])
  }

  lemma {:induction false} CheckedFieldIsItsPart(
      format: Format, data: seq<Byte>, cursor: nat, f: Field, lane: seq<Byte>)
    requires WellFormed(f) && cursor <= |data| && CheckField(format, data, cursor, f).Some?
    requires |lane| == f.bytes && At(data, CheckField(format, data, cursor, f).value, lane)
    ensures At(data, cursor, FieldHeader(f) + lane)
  {
    FieldHeaderIff(data, cursor, f);
    AtParts(data, cursor, FieldHeader(f), lane);
  }

  /** The scan stands past the body of the lanes its offsets name. */
  ghost predicate PastBody(data: seq<Byte>, fields: seq<Field>, lanes: seq<seq<Byte>>, cursor: nat)
    requires |lanes| == |fields|
  {
    At(data, HEADER_BYTES, Body(fields, lanes)) && cursor == HEADER_BYTES + |Body(fields, lanes)|
  }

  lemma {:induction false} PastOneMore(
      data: seq<Byte>, fields: seq<Field>, lanes: seq<seq<Byte>>, cursor: nat, part: seq<Byte>)
    requires |lanes| == |fields| > 0
    requires var n := |fields| - 1;
             && PastBody(data, fields[..n], lanes[..n], cursor)
             && part == FieldHeader(fields[n]) + lanes[n] && At(data, cursor, part)
    ensures PastBody(data, fields, lanes, cursor + |part|)
  {
    var n := |fields| - 1;
    AtParts(data, HEADER_BYTES, Body(fields[..n], lanes[..n]), part);
  }

  lemma {:induction false} CheckedFieldsAreTheBody(
      format: Format, data: seq<Byte>, fields: seq<Field>, lanes: seq<seq<Byte>>)
    requires |data| >= HEADER_BYTES && Sized(fields) && AllWellFormed(fields)
    requires CheckFields(format, data, fields).Some?
    requires Names(data, fields, CheckFields(format, data, fields).value.offsets, lanes)
    ensures PastBody(data, fields, lanes, CheckFields(format, data, fields).value.cursor)
  {
    if |fields| > 0 {
      var n := |fields| - 1;
      var scan, all := CheckFields(format, data, fields[..n]).value, CheckFields(format, data, fields).value;
      assert all.offsets[..n] == scan.offsets;
      NamesInit(data, fields, all.offsets, lanes);
      CheckedFieldsAreTheBody(format, data, fields[..n], lanes[..n]);
      CheckedFieldIsItsPart(format, data, scan.cursor, fields[n], lanes[n]);
      PastOneMore(data, fields, lanes, scan.cursor, FieldHeader(fields[n]) + lanes[n]);
    }
  }

  /** An accepted image is, byte for byte, the image of the lanes its offsets name. */
  lemma {:induction false} ImageOfDecoded(
      format: Format, data: seq<Byte>, fields: seq<Field>, offsets: seq<nat>, lanes: seq<seq<Byte>>)
    requires Schema(fields) && Decode(format, data, fields) == Some(offsets) && Names(data, fields, offsets, lanes)
    ensures Image(format, fields, lanes) == data
  {
    CheckedFieldsAreTheBody(format, data, fields, lanes);
    var body := Body(fields, lanes);
    HeaderIff(format, data, |fields|, body);
    AtParts(data, 0, Header(format, |fields|, body), body);
    assert data[0..|data|] == data;
  }

  // ---- an image of valid lanes is accepted -----------------------------------------------------------

  ghost predicate StateValid(format: Format, fields: seq<Field>, lanes: seq<seq<Byte>>) {
    && |lanes| == |fields|
    && forall i :: 0 <= i < |fields| ==> |lanes[i]| > 0 && format.admits(fields[i].name, StateValue(lanes[i]))
  }

  lemma {:induction false} StateValidInit(format: Format, fields: seq<Field>, lanes: seq<seq<Byte>>)
    requires |fields| > 0 && |lanes| == |fields|
    ensures var n := |fields| - 1;
            StateValid(format, fields, lanes) <==>
            && StateValid(format, fields[..n], lanes[..n])
            && |lanes[n]| > 0 && format.admits(fields[n].name, StateValue(lanes[n]))
  {
    var n := |fields| - 1;
    var f, l := fields[..n], lanes[..n];
    assert forall i :: 0 <= i < n ==> f[i] == fields[i] && l[i] == lanes[i];
    if StateValid(format, f, l) && |lanes[n]| > 0 && format.admits(fields[n].name, StateValue(lanes[n])) {
      forall i | 0 <= i < |fields| ensures |lanes[i]| > 0 && format.admits(fields[i].name, StateValue(lanes[i])) {
        if i < n {
          assert |l[i]| > 0 && format.admits(f[i].name, StateValue(l[i]));
        }
      }
    }
  }

  lemma {:induction false} CheckFieldOfImage(format: Format, data: seq<Byte>, cursor: nat, f: Field, lane: seq<Byte>)
    requires WellFormed(f) && f.bytes == |lane| && At(data, cursor, FieldHeader(f) + lane)
    ensures At(data, cursor + 12 + |f.name|, lane)
    ensures CheckField(format, data, cursor, f) ==
            if format.admits(f.name, StateValue(lane)) then Some(cursor + 12 + |f.name|) else None
  {
    AtParts(data, cursor, FieldHeader(f), lane);
    FieldHeaderIff(data, cursor, f);
  }

  /** The checker's answer on an image: where it stands after an admissible one, at offsets naming the lanes. */
  ghost predicate ScansImage(format: Format, data: seq<Byte>, fields: seq<Field>, lanes: seq<seq<Byte>>)
    requires |data| >= HEADER_BYTES && Sized(fields) && |lanes| == |fields|
  {
    var r := CheckFields(format, data, fields);
    && (r.Some? <==> StateValid(format, fields, lanes))
    && (r.Some? ==>
          && r.value.cursor == HEADER_BYTES + |Body(fields, lanes)|
          && Names(data, fields, r.value.offsets, lanes))
  }

  lemma {:induction false} BodyEndsInPart(data: seq<Byte>, fields: seq<Field>, lanes: seq<seq<Byte>>)
    returns (part: seq<Byte>)
    requires |lanes| == |fields| > 0 && At(data, HEADER_BYTES, Body(fields, lanes))
    ensures var n := |fields| - 1;
            && part == FieldHeader(fields[n]) + lanes[n]
            && At(data, HEADER_BYTES, Body(fields[..n], lanes[..n]))
            && At(data, HEADER_BYTES + |Body(fields[..n], lanes[..n])|, part)
  {
    var n := |fields| - 1;
    part := FieldHeader(fields[n]) + lanes[n];
    AtParts(data, HEADER_BYTES, Body(fields[..n], lanes[..n]), part);
  }

  lemma {:induction false} ScansOneMore(
      format: Format, data: seq<Byte>, fields: seq<Field>, lanes: seq<seq<Byte>>, part: seq<Byte>)
    requires |data| >= HEADER_BYTES && Sized(fields) && |lanes| == |fields| > 0
    requires var n := |fields| - 1;
             && WellFormed(fields[n]) && |lanes[n]| == fields[n].bytes && part == FieldHeader(fields[n]) + lanes[n]
             && ScansImage(format, data, fields[..n], lanes[..n])
             && At(data, HEADER_BYTES + |Body(fields[..n], lanes[..n])|, part)
    ensures ScansImage(format, data, fields, lanes)
  {
    var n := |fields| - 1;
    StateValidInit(format, fields, lanes);
    var before := CheckFields(format, data, fields[..n]);
    if before.Some? {
      CheckFieldOfImage(format, data, before.value.cursor, fields[n], lanes[n]);
      var r := CheckFields(format, data, fields);
      if r.Some? {
        assert r.value.offsets[..n] == before.value.offsets;
        NamesInit(data, fields, r.value.offsets, lanes);
      }
    }
  }

  /** Checking an image's fields accepts exactly when every state value is valid, at offsets naming each field's own
      bytes. */
  lemma {:induction false} CheckFieldsOfImage(
      format: Format, data: seq<Byte>, fields: seq<Field>, lanes: seq<seq<Byte>>)
    requires |data| >= HEADER_BYTES && Sized(fields) && AllWellFormed(fields) && Fit(fields, lanes)
    requires At(data, HEADER_BYTES, Body(fields, lanes))
    ensures ScansImage(format, data, fields, lanes)
  {
    if |fields| > 0 {
      var n := |fields| - 1;
      var part := BodyEndsInPart(data, fields, lanes);
      CheckFieldsOfImage(format, data, fields[..n], lanes[..n]);
      ScansOneMore(format, data, fields, lanes, part);
    }
  }

  lemma {:induction false} BodyFits32Bits(fields: seq<Field>, lanes: seq<seq<Byte>>)
    requires AllWellFormed(fields) && Fit(fields, lanes)
    ensures |Body(fields, lanes)| <= |fields| * (12 + MAX_NAME + MAX_BYTES)
  {
    if |fields| > 0 {
      BodyFits32Bits(fields[..|fields| - 1], lanes[..|fields| - 1]);
      assert WellFormed(fields[|fields| - 1]);
    }
  }

  /** For every accepted schema the image of any lanes decodes exactly when it is within the size limit and its state
      values are valid, and then the offsets name exactly each field's own bytes. */
  lemma {:induction false} DecodeOfImageIff(format: Format, fields: seq<Field>, lanes: seq<seq<Byte>>)
    requires Schema(fields) && Fit(fields, lanes)
    ensures var image := Image(format, fields, lanes);
            var decoded := Decode(format, image, fields);
            && (decoded.Some? <==> |image| <= MAX_BYTES && StateValid(format, fields, lanes))
            && (decoded.Some? ==> Names(image, fields, decoded.value, lanes))
  {
    var body, image := Body(fields, lanes), Image(format, fields, lanes);
    var header := Header(format, |fields|, body);
    BodyFits32Bits(fields, lanes);
    assert image[0..|image|] == image;
    AtParts(image, 0, header, body);
    HeaderIff(format, image, |fields|, body);
    CheckFieldsOfImage(format, image, fields, lanes);
  }

  lemma {:induction false} RefusedPrefixRefuses(format: Format, data: seq<Byte>, fields: seq<Field>, n: nat)
    requires n <= |fields| && |data| >= HEADER_BYTES && Sized(fields)
    requires CheckFields(format, data, fields[..n]).None?
    ensures CheckFields(format, data, fields).None?
    decreases |fields| - n
  {
    if n < |fields| {
      assert fields[..n + 1][..n] == fields[..n];
      RefusedPrefixRefuses(format, data, fields, n + 1);
    } else {
      assert fields[..n] == fields;
    }
  }

  lemma {:induction false} OneMoreField(
      format: Format, data: seq<Byte>, fields: seq<Field>, n: nat, scan: Scan, start: Option<nat>)
    requires n < |fields| && |data| >= HEADER_BYTES && Sized(fields)
    requires CheckFields(format, data, fields[..n]) == Some(scan)
    requires start == CheckField(format, data, scan.cursor, fields[n])
    ensures start.None? ==> CheckFields(format, data, fields).None?
    ensures start.Some? ==>
              CheckFields(format, data, fields[..n + 1]) ==
              Some(Scan(scan.offsets + [start.value], start.value + fields[n].bytes))
  {
    assert fields[..n + 1][..n] == fields[..n] && fields[..n + 1][n] == fields[n];
    if start.None? {
      RefusedPrefixRefuses(format, data, fields, n + 1);
    }
  }

  /** The check loop: one cursor over the image, field by field, stopping at the first field refused. */
  method ScanFields(format: Format, data: seq<Byte>, fields: seq<Field>) returns (r: Option<Scan>)
    requires |data| >= HEADER_BYTES && Sized(fields)
    ensures r == CheckFields(format, data, fields)
  {
    var scan := Scan([], HEADER_BYTES);
    var i := 0;
    while i < |fields|
      invariant 0 <= i <= |fields| && scan.cursor <= |data|
      invariant CheckFields(format, data, fields[..i]) == Some(scan)
    {
      var start := CheckField(format, data, scan.cursor, fields[i]);
      OneMoreField(format, data, fields, i, scan, start);
      if start.None? {
        return None;
      }
      scan := Scan(scan.offsets + [start.value], start.value + fields[i].bytes);
      i := i + 1;
    }
    assert fields[..|fields|] == fields;
    return Some(scan);
  }

  // ---- the owners' storage ---------------------------------------------------------------------------

  /** Every field's storage in little-endian lanes. */
  function LanesOf(bigEndian: bool, fields: seq<Field>, storage: seq<seq<Byte>>): (lanes: seq<seq<Byte>>)
    requires AllWellFormed(fields) && Fit(fields, storage)
    ensures Fit(fields, lanes)
    ensures forall i :: 0 <= i < |fields| ==>
              WellFormed(fields[i]) && lanes[i] == Transfer(bigEndian, storage[i], fields[i].width)
  {
    if |fields| == 0 then []
    else
      var n := |fields| - 1;
      assert WellFormed(fields[n]);
      LanesOf(bigEndian, fields[..n], storage[..n]) + [Transfer(bigEndian, storage[n], fields[n].width)]
  }

  class OracleState {
    const bigEndian: bool
    const format: Format
    const fields: seq<Field>
    // Each field's bytes as its owner stores them.
    var storage: seq<seq<Byte>>

    ghost predicate Valid()
      reads this
    {
      Schema(fields) && Fit(fields, storage)
    }

    constructor (bigEndian: bool, format: Format, fields: seq<Field>, storage: seq<seq<Byte>>)
      requires Schema(fields) && Fit(fields, storage)
      ensures Valid() && this.bigEndian == bigEndian && this.format == format
      ensures this.fields == fields && this.storage == storage
    {
      this.bigEndian, this.format, this.fields, this.storage := bigEndian, format, fields, storage;
    }

    /** The image of the storage's lanes. */
    method Save() returns (image: seq<Byte>)
      requires Valid()
      ensures image == Image(format, fields, LanesOf(bigEndian, fields, storage))
    {
      ghost var lanes := LanesOf(bigEndian, fields, storage);
      var body: seq<Byte> := [];
      var i := 0;
      while i < |fields|
        invariant 0 <= i <= |fields| == |storage|
        invariant body == Body(fields[..i], lanes[..i])
      {
        var buffer := new Byte[fields[i].bytes];
        TransferInto(bigEndian, buffer, storage[i], fields[i].width);
        assert fields[..i + 1][..i] == fields[..i] && lanes[..i + 1][..i] == lanes[..i] && buffer[..] == lanes[i];
        body := body + (FieldHeader(fields[i]) + buffer[..]);
        i := i + 1;
      }
      assert fields[..|fields|] == fields && lanes[..|fields|] == lanes;
      image := Header(format, |fields|, body) + body;
    }

    method Check(image: seq<Byte>) returns (decoded: Option<seq<nat>>)
      requires Valid()
      ensures decoded == Decode(format, image, fields)
    {
      if !HeaderAccepted(format, image, |fields|) {
        return None;
      }
      var r := ScanFields(format, image, fields);
      return if r.Some? && r.value.cursor == |image| then Some(r.value.offsets) else None;
    }

    /** The copy loop: every field takes the bytes its offset names. */
    method Restore(image: seq<Byte>, offsets: seq<nat>) returns (ghost lanes: seq<seq<Byte>>)
      requires Valid() && InBounds(|image|, fields, offsets)
      modifies this
      ensures Valid() && Names(image, fields, offsets, lanes)
      ensures forall i :: 0 <= i < |fields| ==> storage[i] == Transfer(bigEndian, lanes[i], fields[i].width)
    {
      lanes := [];
      var i := 0;
      while i < |fields|
        invariant 0 <= i <= |fields| && Fit(fields, storage) && |lanes| == i
        invariant forall k :: 0 <= k < i ==> |lanes[k]| == fields[k].bytes && At(image, offsets[k], lanes[k])
        invariant forall k :: 0 <= k < i ==> storage[k] == Transfer(bigEndian, lanes[k], fields[k].width)
      {
        var bytes := image[offsets[i]..offsets[i] + fields[i].bytes];
        var buffer := new Byte[fields[i].bytes];
        TransferInto(bigEndian, buffer, bytes, fields[i].width);
        storage := storage[i := buffer[..]];
        lanes := lanes + [bytes];
        i := i + 1;
      }
    }

    /** All or nothing: every check precedes the first write. */
    method Load(image: seq<Byte>) returns (ok: bool, ghost lanes: seq<seq<Byte>>)
      requires Valid()
      modifies this
      ensures Valid() && (ok <==> Decode(format, image, fields).Some?)
      ensures !ok ==> storage == old(storage)
      ensures ok ==>
                && Names(image, fields, Decode(format, image, fields).value, lanes)
                && forall i :: 0 <= i < |fields| ==> storage[i] == Transfer(bigEndian, lanes[i], fields[i].width)
    {
      var decoded := Check(image);
      ok, lanes := decoded.Some?, [];
      if ok {
        lanes := Restore(image, decoded.value);
      }
    }
  }

  /** A saved snapshot loads into any owner of the same schema and format on the same kind of host, exactly when it is
      within the size limit and its state values are valid, and restores every field. */
  method SaveThenLoad(from: OracleState, into: OracleState) returns (ok: bool)
    requires from.Valid() && into.Valid() && from != into
    requires from.fields == into.fields && from.bigEndian == into.bigEndian && from.format == into.format
    modifies into
    ensures into.Valid() && from.Valid() && from.storage == old(from.storage)
    ensures var lanes := LanesOf(from.bigEndian, from.fields, from.storage);
            ok <==> |Image(from.format, from.fields, lanes)| <= MAX_BYTES && StateValid(from.format, from.fields, lanes)
    ensures into.storage == if ok then from.storage else old(into.storage)
  {
    ghost var lanes := LanesOf(from.bigEndian, from.fields, from.storage);
    var image := from.Save();
    DecodeOfImageIff(from.format, from.fields, lanes);
    ghost var read;
    ok, read := into.Load(image);
    if ok {
      NamedLanesAreUnique(image, from.fields, Decode(from.format, image, from.fields).value, read, lanes);
      forall i | 0 <= i < |from.fields| ensures into.storage[i] == from.storage[i] {
        TransferUndoesItself(from.bigEndian, from.storage[i], from.fields[i].width);
      }
    }
  }
}

/** The program's own checksum and state-value rule. */
module OracleFormat {
  import opened GuestTypes
  import opened BlobCodecs
  import opened OracleSnapshots

  // The names of the fields that steer execution, as bytes.

  // CPU/BACKED_LDWhich
  const BACKED_LD_WHICH: seq<Byte> :=
    [0x43, 0x50, 0x55, 0x2F, 0x42, 0x41, 0x43, 0x4B, 0x45, 0x44, 0x5F, 0x4C, 0x44, 0x57, 0x68, 0x69, 0x63, 0x68]
  // CPU/ReadAbsorbWhich
  const READ_ABSORB_WHICH: seq<Byte> :=
    [0x43, 0x50, 0x55, 0x2F, 0x52, 0x65, 0x61, 0x64, 0x41, 0x62, 0x73, 0x6F, 0x72, 0x62, 0x57, 0x68, 0x69, 0x63, 0x68]
  // CPU/ReadFudge
  const READ_FUDGE: seq<Byte> := [0x43, 0x50, 0x55, 0x2F, 0x52, 0x65, 0x61, 0x64, 0x46, 0x75, 0x64, 0x67, 0x65]
  // CPU/BDBT
  const BDBT: seq<Byte> := [0x43, 0x50, 0x55, 0x2F, 0x42, 0x44, 0x42, 0x54]
  // CPU/Halted
  const HALTED: seq<Byte> := [0x43, 0x50, 0x55, 0x2F, 0x48, 0x61, 0x6C, 0x74, 0x65, 0x64]
  // shim/timestamp
  const TIMESTAMP: seq<Byte> := [0x73, 0x68, 0x69, 0x6D, 0x2F, 0x74, 0x69, 0x6D, 0x65, 0x73, 0x74, 0x61, 0x6D, 0x70]
  // shim/stop
  const STOP: seq<Byte> := [0x73, 0x68, 0x69, 0x6D, 0x2F, 0x73, 0x74, 0x6F, 0x70]
  // shim/taint
  const TAINT: seq<Byte> := [0x73, 0x68, 0x69, 0x6D, 0x2F, 0x74, 0x61, 0x69, 0x6E, 0x74]
  // shim/device_writes
  const DEVICE_WRITES: seq<Byte> :=
    [0x73, 0x68, 0x69, 0x6D, 0x2F, 0x64, 0x65, 0x76, 0x69, 0x63, 0x65, 0x5F, 0x77, 0x72, 0x69, 0x74, 0x65, 0x73]

  function Two(n: nat): nat {
    if n == 0 then 1 else 2 * Two(n - 1)
  }

  /** The exclusive or of the low n bits: at each bit, the parity of the two. */
  function XorBits(a: nat, b: nat, n: nat): (r: nat)
    ensures r < Two(n)
  {
    if n == 0 then 0 else (a + b) % 2 + 2 * XorBits(a / 2, b / 2, n - 1)
  }

  lemma EightBits()
    ensures Two(8) == 256
  {
    assert Two(4) == 16;
  }

  function Xor8(a: Byte, b: Byte): Byte {
    EightBits();
    XorBits(a, b, 8)
  }

  /** One FNV-1a step: the byte is xored into the hash's low byte, and the product wraps at 32 bits. */
  function Mix(hash: Word, b: Byte): Word {
    Spread(WithLow(hash, Xor8(hash % 256, b)))
  }

  function WithLow(hash: Word, low: Byte): Word {
    hash - hash % 256 + low
  }

  function Spread(w: Word): Word {
    w * 16777619 % 0x1_0000_0000
  }

  function Checksum(bytes: seq<Byte>): Word {
    if |bytes| == 0 then 2166136261 else Mix(Checksum(bytes[..|bytes| - 1]), bytes[|bytes| - 1])
  }

  method ChecksumOf(bytes: seq<Byte>) returns (sum: Word)
    ensures sum == Checksum(bytes)
  {
    sum := 2166136261;
    var i := 0;
    while i < |bytes|
      invariant 0 <= i <= |bytes| && sum == Checksum(bytes[..i])
    {
      assert bytes[..i + 1][..i] == bytes[..i];
      sum := Mix(sum, bytes[i]);
      i := i + 1;
    }
    assert bytes[..|bytes|] == bytes;
  }

  /** The values the fields that steer execution may hold. */
  predicate StateValueValid(name: seq<Byte>, value: nat) {
    if name == BACKED_LD_WHICH then value <= 31 || value == 34
    else if name == READ_ABSORB_WHICH then value <= 31
    else if name == READ_FUDGE then value < 35
    else if name == BDBT then value == 0 || value == 2 || value == 3
    else if name == HALTED then value <= 1
    else if name == TIMESTAMP then value <= 0x7FFF_FFFF
    else if name == STOP || name == TAINT then value <= 3
    else if name == DEVICE_WRITES then value <= 7
    else true
  }

  function Oracle(): Format {
    Format(Checksum, StateValueValid)
  }

  /** What each field that steers execution may hold, whatever the others do. */
  lemma SteeringValues(value: nat)
    ensures StateValueValid(BACKED_LD_WHICH, value) <==> value < 32 || value == 34
    ensures StateValueValid(READ_ABSORB_WHICH, value) <==> value < 32
    ensures StateValueValid(READ_FUDGE, value) <==> value < 35
    ensures StateValueValid(BDBT, value) <==> value in {0, 2, 3}
    ensures StateValueValid(HALTED, value) <==> value in {0, 1}
    ensures StateValueValid(TIMESTAMP, value) <==> value < 0x8000_0000
    ensures StateValueValid(STOP, value) <==> value in {0, 1, 2, 3}
    ensures StateValueValid(TAINT, value) <==> value in {0, 1, 2, 3}
    ensures StateValueValid(DEVICE_WRITES, value) <==> value in {0, 1, 2, 3, 4, 5, 6, 7}
  {
    assert |BACKED_LD_WHICH| == 18 && |READ_ABSORB_WHICH| == 19 && |READ_FUDGE| == 13 && |BDBT| == 8 && |HALTED| == 10;
    assert |TIMESTAMP| == 14 && |STOP| == 9 && |TAINT| == 10 && |DEVICE_WRITES| == 18;
    assert HALTED[0] != TAINT[0] && BACKED_LD_WHICH[0] != DEVICE_WRITES[0];
  }

  lemma LowByteOfA()
    ensures Xor8(0xC5, 0x61) == 0xA4
  {
    assert XorBits(6, 3, 3) == 5;
    assert XorBits(24, 12, 5) == 20;
    assert XorBits(98, 48, 7) == 82;
  }

  lemma SpreadOfA()
    ensures Spread(0x811C_9DA4) == 0xE40C_292C
  {
  }

  /** The hash of nothing and of the letter a, as the algorithm's authors publish them. */
  lemma KnownAnswers(nothing: seq<Byte>, a: seq<Byte>)
    requires nothing == [] && a == [0x61]
    ensures Checksum(nothing) == 0x811C_9DC5 && Checksum(a) == 0xE40C_292C
  {
    LowByteOfA();
    SpreadOfA();
    assert a[..0] == nothing && Checksum(nothing) == 0x811C_9DC5;
    assert WithLow(0x811C_9DC5, 0xA4) == 0x811C_9DA4;
    assert Checksum(a) == Mix(Checksum(a[..0]), a[0]);
  }

  /** A state check sees a field's first word, little-endian, or the single byte of a shorter one. */
  lemma {:induction false} StateValueIsTheFirstWord(v: Word, rest: seq<Byte>, b: Byte)
    ensures StateValue(Word32(v) + rest) == v
    ensures |rest| < 3 ==> StateValue([b] + rest) == b
  {
    Powers();
    ValueOfEncode(v, 4);
    assert (Word32(v) + rest)[0..4] == Word32(v);
  }

  // ---- what the checksum notices ---------------------------------------------------------------------

  lemma ParityUndoes(a: nat, b: nat, rest: nat)
    ensures ((a + b) % 2 + 2 * rest) / 2 == rest && ((a + b) % 2 + 2 * rest + b) % 2 == a % 2
  {
  }

  lemma {:induction false} XorUndoes(a: nat, b: nat, n: nat)
    requires a < Two(n)
    ensures XorBits(XorBits(a, b, n), b, n) == a
  {
    if n > 0 {
      var rest := XorBits(a / 2, b / 2, n - 1);
      XorUndoes(a / 2, b / 2, n - 1);
      ParityUndoes(a, b, rest);
      assert XorBits(a, b, n) == (a + b) % 2 + 2 * rest;
    }
  }

  lemma {:induction false} XorCommutes(a: nat, b: nat, n: nat)
    ensures XorBits(a, b, n) == XorBits(b, a, n)
  {
    if n > 0 {
      XorCommutes(a / 2, b / 2, n - 1);
    }
  }

  lemma Xor8Undoes(a: Byte, b: Byte)
    ensures Xor8(Xor8(a, b), b) == a && Xor8(a, b) == Xor8(b, a)
  {
    EightBits();
    XorUndoes(a, b, 8);
    XorCommutes(a, b, 8);
  }

  /** The inverse of the FNV prime modulo 2^32. */
  const UNPRIME := 899433627

  lemma PrimeUndoes(x: Word)
    ensures Spread(x) * UNPRIME % 0x1_0000_0000 == x
  {
    var wraps := x * 16777619 / 0x1_0000_0000;
    var product := x * 16777619 % 0x1_0000_0000;
    assert product == x * 16777619 - 0x1_0000_0000 * wraps;
    assert 16777619 * UNPRIME == 1 + 0x1_0000_0000 * 3513497;
    var turns := 3513497 * x - UNPRIME * wraps;
    assert product * UNPRIME == x + 0x1_0000_0000 * turns;
  }

  lemma SpreadLosesNothing(x: Word, y: Word)
    requires Spread(x) == Spread(y)
    ensures x == y
  {
    PrimeUndoes(x);
    PrimeUndoes(y);
  }

  lemma LowByteApart(h: Word, low: Byte, k: Word, other: Byte)
    requires WithLow(h, low) == WithLow(k, other)
    ensures low == other && (h % 256 == k % 256 ==> h == k)
  {
  }

  /** A step loses nothing: with the byte it gives back the hash, with the hash the byte. */
  lemma MixLosesNothing(h: Word, b: Byte, k: Word, c: Byte)
    requires Mix(h, b) == Mix(k, c) && (h == k || b == c)
    ensures h == k && b == c
  {
    var low, other := Xor8(h % 256, b), Xor8(k % 256, c);
    SpreadLosesNothing(WithLow(h, low), WithLow(k, other));
    LowByteApart(h, low, k, other);
    XorRecovers(h % 256, b, k % 256, c);
  }

  lemma XorRecovers(a: Byte, b: Byte, c: Byte, d: Byte)
    requires Xor8(a, b) == Xor8(c, d) && (a == c || b == d)
    ensures a == c && b == d
  {
    Xor8Undoes(a, b);
    Xor8Undoes(c, d);
    Xor8Undoes(b, a);
    Xor8Undoes(d, c);
  }

  /** With the same prefix sum or the same next byte, one byte on the sums agree only if both were the same. */
  lemma {:induction false} OneMoreByte(a: seq<Byte>, x: Byte, b: seq<Byte>, y: Byte)
    requires Checksum(a) == Checksum(b) || x == y
    ensures Checksum(a + [x]) == Checksum(b + [y]) <==> Checksum(a) == Checksum(b) && x == y
  {
    assert (a + [x])[..|a|] == a && (b + [y])[..|b|] == b;
    if Mix(Checksum(a), x) == Mix(Checksum(b), y) {
      MixLosesNothing(Checksum(a), x, Checksum(b), y);
    }
  }

  /** No next byte hides a difference already there. */
  ghost predicate KeepsDifferences(sum: seq<Byte> -> Word) {
    forall a: seq<Byte>, b: seq<Byte>, x: Byte :: sum(a) != sum(b) ==> sum(a + [x]) != sum(b + [x])
  }

  /** Two next bytes make a difference. */
  ghost predicate TellsBytesApart(sum: seq<Byte> -> Word) {
    forall a: seq<Byte>, x: Byte, y: Byte :: x != y ==> sum(a + [x]) != sum(a + [y])
  }

  lemma {:induction false} SuffixKeepsTheDifference(sum: seq<Byte> -> Word, a: seq<Byte>, b: seq<Byte>,
                                                    suffix: seq<Byte>)
    requires KeepsDifferences(sum) && sum(a) != sum(b)
    ensures sum(a + suffix) != sum(b + suffix)
    decreases |suffix|
  {
    if |suffix| == 0 {
      assert a + suffix == a && b + suffix == b;
    } else {
      SuffixKeepsTheDifference(sum, a + [suffix[0]], b + [suffix[0]], suffix[1..]);
      assert a + suffix == (a + [suffix[0]]) + suffix[1..] && b + suffix == (b + [suffix[0]]) + suffix[1..];
    }
  }

  lemma {:induction false} SeesEveryByte(sum: seq<Byte> -> Word, bytes: seq<Byte>, i: nat, b: Byte)
    requires KeepsDifferences(sum) && TellsBytesApart(sum) && i < |bytes| && b != bytes[i]
    ensures sum(bytes[i := b]) != sum(bytes)
  {
    var before, after := bytes[..i], bytes[i + 1..];
    SuffixKeepsTheDifference(sum, before + [bytes[i]], before + [b], after);
    assert bytes == (before + [bytes[i]]) + after && bytes[i := b] == (before + [b]) + after;
  }

  /** So one changed byte always changes the checksum, wherever it is and whatever follows. */
  lemma ChecksumIsSensitive()
    ensures KeepsDifferences(Checksum) && TellsBytesApart(Checksum)
  {
    forall a: seq<Byte>, b: seq<Byte>, x: Byte | Checksum(a) != Checksum(b)
      ensures Checksum(a + [x]) != Checksum(b + [x])
    {
      OneMoreByte(a, x, b, x);
    }
    forall a: seq<Byte>, x: Byte, y: Byte | x != y ensures Checksum(a + [x]) != Checksum(a + [y]) {
      OneMoreByte(a, x, a, y);
    }
  }

  lemma {:induction false} AcceptedHeader(data: seq<Byte>, count: nat)
    requires count <= MAX_FIELDS && HeaderAccepted(Oracle(), data, count)
    ensures data[..HEADER_BYTES] == Header(Oracle(), count, data[HEADER_BYTES..])
  {
    assert data[HEADER_BYTES..|data|] == data[HEADER_BYTES..];
    HeaderIff(Oracle(), data, count, data[HEADER_BYTES..]);
    assert data[0..HEADER_BYTES] == data[..HEADER_BYTES];
  }

  lemma {:induction false} DamagedHeaderIsRefused(data: seq<Byte>, count: nat, i: nat, b: Byte)
    requires count <= MAX_FIELDS && HeaderAccepted(Oracle(), data, count) && i < HEADER_BYTES && b != data[i]
    ensures !HeaderAccepted(Oracle(), data[i := b], count)
  {
    var damaged := data[i := b];
    assert damaged[HEADER_BYTES..] == data[HEADER_BYTES..];
    assert damaged[..HEADER_BYTES][i] != data[..HEADER_BYTES][i];
    AcceptedHeader(data, count);
    if HeaderAccepted(Oracle(), damaged, count) {
      AcceptedHeader(damaged, count);
    }
  }

  lemma {:induction false} DamagedBodyIsRefused(data: seq<Byte>, count: nat, i: nat, b: Byte)
    requires HeaderAccepted(Oracle(), data, count) && HEADER_BYTES <= i < |data| && b != data[i]
    ensures !HeaderAccepted(Oracle(), data[i := b], count)
  {
    var damaged, body := data[i := b], data[HEADER_BYTES..];
    ChecksumIsSensitive();
    SeesEveryByte(Checksum, body, i - HEADER_BYTES, b);
    assert damaged[HEADER_BYTES..] == body[i - HEADER_BYTES := b];
    assert damaged[20..24] == data[20..24];
  }

  /** In the program's own format a snapshot with one byte damaged, header or field, is refused: of every accepted
      snapshot of every schema, at every position, for every other value. */
  lemma {:induction false} OneDamagedByteIsRefused(data: seq<Byte>, fields: seq<Field>, i: nat, b: Byte)
    requires Schema(fields) && Decode(Oracle(), data, fields).Some? && i < |data| && b != data[i]
    ensures Decode(Oracle(), data[i := b], fields).None?
  {
    if i < HEADER_BYTES {
      DamagedHeaderIsRefused(data, |fields|, i, b);
    } else {
      DamagedBodyIsRefused(data, |fields|, i, b);
    }
  }

  /** The program's own format round-trips: a snapshot of any schema's lanes is accepted exactly when it is within the
      size limit and every field that steers execution holds an admissible value. */
  lemma {:induction false} OwnSnapshotDecodesIff(fields: seq<Field>, lanes: seq<seq<Byte>>)
    requires Schema(fields) && Fit(fields, lanes)
    ensures var image := Image(Oracle(), fields, lanes);
            var decoded := Decode(Oracle(), image, fields);
            && (decoded.Some? <==>
                  && |image| <= MAX_BYTES
                  && forall i :: 0 <= i < |fields| ==>
                       |lanes[i]| > 0 && StateValueValid(fields[i].name, StateValue(lanes[i])))
            && (decoded.Some? ==> Names(image, fields, decoded.value, lanes))
  {
    DecodeOfImageIff(Oracle(), fields, lanes);
    assert StateValid(Oracle(), fields, lanes) <==>
           forall i :: 0 <= i < |fields| ==>
             |lanes[i]| > 0 && StateValueValid(fields[i].name, StateValue(lanes[i]));
  }
}
