/** Rows of the generated message table, and the facts the codec asks of them. */
module MavlinkTable {
  import opened Bytes
  import opened MavlinkCodec

  const U8 := UInt(1)
  const U32 := UInt(4)
  const U64 := UInt(8)

  // '<IBBBBB'
  const HEARTBEAT: Entry := Entry([U32, U8, U8, U8, U8, U8], [1, 2, 3, 0, 4, 5], 50)
  // '<QI240sBB', the largest payload of the table
  const FILE_TRANSFER_START: Entry := Entry([U64, U32, Chars(240), U8, U8], [0, 2, 3, 1, 4], 235)

  function Table(): map<int, Entry> {
    map[0 := HEARTBEAT, 110 := FILE_TRANSFER_START]
  }

  lemma SizeCons(t: FieldType, rest: seq<FieldType>)
    ensures Size([t] + rest) == SizeOf(t) + Size(rest)
  {
  }

  lemma {:induction false} SizeBound(format: seq<FieldType>)
    requires forall k | 0 <= k < |format| :: SizeOf(format[k]) <= 8
    ensures Size(format) <= 8 * |format|
  {
    if format != [] {
      SizeBound(format[1..]);
    }
  }

  lemma LargestRow()
    ensures Size(FILE_TRANSFER_START.format) == 254
  {
    SizeCons(U8, []);
    SizeCons(U8, [U8]);
    SizeCons(Chars(240), [U8, U8]);
    SizeCons(U32, [Chars(240), U8, U8]);
    SizeCons(U64, [U32, Chars(240), U8, U8]);
    assert [U8] + [] == [U8] && [U8] + [U8] == [U8, U8];
    assert [Chars(240)] + [U8, U8] == [Chars(240), U8, U8];
    assert [U32] + [Chars(240), U8, U8] == [U32, Chars(240), U8, U8];
    assert [U64] + [U32, Chars(240), U8, U8] == FILE_TRANSFER_START.format;
  }

  /** The rows are permutations and their payloads fit the one-byte length, so the table
      can be used with any checksum function. */
  lemma RowsValid(x25: seq<Byte> -> U16)
    ensures ValidRules(Rules(x25, Table()))
  {
    LargestRow();
    SizeBound(HEARTBEAT.format);
  }

  /** The heartbeat's pack method writes custom_mode, type, autopilot, base_mode,
      system_status, mavlink_version; its order map restores the declared order. */
  lemma HeartbeatOrder(type_: Value, autopilot: Value, baseMode: Value, customMode: Value,
                       status: Value, version: Value)
    ensures Reorder(HEARTBEAT.order, [customMode, type_, autopilot, baseMode, status, version])
            == [type_, autopilot, baseMode, customMode, status, version]
  {
  }

  lemma PackCons(t: FieldType, ts: seq<FieldType>, v: Value, vs: seq<Value>)
    requires FitsAll([t] + ts, [v] + vs) && FitsAll(ts, vs) && Fits(t, v)
    ensures Pack([t] + ts, [v] + vs) == PackField(t, v) + Pack(ts, vs)
  {
    assert ([t] + ts)[1..] == ts && ([v] + vs)[1..] == vs;
  }

  lemma OneByte(b: Byte)
    ensures Fits(U8, Num(b)) && PackField(U8, Num(b)) == [b]
  {
    Powers();
    NumbersSpelled([b]);
    LittleEndianOf([b]);
  }

  /** The fields of a heartbeat whose wire bytes are the given nine. */
  function HeartbeatFields(w: seq<Byte>): seq<Value>
    requires |w| == 9
  {
    [Num(w[4]), Num(w[5]), Num(w[6]), Num(Digits(w[0], w[1], w[2], w[3])), Num(w[7]), Num(w[8])]
  }

  function Bytes8(n: nat): (t: seq<FieldType>)
    ensures |t| == n && forall k | 0 <= k < n :: t[k] == U8
  {
    if n == 0 then [] else [U8] + Bytes8(n - 1)
  }

  function Nums(b: seq<Byte>): (v: seq<Value>)
    ensures |v| == |b| && forall k | 0 <= k < |b| :: v[k] == Num(b[k])
  {
    if b == [] then [] else [Num(b[0])] + Nums(b[1..])
  }

  /** Bytes are packed as they are. */
  lemma {:induction false} BytesPack(b: seq<Byte>)
    ensures FitsAll(Bytes8(|b|), Nums(b)) && Pack(Bytes8(|b|), Nums(b)) == b
    decreases |b|
  {
    Powers();
    if b != [] {
      BytesPack(b[1..]);
      OneByte(b[0]);
      PackCons(U8, Bytes8(|b| - 1), Num(b[0]), Nums(b[1..]));
    }
  }

  lemma WireAt(order: seq<nat>, fields: seq<Value>, k: nat)
    requires Permutation(order, |fields|) && k < |fields|
    ensures WireOrder(order, fields)[order[k]] == fields[k]
  {
    hide WireOrder;
    ReorderInverts(order, fields);
    assert Reorder(order, WireOrder(order, fields))[k] == WireOrder(order, fields)[order[k]];
  }

  /** The wire order of a heartbeat: the four-byte field first. */
  lemma HeartbeatWire(fields: seq<Value>)
    requires |fields| == 6
    ensures WireOrder(HEARTBEAT.order, fields)
            == [fields[3], fields[0], fields[1], fields[2], fields[4], fields[5]]
  {
    hide WireOrder, Find;
    HeartbeatSize();
    var o := HEARTBEAT.order;
    WireAt(o, fields, 0);
    WireAt(o, fields, 1);
    WireAt(o, fields, 2);
    WireAt(o, fields, 3);
    WireAt(o, fields, 4);
    WireAt(o, fields, 5);
    assert o[0] == 1 && o[1] == 2 && o[2] == 3 && o[3] == 0 && o[4] == 4 && o[5] == 5;
  }

  lemma HeartbeatFits(w: seq<Byte>)
    requires |w| == 9
    ensures FieldsFit(HEARTBEAT, HeartbeatFields(w))
  {
    hide FromLittleEndian, LittleEndian;
    Powers();
    var low := w[..4];
    NumbersSpelled(low);
    LittleEndianOf(low);
    var o := HEARTBEAT.order;
    assert o[0] == 1 && o[1] == 2 && o[2] == 3 && o[3] == 0 && o[4] == 4 && o[5] == 5;
  }

  lemma HeartbeatPacks(w: seq<Byte>)
    requires |w| == 9
    ensures FieldsFit(HEARTBEAT, HeartbeatFields(w)) && ValidEntry(HEARTBEAT)
    ensures Size(HEARTBEAT.format) == 9
    ensures Payload(HEARTBEAT, HeartbeatFields(w)) == w
  {
    hide Pack, LittleEndian, FromLittleEndian, FieldsFit, Permutation, WireOrder, FitsAll, Size;
    var fields, low, rest := HeartbeatFields(w), w[..4], w[4..];
    HeartbeatSize();
    HeartbeatFits(w);
    WireFits(HEARTBEAT, fields);
    HeartbeatWire(fields);
    var head := Num(Digits(w[0], w[1], w[2], w[3]));
    assert HEARTBEAT.format == [U32] + Bytes8(5);
    assert WireOrder(HEARTBEAT.order, fields) == [head] + Nums(rest);
    FourBytes(low);
    BytesPack(rest);
    PackCons(U32, Bytes8(5), head, Nums(rest));
    assert low + rest == w;
  }

  lemma FourBytes(b: seq<Byte>)
    requires |b| == 4
    ensures var v := Num(Digits(b[0], b[1], b[2], b[3])); Fits(U32, v) && PackField(U32, v) == b
  {
    hide FromLittleEndian, LittleEndian;
    Powers();
    NumbersSpelled(b);
    LittleEndianOf(b);
  }

  lemma HeartbeatSize()
    ensures ValidEntry(HEARTBEAT) && Size(HEARTBEAT.format) == 9
  {
    SizeOfBytes(5);
    SizeCons(U32, Bytes8(5));
    assert HEARTBEAT.format == [U32] + Bytes8(5);
  }

  lemma {:induction false} SizeOfBytes(n: nat)
    ensures Size(Bytes8(n)) == n
  {
    if n > 0 {
      SizeOfBytes(n - 1);
      SizeCons(U8, Bytes8(n - 1));
    }
  }

  /** A heartbeat on the wire, byte by byte, for every checksum function: marker, length 9,
      sequence number, addresses, identifier 0, the custom mode least significant byte first, type,
      autopilot, base mode, status and version, then the checksum with seed 50. */
  lemma HeartbeatFrame(x25: seq<Byte> -> U16, w: seq<Byte>, sequence: nat, sys: Byte, comp: Byte)
    requires |w| == 9 && sequence < 256
    ensures ValidRules(Rules(x25, Table()))
    ensures var d, m := Rules(x25, Table()), Message(0, HeartbeatFields(w));
            && Sendable(d, m)
            && var f := Frame(d, m, sequence, sys, comp);
               && |f| == 17 && f[..6] == [254, 9, sequence, sys, comp, 0] && f[6..15] == w
               && Trailer(f) == x25(f[1..15] + [50])
  {
    hide Pack, Frame, Payload, Trailer;
    RowsValid(x25);
    HeartbeatPacks(w);
    var d: Dialect, m := Rules(x25, Table()), Message(0, HeartbeatFields(w));
    FrameLayout(d, m, sequence, sys, comp);
  }
}
