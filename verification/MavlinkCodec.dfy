/** The MAVLink 1 frame codec: struct packing of typed fields, field reordering, header and
    checksum. The X.25 checksum is a parameter: any function of the covered bytes. */
module MavlinkCodec {
  import opened Bytes

  type U16 = x: int | 0 <= x < 0x1_0000

  const MARKER: Byte := 254

  // ---------------------------------------------------------------- struct packing

  /** Item of a little-endian struct format: `B H I Q`, `b h i q`, `f`, `<n>s`. */
  datatype FieldType = UInt(width: nat) | SInt(width: nat) | Float32 | Chars(count: nat)

  /** Field values. A float is represented by its 32-bit pattern. */
  datatype Value = Num(n: int) | Bits(pattern: nat) | Text(bytes: seq<Byte>)

  function Pow256(w: nat): (p: int)
    ensures p >= 1
  {
    if w == 0 then 1 else 256 * Pow256(w - 1)
  }

  function SizeOf(t: FieldType): nat {
    match t
    case UInt(w) => w
    case SInt(w) => w
    case Float32 => 4
    case Chars(n) => n
  }

  function Size(format: seq<FieldType>): nat {
    if format == [] then 0 else SizeOf(format[0]) + Size(format[1..])
  }

  /** The values `struct.pack` accepts for an item; it raises on any other. */
  predicate Fits(t: FieldType, v: Value) {
    match t
    case UInt(w) => v.Num? && 0 <= v.n < Pow256(w)
    case SInt(w) => v.Num? && -Pow256(w) <= 2 * v.n < Pow256(w)
    case Float32 => v.Bits? && v.pattern < Pow256(4)
    case Chars(_) => v.Text?
  }

  predicate FitsAll(format: seq<FieldType>, values: seq<Value>) {
    |values| == |format| && forall k {:trigger values[k]} | 0 <= k < |format| :: Fits(format[k], values[k])
  }

  function LittleEndian(n: nat, w: nat): (b: seq<Byte>)
    ensures |b| == w
    decreases w
  {
    if w == 0 then [] else [n % 256] + LittleEndian(n / 256, w - 1)
  }

  function FromLittleEndian(b: seq<Byte>): nat {
    if b == [] then 0 else b[0] + 256 * FromLittleEndian(b[1..])
  }

  /** Text of any length in a field of `n` bytes: cut, or padded with NUL. */
  function FitText(s: seq<Byte>, n: nat): (r: seq<Byte>)
    ensures |r| == n
  {
    if |s| >= n then s[..n] else s + seq(n - |s|, _ => 0)
  }

  function PackField(t: FieldType, v: Value): (b: seq<Byte>)
    requires Fits(t, v)
    ensures |b| == SizeOf(t)
  {
    match t
    case UInt(w) => LittleEndian(v.n, w)
    case SInt(w) => LittleEndian(if v.n >= 0 then v.n else v.n + Pow256(w), w)
    case Float32 => LittleEndian(v.pattern, 4)
    case Chars(n) => FitText(v.bytes, n)
  }

  function UnpackField(t: FieldType, b: seq<Byte>): Value
    requires |b| == SizeOf(t)
  {
    match t
    case UInt(w) => Num(FromLittleEndian(b))
    case SInt(w) =>
      var u := FromLittleEndian(b);
      Num(if 2 * u < Pow256(w) then u else u - Pow256(w))
    case Float32 => Bits(FromLittleEndian(b))
    case Chars(n) => Text(b)
  }

  /** What is left of a value after a trip over the wire: text fields get their full size. */
  function Normal(t: FieldType, v: Value): Value {
    match t
    case Chars(n) => if v.Text? then Text(FitText(v.bytes, n)) else v
    case _ => v
  }

  function Pack(format: seq<FieldType>, values: seq<Value>): (b: seq<Byte>)
    requires FitsAll(format, values)
    ensures |b| == Size(format)
  {
    if format == [] then []
    else PackField(format[0], values[0]) + Pack(format[1..], values[1..])
  }

  function Unpack(format: seq<FieldType>, b: seq<Byte>): (values: seq<Value>)
    requires |b| == Size(format)
    ensures |values| == |format|
  {
    if format == [] then []
    else [UnpackField(format[0], b[..SizeOf(format[0])])] + Unpack(format[1..], b[SizeOf(format[0])..])
  }

  function NormalAll(format: seq<FieldType>, values: seq<Value>): (r: seq<Value>)
    requires |values| == |format|
    ensures |r| == |format|
    ensures forall k {:trigger r[k]} | 0 <= k < |format| :: r[k] == Normal(format[k], values[k])
  {
    seq(|format|, k requires 0 <= k < |format| && |values| == |format| => Normal(format[k], values[k]))
  }

  lemma {:induction false} LittleEndianRoundTrip(n: nat, w: nat)
    requires n < Pow256(w)
    ensures FromLittleEndian(LittleEndian(n, w)) == n
    decreases w
  {
    if w > 0 {
      assert n / 256 < Pow256(w - 1);
      LittleEndianRoundTrip(n / 256, w - 1);
      assert LittleEndian(n, w)[1..] == LittleEndian(n / 256, w - 1);
    }
  }

  /** And the other way round: every byte string is what its number packs to. */
  lemma {:induction false} LittleEndianOf(b: seq<Byte>)
    ensures FromLittleEndian(b) < Pow256(|b|) && LittleEndian(FromLittleEndian(b), |b|) == b
    decreases |b|
  {
    if b != [] {
      var rest := FromLittleEndian(b[1..]);
      LittleEndianOf(b[1..]);
      assert (b[0] + 256 * rest) % 256 == b[0] && (b[0] + 256 * rest) / 256 == rest;
    }
  }

  function Digits(a: int, b: int, c: int, d: int): int {
    a + 256 * b + 65536 * c + 16777216 * d
  }

  /** Numbers of one, two, four and eight bytes, spelled out: the first byte counts least. */
  lemma NumbersSpelled(b: seq<Byte>)
    ensures |b| == 1 ==> FromLittleEndian(b) == b[0]
    ensures |b| == 2 ==> FromLittleEndian(b) == Digits(b[0], b[1], 0, 0)
    ensures |b| == 4 ==> FromLittleEndian(b) == Digits(b[0], b[1], b[2], b[3])
    ensures |b| == 8 ==> FromLittleEndian(b)
                         == Digits(b[0], b[1], b[2], b[3]) + 4294967296 * Digits(b[4], b[5], b[6], b[7])
  {
    if |b| >= 1 {
      FirstDigit(b);
      if |b| >= 2 {
        var c := b[1..];
        FirstDigit(c);
        if |b| >= 4 {
          var d, e := c[1..], c[1..][1..];
          FirstDigit(d);
          FirstDigit(e);
          if |b| == 8 {
            NumbersSpelled(e[1..]);
          }
        }
      }
    }
  }

  lemma FirstDigit(b: seq<Byte>)
    requires b != []
    ensures FromLittleEndian(b) == b[0] + 256 * FromLittleEndian(b[1..])
    ensures FromLittleEndian([]) == 0
  {
  }

  lemma Powers()
    ensures Pow256(1) == 256 && Pow256(2) == 65536 && Pow256(4) == 4294967296
  {
    assert Pow256(0) == 1 && Pow256(3) == 16777216;
  }

  /** Signed numbers of one, two and four bytes: two's complement. */
  lemma SignedSpelled(b: seq<Byte>)
    ensures |b| == 1 ==> var u: int := b[0];
              UnpackField(SInt(1), b) == Num(if u < 128 then u else u - 256)
    ensures |b| == 2 ==> var u := Digits(b[0], b[1], 0, 0);
              UnpackField(SInt(2), b) == Num(if u < 32768 then u else u - 65536)
    ensures |b| == 4 ==> var u := Digits(b[0], b[1], b[2], b[3]);
              UnpackField(SInt(4), b) == Num(if u < 2147483648 then u else u - 4294967296)
  {
    NumbersSpelled(b);
    Powers();
  }

  lemma FieldRoundTrip(t: FieldType, v: Value)
    requires Fits(t, v)
    ensures UnpackField(t, PackField(t, v)) == Normal(t, v)
  {
    match t
    case UInt(w) => LittleEndianRoundTrip(v.n, w);
    case SInt(w) => LittleEndianRoundTrip(if v.n >= 0 then v.n else v.n + Pow256(w), w);
    case Float32 => LittleEndianRoundTrip(v.pattern, 4);
    case Chars(n) =>
  }

  /** Unpacking undoes packing, up to the padding of text fields. */
  lemma {:induction false} StructRoundTrip(format: seq<FieldType>, values: seq<Value>)
    requires FitsAll(format, values)
    ensures Unpack(format, Pack(format, values)) == NormalAll(format, values)
  {
    if format != [] {
      var b, n := Pack(format, values), SizeOf(format[0]);
      FieldRoundTrip(format[0], values[0]);
      StructRoundTrip(format[1..], values[1..]);
      assert b[..n] == PackField(format[0], values[0]) && b[n..] == Pack(format[1..], values[1..]);
      var rest := NormalAll(format[1..], values[1..]);
      assert NormalAll(format, values) == [Normal(format[0], values[0])] + rest;
    }
  }

  // ---------------------------------------------------------------- text fields

  /** What a NUL-terminated string shows: everything before the first NUL. */
  function Shown(s: seq<Byte>): seq<Byte> {
    if s == [] || s[0] == 0 then [] else [s[0]] + Shown(s[1..])
  }

  lemma {:induction false} ShownPrefix(s: seq<Byte>)
    ensures |Shown(s)| <= |s| && Shown(s) == s[..|Shown(s)|]
    ensures |Shown(s)| < |s| ==> s[|Shown(s)|] == 0
    ensures forall k | 0 <= k < |Shown(s)| :: s[k] != 0
  {
    if s != [] && s[0] != 0 {
      ShownPrefix(s[1..]);
      var m := Shown(s[1..]);
      assert Shown(s) == [s[0]] + m;
      assert forall k | 0 < k < 1 + |m| :: s[k] == s[1..][k - 1];
    }
  }

  /** A string shows the same after the trip exactly when its shown part fits the field. */
  lemma TextSurvives(s: seq<Byte>, n: nat)
    ensures Shown(FitText(s, n)) == Shown(s) <==> |Shown(s)| <= n
  {
    var f := FitText(s, n);
    ShownPrefix(s);
    ShownPrefix(f);
    var a, b := |Shown(s)|, |Shown(f)|;
    if a <= n {
      assert forall k | 0 <= k < a :: f[k] == s[k];
      assert b >= a;
      assert a < n ==> f[a] == 0;
      assert f[..a] == s[..a];
    } else {
      assert b <= n < a;
    }
  }

  // ---------------------------------------------------------------- field order

  /** `order` lists every struct position once. */
  ghost predicate Permutation(order: seq<nat>, n: nat) {
    && |order| == n
    && (forall k | 0 <= k < n :: order[k] < n)
    && (forall j, k | 0 <= j < k < n :: order[j] != order[k])
  }

  /** One row of the message table: struct format, order map, checksum seed. */
  datatype Entry = Entry(format: seq<FieldType>, order: seq<nat>, crcExtra: Byte)

  ghost predicate ValidEntry(e: Entry) {
    Permutation(e.order, |e.format|) && Size(e.format) <= 255
  }

  /** Declared field `k` sits in struct position `order[k]`. */
  function Reorder(order: seq<nat>, wire: seq<Value>): (fields: seq<Value>)
    requires |order| == |wire| && forall k | 0 <= k < |order| :: order[k] < |wire|
    ensures |fields| == |wire|
    ensures forall k {:trigger fields[k]} | 0 <= k < |order| :: fields[k] == wire[order[k]]
  {
    seq(|order|, k requires 0 <= k < |order| && order[k] < |wire| => wire[order[k]])
  }

  /** Index of `p` in `order`, or `|order|`. */
  function Find(order: seq<nat>, p: nat): (k: nat)
    ensures k <= |order|
    ensures k < |order| ==> order[k] == p
    ensures forall j | 0 <= j < k :: order[j] != p
  {
    if order == [] || order[0] == p then 0
    else
      var k := Find(order[1..], p);
      assert forall j | 1 <= j < 1 + k :: order[j] == order[1..][j - 1];
      1 + k
  }

  /** Struct position `p` holds the declared field that the order map sends there. */
  function WireOrder(order: seq<nat>, fields: seq<Value>): (wire: seq<Value>)
    requires |order| == |fields|
    ensures |wire| == |fields|
    ensures forall p {:trigger wire[p]} | 0 <= p < |fields| ::
              Find(order, p) < |fields| ==> wire[p] == fields[Find(order, p)]
  {
    seq(|fields|, p requires 0 <= p => if Find(order, p) < |fields| then fields[Find(order, p)] else Num(0))
  }

  /** An injective order map of the right size is onto. */
  lemma PermutationOnto(order: seq<nat>, n: nat, p: nat)
    requires Permutation(order, n) && p < n
    ensures Find(order, p) < n
  {
    if Find(order, p) == n {
      assert p !in Image(order, n);
      ImageSize(order, n);
      assert Image(order, n) <= Interval(n) - {p};
      SubsetSize(Image(order, n), Interval(n) - {p});
      assert false;
    }
  }

  ghost function Image(order: seq<nat>, n: nat): (s: set<nat>)
    requires n <= |order|
    ensures forall q :: q in s <==> exists k | 0 <= k < n :: order[k] == q
  {
    if n == 0 then {} else Image(order, n - 1) + {order[n - 1]}
  }

  lemma NotInImage(order: seq<nat>, n: nat)
    requires n < |order| && forall k | 0 <= k < n :: order[k] != order[n]
    ensures order[n] !in Image(order, n)
  {
  }

  lemma {:induction false} ImageSize(order: seq<nat>, n: nat)
    requires n <= |order|
    requires forall j, k | 0 <= j < k < |order| :: order[j] != order[k]
    ensures |Image(order, n)| == n
  {
    if n > 0 {
      ImageSize(order, n - 1);
      NotInImage(order, n - 1);
    }
  }

  ghost function Interval(n: nat): (s: set<nat>)
    ensures |s| == n
    ensures forall q: nat :: q in s <==> q < n
  {
    if n == 0 then {} else Interval(n - 1) + {n - 1}
  }

  lemma {:induction false} SubsetSize(a: set<nat>, b: set<nat>)
    requires a <= b
    ensures |a| <= |b|
  {
    if a != {} {
      var x :| x in a;
      SubsetSize(a - {x}, b - {x});
    }
  }

  /** Decoding order undoes wire order. */
  lemma ReorderInverts(order: seq<nat>, fields: seq<Value>)
    requires Permutation(order, |fields|)
    ensures Reorder(order, WireOrder(order, fields)) == fields
  {
  }

  // ---------------------------------------------------------------- frames

  /** A message to send: identifier and declared fields, in declaration order. */
  datatype Message = Message(msgId: int, fields: seq<Value>)

  datatype Header = Header(mlen: nat, sequence: nat, srcSystem: Byte, srcComponent: Byte, msgId: int)

  /** Checksum function and message table. */
  datatype Rules = Rules(x25: seq<Byte> -> U16, table: map<int, Entry>)

  ghost predicate ValidRules(d: Rules) {
    forall id | id in d.table :: 0 <= id < 256 && ValidEntry(d.table[id])
  }

  type Dialect = d: Rules | ValidRules(d) ghost witness Rules(_ => 0, map[])

  datatype Reason =
    | BadPrefix | ShortHeader | WrongLength | UnknownId | WrongChecksum | WrongPayloadSize

  datatype Received =
    | Good(header: Header, fields: seq<Value>, raw: seq<Byte>)
    | Bad(reason: Reason, raw: seq<Byte>)

  /** The checksum covers everything after the marker, then the seed of the message type. */
  function Checksum(d: Rules, covered: seq<Byte>, crcExtra: Byte): U16 {
    (d.x25)(covered + [crcExtra])
  }

  predicate Sendable(d: Rules, m: Message) {
    m.msgId in d.table && FieldsFit(d.table[m.msgId], m.fields)
  }

  /** Every declared field fits its struct item. */
  predicate FieldsFit(e: Entry, fields: seq<Value>) {
    && |fields| == |e.format| == |e.order|
    && forall k {:trigger fields[k]} | 0 <= k < |fields| ::
         e.order[k] < |e.format| && Fits(e.format[e.order[k]], fields[k])
  }

  lemma WireFits(e: Entry, fields: seq<Value>)
    requires ValidEntry(e) && FieldsFit(e, fields)
    ensures FitsAll(e.format, WireOrder(e.order, fields))
  {
    forall p | 0 <= p < |fields| ensures Fits(e.format[p], WireOrder(e.order, fields)[p]) {
      PermutationOnto(e.order, |fields|, p);
      assert e.order[Find(e.order, p)] == p;
    }
  }

  function HeaderBytes(h: Header): seq<Byte>
    requires h.mlen < 256 && h.sequence < 256 && 0 <= h.msgId < 256
  {
    [MARKER, h.mlen, h.sequence, h.srcSystem, h.srcComponent, h.msgId]
  }

  function Frame(d: Dialect, m: Message, sequence: nat, srcSystem: Byte, srcComponent: Byte)
    : (f: seq<Byte>)
    requires Sendable(d, m) && sequence < 256
    ensures |f| >= 8 && f[0] == MARKER && |f| - 8 == f[1]
  {
    var e := d.table[m.msgId];
    WireFits(e, m.fields);
    var payload := Pack(e.format, WireOrder(e.order, m.fields));
    var body := HeaderBytes(Header(|payload|, sequence, srcSystem, srcComponent, m.msgId)) + payload;
    body + LittleEndian(Checksum(d, body[1..], e.crcExtra), 2)
  }

  function Decode(d: Dialect, f: seq<Byte>): (r: Received)
    ensures r.raw == f
  {
    if |f| < 6 then Bad(ShortHeader, f)
    else if f[0] != MARKER then Bad(BadPrefix, f)
    else if |f| - 8 != f[1] then Bad(WrongLength, f)
    else
      var id: int := f[5];
      if id !in d.table then Bad(UnknownId, f)
      else
        var e, n := d.table[id], |f| - 2;
        if FromLittleEndian(f[n..]) != Checksum(d, f[1..n], e.crcExtra) then Bad(WrongChecksum, f)
        else if |f[6..n]| != Size(e.format) then Bad(WrongPayloadSize, f)
        else
          Good(Header(f[1], f[2], f[3], f[4], id), Reorder(e.order, Unpack(e.format, f[6..n])), f)
  }

  /** The fields as the receiver sees them. */
  function Delivered(e: Entry, fields: seq<Value>): seq<Value>
    requires |fields| == |e.format| == |e.order|
    requires forall k | 0 <= k < |e.order| :: e.order[k] < |e.format|
  {
    Reorder(e.order, NormalAll(e.format, WireOrder(e.order, fields)))
  }

  /** Each delivered field is the sent one, text padded to its field size. */
  lemma DeliveredFields(e: Entry, fields: seq<Value>)
    requires ValidEntry(e) && |fields| == |e.format|
    ensures forall k | 0 <= k < |fields| ::
              Delivered(e, fields)[k] == Normal(e.format[e.order[k]], fields[k])
  {
    ReorderInverts(e.order, fields);
    var wire := WireOrder(e.order, fields);
    forall k | 0 <= k < |fields|
      ensures Delivered(e, fields)[k] == Normal(e.format[e.order[k]], fields[k])
    {
      assert Reorder(e.order, wire)[k] == wire[e.order[k]];
    }
  }

  /** Decoding undoes framing: same identifier, addresses, sequence number and fields. */
  lemma FrameRoundTrip(d: Dialect, m: Message, sequence: nat, sys: Byte, comp: Byte)
    requires Sendable(d, m) && sequence < 256
    ensures var f, e := Frame(d, m, sequence, sys, comp), d.table[m.msgId];
            Decode(d, f) == Good(Header(Size(e.format), sequence, sys, comp, m.msgId),
                                 Delivered(e, m.fields), f)
  {
    var e := d.table[m.msgId];
    var wire := WireOrder(e.order, m.fields);
    WireFits(e, m.fields);
    var payload := Pack(e.format, wire);
    var body := HeaderBytes(Header(|payload|, sequence, sys, comp, m.msgId)) + payload;
    var crc := Checksum(d, body[1..], e.crcExtra);
    var f := Frame(d, m, sequence, sys, comp);
    assert f == body + LittleEndian(crc, 2);
    var n := |f| - 2;
    assert f[n..] == LittleEndian(crc, 2);
    assert Pow256(2) == 0x1_0000 by { assert Pow256(1) == 256; }
    LittleEndianRoundTrip(crc, 2);
    assert f[1..n] == body[1..];
    assert f[6..n] == payload;
    StructRoundTrip(e.format, wire);
  }

  // ---------------------------------------------------------------- frames, byte by byte

  /** The two bytes at the end, the first counting least. */
  function Trailer(f: seq<Byte>): int
    requires |f| >= 2
  {
    var low: int, high: int := f[|f| - 2], f[|f| - 1];
    low + 256 * high
  }

  /** Everything an undamaged frame has to satisfy: marker, length, known identifier, the size of
      its payload, and the checksum over all that follows the marker and the seed. */
  predicate Intact(d: Rules, f: seq<Byte>) {
    && |f| >= 8 && f[0] == 254
    && (var mlen: int := f[1]; mlen == |f| - 8)
    && (var id: int := f[5];
        && id in d.table
        && |f| - 8 == Size(d.table[id].format)
        && Trailer(f) == (d.x25)(f[1..|f| - 2] + [d.table[id].crcExtra]))
  }

  lemma TrailerIs(f: seq<Byte>)
    requires |f| >= 2
    ensures FromLittleEndian(f[|f| - 2..]) == Trailer(f)
  {
    var t := f[|f| - 2..];
    NumbersSpelled(t);
    assert t[0] == f[|f| - 2] && t[1] == f[|f| - 1];
  }

  /** The decoder accepts exactly the intact frames, and reads the header off their bytes. */
  lemma DecodeExactly(d: Dialect, f: seq<Byte>)
    ensures Decode(d, f).Good? <==> Intact(d, f)
    ensures Decode(d, f).Good? ==> Decode(d, f).header == Header(f[1], f[2], f[3], f[4], f[5])
  {
    if |f| >= 2 {
      TrailerIs(f);
    }
  }

  /** A frame that only its checksum gives away. */
  lemma WrongTrailer(d: Dialect, f: seq<Byte>)
    requires |f| >= 8 && f[0] == 254 && (var mlen: int := f[1]; mlen == |f| - 8)
    requires var id: int := f[5];
             id in d.table && Trailer(f) != (d.x25)(f[1..|f| - 2] + [d.table[id].crcExtra])
    ensures Decode(d, f) == Bad(WrongChecksum, f) && !Intact(d, f)
  {
    TrailerIs(f);
  }

  /** What a packed frame looks like on the wire. */
  lemma FrameLayout(d: Dialect, m: Message, sequence: nat, sys: Byte, comp: Byte)
    requires Sendable(d, m) && sequence < 256
    ensures var f, e := Frame(d, m, sequence, sys, comp), d.table[m.msgId];
            var n := |f| - 2;
            && n == Size(e.format) + 6
            && f[..6] == [254, Size(e.format), sequence, sys, comp, m.msgId]
            && f[6..n] == Payload(e, m.fields)
            && Trailer(f) == (d.x25)(f[1..n] + [e.crcExtra])
  {
    var e := d.table[m.msgId];
    var payload := Payload(e, m.fields);
    var body := HeaderBytes(Header(|payload|, sequence, sys, comp, m.msgId)) + payload;
    var crc := Checksum(d, body[1..], e.crcExtra);
    var f := Frame(d, m, sequence, sys, comp);
    var n := |f| - 2;
    assert f == body + LittleEndian(crc, 2);
    assert f[n..] == LittleEndian(crc, 2) && f[1..n] == body[1..] && f[6..n] == payload && f[..6] == body[..6];
    Powers();
    LittleEndianRoundTrip(crc, 2);
    TrailerIs(f);
  }

  /** The packed fields, in wire order. */
  function Payload(e: Entry, fields: seq<Value>): seq<Byte>
    requires ValidEntry(e) && FieldsFit(e, fields)
  {
    WireFits(e, fields);
    Pack(e.format, WireOrder(e.order, fields))
  }
}
