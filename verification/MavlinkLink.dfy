/** The protocol object: one class that sends and receives. Its methods are specified by the
    functions of the codec and parser modules. */
module MavlinkLink {
  import opened Bytes
  import opened MavlinkCodec
  import opened MavlinkParser

  class MAVLink {
    const dialect: Dialect
    const srcSystem: Byte
    const srcComponent: Byte
    var sequence: nat
    var file: seq<Byte>
    var buf: seq<Byte>
    var expectedLength: nat
    var havePrefixError: bool
    var robustParsing: bool
    var totalPacketsSent: nat
    var totalBytesSent: nat
    var totalPacketsReceived: nat
    var totalBytesReceived: nat
    var totalReceiveErrors: nat

    function Sending(): Sender
      reads this
    {
      Sender(sequence, srcSystem, srcComponent, file, totalPacketsSent, totalBytesSent)
    }

    function Receiving(): Parser
      reads this
    {
      Parser(buf, expectedLength, havePrefixError, robustParsing,
             totalPacketsReceived, totalBytesReceived, totalReceiveErrors)
    }

    constructor (d: Dialect, system: Byte, component: Byte)
      ensures dialect == d && srcSystem == system && srcComponent == component
      ensures Sending() == Sender(0, system, component, [], 0, 0)
      ensures Receiving() == FreshParser(false)
    {
      dialect, srcSystem, srcComponent := d, system, component;
      sequence, file, totalPacketsSent, totalBytesSent := 0, [], 0, 0;
      buf, expectedLength, havePrefixError, robustParsing := [], 6, false, false;
      totalPacketsReceived, totalBytesReceived, totalReceiveErrors := 0, 0, 0;
    }

    method Send(m: Message)
      requires Sendable(dialect, m) && sequence < 255
      modifies this`sequence, this`file, this`totalPacketsSent, this`totalBytesSent
      ensures sequence < 255
      ensures Sending() == SendFrame(old(Sending()),
                                     EncoderOf(dialect, srcSystem, srcComponent)(m, old(sequence)))
    {
      hide Frame, EncoderOf, Sendable;
      EncoderIs(dialect, srcSystem, srcComponent, m, sequence);
      var frame := Frame(dialect, m, sequence, srcSystem, srcComponent);
      file := file + frame;
      sequence := (sequence + 1) % 255;
      totalPacketsSent := totalPacketsSent + 1;
      totalBytesSent := totalBytesSent + |frame|;
    }

    method BytesNeeded() returns (n: nat)
      ensures n == BytesNeededBy(Receiving())
      ensures n >= 1
    {
      var ret := expectedLength - |buf|;
      if ret <= 0 { return 1; }
      return ret;
    }

    /** Puts struct items into declared order, one slot at a time. */
    method SortFields(order: seq<nat>, t: seq<Value>) returns (fields: seq<Value>)
      requires |order| == |t| && forall k | 0 <= k < |order| :: order[k] < |t|
      ensures fields == Reorder(order, t)
    {
      fields := t;
      for i := 0 to |t|
        invariant |fields| == |t|
        invariant forall k | 0 <= k < i :: fields[k] == t[order[k]]
      {
        fields := fields[i := t[order[i]]];
      }
    }

    method DecodeFrame(msgbuf: seq<Byte>) returns (r: Received)
      ensures r == Decode(dialect, msgbuf)
    {
      if |msgbuf| < 6 { return Bad(ShortHeader, msgbuf); }
      if msgbuf[0] != MARKER { return Bad(BadPrefix, msgbuf); }
      if msgbuf[1] != |msgbuf| - 8 { return Bad(WrongLength, msgbuf); }
      var id: int := msgbuf[5];
      if id !in dialect.table { return Bad(UnknownId, msgbuf); }
      var e, n := dialect.table[id], |msgbuf| - 2;
      if FromLittleEndian(msgbuf[n..]) != Checksum(dialect, msgbuf[1..n], e.crcExtra) {
        return Bad(WrongChecksum, msgbuf);
      }
      if |msgbuf[6..n]| != Size(e.format) { return Bad(WrongPayloadSize, msgbuf); }
      var fields := SortFields(e.order, Unpack(e.format, msgbuf[6..n]));
      return Good(Header(msgbuf[1], msgbuf[2], msgbuf[3], msgbuf[4], id), fields, msgbuf);
    }

    method ParseChar(c: seq<Byte>) returns (o: Outcome)
      modifies this`buf, this`expectedLength, this`havePrefixError,
               this`totalPacketsReceived, this`totalBytesReceived, this`totalReceiveErrors
      ensures (Receiving(), o) == Parse(DecoderOf(dialect), Supplied(old(Receiving()), c))
    {
      hide Decode, Size, Unpack, Reorder;
      buf := buf + c;
      totalBytesReceived := totalBytesReceived + |c|;
      if |buf| >= 1 && buf[0] != MARKER {
        var magic := buf[..1];
        buf := buf[1..];
        if robustParsing {
          expectedLength := 6;
          totalReceiveErrors := totalReceiveErrors + 1;
          return Returned(Bad(BadPrefix, magic));
        }
        if havePrefixError { return Nothing; }
        havePrefixError := true;
        totalReceiveErrors := totalReceiveErrors + 1;
        return Raised(BadPrefix);
      }
      havePrefixError := false;
      if |buf| >= 2 {
        expectedLength := Announced(buf);
      }
      if expectedLength >= 8 && |buf| >= expectedLength {
        var mbuf := buf[..expectedLength];
        buf := buf[expectedLength..];
        expectedLength := 6;
        var m := DecodeFrame(mbuf);
        if m.Good? {
          totalPacketsReceived := totalPacketsReceived + 1;
        } else if robustParsing {
          totalReceiveErrors := totalReceiveErrors + 1;
        } else {
          return Raised(m.reason);
        }
        return Returned(m);
      }
      return Nothing;
    }

    /** All messages the supplied bytes complete. `raised` stands for an escaping exception,
        which discards the messages collected so far. */
    method ParseBuffer(s: seq<Byte>) returns (ret: seq<Received>, raised: bool)
      modifies this`buf, this`expectedLength, this`havePrefixError,
               this`totalPacketsReceived, this`totalBytesReceived, this`totalReceiveErrors
      ensures ParseAll(DecoderOf(dialect), Supplied(old(Receiving()), s))
              == Drained(Receiving(), ret, raised)
    {
      hide Parse, ParseAll, DecoderOf;
      ghost var decode := DecoderOf(dialect);
      ghost var all := ParseAll(decode, Supplied(Receiving(), s));
      ret := [];
      var m := ParseChar(s);
      FirstStage(decode, Supplied(old(Receiving()), s));
      while m.Returned?
        invariant all == Pending(decode, Receiving(), m, ret)
        decreases |buf|, m.Returned?
      {
        NextStage(decode, Receiving(), ret, m.received);
        ret := ret + [m.received];
        m := ParseChar([]);
      }
      raised := m.Raised?;
    }

    /** A run of `send`. */
    method SendAllOf(ms: seq<Message>)
      requires sequence < 255 && forall k | 0 <= k < |ms| :: Sendable(dialect, ms[k])
      modifies this`sequence, this`file, this`totalPacketsSent, this`totalBytesSent
      ensures sequence < 255
      ensures Sending() == SendAll(EncoderOf(dialect, srcSystem, srcComponent), old(Sending()), ms)
    {
      ghost var encode := EncoderOf(dialect, srcSystem, srcComponent);
      for k := 0 to |ms|
        invariant sequence < 255 && Sending() == SendAll(encode, old(Sending()), ms[..k])
      {
        assert ms[..k + 1][..k] == ms[..k];
        Send(ms[k]);
      }
      assert ms[..|ms|] == ms;
    }

    /** A run of `parse_buffer` in robust mode: one call per chunk. */
    method ReceiveAllOf(chunks: seq<seq<Byte>>) returns (received: seq<Received>)
      requires robustParsing && Sane(Receiving())
      modifies this`buf, this`expectedLength, this`havePrefixError,
               this`totalPacketsReceived, this`totalBytesReceived, this`totalReceiveErrors
      ensures (Receiving(), received) == FeedAll(DecoderOf(dialect), old(Receiving()), chunks)
    {
      ghost var decode := DecoderOf(dialect);
      ghost var whole := FeedAll(decode, Receiving(), chunks);
      received := [];
      assert chunks[0..] == chunks && [] + whole.1 == whole.1;
      for k := 0 to |chunks|
        invariant robustParsing && Sane(Receiving())
        invariant whole == After(received, FeedAll(decode, Receiving(), chunks[k..]))
      {
        FeedNext(decode, Receiving(), received, chunks[k..]);
        RobustFeed(decode, Receiving(), chunks[k]);
        var more, raised := ParseBuffer(chunks[k]);
        assert chunks[k..][1..] == chunks[k + 1..];
        received := received + more;
      }
      assert chunks[|chunks|..] == [] && received + [] == received;
    }
  }

  /** Messages received earlier come first. */
  ghost function After(earlier: seq<Received>, r: (Parser, seq<Received>)): (Parser, seq<Received>) {
    (r.0, earlier + r.1)
  }

  lemma FeedNext(decode: Decoder, s: Parser, earlier: seq<Received>, chunks: seq<seq<Byte>>)
    requires chunks != []
    ensures var (s1, ms) := Feed(decode, s, chunks[0]);
            After(earlier, FeedAll(decode, s, chunks))
            == After(earlier + ms, FeedAll(decode, s1, chunks[1..]))
  {
    var (s1, ms) := Feed(decode, s, chunks[0]);
    Assoc(earlier, ms, FeedAll(decode, s1, chunks[1..]).1);
  }

  /** Two ends of a link: what one object sends, the other receives, as `EndToEnd` says. */
  method Relay(d: Dialect, system: Byte, component: Byte, ms: seq<Message>, cut: seq<nat>)
    returns (received: seq<Received>)
    requires forall k | 0 <= k < |ms| :: Sendable(d, ms[k])
    ensures |received| == |ms|
    ensures forall k | 0 <= k < |ms| ::
              received[k] == ReportOf(d, system, component)(ms[k], k % 255)
  {
    var sender := new MAVLink(d, system, component);
    sender.SendAllOf(ms);
    var chunks := Cut(sender.file, cut);
    var receiver := new MAVLink(d, system, component);
    receiver.robustParsing := true;
    received := receiver.ReceiveAllOf(chunks);
    EndToEnd(d, system, component, ms, chunks);
  }

  /** The link cuts the bytes into chunks of the given sizes, as long as they last. */
  function Cut(bytes: seq<Byte>, sizes: seq<nat>): (chunks: seq<seq<Byte>>)
    ensures Flatten(chunks) == bytes
    decreases |sizes|
  {
    if sizes == [] then assert Flatten([bytes]) == bytes; [bytes]
    else
      var rest := Cut(Drop(bytes, sizes[0]), sizes[1..]);
      FlattenCons(Take(bytes, sizes[0]), rest);
      assert Take(bytes, sizes[0]) + Drop(bytes, sizes[0]) == bytes;
      [Take(bytes, sizes[0])] + rest
  }
}
