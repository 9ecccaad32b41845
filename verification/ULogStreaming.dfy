/** The receiver of the ULog-over-MAVLink stream: 16-bit sequence numbers, duplicate and
    reordering detection, and reassembly of length-prefixed messages from packets. */
module ULogStreaming {
  import opened Bytes

  const HALF: int := 0x8000
  const WRAP: int := 0x1_0000
  const NO_MESSAGE_START: nat := 255
  const ULOG_HEADER: nat := 16

  // ---------------------------------------------------------------- incoming traffic

  /** LOGGING_DATA_ACKED packets carry the header section, LOGGING_DATA the rest. */
  datatype Kind = LoggingDataAcked | LoggingData

  datatype Packet = Packet(
    kind: Kind, sequence: nat, length: nat, firstMessageOffset: nat, data: seq<Byte>)

  /** What one poll of the link can give. */
  datatype Incoming =
    | Timeout
    | CommandAck(isLoggingStart: bool, result: int)
    | Log(packet: Packet)

  // ---------------------------------------------------------------- receiver state

  datatype Receiver = Receiver(
    lastSequence: int,
    numDropouts: int,
    gotUlogHeader: bool,
    gotHeaderSection: bool,
    loggingStarted: bool,
    ulogMessage: seq<Byte>,
    file: seq<Byte>,
    acks: seq<nat>)

  datatype Outcome = Done(receiver: Receiver) | Raised(receiver: Receiver)

  const FRESH: Receiver := Receiver(-1, 0, false, false, false, [], [], [])

  // ---------------------------------------------------------------- specification

  /** Is `seq` newer than `last`, and how many packets lie between the two? */
  function Classify(last: int, seq_: int): (bool, int) {
    if last == -1 then (true, 0)
    else if seq_ == last then (false, 0)
    else if seq_ > last then
      if seq_ - last > HALF then (false, 0) else (true, seq_ - last - 1)
    else
      if last - seq_ > HALF then (true, WRAP - last - 1 + seq_) else (false, 0)
  }

  /** Length of a ULog message, read from its first two bytes (little endian) plus the
      three bytes of size and type. */
  function MessageLength(data: seq<Byte>): int
    requires |data| >= 2
  {
    var low: int, high: int := data[0], data[1];
    low + high * 256 + 3
  }

  /** `data` begins with a whole message. */
  predicate StartsComplete(data: seq<Byte>) {
    |data| > 2 && MessageLength(data) <= |data|
  }

  /** The whole messages at the front of `data` … */
  function Whole(data: seq<Byte>): seq<seq<Byte>>
    decreases |data|
  {
    if StartsComplete(data)
    then [data[..MessageLength(data)]] + Whole(data[MessageLength(data)..])
    else []
  }

  /** … and what is left after them. */
  function Rest(data: seq<Byte>): seq<Byte>
    decreases |data|
  {
    if StartsComplete(data) then Rest(data[MessageLength(data)..]) else data
  }

  /** The dropout record: ULog message of type 'O', 10 ms per lost packet, at most 25. */
  function DropoutRecord(drops: nat): seq<Byte> {
    [2, 0, 79, Min(drops, 25) * 10, 0]
  }

  /** For every number of lost packets the record is one ULog message of type 'O' (79) whose
      little-endian duration is 10 ms per packet, cut at 250 ms. */
  lemma DropoutStatesDuration(drops: nat)
    ensures var r := DropoutRecord(drops);
            && |r| == 5 && r[0] + 256 * r[1] + 3 == 5 && r[2] == 79
            && r[3] + 256 * r[4] == if drops < 25 then 10 * drops else 250
  {
  }

  function Written(r: Receiver, bytes: seq<Byte>): Receiver {
    r.(file := r.file + bytes)
  }

  /** After a gap: the dropout record (once past the header section), then whatever whole
      message is pending; an incomplete one is given up. */
  function Flushed(r: Receiver, drops: nat): Receiver {
    var r1 := if r.gotHeaderSection then Written(r, DropoutRecord(drops)) else r;
    Written(r1, Flatten(Whole(r1.ulogMessage))).(ulogMessage := [])
  }

  /** Data from an accepted packet once the 16-byte header is out of the way. */
  function ProcessBody(r: Receiver, data: seq<Byte>, start: nat, drops: int): Receiver {
    if drops > 0 then Resumed(Flushed(r, drops), data, start) else ProcessRun(r, data, start)
  }

  /** After a gap nothing before the first message start of the packet is of use. */
  function Resumed(r: Receiver, data: seq<Byte>, start: nat): Receiver {
    if start == NO_MESSAGE_START then r else ProcessRun(r, Drop(data, start), 0)
  }

  function ProcessRun(r: Receiver, data: seq<Byte>, start: nat): Receiver {
    if start == NO_MESSAGE_START && |r.ulogMessage| > 0 then
      r.(ulogMessage := r.ulogMessage + data)
    else
      var r1 := if |r.ulogMessage| > 0 then Written(r, r.ulogMessage + Take(data, start)) else r;
      var fresh_ := Drop(data, start);
      Written(r1, Flatten(Whole(fresh_))).(ulogMessage := Rest(fresh_))
  }

  function Process(r: Receiver, data: seq<Byte>, start: nat, drops: int): Outcome {
    if r.gotUlogHeader then Done(ProcessBody(r, data, start, drops))
    else if |data| < ULOG_HEADER then Raised(r)
    else
      Done(ProcessBody(Written(r, data[..ULOG_HEADER]).(gotUlogHeader := true),
                       data[ULOG_HEADER..], start, drops))
  }

  /** Bookkeeping of an accepted packet, before its data is processed. */
  function Accept(r: Receiver, p: Packet, drops: int): Receiver {
    r.(numDropouts := if drops > 0 then r.numDropouts + drops else r.numDropouts,
       loggingStarted := r.loggingStarted || (p.kind == LoggingData && !r.gotHeaderSection),
       gotHeaderSection := r.gotHeaderSection || p.kind == LoggingData,
       lastSequence := p.sequence)
  }

  function Acknowledge(r: Receiver, p: Packet): Receiver {
    if p.kind == LoggingDataAcked then r.(acks := r.acks + [p.sequence]) else r
  }

  /** Read a message, then process its data if it is news. */
  function Step(r: Receiver, m: Incoming): Outcome
  {
    match m
    case Timeout => Done(r)
    case CommandAck(isStart, result) =>
      if isStart && !r.gotHeaderSection then
        if result == 0 then Done(r.(loggingStarted := true)) else Raised(r)
      else Done(r)
    case Log(p) =>
      var (newer, drops) := Classify(r.lastSequence, p.sequence);
      var r1 := Acknowledge(r, p);
      if newer
      then Process(Accept(r1, p, drops), Take(p.data, p.length), p.firstMessageOffset, drops)
      else Done(r1)
  }

  /** The same with the check that ends each turn: logging must start within four seconds.
      `expired` says that they have passed. */
  function LoopStep(r: Receiver, m: Incoming, expired: bool): Outcome {
    var o := Step(r, m);
    if o.Done? && expired && !o.receiver.loggingStarted then Raised(o.receiver) else o
  }

  // ---------------------------------------------------------------- the splitter

  /** Two bytes of size, the low one first, a byte of type, and as many bytes as the size says. */
  predicate IsMessage(m: seq<Byte>) {
    |m| >= 3 && (var low: int, high: int := m[0], m[1]; |m| - 3 == low + 256 * high)
  }

  lemma FirstIsMessage(data: seq<Byte>)
    requires StartsComplete(data)
    ensures 3 <= MessageLength(data) <= |data| && IsMessage(data[..MessageLength(data)])
  {
  }

  /** Splitting loses nothing, yields only whole messages, and leaves less than one. */
  lemma {:induction false} SplitIsExact(data: seq<Byte>)
    ensures Flatten(Whole(data)) + Rest(data) == data
    ensures forall m :: m in Whole(data) ==> IsMessage(m)
    ensures !StartsComplete(Rest(data))
    decreases |data|
  {
    hide IsMessage, StartsComplete, MessageLength, Flatten;
    NothingFlattened<Byte>();
    if StartsComplete(data) {
      FirstIsMessage(data);
      var n := MessageLength(data);
      var tail := data[n..];
      SplitIsExact(tail);
      assert data[..n] + tail == data;
      Assoc(data[..n], Flatten(Whole(tail)), Rest(tail));
      FlattenCons(data[..n], Whole(tail));
    }
  }

  /** Splitting undoes concatenation: messages followed by an incomplete tail come back. */
  lemma {:induction false} SplitInvertsConcat(messages: seq<seq<Byte>>, tail: seq<Byte>)
    requires forall m :: m in messages ==> IsMessage(m)
    requires !StartsComplete(tail)
    ensures Whole(Flatten(messages) + tail) == messages
    ensures Rest(Flatten(messages) + tail) == tail
  {
    if messages == [] {
      assert Flatten(messages) + tail == tail;
    } else {
      var data := Flatten(messages) + tail;
      var n := |messages[0]|;
      assert IsMessage(messages[0]);
      assert data == messages[0] + (Flatten(messages[1..]) + tail);
      assert data[..n] == messages[0] && data[n..] == Flatten(messages[1..]) + tail;
      assert messages == [messages[0]] + messages[1..];
      SplitInvertsConcat(messages[1..], tail);
    }
  }

  // ---------------------------------------------------------------- sequence numbers

  /** The order of section 3.2 of RFC 1982 with SERIAL_BITS = 16: `a` precedes `b`. */
  predicate SerialLess(a: int, b: int) {
    (a < b && b - a < 32768) || (a > b && a - b > 32768)
  }

  /** The newer test is the RFC 1982 order wherever that order is defined; on the undefined
      pairs (half the number space apart) it takes the larger number for the newer one. */
  lemma NewerIsSerialOrder(last: int, seq_: int)
    requires 0 <= last < 65536 && 0 <= seq_ < 65536
    ensures last - seq_ != 32768 && seq_ - last != 32768
            ==> (Classify(last, seq_).0 <==> SerialLess(last, seq_))
    ensures last - seq_ == 32768 || seq_ - last == 32768
            ==> (Classify(last, seq_).0 <==> last < seq_)
                && !SerialLess(last, seq_) && !SerialLess(seq_, last)
  {
  }

  /** On absolute packet indices less than half the number space apart, the 16-bit test
      recovers both the order and the exact number of packets in between. */
  lemma ClassifyRecoversIndex(lastIndex: nat, index: nat)
    requires -32768 < index - lastIndex < 32768
    ensures Classify(lastIndex % 65536, index % 65536)
            == (index > lastIndex, if index > lastIndex then index - lastIndex - 1 else 0)
  {
    var d := index - lastIndex;
    var a, b := lastIndex % 65536, index % 65536;
    var qa, qb := lastIndex / 65536, index / 65536;
    assert lastIndex == 65536 * qa + a && index == 65536 * qb + b;
    assert d == 65536 * (qb - qa) + (b - a);
    assert -1 <= qb - qa <= 1;
  }

  // ---------------------------------------------------------------- the program

  /** The stateful receiver. `State` is the abstract value its methods are specified by. */
  class LogStreaming {
    var lastSequence: int
    var numDropouts: int
    var gotUlogHeader: bool
    var gotHeaderSection: bool
    var loggingStarted: bool
    var ulogMessage: seq<Byte>
    var file: seq<Byte>
    var acks: seq<nat>

    function State(): Receiver
      reads this
    {
      Receiver(lastSequence, numDropouts, gotUlogHeader, gotHeaderSection, loggingStarted,
               ulogMessage, file, acks)
    }

    constructor ()
      ensures State() == FRESH
    {
      lastSequence, numDropouts := -1, 0;
      gotUlogHeader, gotHeaderSection, loggingStarted := false, false, false;
      ulogMessage, file, acks := [], [], [];
    }

    method CheckSequence(seq_: int) returns (newer: bool, drops: int)
      ensures (newer, drops) == Classify(lastSequence, seq_)
    {
      if lastSequence == -1 { return true, 0; }
      if seq_ == lastSequence { return false, 0; }
      if seq_ > lastSequence {
        if seq_ - lastSequence > HALF { return false, 0; }
        return true, seq_ - lastSequence - 1;
      } else {
        if lastSequence - seq_ > HALF {
          return true, WRAP - lastSequence - 1 + seq_;
        }
        return false, 0;
      }
    }

    /** Writes the whole messages at the front of `data`; returns what is left. */
    method WriteUlogMessages(data: seq<Byte>) returns (rest: seq<Byte>)
      modifies this`file
      ensures file == old(file) + Flatten(Whole(data))
      ensures rest == Rest(data)
    {
      hide Flatten;
      rest := data;
      assert Flatten<Byte>([]) == [] by { NothingFlattened<Byte>(); }
      ghost var done: seq<seq<Byte>> := [];
      while |rest| > 2
        invariant Whole(data) == done + Whole(rest)
        invariant Rest(data) == Rest(rest)
        invariant file == old(file) + Flatten(done)
        decreases |rest|
      {
        var messageLength := MessageLength(rest);
        if messageLength > |rest| { break; }
        file := file + rest[..messageLength];
        FlattenAppend(done, rest[..messageLength]);
        done := done + [rest[..messageLength]];
        rest := rest[messageLength..];
      }
      assert Whole(rest) == [] && done + [] == done;
    }

    method ProcessStreamedUlogData(data: seq<Byte>, firstMessageStart: nat, numDrops: int)
      returns (ok: bool)
      modifies this
      ensures Process(old(State()), data, firstMessageStart, numDrops)
              == if ok then Done(State()) else Raised(State())
    {
      var body, start := data, firstMessageStart;
      if !gotUlogHeader {
        if |data| < ULOG_HEADER { return false; }
        file := file + data[..ULOG_HEADER];
        body := data[ULOG_HEADER..];
        gotUlogHeader := true;
      }
      if gotHeaderSection && numDrops > 0 {
        file := file + DropoutRecord(numDrops);
      }
      if numDrops > 0 {
        var _ := WriteUlogMessages(ulogMessage);
        ulogMessage := [];
        if start == NO_MESSAGE_START { return true; }
        body := Drop(body, start);
        start := 0;
      }
      if start == NO_MESSAGE_START && |ulogMessage| > 0 {
        ulogMessage := ulogMessage + body;
        return true;
      }
      if |ulogMessage| > 0 {
        file := file + (ulogMessage + Take(body, start));
        ulogMessage := [];
      }
      var rest := WriteUlogMessages(Drop(body, start));
      ulogMessage := rest;
      return true;
    }

    /** What `read_message` records of a packet that is news. */
    method CountPacket(p: Packet, drops: int)
      modifies this
      ensures State() == Accept(old(State()), p, drops)
    {
      if drops > 0 {
        numDropouts := numDropouts + drops;
      }
      if p.kind == LoggingData && !gotHeaderSection {
        loggingStarted := true;
        gotHeaderSection := true;
      }
      lastSequence := p.sequence;
    }

    /** One turn of the main loop, start timeout included. */
    method LoopTurn(m: Incoming, expired: bool) returns (ok: bool)
      modifies this
      ensures LoopStep(old(State()), m, expired) == if ok then Done(State()) else Raised(State())
    {
      ok := ReceiveOne(m);
      if ok && !loggingStarted && expired { return false; }
    }

    /** Reads and processes one message. `ok` is false exactly when the program raises. */
    method ReceiveOne(m: Incoming) returns (ok: bool)
      modifies this
      ensures Step(old(State()), m) == if ok then Done(State()) else Raised(State())
    {
      match m {
        case Timeout => return true;
        case CommandAck(isStart, result) =>
          if isStart && !gotHeaderSection {
            if result != 0 { return false; }
            loggingStarted := true;
          }
          return true;
        case Log(p) =>
          var newer, drops := CheckSequence(p.sequence);
          if p.kind == LoggingDataAcked {
            acks := acks + [p.sequence];
          }
          if !newer { return true; }
          CountPacket(p, drops);
          ok := ProcessStreamedUlogData(Take(p.data, p.length), p.firstMessageOffset, drops);
      }
    }
  }
}
