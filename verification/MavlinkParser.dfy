/** The MAVLink sender and the incremental parser with resynchronisation. */
module MavlinkParser {
  import opened Bytes
  import opened MavlinkCodec

  /** The parser treats the frame decoder as a function of the frame's bytes. */
  type Decoder = seq<Byte> -> Received

  function DecoderOf(d: Dialect): Decoder {
    (f: seq<Byte>) => Decode(d, f)
  }

  // ---------------------------------------------------------------- parser state

  datatype Parser = Parser(
    buf: seq<Byte>,
    expectedLength: nat,
    havePrefixError: bool,
    robust: bool,
    packetsReceived: nat,
    bytesReceived: nat,
    receiveErrors: nat)

  datatype Outcome = Nothing | Returned(received: Received) | Raised(reason: Reason)

  /** The expected length is the initial 6, or comes from the header in the buffer. */
  predicate Sane(s: Parser) {
    || s.expectedLength == 6
    || (|s.buf| >= 2 && s.buf[0] == MARKER && s.expectedLength - 8 == s.buf[1])
  }

  function FreshParser(robust: bool): Parser {
    Parser([], 6, false, robust, 0, 0, 0)
  }

  // ---------------------------------------------------------------- specification

  function BytesNeededBy(s: Parser): nat {
    if s.expectedLength - |s.buf| <= 0 then 1 else s.expectedLength - |s.buf|
  }

  function Supplied(s: Parser, c: seq<Byte>): Parser {
    s.(buf := s.buf + c, bytesReceived := s.bytesReceived + |c|)
  }

  /** Length of the frame announced by the header at the front of `buf`. */
  function Announced(buf: seq<Byte>): nat
    requires |buf| >= 2
  {
    var mlen: int := buf[1];
    mlen + 8
  }

  function DropPrefix(s: Parser): (Parser, Outcome)
    requires |s.buf| >= 1
  {
    var s1 := s.(buf := s.buf[1..]);
    if s.robust then
      (s1.(expectedLength := 6, receiveErrors := s.receiveErrors + 1),
       Returned(Bad(BadPrefix, s.buf[..1])))
    else if s.havePrefixError then (s1, Nothing)
    else (s1.(havePrefixError := true, receiveErrors := s.receiveErrors + 1), Raised(BadPrefix))
  }

  function TakeFrame(decode: Decoder, s: Parser, n: nat): (Parser, Outcome)
    requires n <= |s.buf|
  {
    var s1, r := s.(buf := s.buf[n..], expectedLength := 6), decode(s.buf[..n]);
    if r.Good? then (s1.(packetsReceived := s.packetsReceived + 1), Returned(r))
    else if s.robust then (s1.(receiveErrors := s.receiveErrors + 1), Returned(r))
    else (s1, Raised(r.reason))
  }

  /** One parsing stage on the bytes already in the buffer. */
  function Parse(decode: Decoder, s: Parser): (Parser, Outcome)
  {
    if |s.buf| >= 1 && s.buf[0] != MARKER then DropPrefix(s)
    else
      var s1 := s.(havePrefixError := false,
                   expectedLength := if |s.buf| >= 2 then Announced(s.buf) else s.expectedLength);
      if s1.expectedLength >= 8 && |s1.buf| >= s1.expectedLength
      then TakeFrame(decode, s1, s1.expectedLength)
      else (s1, Nothing)
  }

  datatype Drained = Drained(parser: Parser, messages: seq<Received>, raised: bool)

  /** Parsing stages until one yields nothing (or raises). */
  function ParseAll(decode: Decoder, s: Parser): Drained
    decreases |s.buf|
  {
    var (s1, o) := Parse(decode, s);
    match o
    case Nothing => Drained(s1, [], false)
    case Raised(_) => Drained(s1, [], true)
    case Returned(m) =>
      var rest := ParseAll(decode, s1);
      rest.(messages := [m] + rest.messages)
  }

  /** The result of parsing everything, when the latest stage gave `o` and left `s`, and the
      stages before it gave `ms`. */
  function Pending(decode: Decoder, s: Parser, o: Outcome, ms: seq<Received>): Drained {
    match o
    case Nothing => Drained(s, ms, false)
    case Raised(_) => Drained(s, ms, true)
    case Returned(m) =>
      var rest := ParseAll(decode, s);
      rest.(messages := ms + ([m] + rest.messages))
  }

  lemma FirstStage(decode: Decoder, s: Parser)
    ensures var (s1, o) := Parse(decode, s);
            ParseAll(decode, s) == Pending(decode, s1, o, [])
  {
  }

  lemma ParseShrinks(decode: Decoder, s: Parser)
    ensures var (s1, o) := Parse(decode, s);
            |s1.buf| <= |s.buf| && (o.Returned? ==> |s1.buf| < |s.buf|)
  {
  }

  /** Running one more stage with no new bytes. */
  lemma NextStage(decode: Decoder, s: Parser, ms: seq<Received>, m: Received)
    ensures var (s1, o) := Parse(decode, Supplied(s, []));
            && Pending(decode, s, Returned(m), ms) == Pending(decode, s1, o, ms + [m])
            && |s1.buf| <= |s.buf| && (o.Returned? ==> |s1.buf| < |s.buf|)
  {
    hide Parse;
    assert Supplied(s, []) == s;
    ParseShrinks(decode, s);
    var rest := ParseAll(decode, s);
    var (s1, o) := Parse(decode, s);
    if o.Returned? {
      Assoc(ms, [m], rest.messages);
    }
  }

  // ---------------------------------------------------------------- buffers, stateless

  /** The buffer holds no more than an unfinished frame. */
  predicate Waiting(buf: seq<Byte>) {
    buf == [] || (buf[0] == MARKER && (|buf| < 2 || |buf| < Announced(buf)))
  }

  /** How many bytes the next item takes. */
  function ItemLength(buf: seq<Byte>): (n: nat)
    requires !Waiting(buf)
    ensures 1 <= n <= |buf|
  {
    if buf[0] != MARKER then 1 else Announced(buf)
  }

  function ItemOf(decode: Decoder, buf: seq<Byte>): Received
    requires !Waiting(buf)
  {
    if buf[0] != MARKER then Bad(BadPrefix, buf[..1]) else decode(buf[..Announced(buf)])
  }

  function Messages(decode: Decoder, buf: seq<Byte>): seq<Received>
    decreases |buf|
  {
    if Waiting(buf) then [] else [ItemOf(decode, buf)] + Messages(decode, buf[ItemLength(buf)..])
  }

  function Remains(buf: seq<Byte>): (rest: seq<Byte>)
    ensures Waiting(rest)
    decreases |buf|
  {
    if Waiting(buf) then buf else Remains(buf[ItemLength(buf)..])
  }

  function Goods(ms: seq<Received>): nat {
    if ms == [] then 0 else (if ms[0].Good? then 1 else 0) + Goods(ms[1..])
  }

  function Bads(ms: seq<Received>): nat {
    if ms == [] then 0 else (if ms[0].Bad? then 1 else 0) + Bads(ms[1..])
  }

  /** A robust parser after its buffer is drained: everything is a function of the bytes. */
  function Settled(decode: Decoder, s: Parser): Parser
  {
    var rest, ms := Remains(s.buf), Messages(decode, s.buf);
    Parser(rest, if |rest| >= 2 then Announced(rest) else 6, false, s.robust,
           s.packetsReceived + Goods(ms), s.bytesReceived, s.receiveErrors + Bads(ms))
  }

  // ---------------------------------------------------------------- robust parsing

  lemma ParseWaiting(decode: Decoder, s: Parser)
    requires Sane(s) && Waiting(s.buf)
    ensures Parse(decode, s) == (Settled(decode, s), Nothing)
  {
  }

  /** One stage takes exactly one item off the buffer. */
  lemma ParseItem(decode: Decoder, s: Parser)
    requires s.robust && !Waiting(s.buf)
    ensures var (s1, o) := Parse(decode, s);
            && o == Returned(ItemOf(decode, s.buf))
            && s1.buf == s.buf[ItemLength(s.buf)..]
            && s1.expectedLength == 6 && s1.robust && s1.bytesReceived == s.bytesReceived
            && s1.packetsReceived == s.packetsReceived + (if o.received.Good? then 1 else 0)
            && s1.receiveErrors == s.receiveErrors + (if o.received.Bad? then 1 else 0)
  {
  }

  /** A robust parser never raises; its messages and final state depend on the bytes only. */
  lemma {:induction false} RobustParse(decode: Decoder, s: Parser)
    requires s.robust && Sane(s)
    ensures ParseAll(decode, s) == Drained(Settled(decode, s), Messages(decode, s.buf), false)
    decreases |s.buf|
  {
    if Waiting(s.buf) {
      ParseWaiting(decode, s);
    } else {
      ParseItem(decode, s);
      var s1 := Parse(decode, s).0;
      RobustParse(decode, s1);
      var m, rest := ItemOf(decode, s.buf), Messages(decode, s1.buf);
      assert Messages(decode, s.buf) == [m] + rest;
      assert ([m] + rest)[1..] == rest;
    }
  }

  /** So `parse_buffer` on a robust parser is `Feed`. */
  lemma RobustFeed(decode: Decoder, s: Parser, c: seq<Byte>)
    requires s.robust && Sane(s)
    ensures var (s1, ms) := Feed(decode, s, c);
            ParseAll(decode, Supplied(s, c)) == Drained(s1, ms, false) && Sane(s1) && s1.robust
  {
    RobustParse(decode, Supplied(s, c));
  }

  // ---------------------------------------------------------------- chunking

  /** More bytes do not change an item that is already complete. */
  lemma ItemStable(decode: Decoder, a: seq<Byte>, b: seq<Byte>)
    requires !Waiting(a)
    ensures !Waiting(a + b) && ItemLength(a + b) == ItemLength(a)
    ensures ItemOf(decode, a + b) == ItemOf(decode, a)
    ensures (a + b)[ItemLength(a)..] == a[ItemLength(a)..] + b
  {
    var n := ItemLength(a);
    assert (a + b)[..n] == a[..n];
  }

  /** Parsing `a`, then what is left with `b` behind it, is parsing `a + b`. */
  lemma {:induction false} SplitAnywhere(decode: Decoder, a: seq<Byte>, b: seq<Byte>)
    ensures Messages(decode, a + b) == Messages(decode, a) + Messages(decode, Remains(a) + b)
    ensures Remains(a + b) == Remains(Remains(a) + b)
    decreases |a|
  {
    if !Waiting(a) {
      var tail := a[ItemLength(a)..];
      ItemStable(decode, a, b);
      SplitAnywhere(decode, tail, b);
      Assoc([ItemOf(decode, a)], Messages(decode, tail), Messages(decode, Remains(tail) + b));
    }
  }

  lemma {:induction false} CountsAdd(a: seq<Received>, b: seq<Received>)
    ensures Goods(a + b) == Goods(a) + Goods(b)
    ensures Bads(a + b) == Bads(a) + Bads(b)
  {
    if a == [] {
      assert a + b == b;
    } else {
      assert (a + b)[1..] == a[1..] + b;
      CountsAdd(a[1..], b);
    }
  }

  /** `parse_buffer` in robust mode, as a function of the bytes supplied. */
  function Feed(decode: Decoder, s: Parser, c: seq<Byte>): (Parser, seq<Received>)
  {
    (Settled(decode, Supplied(s, c)), Messages(decode, s.buf + c))
  }

  /** Chunking does not matter: same messages, same buffer, same counters. */
  lemma ChunkIndependence(decode: Decoder, s: Parser, a: seq<Byte>, b: seq<Byte>)
    ensures var (s1, ms1) := Feed(decode, s, a);
            var (s2, ms2) := Feed(decode, s1, b);
            Feed(decode, s, a + b) == (s2, ms1 + ms2)
  {
    Assoc(s.buf, a, b);
    SplitAnywhere(decode, s.buf + a, b);
    SettledInTwo(decode, s, a, b);
  }

  lemma SettledInTwo(decode: Decoder, s: Parser, a: seq<Byte>, b: seq<Byte>)
    ensures Settled(decode, Supplied(Settled(decode, Supplied(s, a)), b))
            == Settled(decode, Supplied(s, a + b))
  {
    Assoc(s.buf, a, b);
    SplitAnywhere(decode, s.buf + a, b);
    CountsAdd(Messages(decode, s.buf + a), Messages(decode, Remains(s.buf + a) + b));
  }

  function FeedAll(decode: Decoder, s: Parser, chunks: seq<seq<Byte>>): (Parser, seq<Received>)
    decreases |chunks|
  {
    if chunks == [] then (s, [])
    else
      var (s1, ms1) := Feed(decode, s, chunks[0]);
      var (s2, ms2) := FeedAll(decode, s1, chunks[1..]);
      (s2, ms1 + ms2)
  }

  /** Any chunking of the same bytes is one single chunk. */
  lemma {:induction false} AnyChunking(decode: Decoder, s: Parser, chunks: seq<seq<Byte>>)
    requires chunks != []
    ensures FeedAll(decode, s, chunks) == Feed(decode, s, Flatten(chunks))
    decreases |chunks|
  {
    var (s1, ms1) := Feed(decode, s, chunks[0]);
    if |chunks| == 1 {
      assert chunks[1..] == [] && Flatten(chunks) == chunks[0];
      assert ms1 + [] == ms1;
    } else {
      AnyChunking(decode, s1, chunks[1..]);
      ChunkIndependence(decode, s, chunks[0], Flatten(chunks[1..]));
    }
  }

  // ---------------------------------------------------------------- conservation

  function Raws(ms: seq<Received>): seq<seq<Byte>> {
    seq(|ms|, k requires 0 <= k < |ms| => ms[k].raw)
  }

  /** The decoder hands the frame on with what it made of it. */
  ghost predicate KeepsRaw(decode: Decoder) {
    forall f: seq<Byte> :: decode(f).raw == f
  }

  lemma DecoderKeepsRaw(d: Dialect)
    ensures KeepsRaw(DecoderOf(d))
  {
  }

  lemma ItemRaw(decode: Decoder, buf: seq<Byte>)
    requires KeepsRaw(decode) && !Waiting(buf)
    ensures ItemOf(decode, buf).raw == buf[..ItemLength(buf)]
  {
  }

  lemma {:induction false} AllCounted(ms: seq<Received>)
    ensures Goods(ms) + Bads(ms) == |ms|
  {
    if ms != [] {
      AllCounted(ms[1..]);
    }
  }

  lemma RawsCons(m: Received, rest: seq<Received>)
    ensures Flatten(Raws([m] + rest)) == m.raw + Flatten(Raws(rest))
  {
    assert Raws([m] + rest) == [m.raw] + Raws(rest);
    assert ([m.raw] + Raws(rest))[1..] == Raws(rest);
  }

  /** No byte is lost or invented: what was returned, then the buffer, is what came in. */
  lemma {:induction false} NothingVanishes(decode: Decoder, buf: seq<Byte>)
    requires KeepsRaw(decode)
    ensures Flatten(Raws(Messages(decode, buf))) + Remains(buf) == buf
    decreases |buf|
  {
    if !Waiting(buf) {
      NothingVanishes(decode, buf[ItemLength(buf)..]);
      NothingVanishesStep(decode, buf);
    }
  }

  lemma NothingVanishesStep(decode: Decoder, buf: seq<Byte>)
    requires KeepsRaw(decode) && !Waiting(buf)
    requires var tail := buf[ItemLength(buf)..];
             Flatten(Raws(Messages(decode, tail))) + Remains(tail) == tail
    ensures Flatten(Raws(Messages(decode, buf))) + Remains(buf) == buf
  {
    var n := ItemLength(buf);
    ItemRaw(decode, buf);
    RawPrepended(ItemOf(decode, buf), Messages(decode, buf[n..]), Remains(buf[n..]), buf, n);
  }

  lemma RawPrepended(m: Received, rest: seq<Received>, remains: seq<Byte>, buf: seq<Byte>, n: nat)
    requires n <= |buf| && m.raw == buf[..n] && Flatten(Raws(rest)) + remains == buf[n..]
    ensures Flatten(Raws([m] + rest)) + remains == buf
  {
    RawsCons(m, rest);
    Assoc(m.raw, Flatten(Raws(rest)), remains);
    assert buf == buf[..n] + buf[n..];
  }

  /** The same over whole runs, for every chunking, from a fresh robust parser. */
  lemma Conservation(decode: Decoder, chunks: seq<seq<Byte>>)
    requires KeepsRaw(decode)
    ensures var (s, ms) := FeedAll(decode, FreshParser(true), chunks);
            && Flatten(Raws(ms)) + s.buf == Flatten(chunks)
            && s.bytesReceived == |Flatten(chunks)|
            && s.packetsReceived + s.receiveErrors == |ms|
  {
    if chunks != [] {
      AnyChunking(decode, FreshParser(true), chunks);
      assert [] + Flatten(chunks) == Flatten(chunks);
      NothingVanishes(decode, Flatten(chunks));
      AllCounted(Messages(decode, Flatten(chunks)));
    }
  }

  // ---------------------------------------------------------------- sender to receiver

  /** `f` is a well-formed frame that decodes to `r`. */
  predicate FrameOf(decode: Decoder, f: seq<Byte>, r: Received) {
    |f| >= 8 && f[0] == MARKER && |f| - 8 == f[1] && decode(f) == r
  }

  lemma FrameParses(decode: Decoder, f: seq<Byte>, r: Received, tail: seq<Byte>)
    requires FrameOf(decode, f, r)
    ensures Messages(decode, f + tail) == [r] + Messages(decode, tail)
    ensures Remains(f + tail) == Remains(tail)
  {
  }

  /** Frames end to end come back one by one, with nothing left over. */
  lemma {:induction false} FramesParse(decode: Decoder, frames: seq<seq<Byte>>, rs: seq<Received>)
    requires |frames| == |rs|
    requires forall k | 0 <= k < |rs| :: FrameOf(decode, frames[k], rs[k])
    ensures Messages(decode, Flatten(frames)) == rs
    ensures Remains(Flatten(frames)) == []
    decreases |frames|
  {
    if frames != [] {
      FramesParse(decode, frames[1..], rs[1..]);
      FrameParses(decode, frames[0], rs[0], Flatten(frames[1..]));
      assert rs == [rs[0]] + rs[1..];
    }
  }

  datatype Sender = Sender(
    sequence: nat, srcSystem: Byte, srcComponent: Byte, file: seq<Byte>,
    packetsSent: nat, bytesSent: nat)

  /** `send`, given the packed message. */
  function SendFrame(t: Sender, f: seq<Byte>): Sender {
    t.(file := t.file + f, sequence := (t.sequence + 1) % 255,
       packetsSent := t.packetsSent + 1, bytesSent := t.bytesSent + |f|)
  }

  /** The sender treats the frame encoder as a function of message and sequence number. */
  type Encoder = (Message, nat) -> seq<Byte>

  /** A run of `send`. */
  function SendAll(encode: Encoder, t: Sender, ms: seq<Message>): Sender {
    if ms == [] then t
    else
      var t1 := SendAll(encode, t, ms[..|ms| - 1]);
      SendFrame(t1, encode(ms[|ms| - 1], t1.sequence))
  }

  lemma NextSequence(a: nat, n: nat)
    ensures ((a + n) % 255 + 1) % 255 == (a + n + 1) % 255
  {
  }

  /** Between `t` and `t'` exactly `frames` were sent. */
  predicate Wrote(t: Sender, t': Sender, frames: seq<seq<Byte>>) {
    && t'.file == t.file + Flatten(frames)
    && t'.sequence == (t.sequence + |frames|) % 255
    && t'.packetsSent == t.packetsSent + |frames|
    && t'.bytesSent == t.bytesSent + |Flatten(frames)|
  }

  lemma WroteAppend(t: Sender, t1: Sender, frames: seq<seq<Byte>>, f: seq<Byte>)
    requires Wrote(t, t1, frames)
    ensures Wrote(t, SendFrame(t1, f), frames + [f])
  {
    FlattenAppend(frames, f);
    Assoc(t.file, Flatten(frames), f);
    NextSequence(t.sequence, |frames|);
  }

  /** A run of `send` writes one frame per message, end to end; sequence numbers count
      modulo 255. */
  lemma {:induction false} SendAllWrites(encode: Encoder, t: Sender, ms: seq<Message>)
    returns (frames: seq<seq<Byte>>)
    requires t.sequence < 255
    ensures |frames| == |ms|
    ensures forall k | 0 <= k < |ms| :: frames[k] == encode(ms[k], (t.sequence + k) % 255)
    ensures Wrote(t, SendAll(encode, t, ms), frames)
  {
    if ms == [] {
      frames := [];
    } else {
      var n := |ms| - 1;
      var frames0 := SendAllWrites(encode, t, ms[..n]);
      var t1 := SendAll(encode, t, ms[..n]);
      var f := encode(ms[n], t1.sequence);
      frames := frames0 + [f];
      WroteAppend(t, t1, frames0, f);
    }
  }

  function EncoderOf(d: Dialect, sys: Byte, comp: Byte): Encoder {
    (m: Message, n: nat) => if Sendable(d, m) && n < 256 then Frame(d, m, n, sys, comp) else []
  }

  lemma EncoderIs(d: Dialect, sys: Byte, comp: Byte, m: Message, n: nat)
    requires Sendable(d, m) && n < 256
    ensures EncoderOf(d, sys, comp)(m, n) == Frame(d, m, n, sys, comp)
  {
    hide Frame, Sendable;
  }

  /** What the receiver should report for message `m` sent with sequence number `n`. */
  function ReportOf(d: Dialect, sys: Byte, comp: Byte): (Message, nat) -> Received {
    (m: Message, n: nat) =>
      if Sendable(d, m) && n < 256 then
        Good(Header(Size(d.table[m.msgId].format), n, sys, comp, m.msgId),
             Delivered(d.table[m.msgId], m.fields), Frame(d, m, n, sys, comp))
      else Bad(UnknownId, [])
  }

  lemma FrameDecodes(d: Dialect, sys: Byte, comp: Byte, m: Message, n: nat)
    requires Sendable(d, m) && n < 256
    ensures FrameOf(DecoderOf(d), EncoderOf(d, sys, comp)(m, n), ReportOf(d, sys, comp)(m, n))
    ensures ReportOf(d, sys, comp)(m, n).Good?
  {
    FrameRoundTrip(d, m, n, sys, comp);
  }

  lemma {:induction false} AllGood(ms: seq<Received>)
    requires forall k | 0 <= k < |ms| :: ms[k].Good?
    ensures Goods(ms) == |ms| && Bads(ms) == 0
  {
    if ms != [] {
      AllGood(ms[1..]);
    }
  }

  /** Frames, cut into chunks in any way, given to a fresh robust parser. */
  lemma FramesThroughChunks(decode: Decoder, frames: seq<seq<Byte>>, rs: seq<Received>,
                            chunks: seq<seq<Byte>>)
    requires |frames| == |rs|
    requires forall k | 0 <= k < |rs| :: FrameOf(decode, frames[k], rs[k]) && rs[k].Good?
    requires Flatten(chunks) == Flatten(frames)
    ensures var (s, received) := FeedAll(decode, FreshParser(true), chunks);
            received == rs && s.buf == [] && s.receiveErrors == 0 && s.packetsReceived == |rs|
  {
    FramesParse(decode, frames, rs);
    AllGood(rs);
    if chunks != [] {
      AnyChunking(decode, FreshParser(true), chunks);
      assert [] + Flatten(chunks) == Flatten(chunks);
    }
  }

  /** What `f` makes of each message and its sequence number. */
  function Numbered<T>(f: (Message, nat) -> T, ms: seq<Message>): (r: seq<T>)
    ensures |r| == |ms| && forall k | 0 <= k < |ms| :: r[k] == f(ms[k], k % 255)
  {
    seq(|ms|, k requires 0 <= k < |ms| => f(ms[k], k % 255))
  }

  lemma FramesReported(encode: Encoder, decode: Decoder, report: (Message, nat) -> Received,
                       ms: seq<Message>, frames: seq<seq<Byte>>, rs: seq<Received>)
    requires |frames| == |ms| == |rs|
    requires forall k | 0 <= k < |ms| ::
               FrameOf(decode, encode(ms[k], k % 255), report(ms[k], k % 255))
               && report(ms[k], k % 255).Good?
    requires forall k | 0 <= k < |ms| :: frames[k] == encode(ms[k], k % 255)
    requires forall k | 0 <= k < |ms| :: rs[k] == report(ms[k], k % 255)
    ensures forall k | 0 <= k < |rs| :: FrameOf(decode, frames[k], rs[k]) && rs[k].Good?
  {
    hide FrameOf;
  }

  /** Sender to receiver, for any encoder and decoder that agree. */
  lemma Transmission(encode: Encoder, decode: Decoder, report: (Message, nat) -> Received,
                     t: Sender, ms: seq<Message>, chunks: seq<seq<Byte>>)
    requires t.sequence == 0 && t.file == []
    requires forall k | 0 <= k < |ms| ::
               FrameOf(decode, encode(ms[k], k % 255), report(ms[k], k % 255))
               && report(ms[k], k % 255).Good?
    requires Flatten(chunks) == SendAll(encode, t, ms).file
    ensures var (s, received) := FeedAll(decode, FreshParser(true), chunks);
            && |received| == |ms|
            && (forall k | 0 <= k < |ms| :: received[k] == report(ms[k], k % 255))
            && s.buf == [] && s.receiveErrors == 0 && s.packetsReceived == |ms|
  {
    hide SendAll, FeedAll, FrameOf, Flatten, Numbered;
    var frames := SendAllWrites(encode, t, ms);
    assert [] + Flatten(frames) == Flatten(frames);
    var rs := Numbered(report, ms);
    FramesReported(encode, decode, report, ms, frames, rs);
    FramesThroughChunks(decode, frames, rs, chunks);
  }

  /** MAIN RESULT. The bytes of any run of `send`, cut into chunks in any way and given to a
      fresh robust parser, come back as exactly the sent messages, in order, with their fields,
      the k-th carrying sequence number k mod 255; with no error and nothing left over. */
  lemma EndToEnd(d: Dialect, sys: Byte, comp: Byte, ms: seq<Message>, chunks: seq<seq<Byte>>)
    requires forall k | 0 <= k < |ms| :: Sendable(d, ms[k])
    requires Flatten(chunks)
             == SendAll(EncoderOf(d, sys, comp), Sender(0, sys, comp, [], 0, 0), ms).file
    ensures var (s, received) := FeedAll(DecoderOf(d), FreshParser(true), chunks);
            && |received| == |ms|
            && (forall k | 0 <= k < |ms| ::
                  received[k] == ReportOf(d, sys, comp)(ms[k], k % 255))
            && s.buf == [] && s.receiveErrors == 0 && s.packetsReceived == |ms|
  {
    var encode, decode, report := EncoderOf(d, sys, comp), DecoderOf(d), ReportOf(d, sys, comp);
    forall k | 0 <= k < |ms|
      ensures FrameOf(decode, encode(ms[k], k % 255), report(ms[k], k % 255))
              && report(ms[k], k % 255).Good?
    {
      FrameDecodes(d, sys, comp, ms[k], k % 255);
    }
    Transmission(encode, decode, report, Sender(0, sys, comp, [], 0, 0), ms, chunks);
  }

  // ---------------------------------------------------------------- frames in noise

  /** No byte could be taken for the start of a frame. */
  predicate NoMarker(noise: seq<Byte>) {
    forall k | 0 <= k < |noise| :: noise[k] != MARKER
  }

  /** One report per byte. */
  function NoiseReports(noise: seq<Byte>): (r: seq<Received>)
    ensures |r| == |noise|
    ensures forall k | 0 <= k < |noise| :: r[k] == Bad(BadPrefix, [noise[k]])
  {
    seq(|noise|, k requires 0 <= k < |noise| => Bad(BadPrefix, [noise[k]]))
  }

  /** Noise is reported byte by byte, and what follows is parsed as if it were not there. */
  lemma {:induction false} NoiseParses(decode: Decoder, noise: seq<Byte>, tail: seq<Byte>)
    requires NoMarker(noise)
    ensures Messages(decode, noise + tail) == NoiseReports(noise) + Messages(decode, tail)
    ensures Remains(noise + tail) == Remains(tail)
    decreases |noise|
  {
    hide Messages, Remains, NoiseReports;
    if noise == [] {
      assert noise + tail == tail && NoiseReports(noise) == [];
    } else {
      NoiseParses(decode, noise[1..], tail);
      NoiseByte(decode, noise[0], noise[1..] + tail);
      assert noise + tail == [noise[0]] + (noise[1..] + tail);
      assert NoiseReports(noise) == [Bad(BadPrefix, [noise[0]])] + NoiseReports(noise[1..]);
      Assoc([Bad(BadPrefix, [noise[0]])], NoiseReports(noise[1..]), Messages(decode, tail));
    }
  }

  lemma NoiseByte(decode: Decoder, b: Byte, tail: seq<Byte>)
    requires b != MARKER
    ensures Messages(decode, [b] + tail) == [Bad(BadPrefix, [b])] + Messages(decode, tail)
    ensures Remains([b] + tail) == Remains(tail)
  {
    var buf := [b] + tail;
    assert buf[..1] == [b] && buf[1..] == tail;
  }

  /** Noise before, between and after the frames: one piece more than there are frames. */
  function Woven(frames: seq<seq<Byte>>, noise: seq<seq<Byte>>): seq<Byte>
    requires |noise| == |frames| + 1
  {
    if frames == [] then noise[0] else noise[0] + (frames[0] + Woven(frames[1..], noise[1..]))
  }

  function WovenReports(rs: seq<Received>, noise: seq<seq<Byte>>): seq<Received>
    requires |noise| == |rs| + 1
  {
    if rs == [] then NoiseReports(noise[0])
    else NoiseReports(noise[0]) + ([rs[0]] + WovenReports(rs[1..], noise[1..]))
  }

  /** Frames in noise come back one by one, each noise byte as an error. */
  lemma {:induction false} WovenParses(decode: Decoder, frames: seq<seq<Byte>>, rs: seq<Received>,
                                       noise: seq<seq<Byte>>)
    requires |frames| == |rs| && |noise| == |rs| + 1
    requires forall k | 0 <= k < |noise| :: NoMarker(noise[k])
    requires forall k | 0 <= k < |rs| :: FrameOf(decode, frames[k], rs[k])
    ensures Messages(decode, Woven(frames, noise)) == WovenReports(rs, noise)
    ensures Remains(Woven(frames, noise)) == []
    decreases |frames|
  {
    hide FrameOf, Messages, Remains, NoMarker;
    if frames == [] {
      NoiseParses(decode, noise[0], []);
      NothingParses(decode);
      assert noise[0] + [] == noise[0] && NoiseReports(noise[0]) + [] == NoiseReports(noise[0]);
    } else {
      var rest := Woven(frames[1..], noise[1..]);
      WovenParses(decode, frames[1..], rs[1..], noise[1..]);
      FrameParses(decode, frames[0], rs[0], rest);
      NoiseParses(decode, noise[0], frames[0] + rest);
    }
  }

  lemma NothingParses(decode: Decoder)
    ensures Messages(decode, []) == [] && Remains([]) == [] && Goods([]) == 0 && Bads([]) == 0
  {
  }

  /** The good ones among the reports, in order. */
  function GoodOnes(ms: seq<Received>): seq<Received> {
    if ms == [] then [] else (if ms[0].Good? then [ms[0]] else []) + GoodOnes(ms[1..])
  }

  lemma GoodOnesCons(m: Received, rest: seq<Received>)
    ensures GoodOnes([m] + rest) == (if m.Good? then [m] else []) + GoodOnes(rest)
  {
    assert ([m] + rest)[1..] == rest;
  }

  lemma {:induction false} GoodOnesAdd(a: seq<Received>, b: seq<Received>)
    ensures GoodOnes(a + b) == GoodOnes(a) + GoodOnes(b)
  {
    if a == [] {
      assert a + b == b;
    } else {
      var rest, first := a[1..], if a[0].Good? then [a[0]] else [];
      GoodOnesAdd(rest, b);
      GoodOnesCons(a[0], rest);
      GoodOnesCons(a[0], rest + b);
      hide GoodOnes;
      assert a == [a[0]] + rest && a + b == [a[0]] + (rest + b);
      Assoc(first, GoodOnes(rest), GoodOnes(b));
    }
  }

  lemma {:induction false} AllBad(ms: seq<Received>)
    requires forall k | 0 <= k < |ms| :: ms[k].Bad?
    ensures GoodOnes(ms) == [] && Goods(ms) == 0 && Bads(ms) == |ms|
  {
    if ms != [] {
      AllBad(ms[1..]);
    }
  }

  /** Of all reports, the good ones are the good ones of the frames; each noise byte is one more
      bad one. */
  lemma {:induction false} WovenCounts(rs: seq<Received>, noise: seq<seq<Byte>>)
    requires |noise| == |rs| + 1
    ensures var all := WovenReports(rs, noise);
            && GoodOnes(all) == GoodOnes(rs) && Goods(all) == Goods(rs)
            && Bads(all) == Bads(rs) + |Flatten(noise)|
  {
    hide GoodOnes, Goods, Bads;
    var first := NoiseReports(noise[0]);
    AllBad(first);
    if rs == [] {
      assert noise == [noise[0]];
      FlattenCons(noise[0], []);
      NothingFlattened<Byte>();
      NothingGood();
    } else {
      var rest := WovenReports(rs[1..], noise[1..]);
      WovenCounts(rs[1..], noise[1..]);
      OneMoreReport(rs[0], rest);
      OneMoreReport(rs[0], rs[1..]);
      GoodOnesAdd(first, [rs[0]] + rest);
      CountsAdd(first, [rs[0]] + rest);
      assert noise == [noise[0]] + noise[1..];
      FlattenCons(noise[0], noise[1..]);
      assert rs == [rs[0]] + rs[1..];
    }
  }

  lemma NothingGood()
    ensures GoodOnes([]) == [] && Goods([]) == 0 && Bads([]) == 0
  {
  }

  lemma OneMoreReport(m: Received, rest: seq<Received>)
    ensures GoodOnes([m] + rest) == (if m.Good? then [m] else []) + GoodOnes(rest)
    ensures Goods([m] + rest) == (if m.Good? then 1 else 0) + Goods(rest)
    ensures Bads([m] + rest) == (if m.Bad? then 1 else 0) + Bads(rest)
  {
    assert ([m] + rest)[1..] == rest;
  }

  lemma {:induction false} GoodOnesOfGood(rs: seq<Received>)
    requires forall k | 0 <= k < |rs| :: rs[k].Good?
    ensures GoodOnes(rs) == rs
  {
    if rs != [] {
      GoodOnesOfGood(rs[1..]);
    }
  }

  /** The numbered frames are all that a new sender has written. */
  lemma FramesAreSent(encode: Encoder, t: Sender, ms: seq<Message>)
    requires t.sequence == 0 && t.file == []
    ensures SendAll(encode, t, ms).file == Flatten(Numbered(encode, ms))
  {
    hide SendAll, Flatten;
    var frames := SendAllWrites(encode, t, ms);
    assert frames == Numbered(encode, ms);
    assert [] + Flatten(frames) == Flatten(frames);
  }

  /** A fresh robust parser on frames in noise, cut into chunks in any way. */
  lemma WovenThroughChunks(decode: Decoder, frames: seq<seq<Byte>>, rs: seq<Received>,
                           noise: seq<seq<Byte>>, chunks: seq<seq<Byte>>)
    requires |frames| == |rs| && |noise| == |rs| + 1
    requires forall k | 0 <= k < |noise| :: NoMarker(noise[k])
    requires forall k | 0 <= k < |rs| :: FrameOf(decode, frames[k], rs[k])
    requires Flatten(chunks) == Woven(frames, noise)
    ensures var (s, received) := FeedAll(decode, FreshParser(true), chunks);
            && received == WovenReports(rs, noise) && GoodOnes(received) == GoodOnes(rs) && s.buf == []
            && s.packetsReceived == Goods(rs) && s.receiveErrors == Bads(rs) + |Flatten(noise)|
  {
    hide FrameOf, Messages, Remains, NoMarker, GoodOnes, Goods, Bads, Woven, WovenReports, Flatten, FeedAll;
    WovenParses(decode, frames, rs, noise);
    WovenCounts(rs, noise);
    FeedFresh(decode, chunks);
  }

  /** What a fresh robust parser makes of any chunks. */
  lemma FeedFresh(decode: Decoder, chunks: seq<seq<Byte>>)
    ensures var (s, received) := FeedAll(decode, FreshParser(true), chunks);
            && received == Messages(decode, Flatten(chunks)) && s.buf == Remains(Flatten(chunks))
            && s.packetsReceived == Goods(received) && s.receiveErrors == Bads(received)
  {
    hide Messages, Remains, Goods, Bads, Flatten;
    if chunks == [] {
      NothingFlattened<Byte>();
      NothingParses(decode);
    } else {
      hide FeedAll;
      AnyChunking(decode, FreshParser(true), chunks);
      assert [] + Flatten(chunks) == Flatten(chunks);
    }
  }

  /** MAIN RESULT on resynchronisation. With marker-free noise of any length before, between and
      after the frames, in any chunking, the good messages are exactly the sent ones, in order and
      with their fields; the errors are exactly the noise bytes, each where it came in; and
      nothing is left over. */
  lemma ThroughNoise(d: Dialect, sys: Byte, comp: Byte, ms: seq<Message>, noise: seq<seq<Byte>>,
                     chunks: seq<seq<Byte>>)
    requires forall k | 0 <= k < |ms| :: Sendable(d, ms[k])
    requires |noise| == |ms| + 1 && forall k | 0 <= k < |noise| :: NoMarker(noise[k])
    requires Flatten(chunks) == Woven(Numbered(EncoderOf(d, sys, comp), ms), noise)
    ensures var (s, received) := FeedAll(DecoderOf(d), FreshParser(true), chunks);
            var rs := Numbered(ReportOf(d, sys, comp), ms);
            && received == WovenReports(rs, noise) && GoodOnes(received) == rs
            && s.buf == [] && s.packetsReceived == |ms| && s.receiveErrors == |Flatten(noise)|
  {
    hide FrameOf, NoMarker, FeedAll, Woven, WovenReports, Flatten, Sendable, EncoderOf, DecoderOf, ReportOf, GoodOnes;
    var encode, decode, report := EncoderOf(d, sys, comp), DecoderOf(d), ReportOf(d, sys, comp);
    forall k | 0 <= k < |ms|
      ensures FrameOf(decode, encode(ms[k], k % 255), report(ms[k], k % 255))
              && report(ms[k], k % 255).Good?
    {
      FrameDecodes(d, sys, comp, ms[k], k % 255);
    }
    var frames, rs := Numbered(encode, ms), Numbered(report, ms);
    FramesReported(encode, decode, report, ms, frames, rs);
    AllGood(rs);
    GoodOnesOfGood(rs);
    WovenThroughChunks(decode, frames, rs, noise, chunks);
  }

  /** The results of decoding each frame. */
  function DecodeAll(decode: Decoder, frames: seq<seq<Byte>>): (rs: seq<Received>)
    ensures |rs| == |frames| && forall k | 0 <= k < |frames| :: rs[k] == decode(frames[k])
  {
    seq(|frames|, k requires 0 <= k < |frames| => decode(frames[k]))
  }

  /** The undamaged ones among the frames. */
  function IntactOnes(d: Rules, frames: seq<seq<Byte>>): seq<seq<Byte>> {
    if frames == [] then []
    else (if Intact(d, frames[0]) then [frames[0]] else []) + IntactOnes(d, frames[1..])
  }

  /** Marker and length byte are right; anything else may be damaged. */
  predicate Framed(f: seq<Byte>) {
    |f| >= 8 && f[0] == 254 && (var mlen: int := f[1]; mlen == |f| - 8)
  }

  lemma {:induction false} GoodMeansIntact(d: Dialect, frames: seq<seq<Byte>>)
    ensures var rs := DecodeAll(DecoderOf(d), frames);
            && Raws(GoodOnes(rs)) == IntactOnes(d, frames)
            && Goods(rs) == |IntactOnes(d, frames)| && Bads(rs) == |frames| - |IntactOnes(d, frames)|
    decreases |frames|
  {
    var decode := DecoderOf(d);
    if frames != [] {
      hide Intact, Decode, GoodOnes, Goods, Bads;
      var rs, rest := DecodeAll(decode, frames), DecodeAll(decode, frames[1..]);
      GoodMeansIntact(d, frames[1..]);
      DecodeExactly(d, frames[0]);
      KeptRaw(d, frames[0]);
      OneMoreReport(rs[0], rest);
      assert rs == [rs[0]] + rest;
      RawsOfOne(rs[0], GoodOnes(rest));
    } else {
      NothingGood();
    }
  }

  lemma KeptRaw(d: Dialect, f: seq<Byte>)
    ensures DecoderOf(d)(f) == Decode(d, f) && DecoderOf(d)(f).raw == f
  {
  }

  lemma RawsOfOne(m: Received, rest: seq<Received>)
    ensures Raws([m] + rest) == [m.raw] + Raws(rest)
    ensures Raws([] + rest) == Raws(rest)
  {
    assert [] + rest == rest;
  }

  /** MAIN RESULT on damage. Frames of which anything but the marker and the length byte may have
      been damaged, in noise and in any chunking: the frames returned as good are exactly the intact
      ones, in order; every other frame and every noise byte is counted as one error. */
  lemma DamageIsRejected(d: Dialect, frames: seq<seq<Byte>>, noise: seq<seq<Byte>>, chunks: seq<seq<Byte>>)
    requires forall k | 0 <= k < |frames| :: Framed(frames[k])
    requires |noise| == |frames| + 1 && forall k | 0 <= k < |noise| :: NoMarker(noise[k])
    requires Flatten(chunks) == Woven(frames, noise)
    ensures var (s, received) := FeedAll(DecoderOf(d), FreshParser(true), chunks);
            && Raws(GoodOnes(received)) == IntactOnes(d, frames) && s.buf == []
            && s.packetsReceived == |IntactOnes(d, frames)|
            && s.receiveErrors == |frames| - |IntactOnes(d, frames)| + |Flatten(noise)|
  {
    hide Intact, DecoderOf, NoMarker, FeedAll, Woven, WovenReports, Flatten, GoodOnes, Goods, Bads, IntactOnes, Raws;
    var decode := DecoderOf(d);
    var rs := DecodeAll(decode, frames);
    GoodMeansIntact(d, frames);
    WovenThroughChunks(decode, frames, rs, noise, chunks);
  }

  // ---------------------------------------------------------------- without robust parsing

  /** A complete frame when errors are raised: good ones are returned and counted, bad ones raised
      and not counted; either way the buffer is empty and a later bad prefix is reported again. */
  lemma StrictFrame(decode: Decoder, s: Parser, f: seq<Byte>)
    requires !s.robust && s.buf == [] && Framed(f)
    ensures var (s1, o) := Parse(decode, Supplied(s, f));
            var r := decode(f);
            && o == (if r.Good? then Returned(r) else Raised(r.reason))
            && s1.buf == [] && s1.expectedLength == 6 && !s1.havePrefixError && !s1.robust
            && s1.packetsReceived == s.packetsReceived + (if r.Good? then 1 else 0)
            && s1.receiveErrors == s.receiveErrors && s1.bytesReceived == s.bytesReceived + |f|
  {
    assert [] + f == f && f[..|f|] == f;
  }

  /** Noise, byte by byte, when errors are raised: only the first byte raises and is counted. */
  lemma {:induction false} StrictNoise(decode: Decoder, s: Parser, noise: seq<Byte>)
    requires !s.robust && s.buf == [] && NoMarker(noise)
    ensures var s1 := ParseChunks(decode, s, Singles(noise));
            && s1.buf == [] && !s1.robust && s1.havePrefixError == (s.havePrefixError || noise != [])
            && s1.packetsReceived == s.packetsReceived && s1.bytesReceived == s.bytesReceived + |noise|
            && s1.receiveErrors == s.receiveErrors + (if noise != [] && !s.havePrefixError then 1 else 0)
    decreases |noise|
  {
    if noise != [] {
      var s1 := Parse(decode, Supplied(s, [noise[0]])).0;
      assert [] + [noise[0]] == [noise[0]];
      StrictByte(decode, s, noise[0]);
      assert Singles(noise)[1..] == Singles(noise[1..]);
      StrictNoise(decode, s1, noise[1..]);
    }
  }

  lemma StrictByte(decode: Decoder, s: Parser, b: Byte)
    requires !s.robust && s.buf == [] && b != MARKER
    ensures var (s1, o) := Parse(decode, Supplied(s, [b]));
            && o == (if s.havePrefixError then Nothing else Raised(BadPrefix))
            && s1 == s.(havePrefixError := true, bytesReceived := s.bytesReceived + 1,
                        receiveErrors := s.receiveErrors + if s.havePrefixError then 0 else 1)
  {
    assert ([] + [b])[1..] == [];
  }

  function Singles(b: seq<Byte>): (r: seq<seq<Byte>>)
    ensures |r| == |b| && forall k | 0 <= k < |b| :: r[k] == [b[k]]
  {
    seq(|b|, k requires 0 <= k < |b| => [b[k]])
  }

  // ---------------------------------------------------------------- how much is asked for

  /** A reader that supplies what is asked for gets a frame in two reads: six bytes, then the
      rest of the frame, announced by its length byte. */
  lemma TwoReads(decode: Decoder, s: Parser, f: seq<Byte>)
    requires s.buf == [] && s.expectedLength == 6 && Framed(f)
    ensures BytesNeededBy(s) == 6
    ensures var (s1, o1) := Parse(decode, Supplied(s, f[..6]));
            && o1 == Nothing && BytesNeededBy(s1) == |f| - 6
            && var (s2, o2) := Parse(decode, Supplied(s1, f[6..]));
               s2.buf == [] && s2.expectedLength == 6
               && o2 == (if s.robust || decode(f).Good? then Returned(decode(f)) else Raised(decode(f).reason))
  {
    assert [] + f[..6] == f[..6];
    var s1 := Parse(decode, Supplied(s, f[..6])).0;
    assert s1.buf + f[6..] == f && f[..|f|] == f;
  }

  // ---------------------------------------------------------------- a polite reader

  /** The buffer never exceeds what was asked for. */
  predicate Polite(s: Parser) {
    Sane(s) && |s.buf| < s.expectedLength
  }

  /** Supplying at most `bytes_needed` bytes keeps the parser polite, and whenever a whole
      frame leaves the buffer — decoded, returned as bad, or raised — nothing stays behind. */
  lemma PoliteStep(decode: Decoder, s: Parser, c: seq<Byte>)
    requires Polite(s) && |c| <= BytesNeededBy(s)
    ensures var (s1, o) := Parse(decode, Supplied(s, c));
            && Polite(s1)
            && (o.Returned? && |o.received.raw| != 1 ==> s1.buf == [])
            && (o.Raised? && o.reason != BadPrefix ==> s1.buf == [])
            && (o.Returned? && o.received.Good? ==> s1.buf == [])
  {
    var s0 := Supplied(s, c);
    if |s0.buf| >= 2 && s0.buf[0] == MARKER {
      assert |s0.buf| <= Announced(s0.buf);
    }
  }

  function ParseChunks(decode: Decoder, s: Parser, chunks: seq<seq<Byte>>): Parser
    decreases |chunks|
  {
    if chunks == [] then s else ParseChunks(decode, Parse(decode, Supplied(s, chunks[0])).0, chunks[1..])
  }

  /** Each chunk is at most what the parser asks for at that moment. */
  predicate PoliteRun(decode: Decoder, s: Parser, chunks: seq<seq<Byte>>)
    decreases |chunks|
  {
    chunks != [] ==>
      |chunks[0]| <= BytesNeededBy(s)
      && PoliteRun(decode, Parse(decode, Supplied(s, chunks[0])).0, chunks[1..])
  }

  /** Over every polite run, robust or not, bad prefixes included: a frame that is decoded,
      returned as bad or raised never leaves bytes behind. */
  lemma {:induction false} PoliteForever(decode: Decoder, s: Parser, chunks: seq<seq<Byte>>, c: seq<Byte>)
    requires Polite(s) && PoliteRun(decode, s, chunks)
    requires |c| <= BytesNeededBy(ParseChunks(decode, s, chunks))
    ensures Polite(ParseChunks(decode, s, chunks))
    ensures var (s1, o) := Parse(decode, Supplied(ParseChunks(decode, s, chunks), c));
            && Polite(s1)
            && (o.Returned? && |o.received.raw| != 1 ==> s1.buf == [])
            && (o.Raised? && o.reason != BadPrefix ==> s1.buf == [])
            && (o.Returned? && o.received.Good? ==> s1.buf == [])
    decreases |chunks|
  {
    if chunks == [] {
      PoliteStep(decode, s, c);
    } else {
      PoliteStep(decode, s, chunks[0]);
      PoliteForever(decode, Parse(decode, Supplied(s, chunks[0])).0, chunks[1..], c);
    }
  }
}
