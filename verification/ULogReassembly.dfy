/** What the receiver's file contains after any run over a link that drops, duplicates and
    reorders packets.

    The sender's log is one byte stream: the 16-byte header, then ULog messages. `starts`
    cuts it into messages, `cuts` cuts the same stream, independently, into packets. */
module ULogReassembly {
  import opened Bytes
  import opened ULogStreaming

  datatype SentLog = SentLog(
    stream: seq<Byte>, starts: seq<nat>, cuts: seq<nat>, acked: seq<bool>, firstSequence: nat)
  {
    ghost predicate Valid() {
      && |starts| >= 1 && starts[0] == 16 && starts[|starts| - 1] == |stream|
      && Increasing(starts)
      && (forall j | 0 <= j < Messages() :: MarksMessage(stream, starts, j))
      && |cuts| >= 2 && cuts[0] == 0 && cuts[|cuts| - 1] == |stream|
      && Increasing(cuts)
      && cuts[1] >= 16
      && (forall i | 0 <= i < Packets() :: MarksPacket(cuts, i))
      && |acked| == Packets()
    }

    function Messages(): int { |starts| - 1 }

    function Packets(): int { |cuts| - 1 }

    function Message(j: nat): seq<Byte> { Piece(stream, starts, j) }

    /** Offset of the first message that starts in packet `i`, or 255 if none does. The
        header counts as the start of packet 0. */
    function Offset(i: nat): nat
      requires Valid() && i < Packets()
    {
      var h := FirstAtOrAfter(starts, cuts[i]);
      if i == 0 then 0
      else if h < Messages() && starts[h] < cuts[i + 1] then starts[h] - cuts[i]
      else 255
    }

    /** Sequence numbers have 16 bits. */
    function Sequence(i: nat): nat { (firstSequence + i) % 65536 }

    /** Packet `i` as it goes over the wire: the data field always has 249 bytes, and only the
        first `length` of them count. */
    function Wire(i: nat): Packet
      requires Valid() && i < Packets()
    {
      Packet(if acked[i] then LoggingDataAcked else LoggingData,
             Sequence(i),
             cuts[i + 1] - cuts[i],
             Offset(i),
             Padded(Piece(stream, cuts, i)))
    }
  }

  function Padded(data: seq<Byte>): seq<Byte> {
    data + seq(if |data| < 249 then 249 - |data| else 0, _ => 0)
  }

  ghost predicate Increasing(s: seq<nat>) {
    forall i, j | 0 <= i < j < |s| :: s[i] < s[j]
  }

  /** The stretch of `stream` between marks `j` and `j + 1`. */
  function Piece(stream: seq<Byte>, marks: seq<nat>, j: nat): seq<Byte> {
    if j + 1 < |marks| && marks[j] <= marks[j + 1] <= |stream|
    then stream[marks[j]..marks[j + 1]] else []
  }

  /** Between marks `j` and `j + 1` lies one ULog message. */
  ghost predicate MarksMessage(stream: seq<Byte>, starts: seq<nat>, j: nat) {
    IsMessage(Piece(stream, starts, j))
  }

  /** A packet holds at most 249 bytes. */
  ghost predicate MarksPacket(cuts: seq<nat>, i: nat) {
    i + 1 < |cuts| && cuts[i + 1] <= cuts[i] + 249
  }

  /** Index of the first mark at or after position `p`; `|marks|` if there is none. */
  function FirstAtOrAfter(marks: seq<nat>, p: nat): (h: nat)
    ensures h <= |marks|
    ensures forall j | 0 <= j < h :: marks[j] < p
    ensures h < |marks| ==> p <= marks[h]
  {
    if marks == [] || p <= marks[0] then 0
    else
      var h' := FirstAtOrAfter(marks[1..], p);
      assert forall j | 1 <= j < 1 + h' :: marks[j] == marks[1..][j - 1];
      1 + h'
  }

  // ---------------------------------------------------------------- runs

  /** The link hands over packets in any order, with any repetitions and omissions. It
      starts with packet 0 and never strays half the number space from the newest one. */
  predicate Run(log: SentLog, arrivals: seq<nat>) {
    && (forall k | 0 <= k < |arrivals| :: arrivals[k] < log.Packets())
    && (|arrivals| > 0 ==> arrivals[0] == 0)
    && forall k | 0 < k < |arrivals| ::
         -32768 < arrivals[k] - Newest(arrivals[..k]) < 32768
  }

  /** The largest index among the arrivals (0 when there are none). */
  function Newest(arrivals: seq<nat>): nat {
    if arrivals == [] then 0
    else
      var n, last := Newest(arrivals[..|arrivals| - 1]), arrivals[|arrivals| - 1];
      if last > n then last else n
  }

  /** The arrivals that exceed everything before them. */
  ghost function Records(arrivals: seq<nat>): set<nat> {
    if arrivals == [] then {}
    else
      var before, last := arrivals[..|arrivals| - 1], arrivals[|arrivals| - 1];
      if before == [] || last > Newest(before) then Records(before) + {last} else Records(before)
  }

  /** The receiver after a run. */
  function Receive(log: SentLog, arrivals: seq<nat>): (o: Outcome)
    requires log.Valid() && Run(log, arrivals)
  {
    if arrivals == [] then Done(FRESH)
    else
      var before := arrivals[..|arrivals| - 1];
      assert forall k | 0 < k < |before| :: before[..k] == arrivals[..k];
      var o := Receive(log, before);
      if o.Raised? then o else Step(o.receiver, Log(log.Wire(arrivals[|arrivals| - 1])))
  }

  // ---------------------------------------------------------------- what should come out

  /** Packet `i` carries a byte of message `j`. */
  predicate Overlaps(log: SentLog, i: nat, j: nat) {
    i < log.Packets() && j < log.Messages()
    && log.cuts[i] < log.starts[j + 1] && log.starts[j] < log.cuts[i + 1]
  }

  /** Every packet that carries a byte of message `j` is among `got`. */
  ghost predicate Covered(log: SentLog, got: set<nat>, j: nat) {
    forall i: nat | Overlaps(log, i, j) :: i in got
  }

  /** The covered messages among the first `w`, in order. */
  ghost function CoveredBelow(log: SentLog, got: set<nat>, w: nat): seq<nat> {
    if w == 0 then []
    else CoveredBelow(log, got, w - 1) + if Covered(log, got, w - 1) then [w - 1] else []
  }

  /** A file, after its header, is a list of items: sent messages and dropout records. A
      record stands for `count` packets in a row, the first of them number `at`. */
  datatype Item = Sent(index: nat) | Dropout(count: nat, at: nat)

  function ItemBytes(log: SentLog, item: Item): seq<Byte> {
    match item
    case Sent(j) => log.Message(j)
    case Dropout(n, _) => DropoutRecord(n)
  }

  function Encode(log: SentLog, items: seq<Item>): seq<Byte> {
    if items == [] then []
    else Encode(log, items[..|items| - 1]) + ItemBytes(log, items[|items| - 1])
  }

  function Indices(items: seq<Item>): seq<nat> {
    if items == [] then []
    else
      Indices(items[..|items| - 1])
      + if items[|items| - 1].Sent? then [items[|items| - 1].index] else []
  }

  function Dropouts(items: seq<Item>): seq<Item> {
    if items == [] then []
    else
      Dropouts(items[..|items| - 1])
      + if items[|items| - 1].Dropout? then [items[|items| - 1]] else []
  }

  /** Message `j` ends with a packet in which it did not start, so it is only written with the
      packet after. */
  ghost predicate Carried(log: SentLog, j: nat) {
    exists p: nat :: CarriedTo(log, j, p)
  }

  predicate CarriedTo(log: SentLog, j: nat, p: nat) {
    p + 1 < |log.cuts| && j + 1 < |log.starts| && log.cuts[p + 1] == log.starts[j + 1] && log.starts[j] < log.cuts[p]
  }

  /** Three places for every position in the stream. */
  function At(p: int): int {
    3 * p
  }

  /** Where an item belongs: a message where it ends, a record where the first packet it stands
      for begins. At the same position, messages written on arrival come first, then a record,
      then a message that was carried. */
  ghost function Position(log: SentLog, item: Item): int {
    match item
    case Sent(j) => if j + 1 < |log.starts| then At(log.starts[j + 1]) + (if Carried(log, j) then 2 else 0) else 0
    case Dropout(_, at) => if at < |log.cuts| then At(log.cuts[at]) + 1 else 0
  }

  /** Where packet `i` ends. */
  function EndOf(log: SentLog, i: nat): int {
    if i + 1 < |log.cuts| then At(log.cuts[i + 1]) else 0
  }

  /** The items are in that order, none beyond `limit`. */
  ghost predicate Ordered(log: SentLog, items: seq<Item>, limit: int) {
    items == []
    || (var last := Position(log, items[|items| - 1]);
        last <= limit && Ordered(log, items[..|items| - 1], last))
  }

  /** Some packet after the header section is among `got`. */
  ghost predicate PastHeader(log: SentLog, got: set<nat>) {
    exists k: nat :: k in got && k < |log.acked| && !log.acked[k]
  }

  /** The gaps of a run: one record for every stretch of packets skipped by an accepted one,
      once the header section is over. */
  ghost function Gaps(log: SentLog, arrivals: seq<nat>): seq<Item> {
    if |arrivals| <= 1 then []
    else
      var before, i := arrivals[..|arrivals| - 1], arrivals[|arrivals| - 1];
      Gaps(log, before) + Gap(log, Records(before), Newest(before), i)
  }

  /** The record due when packet `i` arrives after packet `last`. */
  ghost function Gap(log: SentLog, got: set<nat>, last: nat, i: nat): seq<Item> {
    if i > last + 1 && PastHeader(log, got + {i}) then [Dropout(i - last - 1, last + 1)] else []
  }

  /** Messages `h … g-1`. */
  function SentRange(h: nat, g: nat): seq<Item> {
    if h >= g then [] else SentRange(h, g - 1) + [Sent(g - 1)]
  }

  // ---------------------------------------------------------------- the invariant

  /** `last` is the newest packet received; `run` starts the unbroken run it ends. */
  ghost predicate RunInv(log: SentLog, got: set<nat>, last: nat, run: nat) {
    && run <= last < log.Packets()
    && (forall i: nat | run <= i <= last :: i in got)
    && (forall i: nat | i in got :: i <= last)
    && (run > 0 ==> run - 1 !in got)
  }

  /** Message `w` is the one in progress at the end of packet `last`. If it ends exactly
      there it may still be pending, provided its start was received. */
  ghost predicate InProgress(log: SentLog, last: nat, run: nat, w: nat)
    requires log.Valid() && run <= last < log.Packets()
  {
    && w <= log.Messages()
    && log.starts[w] <= log.cuts[last + 1]
    && (w < log.Messages() ==>
          || log.cuts[last + 1] < log.starts[w + 1]
          || (log.cuts[last + 1] == log.starts[w + 1] && log.cuts[run] <= log.starts[w] < log.cuts[last]))
  }

  /** What the pending buffer holds: the part of message `w` received so far, or nothing if
      its start was lost. */
  ghost function Pending(log: SentLog, last: nat, run: nat, w: nat): seq<Byte>
    requires log.Valid() && run <= last < log.Packets() && InProgress(log, last, run, w)
  {
    if log.cuts[run] <= log.starts[w] then log.stream[log.starts[w]..log.cuts[last + 1]] else []
  }

  /** The file holds the header and exactly the covered messages before `w`. */
  ghost predicate FileInv(log: SentLog, file: seq<Byte>, got: set<nat>, w: nat,
                          items: seq<Item>)
    requires log.Valid()
  {
    && file == log.stream[..ULOG_HEADER] + Encode(log, items)
    && Indices(items) == CoveredBelow(log, got, w)
  }

  ghost predicate Inv(log: SentLog, r: Receiver, got: set<nat>, last: nat, run: nat, w: nat,
                      items: seq<Item>)
    requires log.Valid()
  {
    && RunInv(log, got, last, run)
    && r.gotUlogHeader
    && InProgress(log, last, run, w)
    && r.ulogMessage == Pending(log, last, run, w)
    && FileInv(log, r.file, got, w, items)
  }

  // ---------------------------------------------------------------- coverage

  /** A message inside an unbroken run of received packets is covered. */
  lemma CoveredInRun(log: SentLog, got: set<nat>, run: nat, last: nat, j: nat)
    requires log.Valid() && run <= last < log.Packets() && j < log.Messages()
    requires forall i | run <= i <= last :: i in got
    requires log.cuts[run] <= log.starts[j] && log.starts[j + 1] <= log.cuts[last + 1]
    ensures Covered(log, got, j)
  {
  }

  /** A message with a byte in a stretch of missing packets is not covered. */
  lemma NotCoveredInGap(log: SentLog, got: set<nat>, a: nat, b: nat, j: nat)
    requires log.Valid() && a < b < |log.cuts| && j < log.Messages()
    requires forall i | a <= i < b :: i !in got
    requires log.cuts[a] < log.starts[j + 1] && log.starts[j] < log.cuts[b]
    ensures !Covered(log, got, j)
  {
    var f := FirstAtOrAfter(log.cuts, log.starts[j] + 1);
    assert f <= b;
    var i := if f <= a then a else f - 1;
    assert log.starts[j] < log.cuts[i + 1] by {
      if i == a { assert f == a + 1 || log.cuts[f] <= log.cuts[a + 1]; }
    }
    assert i > a ==> log.cuts[i] <= log.starts[j] < log.starts[j + 1];
    assert Overlaps(log, i, j);
  }

  /** A later packet does not change which of the messages already past are covered. */
  lemma {:induction false} CoveredStable(log: SentLog, got: set<nat>, i: nat, w: nat)
    requires log.Valid() && i < log.Packets() && w <= log.Messages()
    requires w > 0 ==> log.starts[w] <= log.cuts[i]
    ensures CoveredBelow(log, got + {i}, w) == CoveredBelow(log, got, w)
  {
    if w > 0 {
      CoveredStable(log, got, i, w - 1);
      assert !Overlaps(log, i, w - 1);
    }
  }

  lemma {:induction false} CoveredSkip(log: SentLog, got: set<nat>, h: nat, g: nat)
    requires h <= g
    requires forall j: nat | h <= j < g :: !Covered(log, got, j)
    ensures CoveredBelow(log, got, g) == CoveredBelow(log, got, h)
  {
    if h < g {
      CoveredSkip(log, got, h, g - 1);
    }
  }

  // ---------------------------------------------------------------- items

  lemma EncodeAppend(log: SentLog, items: seq<Item>, item: Item)
    ensures Encode(log, items + [item]) == Encode(log, items) + ItemBytes(log, item)
    ensures Indices(items + [item])
            == Indices(items) + if item.Sent? then [item.index] else []
  {
  }

  /** Appending messages `h … g-1` to the file. */
  lemma {:induction false} EncodeRange(log: SentLog, items: seq<Item>, h: nat, g: nat)
    requires h <= g < |log.starts| && Increasing(log.starts)
    requires log.starts[|log.starts| - 1] == |log.stream|
    ensures log.starts[h] <= log.starts[g] <= |log.stream|
    ensures Encode(log, items + SentRange(h, g))
            == Encode(log, items) + log.stream[log.starts[h]..log.starts[g]]
    decreases g
  {
    hide Encode;
    if h == g {
      assert items + SentRange(h, g) == items;
      assert Encode(log, items) + [] == Encode(log, items);
    } else {
      EncodeRange(log, items, h, g - 1);
      EncodeRangeStep(log, items, h, g);
    }
  }

  lemma EncodeRangeStep(log: SentLog, items: seq<Item>, h: nat, g: nat)
    requires h < g < |log.starts|
    requires log.starts[h] <= log.starts[g - 1] <= log.starts[g] <= |log.stream|
    requires Encode(log, items + SentRange(h, g - 1))
             == Encode(log, items) + log.stream[log.starts[h]..log.starts[g - 1]]
    ensures Encode(log, items + SentRange(h, g))
            == Encode(log, items) + log.stream[log.starts[h]..log.starts[g]]
  {
    hide Encode;
    Assoc(items, SentRange(h, g - 1), [Sent(g - 1)]);
    EncodeAppend(log, items + SentRange(h, g - 1), Sent(g - 1));
    SliceSplit(log.stream, log.starts[h], log.starts[g - 1], log.starts[g]);
    Assoc(Encode(log, items), log.stream[log.starts[h]..log.starts[g - 1]], log.Message(g - 1));
  }

  lemma {:induction false} IndicesRange(log: SentLog, got: set<nat>, items: seq<Item>,
                                        h: nat, g: nat)
    requires h <= g
    requires Indices(items) == CoveredBelow(log, got, h)
    requires forall j: nat | h <= j < g :: Covered(log, got, j)
    ensures Indices(items + SentRange(h, g)) == CoveredBelow(log, got, g)
    decreases g
  {
    hide Encode, Covered;
    if h == g {
      assert items + SentRange(h, g) == items;
    } else {
      IndicesRange(log, got, items, h, g - 1);
      Assoc(items, SentRange(h, g - 1), [Sent(g - 1)]);
      EncodeAppend(log, items + SentRange(h, g - 1), Sent(g - 1));
      assert Covered(log, got, g - 1);
    }
  }

  /** Splitting the stream from the start of message `h` up to position `p`. */
  lemma {:induction false} SplitSlice(log: SentLog, h: nat, g: nat, p: nat)
    requires log.Valid() && h <= g <= log.Messages()
    requires log.starts[g] <= p <= |log.stream|
    requires g < log.Messages() ==> p < log.starts[g + 1]
    ensures Flatten(Whole(log.stream[log.starts[h]..p])) == log.stream[log.starts[h]..log.starts[g]]
    ensures Rest(log.stream[log.starts[h]..p]) == log.stream[log.starts[g]..p]
    decreases g - h
  {
    hide Whole, Rest, Flatten, IsMessage, StartsComplete;
    if h == g {
      PrefixIncomplete(log, g, p);
      SplitNothing(log.stream, log.starts[g], p);
    } else {
      SplitSlice(log, h + 1, g, p);
      MessageAt(log, h);
      SplitStep(log.stream, log.starts[h], log.starts[h + 1], log.starts[g], p);
    }
  }

  lemma SplitNothing(s: seq<Byte>, a: nat, p: nat)
    requires a <= p <= |s| && !StartsComplete(s[a..p])
    ensures Flatten(Whole(s[a..p])) == s[a..a] && Rest(s[a..p]) == s[a..p]
  {
  }

  lemma MessageAt(log: SentLog, j: nat)
    requires log.Valid() && j < log.Messages()
    ensures log.starts[j] < log.starts[j + 1] <= |log.stream|
    ensures IsMessage(log.stream[log.starts[j]..log.starts[j + 1]])
  {
    assert log.starts[j] < log.starts[j + 1] <= log.starts[log.Messages()];
    assert MarksMessage(log.stream, log.starts, j);
  }

  lemma SplitStep(s: seq<Byte>, a: nat, b: nat, c: nat, p: nat)
    requires a <= b <= c <= p <= |s| && IsMessage(s[a..b])
    requires Flatten(Whole(s[b..p])) == s[b..c] && Rest(s[b..p]) == s[c..p]
    ensures Flatten(Whole(s[a..p])) == s[a..c] && Rest(s[a..p]) == s[c..p]
  {
    FirstMessage(s, a, b, p);
    SliceSplit(s, a, b, c);
  }

  lemma FirstMessage(s: seq<Byte>, a: nat, b: nat, p: nat)
    requires a <= b <= p <= |s| && IsMessage(s[a..b])
    ensures Whole(s[a..p]) == [s[a..b]] + Whole(s[b..p])
    ensures Flatten(Whole(s[a..p])) == s[a..b] + Flatten(Whole(s[b..p]))
    ensures Rest(s[a..p]) == Rest(s[b..p])
  {
    var data, m := s[a..p], s[a..b];
    SliceSplit(s, a, b, p);
    assert data[0] == s[a] == m[0] && data[1] == s[a + 1] == m[1];
    assert Whole(data)[1..] == Whole(s[b..p]);
  }

  /** A proper prefix of a message does not look complete. */
  lemma PrefixIncomplete(log: SentLog, w: nat, p: nat)
    requires log.Valid() && w <= log.Messages()
    requires log.starts[w] <= p <= |log.stream|
    requires w < log.Messages() ==> p < log.starts[w + 1]
    ensures !StartsComplete(log.stream[log.starts[w]..p])
  {
    if w < log.Messages() {
      var m, d := log.Message(w), log.stream[log.starts[w]..p];
      assert MarksMessage(log.stream, log.starts, w);
      if |d| >= 2 {
        assert d[0] == log.stream[log.starts[w]] == m[0];
        assert d[1] == log.stream[log.starts[w] + 1] == m[1];
      }
    }
  }

  // ---------------------------------------------------------------- order of the items

  /** From `items` to `items'`: order is kept, now up to `to` if it was up to `from`, and the
      records in `gap` were added. */
  ghost predicate Grows(log: SentLog, items: seq<Item>, items': seq<Item>, gap: seq<Item>, from: int,
                        to: int)
  {
    Dropouts(items') == Dropouts(items) + gap
    && (Ordered(log, items, from) ==> Ordered(log, items', to))
  }

  lemma OrderedFurther(log: SentLog, items: seq<Item>, a: int, b: int)
    requires Ordered(log, items, a) && a <= b
    ensures Ordered(log, items, b)
  {
  }

  lemma GrowsNot(log: SentLog, items: seq<Item>, from: int, to: int)
    requires from <= to
    ensures Grows(log, items, items, [], from, to)
  {
    if Ordered(log, items, from) {
      OrderedFurther(log, items, from, to);
    }
  }

  lemma GrowsTwice(log: SentLog, a: seq<Item>, b: seq<Item>, c: seq<Item>, g: seq<Item>, h: seq<Item>,
                   from: int, mid: int, mid': int, to: int)
    requires Grows(log, a, b, g, from, mid) && Grows(log, b, c, h, mid', to) && mid <= mid'
    ensures Grows(log, a, c, g + h, from, to)
  {
    Assoc(Dropouts(a), g, h);
    if Ordered(log, a, from) {
      OrderedFurther(log, b, mid, mid');
    }
  }

  lemma GrowsByOne(log: SentLog, items: seq<Item>, item: Item, from: int)
    requires from <= Position(log, item)
    ensures Grows(log, items, items + [item], if item.Dropout? then [item] else [], from,
                  Position(log, item))
  {
    assert (items + [item])[..|items|] == items;
    if Ordered(log, items, from) {
      OrderedFurther(log, items, from, Position(log, item));
    }
  }

  /** A message inside one packet is not carried. */
  lemma NotCarried(log: SentLog, i: nat, j: nat)
    requires log.Valid() && i < log.Packets() && j < log.Messages()
    requires log.cuts[i] <= log.starts[j] && log.starts[j + 1] <= log.cuts[i + 1]
    ensures !Carried(log, j)
  {
  }

  /** Messages `h … g-1`, all inside packet `i`, come in stream order. */
  lemma {:induction false} GrowsByRange(log: SentLog, items: seq<Item>, i: nat, h: nat, g: nat)
    requires log.Valid() && i < log.Packets() && h <= g <= log.Messages()
    requires log.cuts[i] <= log.starts[h] && log.starts[g] <= log.cuts[i + 1]
    ensures Grows(log, items, items + SentRange(h, g), [], At(log.starts[h]) + 2, At(log.starts[g]) + 2)
    ensures g > h ==> Grows(log, items, items + SentRange(h, g), [], At(log.starts[h]) + 2, At(log.starts[g]))
    decreases g
  {
    hide Grows, Carried, Ordered, At;
    if h == g {
      assert items + SentRange(h, g) == items;
      GrowsNot(log, items, At(log.starts[h]) + 2, At(log.starts[h]) + 2);
    } else {
      var most := items + SentRange(h, g - 1);
      assert log.starts[h] <= log.starts[g - 1] < log.starts[g];
      GrowsByRange(log, items, i, h, g - 1);
      NotCarried(log, i, g - 1);
      AtNext(log.starts[g - 1], log.starts[g]);
      GrowsByOne(log, most, Sent(g - 1), At(log.starts[g - 1]) + 2);
      Assoc(items, SentRange(h, g - 1), [Sent(g - 1)]);
      GrowsTwice(log, items, most, most + [Sent(g - 1)], [], [], At(log.starts[h]) + 2, At(log.starts[g - 1]) + 2,
                 At(log.starts[g - 1]) + 2, At(log.starts[g]));
      GrowsNot(log, most + [Sent(g - 1)], At(log.starts[g]), At(log.starts[g]) + 2);
      GrowsTwice(log, items, most + [Sent(g - 1)], most + [Sent(g - 1)], [], [], At(log.starts[h]) + 2,
                 At(log.starts[g]), At(log.starts[g]), At(log.starts[g]) + 2);
    }
  }

  lemma AtNext(p: int, q: int)
    requires p < q
    ensures At(p) + 2 < At(q)
  {
  }

  lemma AtLeast(p: int, q: int)
    requires p <= q
    ensures At(p) <= At(q)
  {
  }

  // ---------------------------------------------------------------- one accepted packet

  /** The message in progress at position `p`. */
  lemma Locate(log: SentLog, h: nat, p: nat) returns (w: nat)
    requires log.Valid() && h <= log.Messages() && log.starts[h] <= p <= |log.stream|
    ensures h <= w <= log.Messages()
    ensures log.starts[h] <= log.starts[w] <= p
    ensures w < log.Messages() ==> p < log.starts[w + 1]
  {
    w := FirstAtOrAfter(log.starts, p + 1) - 1;
  }

  lemma {:induction false} CoveredRange(log: SentLog, got: set<nat>, run: nat, last: nat,
                                        h: nat, w: nat)
    requires log.Valid() && RunInv(log, got, last, run)
    requires h <= w <= log.Messages()
    requires log.cuts[run] <= log.starts[h] && log.starts[w] <= log.cuts[last + 1]
    ensures forall j: nat | h <= j < w :: Covered(log, got, j)
  {
  }

  /** Whole messages to the file, the rest to the pending buffer. */
  function Split(r: Receiver, data: seq<Byte>): Receiver {
    Written(r, Flatten(Whole(data))).(ulogMessage := Rest(data))
  }

  /** Writing whole messages from the start of message `h` to the end of packet `last`
      re-establishes the invariant. */
  lemma Finish(log: SentLog, r: Receiver, got: set<nat>, last: nat, run: nat, h: nat,
               items: seq<Item>) returns (w: nat, items': seq<Item>)
    requires log.Valid() && RunInv(log, got, last, run) && h <= log.Messages()
    requires r.gotUlogHeader
    requires log.cuts[run] <= log.starts[h] <= log.cuts[last + 1] && log.cuts[last] <= log.starts[h]
    requires log.starts[h] < log.cuts[last + 1] || items == []
    requires FileInv(log, r.file, got, h, items)
    ensures Inv(log, Split(r, log.stream[log.starts[h]..log.cuts[last + 1]]), got, last, run, w, items')
    ensures Grows(log, items, items', [], At(log.starts[h]) + 2, At(log.cuts[last + 1]))
  {
    hide RunInv, FileInv, Grows, Whole, Rest, Flatten, Covered;
    RunBounds(log, got, last, run);
    var p := log.cuts[last + 1];
    w := Locate(log, h, p);
    SplitSlice(log, h, w, p);
    CoveredRange(log, got, run, last, h, w);
    items' := items + SentRange(h, w);
    FileRange(log, r.file, got, h, w, items);
    RangeGrows(log, items, last, h, w);
  }

  lemma RangeGrows(log: SentLog, items: seq<Item>, last: nat, h: nat, w: nat)
    requires log.Valid() && last < log.Packets() && h <= w <= log.Messages()
    requires log.cuts[last] <= log.starts[h] && log.starts[w] <= log.cuts[last + 1]
    requires log.starts[h] < log.cuts[last + 1] || items == []
    ensures Grows(log, items, items + SentRange(h, w), [], At(log.starts[h]) + 2, At(log.cuts[last + 1]))
  {
    hide Grows, Ordered, Carried, At;
    var items', p := items + SentRange(h, w), At(log.cuts[last + 1]);
    if h < w {
      GrowsByRange(log, items, last, h, w);
      AtLeast(log.starts[w], log.cuts[last + 1]);
      GrowsNot(log, items', At(log.starts[w]), p);
      GrowsTwice(log, items, items', items', [], [], At(log.starts[h]) + 2, At(log.starts[w]), At(log.starts[w]), p);
    } else {
      assert items' == items;
      if log.starts[h] < log.cuts[last + 1] {
        AtNext(log.starts[h], log.cuts[last + 1]);
        GrowsNot(log, items, At(log.starts[h]) + 2, p);
      } else {
        NothingGrows(log, At(log.starts[h]) + 2, p);
      }
    }
  }

  lemma NothingGrows(log: SentLog, from: int, to: int)
    ensures Grows(log, [], [], [], from, to)
  {
  }

  /** Writing the covered messages `h` to `w` keeps the file in step with coverage. */
  lemma FileRange(log: SentLog, file: seq<Byte>, got: set<nat>, h: nat, w: nat, items: seq<Item>)
    requires log.Valid() && h <= w <= log.Messages() && FileInv(log, file, got, h, items)
    requires forall j: nat | h <= j < w :: Covered(log, got, j)
    requires log.starts[h] <= log.starts[w] <= |log.stream|
    ensures FileInv(log, file + log.stream[log.starts[h]..log.starts[w]], got, w,
                    items + SentRange(h, w))
  {
    IndicesRange(log, got, items, h, w);
    EncodeRange(log, items, h, w);
    Assoc(log.stream[..ULOG_HEADER], Encode(log, items), log.stream[log.starts[h]..log.starts[w]]);
  }

  /** Appending one item keeps the file in step with coverage. */
  lemma FileAppend(log: SentLog, file: seq<Byte>, got: set<nat>, w: nat, items: seq<Item>,
                   item: Item)
    requires log.Valid() && FileInv(log, file, got, w, items)
    requires item.Sent? ==> item.index == w && Covered(log, got, w)
    ensures FileInv(log, file + ItemBytes(log, item), got,
                    if item.Sent? then w + 1 else w, items + [item])
  {
    EncodeAppend(log, items, item);
    Assoc(log.stream[..ULOG_HEADER], Encode(log, items), ItemBytes(log, item));
  }

  lemma Extend(log: SentLog, got: set<nat>, last: nat, run: nat)
    requires RunInv(log, got, last, run) && last + 1 < log.Packets()
    ensures RunInv(log, got + {last + 1}, last + 1, run)
  {
  }

  /** A message whose start lies before the current run was lost. */
  lemma LostStart(log: SentLog, got: set<nat>, last: nat, run: nat, w: nat)
    requires log.Valid() && RunInv(log, got, last, run) && w < log.Messages()
    requires log.starts[w] < log.cuts[run] && log.cuts[last] < log.starts[w + 1]
    ensures !Covered(log, got, w)
  {
  }

  /** Where the next packet's first message start lies relative to the message in progress. */
  lemma NextStart(log: SentLog, last: nat, run: nat, w: nat)
    requires log.Valid() && run <= last && last + 1 < log.Packets()
    requires InProgress(log, last, run, w)
    ensures var h, p := FirstAtOrAfter(log.starts, log.cuts[last + 1]), log.cuts[last + 1];
            && h <= log.Messages()
            && log.cuts[run] < p
            && (log.starts[w] == p ==> h == w && w < log.Messages())
            && (log.starts[w] < p ==> h == w + 1 && w < log.Messages())
  {
  }

  /** What the offset field says. */
  lemma OffsetAt(log: SentLog, i: nat)
    requires log.Valid() && 0 < i < log.Packets()
    ensures var h := FirstAtOrAfter(log.starts, log.cuts[i]);
            && h <= log.Messages()
            && log.cuts[i] <= log.starts[h]
            && |Piece(log.stream, log.cuts, i)| == log.cuts[i + 1] - log.cuts[i] <= 249
            && (log.Offset(i) == NO_MESSAGE_START ==> log.cuts[i + 1] <= log.starts[h])
            && (log.Offset(i) != NO_MESSAGE_START ==>
                  h < log.Messages() && log.starts[h] < log.cuts[i + 1]
                  && log.Offset(i) == log.starts[h] - log.cuts[i])
  {
    var h := FirstAtOrAfter(log.starts, log.cuts[i]);
    assert log.cuts[i] < log.cuts[i + 1] <= |log.stream|;
    assert MarksPacket(log.cuts, i);
    assert h <= log.Messages() by { assert log.starts[log.Messages()] == |log.stream|; }
    assert |Piece(log.stream, log.cuts, i)| == log.cuts[i + 1] - log.cuts[i];
  }

  /** The file stays in step when packet `i` arrives behind it … */
  lemma FileStable(log: SentLog, file: seq<Byte>, got: set<nat>, i: nat, w: nat, items: seq<Item>)
    requires log.Valid() && i < log.Packets() && w <= log.Messages() && log.starts[w] <= log.cuts[i]
    requires FileInv(log, file, got, w, items)
    ensures FileInv(log, file, got + {i}, w, items)
  {
    CoveredStable(log, got, i, w);
  }

  /** … and when a lost message is passed over. */
  lemma FileSkips(log: SentLog, file: seq<Byte>, got: set<nat>, w: nat, items: seq<Item>)
    requires log.Valid() && FileInv(log, file, got, w, items) && !Covered(log, got, w)
    ensures FileInv(log, file, got, w + 1, items)
  {
  }

  lemma RunBounds(log: SentLog, got: set<nat>, last: nat, run: nat)
    requires RunInv(log, got, last, run)
    ensures run <= last < log.Packets()
  {
  }

  /** The message in progress stays the same, and more of it is pending. */
  lemma PendingGrows(log: SentLog, last: nat, run: nat, w: nat)
    requires log.Valid() && run <= last && last + 1 < log.Packets() && InProgress(log, last, run, w)
    requires log.Offset(last + 1) == NO_MESSAGE_START && log.cuts[run] <= log.starts[w]
    ensures log.starts[w] < log.cuts[last + 1] && w < log.Messages()
    ensures InProgress(log, last + 1, run, w)
    ensures Pending(log, last + 1, run, w)
            == Pending(log, last, run, w) + Piece(log.stream, log.cuts, last + 1)
    ensures |Pending(log, last, run, w)| > 0
  {
    hide Piece;
    var i := last + 1;
    OffsetAt(log, i);
    NextStart(log, last, run, w);
    PieceIs(log, i);
    SliceSplit(log.stream, log.starts[w], log.cuts[i], log.cuts[i + 1]);
  }

  /** Next packet in sequence, inside a message whose start was received. */
  lemma ContinuePending(log: SentLog, r: Receiver, got: set<nat>, last: nat, run: nat, w: nat,
                        items: seq<Item>)
    requires log.Valid() && last + 1 < log.Packets() && Inv(log, r, got, last, run, w, items)
    requires log.Offset(last + 1) == NO_MESSAGE_START
    requires log.cuts[run] <= log.starts[w]
    ensures Inv(log, ProcessRun(r, Piece(log.stream, log.cuts, last + 1), NO_MESSAGE_START),
                got + {last + 1}, last + 1, run, w, items)
  {
    hide SentLog.Valid, SentLog.Offset, RunInv, InProgress, Pending, FileInv, ProcessRun, Piece;
    RunBounds(log, got, last, run);
    PendingGrows(log, last, run, w);
    Extend(log, got, last, run);
    FileStable(log, r.file, got, last + 1, w, items);
    RunExtends(r, Piece(log.stream, log.cuts, last + 1));
  }

  lemma PieceIs(log: SentLog, i: nat)
    requires log.Valid() && i < log.Packets()
    ensures log.cuts[i] < log.cuts[i + 1] <= |log.stream|
    ensures Piece(log.stream, log.cuts, i) == log.stream[log.cuts[i]..log.cuts[i + 1]]
  {
    assert log.cuts[i] < log.cuts[i + 1] <= log.cuts[log.Packets()];
  }

  /** With bytes pending and no message start in the data, the data is put behind them. */
  lemma RunExtends(r: Receiver, data: seq<Byte>)
    requires |r.ulogMessage| > 0
    ensures ProcessRun(r, data, NO_MESSAGE_START) == r.(ulogMessage := r.ulogMessage + data)
  {
  }

  /** Nothing pending and no message start in the data: nothing happens. */
  lemma NothingToDo(r: Receiver, data: seq<Byte>)
    requires r.ulogMessage == [] && |data| < NO_MESSAGE_START
    ensures ProcessRun(r, data, NO_MESSAGE_START) == r
  {
  }

  /** Next packet in sequence, inside a message whose start was lost. */
  lemma ContinueLost(log: SentLog, r: Receiver, got: set<nat>, last: nat, run: nat, w: nat,
                     items: seq<Item>) returns (w': nat)
    requires log.Valid() && last + 1 < log.Packets() && Inv(log, r, got, last, run, w, items)
    requires log.Offset(last + 1) == NO_MESSAGE_START
    requires log.starts[w] < log.cuts[run]
    ensures Inv(log, r, got + {last + 1}, last + 1, run, w', items)
  {
    hide FileInv, Covered;
    var i := last + 1;
    OffsetAt(log, i);
    NextStart(log, last, run, w);
    Extend(log, got, last, run);
    FileStable(log, r.file, got, i, w, items);
    if log.cuts[i + 1] < log.starts[w + 1] {
      w' := w;
    } else {
      w' := w + 1;
      LostStart(log, got + {i}, i, run, w);
      FileSkips(log, r.file, got + {i}, w, items);
    }
  }

  /** Next packet in sequence with no message start in it. */
  lemma ContinueInside(log: SentLog, r: Receiver, got: set<nat>, last: nat, run: nat, w: nat,
                       items: seq<Item>) returns (w': nat)
    requires log.Valid() && last + 1 < log.Packets() && Inv(log, r, got, last, run, w, items)
    requires log.Offset(last + 1) == NO_MESSAGE_START
    ensures Inv(log, ProcessRun(r, Piece(log.stream, log.cuts, last + 1), NO_MESSAGE_START),
                got + {last + 1}, last + 1, run, w', items)
  {
    hide FileInv, ProcessRun;
    if log.cuts[run] <= log.starts[w] {
      w' := w;
      ContinuePending(log, r, got, last, run, w, items);
    } else {
      OffsetAt(log, last + 1);
      NothingToDo(r, Piece(log.stream, log.cuts, last + 1));
      w' := ContinueLost(log, r, got, last, run, w, items);
    }
  }

  /** Cutting a packet's data at its first message start. */
  lemma CutAtStart(log: SentLog, i: nat, h: nat)
    requires log.Valid() && 0 < i < log.Packets() && h < |log.starts|
    requires log.cuts[i] <= log.starts[h] < log.cuts[i + 1]
    ensures var data, off := Piece(log.stream, log.cuts, i), log.starts[h] - log.cuts[i];
            && Take(data, off) == log.stream[log.cuts[i]..log.starts[h]]
            && Drop(data, off) == log.stream[log.starts[h]..log.cuts[i + 1]]
  {
    assert log.cuts[i + 1] <= |log.stream|;
    SliceSplit(log.stream, log.cuts[i], log.starts[h], log.cuts[i + 1]);
  }

  lemma PendingIs(log: SentLog, last: nat, run: nat, w: nat)
    requires log.Valid() && run <= last < log.Packets() && InProgress(log, last, run, w)
    requires log.cuts[run] <= log.starts[w]
    ensures w <= log.Messages() && log.starts[w] <= log.cuts[last + 1] <= |log.stream|
    ensures w < log.Messages() ==> log.cuts[last + 1] <= log.starts[w + 1]
    ensures Pending(log, last, run, w) == log.stream[log.starts[w]..log.cuts[last + 1]]
  {
  }

  lemma CutsOrdered(log: SentLog, i: nat)
    requires log.Valid() && i < log.Packets()
    ensures log.cuts[i] < log.cuts[i + 1] <= |log.stream|
    ensures forall k | 0 <= k < i :: log.cuts[k] < log.cuts[i]
  {
  }

  lemma EndsAt(log: SentLog, j: nat)
    requires j + 1 < |log.starts|
    ensures At(log.starts[j + 1]) <= Position(log, Sent(j)) <= At(log.starts[j + 1]) + 2
  {
    hide Carried;
  }

  /** Next packet in sequence with a message start in it, a message pending: it is completed,
      then the messages that start here are written. */
  lemma ContinueCompletes(log: SentLog, r: Receiver, got: set<nat>, last: nat, run: nat, w: nat,
                          items: seq<Item>, h: nat) returns (w': nat, items': seq<Item>)
    requires log.Valid() && last + 1 < log.Packets() && Inv(log, r, got, last, run, w, items)
    requires log.cuts[run] <= log.starts[w] < log.cuts[last + 1] && h == w + 1 <= log.Messages()
    requires log.cuts[last + 1] <= log.starts[h] < log.cuts[last + 2]
    ensures Inv(log, Completed(r, log.stream[log.cuts[last + 1]..log.starts[h]],
                               log.stream[log.starts[h]..log.cuts[last + 2]]),
                got + {last + 1}, last + 1, run, w', items')
    ensures Grows(log, items, items', [], At(log.cuts[last + 1]), At(log.cuts[last + 2]))
  {
    hide SentLog.Valid, RunInv, InProgress, Pending, FileInv, Grows, Split, Covered, Position, At;
    RunBounds(log, got, last, run);
    PendingIs(log, last, run, w);
    CutsOrdered(log, last + 1);
    var i := last + 1;
    Extend(log, got, last, run);
    FileStable(log, r.file, got, i, w, items);
    var r1 := CompletePending(log, r, got + {i}, last, run, w, items);
    w', items' := Finish(log, r1, got + {i}, i, run, h, items + [Sent(w)]);
    AtLeast(log.cuts[i], log.starts[h]);
    EndsAt(log, w);
    GrowsByOne(log, items, Sent(w), At(log.cuts[i]));
    GrowsTwice(log, items, items + [Sent(w)], items', [], [], At(log.cuts[i]), Position(log, Sent(w)),
               At(log.starts[h]) + 2, At(log.cuts[i + 1]));
  }

  /** The same with nothing pending: the remains of a lost message are skipped. */
  lemma ContinueSkips(log: SentLog, r: Receiver, got: set<nat>, last: nat, run: nat, w: nat,
                      items: seq<Item>, h: nat) returns (w': nat, items': seq<Item>)
    requires log.Valid() && last + 1 < log.Packets() && Inv(log, r, got, last, run, w, items)
    requires r.ulogMessage == [] && h <= log.Messages()
    requires if log.starts[w] < log.cuts[last + 1] then h == w + 1 else h == w
    requires log.cuts[last + 1] <= log.starts[h] < log.cuts[last + 2]
    ensures Inv(log, Completed(r, [], log.stream[log.starts[h]..log.cuts[last + 2]]),
                got + {last + 1}, last + 1, run, w', items')
    ensures Grows(log, items, items', [], At(log.cuts[last + 1]), At(log.cuts[last + 2]))
  {
    hide FileInv, Grows, Split, Covered, At;
    var i := last + 1;
    Extend(log, got, last, run);
    FileStable(log, r.file, got, i, w, items);
    if log.starts[w] < log.cuts[i] {
      LostStart(log, got + {i}, i, run, w);
      FileSkips(log, r.file, got + {i}, w, items);
    }
    assert r.file + (r.ulogMessage + []) == r.file;
    w', items' := Finish(log, r, got + {i}, i, run, h, items);
    AtLeast(log.cuts[i], log.starts[h]);
    GrowsNot(log, items, At(log.cuts[i]), At(log.starts[h]) + 2);
    GrowsTwice(log, items, items, items', [], [], At(log.cuts[i]), At(log.starts[h]) + 2, At(log.starts[h]) + 2,
               At(log.cuts[i + 1]));
  }

  /** What processing does to data `t + d` whose first message starts with `d`. */
  function Completed(r: Receiver, t: seq<Byte>, d: seq<Byte>): Receiver {
    Split(Written(r, r.ulogMessage + t), d)
  }

  lemma RunCompletes(r: Receiver, data: seq<Byte>, start: nat)
    requires start != NO_MESSAGE_START
    ensures ProcessRun(r, data, start)
            == Completed(r, if r.ulogMessage == [] then [] else Take(data, start), Drop(data, start))
  {
  }

  /** Next packet in sequence with a message start in it. */
  lemma ContinueAtStart(log: SentLog, r: Receiver, got: set<nat>, last: nat, run: nat, w: nat,
                        items: seq<Item>) returns (w': nat, items': seq<Item>)
    requires log.Valid() && last + 1 < log.Packets() && Inv(log, r, got, last, run, w, items)
    requires log.Offset(last + 1) != NO_MESSAGE_START
    ensures Inv(log, ProcessRun(r, Piece(log.stream, log.cuts, last + 1), log.Offset(last + 1)),
                got + {last + 1}, last + 1, run, w', items')
    ensures Grows(log, items, items', [], At(log.cuts[last + 1]), At(log.cuts[last + 2]))
  {
    hide FileInv, Grows, Completed, ProcessRun, Drop, Take, Piece;
    var i := last + 1;
    var h := FirstAtOrAfter(log.starts, log.cuts[i]);
    OffsetAt(log, i);
    NextStart(log, last, run, w);
    CutAtStart(log, i, h);
    RunCompletes(r, Piece(log.stream, log.cuts, i), log.Offset(i));
    if |r.ulogMessage| > 0 {
      w', items' := ContinueCompletes(log, r, got, last, run, w, items, h);
    } else {
      w', items' := ContinueSkips(log, r, got, last, run, w, items, h);
    }
  }

  /** The pending bytes and the packet's bytes before its first start make message `w`. */
  lemma CompletePending(log: SentLog, r: Receiver, got: set<nat>, last: nat, run: nat, w: nat,
                        items: seq<Item>) returns (r1: Receiver)
    requires log.Valid() && last + 1 < log.Packets() && w < log.Messages()
    requires RunInv(log, got, last + 1, run) && run <= last && InProgress(log, last, run, w)
    requires log.cuts[run] <= log.starts[w] < log.cuts[last + 1]
    requires log.starts[w + 1] < log.cuts[last + 2]
    requires r.ulogMessage == log.stream[log.starts[w]..log.cuts[last + 1]]
    requires FileInv(log, r.file, got, w, items)
    ensures r1 == Written(r, r.ulogMessage + log.stream[log.cuts[last + 1]..log.starts[w + 1]])
    ensures FileInv(log, r1.file, got, w + 1, items + [Sent(w)])
  {
    hide FileInv, Covered;
    SliceSplit(log.stream, log.starts[w], log.cuts[last + 1], log.starts[w + 1]);
    CoveredInRun(log, got, run, last + 1, w);
    FileAppend(log, r.file, got, w, items, Sent(w));
    r1 := Written(r, log.Message(w));
  }

  // ---------------------------------------------------------------- after a gap

  lemma FlushFile(r: Receiver, drops: nat)
    ensures Flushed(r, drops).file
            == (if r.gotHeaderSection then r.file + DropoutRecord(drops) else r.file)
               + Flatten(Whole(r.ulogMessage))
    ensures Flushed(r, drops).gotUlogHeader == r.gotUlogHeader
    ensures Flushed(r, drops).ulogMessage == []
  {
  }

  /** The pending buffer is the whole of message `w`, or holds no whole message. */
  lemma PendingWhole(log: SentLog, last: nat, run: nat, w: nat)
    requires log.Valid() && run <= last < log.Packets() && InProgress(log, last, run, w)
    ensures Whole(Pending(log, last, run, w))
            == if w < log.Messages() && log.cuts[last + 1] == log.starts[w + 1]
               then [log.Message(w)] else []
  {
    var p := log.cuts[last + 1];
    if w < log.Messages() && p == log.starts[w + 1] {
      assert MarksMessage(log.stream, log.starts, w);
      FirstMessage(log.stream, log.starts[w], p, p);
      assert log.stream[p..p] == [];
    } else if log.cuts[run] <= log.starts[w] {
      PrefixIncomplete(log, w, p);
    }
  }

  /** The record written for a gap behind packet `last`, if one is written. */
  function RecordOf(r: Receiver, drops: nat, last: nat): seq<Item> {
    if r.gotHeaderSection then [Dropout(drops, last + 1)] else []
  }

  /** The dropout record, if one is written, is one more item. */
  lemma FlushDropout(log: SentLog, r: Receiver, got: set<nat>, w: nat, items: seq<Item>,
                     drops: nat, last: nat) returns (items': seq<Item>)
    requires log.Valid() && last < log.Packets() && FileInv(log, r.file, got, w, items)
    ensures FileInv(log, if r.gotHeaderSection then r.file + DropoutRecord(drops) else r.file,
                    got, w, items')
    ensures Grows(log, items, items', RecordOf(r, drops, last), At(log.cuts[last + 1]), At(log.cuts[last + 1]) + 1)
  {
    hide FileInv, Grows, Carried;
    if r.gotHeaderSection {
      FileAppend(log, r.file, got, w, items, Dropout(drops, last + 1));
      items' := items + [Dropout(drops, last + 1)];
      GrowsByOne(log, items, Dropout(drops, last + 1), At(log.cuts[last + 1]));
    } else {
      items' := items;
      GrowsNot(log, items, At(log.cuts[last + 1]), At(log.cuts[last + 1]) + 1);
    }
  }

  /** Flushing settles message `w`: afterwards the file is exact up to the first message
      that is still open at the end of packet `last`. */
  lemma FlushPending(log: SentLog, file: seq<Byte>, got: set<nat>, last: nat, run: nat, w: nat,
                     items: seq<Item>) returns (w': nat, items': seq<Item>)
    requires log.Valid() && RunInv(log, got, last, run) && InProgress(log, last, run, w)
    requires FileInv(log, file, got, w, items)
    ensures w' <= log.Messages() && log.starts[w'] <= log.cuts[last + 1]
    ensures w' < log.Messages() ==> log.cuts[last + 1] < log.starts[w' + 1]
    ensures FileInv(log, file + Flatten(Whole(Pending(log, last, run, w))), got, w', items')
    ensures Grows(log, items, items', [], At(log.cuts[last + 1]) + 1, At(log.cuts[last + 1]) + 2)
  {
    hide FileInv, Grows, Pending, Whole, Carried, At;
    PendingWhole(log, last, run, w);
    if w < log.Messages() && log.cuts[last + 1] == log.starts[w + 1] {
      CoveredInRun(log, got, run, last, w);
      FlushComplete(log, file, got, w, items);
      items', w' := items + [Sent(w)], w + 1;
      IsCarried(log, last, w);
      GrowsByOne(log, items, Sent(w), At(log.cuts[last + 1]) + 1);
    } else {
      items', w' := items, w;
      assert file + Flatten<Byte>([]) == file;
      GrowsNot(log, items, At(log.cuts[last + 1]) + 1, At(log.cuts[last + 1]) + 2);
    }
  }

  lemma IsCarried(log: SentLog, last: nat, w: nat)
    requires last + 1 < |log.cuts| && w + 1 < |log.starts|
    requires log.cuts[last + 1] == log.starts[w + 1] && log.starts[w] < log.cuts[last]
    ensures Position(log, Sent(w)) == At(log.cuts[last + 1]) + 2
  {
    assert CarriedTo(log, w, last);
  }

  lemma FlushComplete(log: SentLog, file: seq<Byte>, got: set<nat>, w: nat, items: seq<Item>)
    requires log.Valid() && FileInv(log, file, got, w, items) && Covered(log, got, w)
    ensures FileInv(log, file + Flatten([log.Message(w)]), got, w + 1, items + [Sent(w)])
  {
    FileAppend(log, file, got, w, items, Sent(w));
    assert Flatten([log.Message(w)]) == log.Message(w);
  }

  lemma Flush(log: SentLog, r: Receiver, got: set<nat>, last: nat, run: nat, w: nat,
              items: seq<Item>, drops: nat) returns (w': nat, items': seq<Item>)
    requires log.Valid() && Inv(log, r, got, last, run, w, items)
    ensures w' <= log.Messages() && log.starts[w'] <= log.cuts[last + 1]
    ensures w' < log.Messages() ==> log.cuts[last + 1] < log.starts[w' + 1]
    ensures FileInv(log, Flushed(r, drops).file, got, w', items')
    ensures Grows(log, items, items', RecordOf(r, drops, last), At(log.cuts[last + 1]), At(log.cuts[last + 1]) + 2)
  {
    hide FileInv, Grows, At, Flushed, Pending, Whole;
    FlushFile(r, drops);
    var items1 := FlushDropout(log, r, got, w, items, drops, last);
    var file := if r.gotHeaderSection then r.file + DropoutRecord(drops) else r.file;
    w', items' := FlushPending(log, file, got, last, run, w, items1);
    var p := At(log.cuts[last + 1]);
    GrowsTwice(log, items, items1, items', RecordOf(r, drops, last), [], p, p + 1, p + 1, p + 2);
    assert RecordOf(r, drops, last) + [] == RecordOf(r, drops, last);
  }

  /** Messages open at the end of packet `last` and starting before packet `i` are lost. */
  lemma GapSkips(log: SentLog, got: set<nat>, last: nat, i: nat, w: nat, h: nat)
    requires log.Valid() && last + 1 < i < log.Packets() && w <= h <= log.Messages()
    requires forall k: nat | last < k < i :: k !in got
    requires w < log.Messages() ==> log.cuts[last + 1] < log.starts[w + 1]
    requires h > w ==> log.starts[h - 1] < log.cuts[i]
    ensures CoveredBelow(log, got, h) == CoveredBelow(log, got, w)
  {
    forall j: nat | w <= j < h ensures !Covered(log, got, j) {
      assert log.starts[w + 1] <= log.starts[j + 1] && log.starts[j] <= log.starts[h - 1];
      NotCoveredInGap(log, got, last + 1, i, j);
    }
    CoveredSkip(log, got, w, h);
  }

  lemma NewRun(log: SentLog, got: set<nat>, last: nat, run: nat, i: nat)
    requires RunInv(log, got, last, run) && last + 1 < i < log.Packets()
    ensures RunInv(log, got + {i}, i, i)
  {
  }

  /** Nothing open at the gap is covered, so the file is exact up to packet `i`. */
  lemma GapFile(log: SentLog, file: seq<Byte>, got: set<nat>, last: nat, i: nat, w: nat,
                items: seq<Item>, h: nat)
    requires log.Valid() && last + 1 < i < log.Packets()
    requires forall k: nat | k in got :: k <= last
    requires FileInv(log, file, got, w, items)
    requires w <= log.Messages() && log.starts[w] <= log.cuts[last + 1] < log.cuts[i]
    requires w < log.Messages() ==> log.cuts[last + 1] < log.starts[w + 1]
    requires h == FirstAtOrAfter(log.starts, log.cuts[i])
    ensures 0 < h <= log.Messages()
    ensures log.starts[h - 1] < log.cuts[i] <= log.starts[h]
    ensures FileInv(log, file, got + {i}, h, items)
    ensures FileInv(log, file, got + {i}, h - 1, items)
  {
    hide FileInv;
    StartsBeforeGap(log, i, w, h);
    GapFileUpTo(log, file, got, last, i, w, items, h);
    GapFileUpTo(log, file, got, last, i, w, items, h - 1);
  }

  lemma GapFileUpTo(log: SentLog, file: seq<Byte>, got: set<nat>, last: nat, i: nat, w: nat,
                    items: seq<Item>, g: nat)
    requires log.Valid() && last + 1 < i < log.Packets() && w <= g <= log.Messages()
    requires forall k: nat | k in got :: k <= last
    requires FileInv(log, file, got, w, items)
    requires log.starts[w] <= log.cuts[i] && (g > w ==> log.starts[g - 1] < log.cuts[i])
    requires w < log.Messages() ==> log.cuts[last + 1] < log.starts[w + 1]
    ensures FileInv(log, file, got + {i}, g, items)
  {
    CoveredStable(log, got, i, w);
    GapSkips(log, got + {i}, last, i, w, g);
  }

  lemma StartsBeforeGap(log: SentLog, i: nat, w: nat, h: nat)
    requires log.Valid() && 0 < i < log.Packets() && w <= log.Messages()
    requires log.starts[w] < log.cuts[i] && h == FirstAtOrAfter(log.starts, log.cuts[i])
    ensures w < h <= log.Messages() && log.starts[h - 1] < log.cuts[i] <= log.starts[h]
  {
  }

  /** No message starts in the packet after the gap: it is dropped. */
  lemma ResumeNowhere(log: SentLog, r: Receiver, got: set<nat>, i: nat, h: nat,
                      items: seq<Item>) returns (w: nat)
    requires log.Valid() && 0 < i < log.Packets() && RunInv(log, got, i, i)
    requires r.gotUlogHeader && r.ulogMessage == []
    requires 0 < h <= log.Messages() && log.starts[h - 1] < log.cuts[i]
    requires log.cuts[i + 1] <= log.starts[h]
    requires FileInv(log, r.file, got, h, items) && FileInv(log, r.file, got, h - 1, items)
    ensures Inv(log, r, got, i, i, w, items)
  {
    w := if log.starts[h] == log.cuts[i + 1] then h else h - 1;
  }

  /** Without pending bytes, data that starts with a message is just split. */
  lemma RunFromStart(r: Receiver, data: seq<Byte>, start: nat)
    requires r.ulogMessage == []
    ensures ProcessRun(r, Drop(data, start), 0) == Split(r, Drop(data, start))
  {
  }

  /** A packet accepted after a gap. */
  lemma AfterGap(log: SentLog, r: Receiver, got: set<nat>, last: nat, run: nat, w: nat,
                 items: seq<Item>, i: nat) returns (w': nat, items': seq<Item>)
    requires log.Valid() && last + 1 < i < log.Packets() && Inv(log, r, got, last, run, w, items)
    ensures Inv(log, ProcessBody(r, Piece(log.stream, log.cuts, i), log.Offset(i), i - last - 1),
                got + {i}, i, i, w', items')
    ensures Grows(log, items, items', RecordOf(r, i - last - 1, last), At(log.cuts[last + 1]), At(log.cuts[i + 1]))
  {
    hide At, FileInv, Grows, Flushed, Resumed, RecordOf;
    var drops := i - last - 1;
    var r2 := Flushed(r, drops);
    FlushFile(r, drops);
    var w2, items2 := Flush(log, r, got, last, run, w, items, drops);
    var h := FirstAtOrAfter(log.starts, log.cuts[i]);
    GapFile(log, r2.file, got, last, i, w2, items2, h);
    NewRun(log, got, last, run, i);
    w', items' := ResumeAfterGap(log, r2, got + {i}, i, h, items2);
    var record := RecordOf(r, drops, last);
    AtNext(log.cuts[last + 1], log.cuts[i]);
    GrowsTwice(log, items, items2, items', record, [], At(log.cuts[last + 1]), At(log.cuts[last + 1]) + 2,
               At(log.cuts[i]), At(log.cuts[i + 1]));
    assert record + [] == record;
  }

  /** With the flush done, the new packet is read from its first message start. */
  lemma ResumeAfterGap(log: SentLog, r: Receiver, got: set<nat>, i: nat, h: nat, items: seq<Item>)
    returns (w: nat, items': seq<Item>)
    requires log.Valid() && 0 < i < log.Packets() && RunInv(log, got, i, i)
    requires r.gotUlogHeader && r.ulogMessage == []
    requires 0 < h <= log.Messages() && h == FirstAtOrAfter(log.starts, log.cuts[i])
    requires log.starts[h - 1] < log.cuts[i]
    requires FileInv(log, r.file, got, h, items) && FileInv(log, r.file, got, h - 1, items)
    ensures Inv(log, Resumed(r, Piece(log.stream, log.cuts, i), log.Offset(i)), got, i, i, w, items')
    ensures Grows(log, items, items', [], At(log.cuts[i]), At(log.cuts[i + 1]))
  {
    hide At, FileInv, Grows, ProcessRun, Drop, Piece, Split;
    OffsetAt(log, i);
    assert log.cuts[i] < log.cuts[i + 1];
    if log.Offset(i) == NO_MESSAGE_START {
      items' := items;
      w := ResumeNowhere(log, r, got, i, h, items);
      AtLeast(log.cuts[i], log.cuts[i + 1]);
      GrowsNot(log, items, At(log.cuts[i]), At(log.cuts[i + 1]));
    } else {
      CutAtStart(log, i, h);
      RunFromStart(r, Piece(log.stream, log.cuts, i), log.Offset(i));
      w, items' := Finish(log, r, got, i, i, h, items);
      AtLeast(log.cuts[i], log.starts[h]);
      GrowsNot(log, items, At(log.cuts[i]), At(log.starts[h]) + 2);
      GrowsTwice(log, items, items, items', [], [], At(log.cuts[i]), At(log.starts[h]) + 2, At(log.starts[h]) + 2,
                 At(log.cuts[i + 1]));
    }
  }

  // ---------------------------------------------------------------- whole runs

  /** Any accepted packet after the first. */
  lemma AcceptedStep(log: SentLog, r: Receiver, got: set<nat>, last: nat, run: nat, w: nat,
                     items: seq<Item>, i: nat)
    returns (run': nat, w': nat, items': seq<Item>)
    requires log.Valid() && last < i < log.Packets() && Inv(log, r, got, last, run, w, items)
    ensures Inv(log, ProcessBody(r, Piece(log.stream, log.cuts, i), log.Offset(i), i - last - 1),
                got + {i}, i, run', w', items')
    ensures i == last + 1 ==> run' == run
    ensures Grows(log, items, items', if i > last + 1 then RecordOf(r, i - last - 1, last) else [],
                  At(log.cuts[last + 1]), At(log.cuts[i + 1]))
  {
    hide FileInv, Grows, ProcessRun, Flushed, Resumed, RecordOf;
    if i > last + 1 {
      run' := i;
      w', items' := AfterGap(log, r, got, last, run, w, items, i);
    } else {
      run' := run;
      if log.Offset(i) == NO_MESSAGE_START {
        w' := ContinueInside(log, r, got, last, run, w, items);
        items' := items;
        assert log.cuts[i] < log.cuts[i + 1];
        AtLeast(log.cuts[i], log.cuts[i + 1]);
        GrowsNot(log, items, At(log.cuts[i]), At(log.cuts[i + 1]));
      } else {
        w', items' := ContinueAtStart(log, r, got, last, run, w, items);
      }
    }
  }

  /** The first packet: the header, then whole messages. */
  lemma FirstStep(log: SentLog, r: Receiver) returns (w: nat, items: seq<Item>)
    requires log.Valid() && !r.gotUlogHeader && r.ulogMessage == [] && r.file == []
    ensures var o := Process(r, Piece(log.stream, log.cuts, 0), 0, 0);
            o.Done? && Inv(log, o.receiver, {0}, 0, 0, w, items)
    ensures Grows(log, [], items, [], At(log.starts[0]) + 2, At(log.cuts[1]))
  {
    var data := Piece(log.stream, log.cuts, 0);
    assert data == log.stream[..log.cuts[1]];
    var r1 := Written(r, data[..ULOG_HEADER]).(gotUlogHeader := true);
    assert data[ULOG_HEADER..] == log.stream[log.starts[0]..log.cuts[1]];
    assert Drop(data[ULOG_HEADER..], 0) == data[ULOG_HEADER..];
    assert r1.file == log.stream[..ULOG_HEADER] + Encode(log, []);
    w, items := Finish(log, r1, {0}, 0, 0, 0, []);
  }

  /** Processing data leaves the sequence bookkeeping alone. */
  lemma BodyKeepsCounters(r: Receiver, data: seq<Byte>, start: nat, drops: int)
    ensures var r' := ProcessBody(r, data, start, drops);
            r'.lastSequence == r.lastSequence && r'.numDropouts == r.numDropouts
            && r'.gotHeaderSection == r.gotHeaderSection
  {
  }

  /** With nothing lost on the way, processing moves bytes from packet to file and pending
      buffer, and nothing else. */
  lemma LosslessRun(r: Receiver, data: seq<Byte>, start: nat)
    requires start == NO_MESSAGE_START ==> |r.ulogMessage| > 0
    requires start != NO_MESSAGE_START ==> start <= |data|
    requires r.ulogMessage == [] ==> start == 0
    ensures var r' := ProcessRun(r, data, start);
            r'.file + r'.ulogMessage == (r.file + r.ulogMessage) + data
  {
    hide Whole, Rest, Flatten, StartsComplete, IsMessage;
    if start == NO_MESSAGE_START {
      Assoc(r.file, r.ulogMessage, data);
    } else {
      var t, d := Take(data, start), Drop(data, start);
      SplitIsExact(d);
      assert t + d == data;
      Regroup(r.file, r.ulogMessage, t, Flatten(Whole(d)), Rest(d));
      if r.ulogMessage == [] {
        assert r.ulogMessage + t == [] && r.file + [] == r.file;
      }
    }
  }

  lemma Regroup<T>(f: seq<T>, u: seq<T>, t: seq<T>, w: seq<T>, z: seq<T>)
    ensures ((f + (u + t)) + w) + z == (f + u) + (t + (w + z))
  {
  }

  /** Every new packet directly follows the newest one: repetitions, no losses. */
  predicate NothingLost(arrivals: seq<nat>) {
    forall k | 0 < k < |arrivals| :: arrivals[k] <= Newest(arrivals[..k]) + 1
  }

  lemma PrefixOfRun(log: SentLog, arrivals: seq<nat>)
    requires Run(log, arrivals) && |arrivals| > 1
    ensures Run(log, arrivals[..|arrivals| - 1])
    ensures NothingLost(arrivals) ==> NothingLost(arrivals[..|arrivals| - 1])
  {
    var before := arrivals[..|arrivals| - 1];
    assert forall k | 0 <= k <= |before| :: before[..k] == arrivals[..k];
  }

  /** One packet, once it is known whether it is news. */
  lemma StepOnPacket(r: Receiver, p: Packet, newer: bool, drops: nat)
    requires Classify(r.lastSequence, p.sequence) == (newer, drops)
    requires r.gotUlogHeader
    ensures Step(r, Log(p))
            == if newer
               then Done(ProcessBody(Accept(Acknowledge(r, p), p, drops),
                                     Take(p.data, p.length), p.firstMessageOffset, drops))
               else Done(Acknowledge(r, p))
  {
  }

  /** What counts of a packet's data. */
  lemma WireData(log: SentLog, i: nat)
    requires log.Valid() && i < log.Packets()
    ensures Take(log.Wire(i).data, log.Wire(i).length) == Piece(log.stream, log.cuts, i)
  {
    hide Piece;
    var data := Piece(log.stream, log.cuts, i);
    PieceIs(log, i);
    assert Padded(data)[..|data|] == data;
  }

  /** One arrival, seen from the specification: news is processed, the rest ignored. */
  lemma ArrivalStep(log: SentLog, r: Receiver, newest: nat, i: nat)
    requires log.Valid() && i < log.Packets()
    requires r.lastSequence == (log.firstSequence + newest) % 65536
    requires -32768 < i - newest < 32768
    requires r.gotUlogHeader
    ensures var p := log.Wire(i);
            Step(r, Log(p))
            == if i > newest
               then Done(ProcessBody(Accept(Acknowledge(r, p), p, i - newest - 1),
                                     Piece(log.stream, log.cuts, i), log.Offset(i), i - newest - 1))
               else Done(Acknowledge(r, p))
  {
    hide ProcessBody, Step, Accept, Acknowledge, Piece, Padded, Classify;
    ClassifyRecoversIndex(log.firstSequence + newest, log.firstSequence + i);
    WireData(log, i);
    StepOnPacket(r, log.Wire(i), i > newest, if i > newest then i - newest - 1 else 0);
  }

  /** The invariant does not depend on counters and flags. */
  lemma InvSame(log: SentLog, r: Receiver, r': Receiver, got: set<nat>, last: nat, run: nat,
                w: nat, items: seq<Item>)
    requires log.Valid() && Inv(log, r, got, last, run, w, items)
    requires r'.gotUlogHeader && r'.ulogMessage == r.ulogMessage && r'.file == r.file
    ensures Inv(log, r', got, last, run, w, items)
  {
  }

  /** Sequence bookkeeping in step with absolute packet indices. */
  ghost predicate Counts(log: SentLog, r: Receiver, got: set<nat>, newest: nat) {
    && r.lastSequence == log.Sequence(newest)
    && r.numDropouts + |got| - 1 == newest
    && (r.gotHeaderSection <==> PastHeader(log, got))
  }

  lemma PastHeaderNext(log: SentLog, got: set<nat>, i: nat)
    requires log.Valid() && i < log.Packets()
    ensures i < |log.acked|
    ensures PastHeader(log, got + {i}) <==> PastHeader(log, got) || !log.acked[i]
  {
    if PastHeader(log, got) {
      var k: nat :| k in got && k < |log.acked| && !log.acked[k];
      assert k in got + {i};
    }
    if !log.acked[i] {
      assert i in got + {i};
    }
  }

  lemma AcceptIs(r: Receiver, p: Packet, drops: nat)
    ensures var r' := Accept(Acknowledge(r, p), p, drops);
            && r'.lastSequence == p.sequence && r'.numDropouts == r.numDropouts + drops
            && r'.gotHeaderSection == (r.gotHeaderSection || p.kind == LoggingData)
  {
  }

  lemma WireIs(log: SentLog, i: nat)
    requires log.Valid() && i < log.Packets()
    ensures log.Wire(i).sequence == log.Sequence(i)
    ensures i < |log.acked| && (log.Wire(i).kind == LoggingData <==> !log.acked[i])
  {
    hide Piece, Padded, SentLog.Offset;
  }

  lemma OneLarger(got: set<nat>, i: nat)
    requires i !in got
    ensures |got + {i}| == |got| + 1
  {
  }

  /** Accepting packet `i` accounts for it and for every packet it skipped. */
  lemma AcceptCounts(log: SentLog, r: Receiver, got: set<nat>, last: nat, i: nat)
    requires i < log.Packets() && log.Valid() && last < i && Counts(log, r, got, last)
    requires forall k: nat | k in got :: k <= last
    ensures var p := log.Wire(i);
            var r2 := Accept(Acknowledge(r, p), p, i - last - 1);
            Counts(log, ProcessBody(r2, Piece(log.stream, log.cuts, i), log.Offset(i), i - last - 1), got + {i}, i)
  {
    var p := log.Wire(i);
    var r2 := Accept(Acknowledge(r, p), p, i - last - 1);
    hide ProcessBody, Accept, Acknowledge, PastHeader, Piece, SentLog.Valid, SentLog.Offset, SentLog.Wire,
      SentLog.Sequence;
    BodyKeepsCounters(r2, Piece(log.stream, log.cuts, i), log.Offset(i), i - last - 1);
    AcceptIs(r, p, i - last - 1);
    WireIs(log, i);
    PastHeaderNext(log, got, i);
    assert i !in got;
    OneLarger(got, i);
  }

  lemma KnownFrom(log: SentLog, r: Receiver, got: set<nat>, last: nat, run: nat, w: nat, items: seq<Item>)
    requires log.Valid() && Inv(log, r, got, last, run, w, items) && Counts(log, r, got, last)
    ensures r.gotUlogHeader && r.lastSequence == (log.firstSequence + last) % 65536
    ensures run <= last < log.Packets() && forall k: nat | k in got :: k <= last
  {
    hide InProgress, Pending, FileInv, PastHeader;
  }

  lemma CountsSame(log: SentLog, r: Receiver, r': Receiver, got: set<nat>, last: nat)
    requires Counts(log, r, got, last) && r'.lastSequence == r.lastSequence && r'.numDropouts == r.numDropouts
    requires r'.gotHeaderSection == r.gotHeaderSection
    ensures Counts(log, r', got, last)
  {
  }

  /** The record that is due is the one that is written. */
  lemma GapIsRecord(log: SentLog, r: Receiver, got: set<nat>, last: nat, i: nat)
    requires log.Valid() && last < i < log.Packets() && Counts(log, r, got, last)
    requires forall k: nat | k in got :: k <= last
    ensures var p := log.Wire(i);
            var r2 := Accept(Acknowledge(r, p), p, i - last - 1);
            Gap(log, got, last, i) == if i > last + 1 then RecordOf(r2, i - last - 1, last) else []
  {
    hide ProcessBody, PastHeader, Padded, Piece;
    var p := log.Wire(i);
    AcceptCounts(log, r, got, last, i);
    BodyKeepsCounters(Accept(Acknowledge(r, p), p, i - last - 1), Piece(log.stream, log.cuts, i), log.Offset(i),
                      i - last - 1);
  }

  /** One more arrival keeps everything. */
  lemma OneArrival(log: SentLog, r: Receiver, got: set<nat>, last: nat, run: nat, w: nat,
                   items: seq<Item>, i: nat)
    returns (run': nat, w': nat, items': seq<Item>)
    requires log.Valid() && i < log.Packets() && Inv(log, r, got, last, run, w, items)
    requires Counts(log, r, got, last)
    requires -32768 < i - last < 32768
    ensures var o := Step(r, Log(log.Wire(i)));
            var got' := if i > last then got + {i} else got;
            var last' := if i > last then i else last;
            && o.Done?
            && Inv(log, o.receiver, got', last', run', w', items')
            && Counts(log, o.receiver, got', last')
    ensures i <= last + 1 ==> run' == run
    ensures Grows(log, items, items', Gap(log, got, last, i), EndOf(log, last),
                  EndOf(log, if i > last then i else last))
  {
    hide Inv, Counts, Grows, ProcessBody, Step, Padded, Piece, PastHeader, RecordOf;
    var p := log.Wire(i);
    KnownFrom(log, r, got, last, run, w, items);
    ArrivalStep(log, r, last, i);
    var r1 := Acknowledge(r, p);
    if i <= last {
      run', w', items' := run, w, items;
      InvSame(log, r, r1, got, last, run, w, items);
      CountsSame(log, r, r1, got, last);
      GrowsNot(log, items, At(log.cuts[last + 1]), At(log.cuts[last + 1]));
    } else {
      var r2 := Accept(r1, p, i - last - 1);
      InvSame(log, r, r2, got, last, run, w, items);
      run', w', items' := AcceptedStep(log, r2, got, last, run, w, items, i);
      AcceptCounts(log, r, got, last, i);
      GapIsRecord(log, r, got, last, i);
    }
  }

  lemma FirstArrival(log: SentLog) returns (w: nat, items: seq<Item>)
    requires log.Valid()
    ensures var o := Step(FRESH, Log(log.Wire(0)));
            o.Done? && Inv(log, o.receiver, {0}, 0, 0, w, items) && Counts(log, o.receiver, {0}, 0)
    ensures Grows(log, [], items, [], At(log.starts[0]) + 2, At(log.cuts[1]))
  {
    var p, data := log.Wire(0), Piece(log.stream, log.cuts, 0);
    WireData(log, 0);
    var r := Accept(Acknowledge(FRESH, p), p, 0);
    assert Step(FRESH, Log(p)) == Process(r, data, 0, 0);
    w, items := FirstStep(log, r);
    BodyKeepsCounters(Written(r, data[..ULOG_HEADER]).(gotUlogHeader := true), data[ULOG_HEADER..], 0, 0);
  }

  /** Everything that is known of the receiver after a run. */
  ghost predicate Reached(log: SentLog, arrivals: seq<nat>, o: Outcome, run: nat, w: nat, items: seq<Item>)
    requires log.Valid()
  {
    var got, newest := Records(arrivals), Newest(arrivals);
    && o.Done? && Inv(log, o.receiver, got, newest, run, w, items)
    && Counts(log, o.receiver, got, newest)
    && (NothingLost(arrivals) ==> run == 0)
    && Dropouts(items) == Gaps(log, arrivals)
    && Ordered(log, items, EndOf(log, newest))
  }

  lemma ReachedFirst(log: SentLog) returns (w: nat, items: seq<Item>)
    requires log.Valid()
    ensures Reached(log, [0], Step(FRESH, Log(log.Wire(0))), 0, w, items)
  {
    hide Inv, Counts, Step;
    w, items := FirstArrival(log);
    assert [0][..0] == [];
    assert Newest([]) == 0 && Records([]) == {};
    assert Records([0]) == {0} && Newest([0]) == 0;
  }

  /** Records, newest packet and gaps after one more arrival. */
  lemma OneMore(log: SentLog, before: seq<nat>, i: nat)
    requires before != []
    ensures var all := before + [i];
            var n := Newest(before);
            && Newest(all) == (if i > n then i else n)
            && Records(all) == (if i > n then Records(before) + {i} else Records(before))
            && Gaps(log, all) == Gaps(log, before) + Gap(log, Records(before), n, i)
            && (NothingLost(all) ==> NothingLost(before) && i <= n + 1)
  {
    var all := before + [i];
    assert all[..|before|] == before;
    forall k | 0 < k < |before| && NothingLost(all) ensures before[k] <= Newest(before[..k]) + 1 {
      assert all[k] == before[k] && all[..k] == before[..k];
    }
  }

  lemma ReachedNext(log: SentLog, before: seq<nat>, i: nat, r: Receiver, run: nat, w: nat, items: seq<Item>)
    returns (run': nat, w': nat, items': seq<Item>)
    requires log.Valid() && before != [] && i < log.Packets() && -32768 < i - Newest(before) < 32768
    requires Reached(log, before, Done(r), run, w, items)
    ensures Reached(log, before + [i], Step(r, Log(log.Wire(i))), run', w', items')
  {
    hide FileInv, InProgress, Pending, Counts, Step, NothingLost, Newest, Records, Gaps, Dropouts, Ordered;
    OneMore(log, before, i);
    run', w', items' := OneArrival(log, r, Records(before), Newest(before), run, w, items, i);
  }

  /** Every reachable receiver satisfies the invariant, and never raises. */
  lemma {:induction false} RunKeepsInvariant(log: SentLog, arrivals: seq<nat>)
    returns (run: nat, w: nat, items: seq<Item>)
    requires log.Valid() && Run(log, arrivals) && arrivals != []
    ensures Reached(log, arrivals, Receive(log, arrivals), run, w, items)
    decreases |arrivals|
  {
    hide Inv, Counts, Step, NothingLost, Gaps, Dropouts, Ordered;
    var before, i := arrivals[..|arrivals| - 1], arrivals[|arrivals| - 1];
    SplitLast(arrivals);
    if before == [] {
      run := 0;
      w, items := ReachedFirst(log);
      assert Receive(log, before) == Done(FRESH);
    } else {
      PrefixOfRun(log, arrivals);
      var run0, w0, items0 := RunKeepsInvariant(log, before);
      run, w, items := ReachedNext(log, before, i, Receive(log, before).receiver, run0, w0, items0);
    }
  }

  // ---------------------------------------------------------------- the theorems

  function MessagesAt(log: SentLog, indices: seq<nat>): seq<seq<Byte>> {
    seq(|indices|, k requires 0 <= k < |indices| => log.Message(indices[k]))
  }

  function Entries(log: SentLog, items: seq<Item>): seq<seq<Byte>> {
    seq(|items|, k requires 0 <= k < |items| => ItemBytes(log, items[k]))
  }

  lemma {:induction false} EncodeIsFlatten(log: SentLog, items: seq<Item>)
    ensures Encode(log, items) == Flatten(Entries(log, items))
  {
    if items != [] {
      var n := |items| - 1;
      EncodeIsFlatten(log, items[..n]);
      FlattenAppend(Entries(log, items[..n]), ItemBytes(log, items[n]));
      EntriesLast(log, items);
    }
  }

  lemma EntriesLast(log: SentLog, items: seq<Item>)
    requires items != []
    ensures var n := |items| - 1;
            Entries(log, items) == Entries(log, items[..n]) + [ItemBytes(log, items[n])]
  {
  }

  /** Every item of a file is a well-formed ULog message, dropout records included. */
  lemma EntriesAreMessages(log: SentLog, items: seq<Item>)
    requires log.Valid()
    requires forall k | 0 <= k < |items| :: items[k].Sent? ==> items[k].index < log.Messages()
    ensures Whole(Encode(log, items)) == Entries(log, items)
    ensures Rest(Encode(log, items)) == []
  {
    EncodeIsFlatten(log, items);
    forall m | m in Entries(log, items) ensures IsMessage(m) {
      var k :| 0 <= k < |items| && m == ItemBytes(log, items[k]);
      if items[k].Sent? {
        assert MarksMessage(log.stream, log.starts, items[k].index);
      }
    }
    SplitInvertsConcat(Entries(log, items), []);
    assert Flatten(Entries(log, items)) + [] == Flatten(Entries(log, items));
  }

  lemma {:induction false} IndicesBounded(log: SentLog, got: set<nat>, w: nat)
    requires w <= log.Messages()
    ensures forall k | 0 <= k < |CoveredBelow(log, got, w)| ::
              CoveredBelow(log, got, w)[k] < log.Messages()
  {
    if w > 0 {
      IndicesBounded(log, got, w - 1);
    }
  }

  lemma {:induction false} SentAmongIndices(items: seq<Item>, k: nat)
    requires k < |items| && items[k].Sent?
    ensures items[k].index in Indices(items)
  {
    var n := |items| - 1;
    if k < n {
      SentAmongIndices(items[..n], k);
    }
  }

  /** Messages still open after the newest packet are not covered. */
  lemma NothingBeyond(log: SentLog, got: set<nat>, last: nat, w: nat)
    requires log.Valid() && last < log.Packets() && w <= log.Messages()
    requires forall k: nat | k in got :: k <= last
    requires w < log.Messages() ==> log.cuts[last + 1] < log.starts[w + 1]
    ensures CoveredBelow(log, got, log.Messages()) == CoveredBelow(log, got, w)
  {
    forall j: nat | w <= j < log.Messages() ensures !Covered(log, got, j) {
      assert log.starts[w + 1] <= log.starts[j + 1] <= |log.stream|;
      assert log.starts[j] < log.starts[j + 1];
      NotCoveredInGap(log, got, last + 1, log.Packets(), j);
    }
    CoveredSkip(log, got, w, log.Messages());
  }

  lemma MessagesAtNext(log: SentLog, got: set<nat>, w: nat)
    requires Covered(log, got, w)
    ensures MessagesAt(log, CoveredBelow(log, got, w + 1))
            == MessagesAt(log, CoveredBelow(log, got, w)) + [log.Message(w)]
  {
  }

  /** The pending buffer accounts for the one covered message not yet in the file. */
  lemma PendingSettles(log: SentLog, got: set<nat>, last: nat, run: nat, w: nat)
    requires log.Valid() && RunInv(log, got, last, run) && InProgress(log, last, run, w)
    ensures MessagesAt(log, CoveredBelow(log, got, log.Messages()))
            == MessagesAt(log, CoveredBelow(log, got, w)) + Whole(Pending(log, last, run, w))
  {
    hide CoveredBelow, Covered, MessagesAt, Whole, Pending;
    PendingWhole(log, last, run, w);
    if w < log.Messages() && log.cuts[last + 1] == log.starts[w + 1] {
      CoveredInRun(log, got, run, last, w);
      NothingBeyond(log, got, last, w + 1);
      MessagesAtNext(log, got, w);
    } else {
      NothingBeyond(log, got, last, w);
      assert MessagesAt(log, CoveredBelow(log, got, w)) + [] == MessagesAt(log, CoveredBelow(log, got, w));
    }
  }

  /** MAIN RESULT. After any run, whatever was dropped, repeated or reordered after the first
      packet: the receiver has not raised; its file is the header followed by whole messages
      and nothing else; and the sent messages in it, followed by a complete pending one, are
      exactly the messages wholly covered by accepted packets, in order and once each. Once the
      header section is over it holds one dropout record per gap, in order, standing for the
      packets skipped and stating 10 ms for each, 250 ms at most; and everything lies in stream
      order: messages before a record end before its gap begins or at once with it, messages behind
      it do not, and one that was still pending when the gap was noticed stands behind it. */
  lemma Reassembly(log: SentLog, arrivals: seq<nat>) returns (items: seq<Item>)
    requires log.Valid() && Run(log, arrivals) && arrivals != []
    ensures Receive(log, arrivals).Done?
    ensures var r := Receive(log, arrivals).receiver;
            && |r.file| >= 16
            && r.file[..16] == log.stream[..16]
            && Whole(r.file[16..]) == Entries(log, items)
            && Rest(r.file[16..]) == []
            && MessagesAt(log, Indices(items)) + Whole(r.ulogMessage)
               == MessagesAt(log, CoveredBelow(log, Records(arrivals), log.Messages()))
    ensures Dropouts(items) == Gaps(log, arrivals)
    ensures Ordered(log, items, EndOf(log, Newest(arrivals)))
    ensures var messages := Whole(Receive(log, arrivals).receiver.file[16..]);
            |messages| == |items| && forall k | 0 <= k < |items| :: SpellsOut(log, items[k], messages[k])
  {
    hide SpellsOut, Ordered, Gaps, Dropouts, Receive, Records, Newest, Whole, Rest, NothingLost;
    var run, w;
    run, w, items := RunKeepsInvariant(log, arrivals);
    var r, got := Receive(log, arrivals).receiver, Records(arrivals);
    PendingSettles(log, got, Newest(arrivals), run, w);
    assert r.file[ULOG_HEADER..] == Encode(log, items);
    IndicesBounded(log, got, w);
    forall k | 0 <= k < |items| ensures items[k].Sent? ==> items[k].index < log.Messages() {
      if items[k].Sent? { SentAmongIndices(items, k); }
    }
    EntriesAreMessages(log, items);
    EntriesSpelled(log, items);
  }

  lemma EntriesSpelled(log: SentLog, items: seq<Item>)
    requires log.Valid()
    requires forall k | 0 <= k < |items| :: items[k].Sent? ==> items[k].index < log.Messages()
    ensures forall k | 0 <= k < |items| :: SpellsOut(log, items[k], Entries(log, items)[k])
  {
    forall k | 0 <= k < |items| ensures SpellsOut(log, items[k], Entries(log, items)[k]) {
      if items[k].Dropout? {
        DropoutStatesDuration(items[k].count);
      } else {
        MessageAt(log, items[k].index);
      }
    }
  }

  /** The bytes of an item, written out: the stretch of the stream the sender made the message of,
      or a five-byte ULog message of type 79 whose duration is 10 ms per lost packet. */
  ghost predicate SpellsOut(log: SentLog, item: Item, m: seq<Byte>) {
    match item
    case Sent(j) =>
      j + 1 < |log.starts| && log.starts[j] <= log.starts[j + 1] <= |log.stream|
      && m == log.stream[log.starts[j]..log.starts[j + 1]]
    case Dropout(n, _) =>
      |m| == 5 && m[0] == 2 && m[1] == 0 && m[2] == 79
      && var low: int, high: int := m[3], m[4];
         low + 256 * high == if n < 25 then 10 * n else 250
  }

  lemma NeverRaises(log: SentLog, arrivals: seq<nat>)
    requires log.Valid() && Run(log, arrivals)
    ensures Receive(log, arrivals).Done?
    ensures Receive(log, arrivals).receiver.gotHeaderSection <==> PastHeader(log, Records(arrivals))
  {
    hide Inv, Gaps, Dropouts, Ordered, NothingLost;
    if arrivals != [] {
      var run, w, items := RunKeepsInvariant(log, arrivals);
    }
  }

  /** The acknowledgements owed for a run: one for every arrival, repeated or not, of a packet
      that asks for it, with its 16-bit sequence number. */
  function AcksOwed(log: SentLog, arrivals: seq<nat>): seq<nat> {
    if arrivals == [] then []
    else
      var i := arrivals[|arrivals| - 1];
      AcksOwed(log, arrivals[..|arrivals| - 1])
      + if i < |log.acked| && log.acked[i] then [(log.firstSequence + i) % 65536] else []
  }

  lemma ProcessKeepsAcks(r: Receiver, data: seq<Byte>, start: nat, drops: int)
    ensures Process(r, data, start, drops).receiver.acks == r.acks
  {
    hide Whole, Rest, Flatten, Drop, Take, DropoutRecord;
  }

  lemma StepAcks(r: Receiver, p: Packet)
    ensures Step(r, Log(p)).receiver.acks == r.acks + if p.kind == LoggingDataAcked then [p.sequence] else []
  {
    hide Process;
    var (newer, drops) := Classify(r.lastSequence, p.sequence);
    ProcessKeepsAcks(Accept(Acknowledge(r, p), p, drops), Take(p.data, p.length), p.firstMessageOffset, drops);
  }

  /** Exactly those are sent, in order, whether or not the packet was news. */
  lemma {:induction false} AcksExactly(log: SentLog, arrivals: seq<nat>)
    requires log.Valid() && Run(log, arrivals)
    ensures Receive(log, arrivals).receiver.acks == AcksOwed(log, arrivals)
    decreases |arrivals|
  {
    if arrivals != [] {
      hide Step;
      var before, i := arrivals[..|arrivals| - 1], arrivals[|arrivals| - 1];
      RunPrefix(log, arrivals, |arrivals| - 1);
      RunInRange(log, arrivals, |arrivals| - 1);
      AcksExactly(log, before);
      NeverRaises(log, before);
      StepAcks(Receive(log, before).receiver, log.Wire(i));
    }
  }

  // ---------------------------------------------------------------- whole sessions

  /** What one turn of the main loop can see: nothing, an answer to a command, a packet. */
  datatype Event = Quiet | Ack(isStart: bool, result: int) | Arrival(index: nat)

  datatype Turn = Turn(event: Event, expired: bool)

  function ArrivalsOf(turns: seq<Turn>): seq<nat> {
    if turns == [] then []
    else
      var last := turns[|turns| - 1];
      ArrivalsOf(turns[..|turns| - 1]) + if last.event.Arrival? then [last.event.index] else []
  }

  predicate SessionRun(log: SentLog, turns: seq<Turn>) {
    Run(log, ArrivalsOf(turns))
  }

  lemma SessionPrefix(log: SentLog, turns: seq<Turn>)
    requires SessionRun(log, turns) && turns != []
    ensures SessionRun(log, turns[..|turns| - 1])
    ensures turns[|turns| - 1].event.Arrival? ==> turns[|turns| - 1].event.index < log.Packets()
  {
    hide Run;
    var arrivals, before := ArrivalsOf(turns), ArrivalsOf(turns[..|turns| - 1]);
    RunPrefix(log, arrivals, |before|);
    assert arrivals[..|before|] == before;
    if turns[|turns| - 1].event.Arrival? {
      RunInRange(log, arrivals, |before|);
    }
  }

  lemma RunInRange(log: SentLog, arrivals: seq<nat>, k: nat)
    requires Run(log, arrivals) && k < |arrivals|
    ensures arrivals[k] < log.Packets()
  {
  }

  function Seen(log: SentLog, e: Event): Incoming
    requires log.Valid() && (e.Arrival? ==> e.index < log.Packets())
  {
    match e
    case Quiet => Timeout
    case Ack(isStart, result) => CommandAck(isStart, result)
    case Arrival(i) => Log(log.Wire(i))
  }

  /** The receiver after a session of the main loop. */
  function Session(log: SentLog, turns: seq<Turn>): Outcome
    requires log.Valid() && SessionRun(log, turns)
  {
    if turns == [] then Done(FRESH)
    else
      SessionPrefix(log, turns);
      var o, last := Session(log, turns[..|turns| - 1]), turns[|turns| - 1];
      if o.Raised? then o else LoopStep(o.receiver, Seen(log, last.event), last.expired)
  }

  ghost predicate HeaderOver(log: SentLog, turns: seq<Turn>) {
    PastHeader(log, Records(ArrivalsOf(turns)))
  }

  /** Logging has started: it was confirmed, or a packet after the header section came in. */
  ghost predicate Started(log: SentLog, turns: seq<Turn>) {
    HeaderOver(log, turns) || Confirmed(turns)
  }

  ghost predicate Confirmed(turns: seq<Turn>) {
    exists k :: 0 <= k < |turns| && turns[k].event == Ack(true, 0)
  }

  /** What ends a session: the start command is refused while the header section lasts, or the
      four seconds are over and logging has not started. */
  ghost predicate Fails(log: SentLog, turns: seq<Turn>) {
    turns != []
    && var before, last := turns[..|turns| - 1], turns[|turns| - 1];
       || Fails(log, before)
       || (last.event.Ack? && last.event.isStart && last.event.result != 0 && !HeaderOver(log, before))
       || (last.expired && !Started(log, turns))
  }

  function WithStart(o: Outcome, b: bool): Outcome {
    o.(receiver := o.receiver.(loggingStarted := b))
  }

  lemma BodyApart(r: Receiver, b: bool, data: seq<Byte>, start: nat, drops: int)
    ensures ProcessBody(r.(loggingStarted := b), data, start, drops)
            == ProcessBody(r, data, start, drops).(loggingStarted := b)
    ensures ProcessBody(r, data, start, drops).loggingStarted == r.loggingStarted
    ensures ProcessBody(r, data, start, drops).gotHeaderSection == r.gotHeaderSection
  {
    hide ProcessRun, Flushed;
    var r' := Flushed(r, if drops > 0 then drops else 0);
    RunApart(r, b, data, start);
    RunApart(r', b, Drop(data, start), 0);
    FlushApart(r, b, if drops > 0 then drops else 0);
  }

  lemma RunApart(r: Receiver, b: bool, data: seq<Byte>, start: nat)
    ensures ProcessRun(r.(loggingStarted := b), data, start)
            == ProcessRun(r, data, start).(loggingStarted := b)
    ensures ProcessRun(r, data, start).loggingStarted == r.loggingStarted
    ensures ProcessRun(r, data, start).gotHeaderSection == r.gotHeaderSection
  {
    hide Whole, Rest, Flatten, Drop, Take;
  }

  lemma FlushApart(r: Receiver, b: bool, drops: nat)
    ensures Flushed(r.(loggingStarted := b), drops) == Flushed(r, drops).(loggingStarted := b)
    ensures Flushed(r, drops).loggingStarted == r.loggingStarted
    ensures Flushed(r, drops).gotHeaderSection == r.gotHeaderSection
  {
    hide Whole, Flatten, DropoutRecord;
  }

  /** Processing data does not look at whether logging has started. */
  lemma ProcessApart(r: Receiver, b: bool, data: seq<Byte>, start: nat, drops: int)
    ensures Process(r.(loggingStarted := b), data, start, drops)
            == WithStart(Process(r, data, start, drops), b)
    ensures Process(r, data, start, drops).receiver.loggingStarted == r.loggingStarted
    ensures Process(r, data, start, drops).receiver.gotHeaderSection == r.gotHeaderSection
  {
    hide ProcessBody;
    BodyApart(r, b, data, start, drops);
    if |data| >= ULOG_HEADER {
      var r1 := Written(r, data[..ULOG_HEADER]).(gotUlogHeader := true);
      BodyApart(r1, b, data[ULOG_HEADER..], start, drops);
    }
  }

  /** Nor does reading a packet; it records that logging has started when the header section
      ends. */
  lemma StepApart(r: Receiver, b: bool, p: Packet)
    ensures var o := Step(r, Log(p));
            Step(r.(loggingStarted := b), Log(p))
            == WithStart(o, b || (o.receiver.gotHeaderSection && !r.gotHeaderSection))
  {
    hide Process;
    var (newer, drops) := Classify(r.lastSequence, p.sequence);
    var r1 := Accept(Acknowledge(r, p), p, drops);
    var r2 := Accept(Acknowledge(r.(loggingStarted := b), p), p, drops);
    assert r2 == r1.(loggingStarted := r2.loggingStarted);
    ProcessApart(r1, r2.loggingStarted, Take(p.data, p.length), p.firstMessageOffset, drops);
  }

  /** The session has reached the state of its packets alone, except that logging may have
      started earlier. */
  ghost predicate InStep(log: SentLog, turns: seq<Turn>)
    requires log.Valid() && SessionRun(log, turns)
  {
    var o := Session(log, turns);
    && (o.Raised? <==> Fails(log, turns))
    && (o.Done? ==> o == WithStart(Receive(log, ArrivalsOf(turns)), Started(log, turns)))
  }

  /** A turn without a packet. */
  lemma InStepOther(log: SentLog, turns: seq<Turn>)
    requires log.Valid() && turns != [] && SessionRun(log, turns)
    requires SessionRun(log, turns[..|turns| - 1]) && InStep(log, turns[..|turns| - 1])
    requires !turns[|turns| - 1].event.Arrival?
    ensures InStep(log, turns)
  {
    hide Receive, Run, HeaderOver, Started;
    var before, last := turns[..|turns| - 1], turns[|turns| - 1];
    HeaderSame(log, turns);
    NeverRaises(log, ArrivalsOf(before));
    HeaderIs(log, before);
    StartedNext(log, turns);
    HeaderStarts(log, before);
  }

  lemma HeaderSame(log: SentLog, turns: seq<Turn>)
    requires turns != [] && !turns[|turns| - 1].event.Arrival?
    ensures ArrivalsOf(turns) == ArrivalsOf(turns[..|turns| - 1])
    ensures HeaderOver(log, turns) <==> HeaderOver(log, turns[..|turns| - 1])
  {
    hide PastHeader, Records;
  }

  lemma HeaderIs(log: SentLog, turns: seq<Turn>)
    ensures HeaderOver(log, turns) <==> PastHeader(log, Records(ArrivalsOf(turns)))
  {
  }

  lemma HeaderStarts(log: SentLog, turns: seq<Turn>)
    ensures HeaderOver(log, turns) ==> Started(log, turns)
  {
  }

  lemma StartedNext(log: SentLog, turns: seq<Turn>)
    requires turns != []
    ensures var before, last := turns[..|turns| - 1], turns[|turns| - 1];
            Started(log, turns)
            <==> HeaderOver(log, turns) || Started(log, before) || last.event == Ack(true, 0)
  {
    hide HeaderOver, Confirmed;
    ConfirmedNext(turns);
    if HeaderOver(log, turns[..|turns| - 1]) {
      HeaderStays(log, turns);
    }
  }

  lemma ConfirmedNext(turns: seq<Turn>)
    requires turns != []
    ensures Confirmed(turns)
            <==> Confirmed(turns[..|turns| - 1]) || turns[|turns| - 1].event == Ack(true, 0)
  {
    var before, last := turns[..|turns| - 1], turns[|turns| - 1];
    if Confirmed(before) {
      var k :| 0 <= k < |before| && before[k].event == Ack(true, 0);
      assert turns[k].event == Ack(true, 0);
    }
    if Confirmed(turns) {
      var k :| 0 <= k < |turns| && turns[k].event == Ack(true, 0);
      assert k < |before| ==> before[k].event == Ack(true, 0);
    }
  }

  lemma HeaderStays(log: SentLog, turns: seq<Turn>)
    requires turns != [] && HeaderOver(log, turns[..|turns| - 1])
    ensures HeaderOver(log, turns)
  {
    var before := turns[..|turns| - 1];
    var arrivals := ArrivalsOf(turns);
    if turns[|turns| - 1].event.Arrival? {
      assert arrivals[..|arrivals| - 1] == ArrivalsOf(before);
      assert Records(ArrivalsOf(before)) <= Records(arrivals);
    } else {
      assert arrivals == ArrivalsOf(before);
    }
  }

  /** A turn with a packet. */
  lemma InStepArrival(log: SentLog, turns: seq<Turn>)
    requires log.Valid() && turns != [] && SessionRun(log, turns)
    requires SessionRun(log, turns[..|turns| - 1]) && InStep(log, turns[..|turns| - 1])
    requires turns[|turns| - 1].event.Arrival?
    ensures InStep(log, turns)
  {
    hide PastHeader, Records, Step, Run;
    var before, last := turns[..|turns| - 1], turns[|turns| - 1];
    var arrivals, earlier := ArrivalsOf(turns), ArrivalsOf(before);
    assert arrivals[..|arrivals| - 1] == earlier;
    NeverRaises(log, earlier);
    NeverRaises(log, arrivals);
    StartedNext(log, turns);
    SessionPrefix(log, turns);
    StepApart(Receive(log, earlier).receiver, Started(log, before), log.Wire(last.event.index));
  }

  /** MAIN RESULT on sessions. Answers and silence between the packets change nothing: a session
      ends early exactly if the start is refused or overdue, and otherwise reaches the state that
      the results on runs speak about. */
  lemma {:induction false} SessionIsRun(log: SentLog, turns: seq<Turn>)
    requires log.Valid() && SessionRun(log, turns)
    ensures var o := Session(log, turns);
            && (o.Raised? <==> Fails(log, turns))
            && (o.Done? ==> o == WithStart(Receive(log, ArrivalsOf(turns)), Started(log, turns)))
    decreases |turns|
  {
    if turns != [] {
      SessionPrefix(log, turns);
      SessionIsRun(log, turns[..|turns| - 1]);
      if turns[|turns| - 1].event.Arrival? {
        InStepArrival(log, turns);
      } else {
        InStepOther(log, turns);
      }
    }
  }

  lemma {:induction false} RaisedStays(log: SentLog, turns: seq<Turn>, n: nat)
    requires log.Valid() && SessionRun(log, turns) && n <= |turns| && SessionRun(log, turns[..n])
    requires Session(log, turns[..n]).Raised?
    ensures Session(log, turns) == Session(log, turns[..n])
    decreases |turns|
  {
    if n == |turns| {
      assert turns[..n] == turns;
    } else {
      SessionPrefix(log, turns);
      assert turns[..|turns| - 1][..n] == turns[..n];
      RaisedStays(log, turns[..|turns| - 1], n);
    }
  }

  lemma {:induction false} SessionRunPrefix(log: SentLog, turns: seq<Turn>, n: nat)
    requires SessionRun(log, turns) && n <= |turns|
    ensures SessionRun(log, turns[..n])
    decreases |turns|
  {
    if n == |turns| {
      assert turns[..n] == turns;
    } else {
      SessionPrefix(log, turns);
      assert turns[..|turns| - 1][..n] == turns[..n];
      SessionRunPrefix(log, turns[..|turns| - 1], n);
    }
  }

  /** The main loop over a whole session. */
  method ReadMessages(log: SentLog, turns: seq<Turn>) returns (ok: bool, receiver: LogStreaming)
    requires log.Valid() && SessionRun(log, turns)
    ensures fresh(receiver)
    ensures ok <==> !Fails(log, turns)
    ensures ok ==> Done(receiver.State()) == WithStart(Receive(log, ArrivalsOf(turns)), Started(log, turns))
  {
    hide Fails, Started, Receive, Run, LoopStep;
    receiver := new LogStreaming();
    ok := true;
    var n := 0;
    SessionIsRun(log, turns);
    SessionRunPrefix(log, turns, 0);
    while n < |turns|
      invariant 0 <= n <= |turns| && ok && fresh(receiver) && SessionRun(log, turns[..n])
      invariant Session(log, turns[..n]) == Done(receiver.State())
    {
      SessionRunPrefix(log, turns, n + 1);
      SessionPrefix(log, turns[..n + 1]);
      assert turns[..n + 1][..n] == turns[..n] && turns[..n + 1][n] == turns[n];
      ok := receiver.LoopTurn(Seen(log, turns[n].event), turns[n].expired);
      n := n + 1;
      if !ok {
        RaisedStays(log, turns, n);
        return;
      }
    }
    assert turns[..n] == turns;
  }

  lemma RunPrefix(log: SentLog, arrivals: seq<nat>, n: nat)
    requires Run(log, arrivals) && n <= |arrivals|
    ensures Run(log, arrivals[..n])
  {
    forall k | 0 < k < n ensures -32768 < arrivals[k] - Newest(arrivals[..n][..k]) < 32768 {
      assert arrivals[..n][..k] == arrivals[..k];
    }
  }

  /** Cumulative positions of consecutive pieces, from position `from`. */
  function Marks(from: nat, pieces: seq<seq<Byte>>): (marks: seq<nat>)
    ensures |marks| == |pieces| + 1 && marks[0] == from
    decreases |pieces|
  {
    if pieces == [] then [from] else [from] + Marks(from + |pieces[0]|, pieces[1..])
  }

  lemma {:induction false} MarksCut(before: seq<Byte>, pieces: seq<seq<Byte>>)
    requires forall k | 0 <= k < |pieces| :: pieces[k] != []
    ensures var marks, stream := Marks(|before|, pieces), before + Flatten(pieces);
            && (forall j | 0 <= j < |marks| :: |before| <= marks[j])
            && Increasing(marks)
            && marks[|pieces|] == |stream|
            && (forall j | 0 <= j < |pieces| :: Piece(stream, marks, j) == pieces[j])
    decreases |pieces|
  {
    if pieces != [] {
      var head, tail := pieces[0], pieces[1..];
      MarksCut(before + head, tail);
      Assoc(before, head, Flatten(tail));
      var marks, stream := Marks(|before|, pieces), before + Flatten(pieces);
      var rest := Marks(|before + head|, tail);
      assert marks == [|before|] + rest;
      forall j | 0 <= j < |pieces| ensures Piece(stream, marks, j) == pieces[j] {
        if j == 0 {
          assert rest[0] == |before + head|;
        } else {
          assert Piece(stream, rest, j - 1) == tail[j - 1];
        }
      }
    }
  }

  lemma FirstMark(pieces: seq<seq<Byte>>)
    requires pieces != []
    ensures Marks(0, pieces)[1] == |pieces[0]|
  {
  }

  /** The sender model is not restrictive: any messages, cut into packets in any way, with
      the header inside the first packet, form a valid log. */
  lemma AnyCutting(header: seq<Byte>, messages: seq<seq<Byte>>, packets: seq<seq<Byte>>,
                   acked: seq<bool>, firstSequence: nat) returns (log: SentLog)
    requires |header| == 16 && packets != [] && |packets[0]| >= 16
    requires forall k | 0 <= k < |messages| :: IsMessage(messages[k])
    requires forall k | 0 <= k < |packets| :: 1 <= |packets[k]| <= 249
    requires Flatten(packets) == header + Flatten(messages)
    requires |acked| == |packets|
    ensures log.Valid() && log.Messages() == |messages| && log.Packets() == |packets|
    ensures log.stream == header + Flatten(messages) && log.firstSequence == firstSequence
    ensures forall j | 0 <= j < |messages| :: log.Message(j) == messages[j]
    ensures forall i | 0 <= i < |packets| ::
              log.Wire(i).length == |packets[i]| && Take(log.Wire(i).data, |packets[i]|) == packets[i]
  {
    hide Flatten, Marks;
    log := SentLog(header + Flatten(messages), Marks(16, messages), Marks(0, packets),
                   acked, firstSequence);
    MarksCut(header, messages);
    MarksCut([], packets);
    assert [] + Flatten(packets) == Flatten(packets);
    FirstMark(packets);
    forall j | 0 <= j < |messages| ensures MarksMessage(log.stream, log.starts, j) {
      assert Piece(log.stream, log.starts, j) == messages[j];
    }
    forall i | 0 <= i < |packets| ensures MarksPacket(log.cuts, i) {
      assert Piece(log.stream, log.cuts, i) == packets[i];
    }
    forall i | 0 <= i < |packets|
      ensures log.Wire(i).length == |packets[i]| && Take(log.Wire(i).data, |packets[i]|) == packets[i]
    {
      WireData(log, i);
      PieceIs(log, i);
    }
  }

  /** Accepted packets are exactly the record-setting arrivals; the sequence number kept is
      that of the newest; and every packet index up to it is either accepted or counted as
      dropped. */
  lemma SequenceAccounting(log: SentLog, arrivals: seq<nat>)
    requires log.Valid() && Run(log, arrivals) && arrivals != []
    ensures var r := Receive(log, arrivals).receiver;
            && r.lastSequence == (log.firstSequence + Newest(arrivals)) % 65536
            && r.numDropouts + |Records(arrivals)| - 1 == Newest(arrivals)
  {
    hide Inv, NothingLost, Gaps, Dropouts, Ordered, Receive, Newest, Records;
    var run, w, items := RunKeepsInvariant(log, arrivals);
  }

  /** File and pending buffer together are the stream up to the end of packet `last`. */
  ghost predicate HoldsPrefix(log: SentLog, r: Receiver, last: nat) {
    && last < log.Packets() && log.cuts[last + 1] <= |log.stream|
    && r.file + r.ulogMessage == log.stream[..log.cuts[last + 1]]
  }

  /** With nothing lost, file and pending buffer together are the stream received so far,
      byte for byte, however the messages were cut into packets. */
  lemma {:induction false} Lossless(log: SentLog, arrivals: seq<nat>)
    requires log.Valid() && Run(log, arrivals) && arrivals != [] && NothingLost(arrivals)
    ensures HoldsPrefix(log, Receive(log, arrivals).receiver, Newest(arrivals))
    decreases |arrivals|
  {
    hide Inv, Counts, Step, Gaps, Dropouts, Ordered;
    var before, i := arrivals[..|arrivals| - 1], arrivals[|arrivals| - 1];
    if before == [] {
      LosslessFirst(log);
      assert arrivals == [0];
    } else {
      PrefixOfRun(log, arrivals);
      Lossless(log, before);
      var run, w, items := RunKeepsInvariant(log, before);
      LosslessArrival(log, Receive(log, before).receiver, Records(before), Newest(before), w,
                      items, i);
    }
  }

  lemma LosslessFirst(log: SentLog)
    requires log.Valid()
    ensures HoldsPrefix(log, Step(FRESH, Log(log.Wire(0))).receiver, 0)
  {
    var p, data := log.Wire(0), Piece(log.stream, log.cuts, 0);
    PieceIs(log, 0);
    WireData(log, 0);
    assert data == log.stream[..log.cuts[1]];
    var r := Accept(Acknowledge(FRESH, p), p, 0);
    assert Step(FRESH, Log(p)) == Process(r, data, 0, 0);
    LosslessRun(Written(r, data[..ULOG_HEADER]).(gotUlogHeader := true), data[ULOG_HEADER..], 0);
  }

  lemma HoldsSame(log: SentLog, r: Receiver, r': Receiver, last: nat)
    requires HoldsPrefix(log, r, last)
    requires r'.file == r.file && r'.ulogMessage == r.ulogMessage
    ensures HoldsPrefix(log, r', last)
  {
  }

  lemma InSequence(r: Receiver, data: seq<Byte>, start: nat)
    ensures ProcessBody(r, data, start, 0) == ProcessRun(r, data, start)
  {
  }

  lemma LosslessNews(log: SentLog, r: Receiver, got: set<nat>, last: nat, w: nat,
                     items: seq<Item>)
    requires log.Valid() && last + 1 < log.Packets()
    requires Inv(log, r, got, last, 0, w, items) && HoldsPrefix(log, r, last)
    ensures HoldsPrefix(log, ProcessBody(r, Piece(log.stream, log.cuts, last + 1),
                                         log.Offset(last + 1), 0), last + 1)
  {
    var i := last + 1;
    InSequence(r, Piece(log.stream, log.cuts, i), log.Offset(i));
    OffsetAt(log, i);
    NextStart(log, last, 0, w);
    LosslessRun(r, Piece(log.stream, log.cuts, i), log.Offset(i));
    assert log.cuts[i + 1] <= |log.stream|;
    SliceSplit(log.stream, 0, log.cuts[i], log.cuts[i + 1]);
  }

  lemma LosslessArrival(log: SentLog, r: Receiver, got: set<nat>, last: nat, w: nat,
                        items: seq<Item>, i: nat)
    requires log.Valid() && i < log.Packets() && i <= last + 1 && last - i < 32768
    requires Inv(log, r, got, last, 0, w, items) && Counts(log, r, got, last)
    requires HoldsPrefix(log, r, last)
    ensures HoldsPrefix(log, Step(r, Log(log.Wire(i))).receiver, if i > last then i else last)
  {
    hide FileInv, InProgress, Pending, Step, ProcessBody, HoldsPrefix;
    ArrivalStep(log, r, last, i);
    if i > last {
      var p := log.Wire(i);
      var r2 := Accept(Acknowledge(r, p), p, 0);
      InvSame(log, r, r2, got, last, 0, w, items);
      HoldsSame(log, r, r2, last);
      LosslessNews(log, r2, got, last, w, items);
    } else {
      HoldsSame(log, r, Acknowledge(r, log.Wire(i)), last);
    }
  }
}
