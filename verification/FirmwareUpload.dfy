/** The uploader against a device that answers every command with one INSYNC, status pair. */
module FirmwareUpload {
  import opened Bytes
  import opened FirmwareCrc
  import opened Bootloader

  datatype Command =
    | Query
    | ChipErase
    | ProgMulti(data: seq<bv8>)
    | ChipVerify
    | ReadMulti(count: nat)
    | GetCrc
    | SetBootDelay(delay: int)
    | Reboot

  /** A boot delay to set; it goes over the line as one signed byte. */
  datatype Delay = NoDelay | Delay(value: int)

  predicate FitsByte(delay: Delay) {
    delay.Delay? ==> -128 <= delay.value <= 127
  }

  /** The PROG_MULTI commands for a list of blocks. */
  function Blocks(groups: seq<seq<bv8>>): (cs: seq<Command>)
    ensures |cs| == |groups|
  {
    if groups == [] then [] else Blocks(groups[..|groups| - 1]) + [ProgMulti(groups[|groups| - 1])]
  }

  function WordBytes(w: bv32): seq<bv8> {
    [(w & 0xff) as bv8, ((w >> 8) & 0xff) as bv8, ((w >> 16) & 0xff) as bv8, ((w >> 24) & 0xff) as bv8]
  }

  /** Little-endian `<I`. */
  function UnpackWord(raw: seq<bv8>): bv32
    requires |raw| == 4
  {
    (raw[0] as bv32) | ((raw[1] as bv32) << 8) | ((raw[2] as bv32) << 16) | ((raw[3] as bv32) << 24)
  }

  lemma WordRoundTrip(w: bv32)
    ensures |WordBytes(w)| == 4 && UnpackWord(WordBytes(w)) == w
  {
  }

  /** And the other way round; byte `k` holds bits 8k to 8k + 7. */
  lemma WordOfBytes(raw: seq<bv8>)
    requires |raw| == 4
    ensures WordBytes(UnpackWord(raw)) == raw
    ensures var w := UnpackWord(raw);
            && w & 0xff == raw[0] as bv32 && (w >> 8) & 0xff == raw[1] as bv32
            && (w >> 16) & 0xff == raw[2] as bv32 && w >> 24 == raw[3] as bv32
  {
  }

  /** The chip description, as a number of comma-separated parts. */
  datatype Description = Unasked | Silent | Pieces(n: nat)

  /** The serial line and the device behind it. Whether a command succeeds, which status it
      reports and how many of the available bytes a read returns is up to the device. A
      faithful device reports OK to PROG_MULTI only if it wrote the block at the next address
      after the last one; an unfaithful one may leave anything in flash. A reliable device does
      every command it can do and delivers every byte. A prompt one leaves no late reply to the
      board queries behind. */
  class Device {
    const faithful: bool
    const reliable: bool
    const prompt: bool
    const chipPieces: nat
    var inbox: seq<bv8>
    var flash: seq<bv8>
    var readPos: nat
    var written: seq<bv8>
    var clean: bool
    var trace: seq<Command>
    var described: Description        // what the board queries brought
    ghost var heard: seq<bv8>         // every byte the uploader has read
    ghost var staleAtErase: seq<bv8>  // what was queued when the last erase was sent
    ghost var refused: seq<Command>   // what was refused from then on

    /** On a faithful device, as long as every block since the erase was accepted, flash is
        those blocks followed by erased bytes. */
    ghost predicate Valid()
      reads this
    {
      && readPos <= |flash|
      && (faithful && clean ==>
            |written| <= |flash| && flash == written + Blank(|flash| - |written|))
    }

    /** A status byte other than OK. */
    method Refuse(ghost c: Command) returns (ghost st: bv8)
      modifies this`inbox, this`refused
      ensures st != OK && inbox == old(inbox) + [INSYNC, st] && refused == old(refused) + [c]
    {
      refused := refused + [c];
      var code: bv8 := *;
      if code == OK { code := FAILED; }
      inbox := inbox + [INSYNC, code];
      st := code;
    }

    method Scramble()
      modifies this`flash
      ensures |flash| == |old(flash)|
    {
      var f: seq<bv8> := *;
      if |f| == |flash| { flash := f; }
    }

    method Erase() returns (ghost st: bv8)
      requires Valid()
      modifies this
      ensures Valid() && |flash| == |old(flash)|
      ensures trace == old(trace) + [ChipErase]
      ensures inbox == old(inbox) + [INSYNC, st]
      ensures st == OK ==> clean && written == []
      ensures reliable ==> st == OK
      ensures staleAtErase == old(inbox) && described == old(described) && heard == old(heard)
      ensures refused == if st == OK then [] else [ChipErase]
    {
      trace := trace + [ChipErase];
      staleAtErase, refused := inbox, [];
      var done := *;
      if done || reliable {
        flash, written, clean := Blank(|flash|), [], true;
        if !faithful { Scramble(); }
        inbox := inbox + [INSYNC, OK];
        st := OK;
      } else {
        Scramble();
        clean := false;
        st := Refuse(ChipErase);
      }
    }

    method Program(data: seq<bv8>) returns (ghost st: bv8)
      requires Valid()
      modifies this`inbox, this`flash, this`written, this`clean, this`trace, this`refused
      ensures Valid() && |flash| == |old(flash)|
      ensures trace == old(trace) + [ProgMulti(data)]
      ensures inbox == old(inbox) + [INSYNC, st]
      ensures st == OK ==> clean == old(clean) && written == old(written) + data
      ensures refused == old(refused) + if st == OK then [] else [ProgMulti(data)]
      ensures reliable && |old(written)| + |data| <= |flash| ==> st == OK
    {
      trace := trace + [ProgMulti(data)];
      var done := *;
      if (done || reliable) && (faithful && clean ==> |written| + |data| <= |flash|) {
        written := written + data;
        if faithful && clean {
          flash := written + Blank(|flash| - |written|);
        } else {
          Scramble();
        }
        inbox := inbox + [INSYNC, OK];
        st := OK;
      } else {
        Scramble();
        clean := false;
        st := Refuse(ProgMulti(data));
      }
    }

    /** Any command that only answers: CHIP_VERIFY, SET_BOOT_DELAY, REBOOT. */
    method Plain(c: Command) returns (ghost st: bv8)
      requires Valid()
      modifies this`inbox, this`trace, this`readPos, this`refused
      ensures Valid() && trace == old(trace) + [c] && (c.ChipVerify? ==> readPos == 0)
      ensures inbox == old(inbox) + [INSYNC, st]
      ensures refused == old(refused) + if st == OK then [] else [c]
      ensures reliable ==> st == OK
    {
      trace := trace + [c];
      if c.ChipVerify? { readPos := 0; }
      var done := *;
      if done || reliable {
        inbox := inbox + [INSYNC, OK];
        st := OK;
      } else {
        st := Refuse(c);
      }
    }

    /** READ_MULTI answers with the bytes at the read position, then the pair. */
    method ReadBack(count: nat) returns (ghost st: bv8)
      requires Valid()
      modifies this`inbox, this`trace, this`readPos, this`refused
      ensures Valid() && trace == old(trace) + [ReadMulti(count)]
      ensures st != OK ==> inbox == old(inbox) + [INSYNC, st]
      ensures st == OK ==>
                old(readPos) + count <= |flash| && readPos == old(readPos) + count
                && inbox == old(inbox) + (flash[old(readPos)..readPos] + [INSYNC, OK])
      ensures refused == old(refused) + if st == OK then [] else [ReadMulti(count)]
      ensures reliable && old(readPos) + count <= |flash| ==> st == OK
    {
      trace := trace + [ReadMulti(count)];
      var done := *;
      if (done || reliable) && readPos + count <= |flash| {
        inbox := inbox + (flash[readPos..readPos + count] + [INSYNC, OK]);
        readPos := readPos + count;
        st := OK;
      } else {
        st := Refuse(ReadMulti(count));
      }
    }

    /** GET_CRC answers with the checksum of the whole flash, then the pair. */
    method ReportCrc() returns (ghost st: bv8)
      requires Valid()
      modifies this`inbox, this`trace, this`refused
      ensures Valid() && trace == old(trace) + [GetCrc]
      ensures st != OK ==> inbox == old(inbox) + [INSYNC, st]
      ensures st == OK ==>
                inbox == old(inbox) + (WordBytes(BitwiseCrc(flash, 0)) + [INSYNC, OK])
      ensures refused == old(refused) + if st == OK then [] else [GetCrc]
      ensures reliable ==> st == OK
    {
      trace := trace + [GetCrc];
      var done := *;
      if done || reliable {
        var crc := Crc32(flash, 0);
        inbox := inbox + (WordBytes(crc) + [INSYNC, OK]);
        st := OK;
      } else {
        st := Refuse(GetCrc);
      }
    }

    /** The board queries made before anything is changed. The program goes on when a
        serial-number or chip query fails, so any bytes may be left in the queue, and the chip
        description may be misread. */
    method Describe() returns (ok: bool, pieces: nat)
      requires Valid()
      modifies this`trace, this`inbox, this`described
      ensures Valid() && trace == old(trace) + [Query]
      ensures described == if ok then Pieces(pieces) else Silent
      ensures reliable ==> ok
      ensures reliable || prompt ==> inbox == old(inbox) && (ok ==> pieces == chipPieces)
    {
      trace := trace + [Query];
      ok, pieces := true, chipPieces;
      if !reliable {
        ok := *;
        if !prompt { pieces, inbox := *, *; }
      }
      described := if ok then Pieces(pieces) else Silent;
    }

    /** A read returns up to `count` of the available bytes; fewer when it times out. */
    method Read(count: nat) returns (c: seq<bv8>)
      requires Valid()
      modifies this`inbox, this`heard
      ensures Valid()
      ensures |c| <= count && old(inbox) == c + inbox && heard == old(heard) + c
      ensures reliable ==> |c| == Min(count, |old(inbox)|)
    {
      var k: int := *;
      if reliable { k := Min(count, |inbox|); }
      var n := if 0 <= k <= count && k <= |inbox| then k else 0;
      c := inbox[..n];
      assert inbox == inbox[..n] + inbox[n..];
      inbox, heard := inbox[n..], heard + c;
    }
  }

  // ---------------------------------------------------------------- vocabulary

  lemma BlocksNext(groups: seq<seq<bv8>>, k: nat, before: seq<Command>)
    requires k < |groups|
    ensures before + Blocks(groups[..k + 1]) == (before + Blocks(groups[..k])) + [ProgMulti(groups[k])]
    ensures Flatten(groups[..k + 1]) == Flatten(groups[..k]) + groups[k]
  {
    assert groups[..k + 1][..k] == groups[..k];
    assert groups[..k + 1] == groups[..k] + [groups[k]];
    FlattenAppend(groups[..k], groups[k]);
    Assoc(before, Blocks(groups[..k]), [ProgMulti(groups[k])]);
  }

  lemma {:induction false} BlocksPrefix(groups: seq<seq<bv8>>, k: nat)
    requires k <= |groups|
    ensures Blocks(groups[..k]) <= Blocks(groups)
    decreases |groups|
  {
    if k == |groups| {
      assert groups[..k] == groups;
    } else {
      var front := groups[..|groups| - 1];
      assert front[..k] == groups[..k];
      BlocksPrefix(front, k);
    }
  }

  /** The READ_MULTI commands for a list of blocks, and the replies that confirm them. */
  function Reads(groups: seq<seq<bv8>>): seq<Command> {
    if groups == [] then [] else Reads(groups[..|groups| - 1]) + [ReadMulti(|groups[|groups| - 1]|)]
  }

  function ReadReplies(groups: seq<seq<bv8>>): seq<bv8> {
    if groups == [] then [] else ReadReplies(groups[..|groups| - 1]) + (groups[|groups| - 1] + [INSYNC, OK])
  }

  lemma ReadsNext(groups: seq<seq<bv8>>, k: nat)
    requires k < |groups|
    ensures Reads(groups[..k + 1]) == Reads(groups[..k]) + [ReadMulti(|groups[k]|)]
    ensures ReadReplies(groups[..k + 1]) == ReadReplies(groups[..k]) + (groups[k] + [INSYNC, OK])
  {
    assert groups[..k + 1][..k] == groups[..k];
  }

  lemma {:induction false} ReadsPrefix(groups: seq<seq<bv8>>, k: nat)
    requires k <= |groups|
    ensures Reads(groups[..k]) <= Reads(groups)
    decreases |groups|
  {
    if k == |groups| {
      assert groups[..k] == groups;
    } else {
      var front := groups[..|groups| - 1];
      assert front[..k] == groups[..k];
      ReadsPrefix(front, k);
    }
  }

  lemma NothingRead(groups: seq<seq<bv8>>)
    ensures Reads(groups[..0]) == [] && ReadReplies(groups[..0]) == []
    ensures groups[..0] == [] && Flatten(groups[..0]) == []
  {
  }

  lemma {:induction false} ReadsQuiet(groups: seq<seq<bv8>>)
    ensures Quiet([ChipVerify] + Reads(groups))
  {
    if groups != [] {
      var front := groups[..|groups| - 1];
      ReadsQuiet(front);
      Assoc([ChipVerify], Reads(front), [ReadMulti(|groups[|groups| - 1]|)]);
    }
  }

  /** One more block in the trace and in what was heard. */
  lemma VerifyStep(groups: seq<seq<bv8>>, k: nat, trace: seq<Command>, heard: seq<bv8>)
    requires k < |groups|
    ensures (trace + ([ChipVerify] + Reads(groups[..k]))) + [ReadMulti(|groups[k]|)]
            == trace + ([ChipVerify] + Reads(groups[..k + 1]))
    ensures (heard + ([INSYNC, OK] + ReadReplies(groups[..k]))) + (groups[k] + [INSYNC, OK])
            == heard + ([INSYNC, OK] + ReadReplies(groups[..k + 1]))
  {
    hide Reads, ReadReplies;
    ReadsNext(groups, k);
    Assoc([ChipVerify], Reads(groups[..k]), [ReadMulti(|groups[k]|)]);
    Assoc(trace, [ChipVerify] + Reads(groups[..k]), [ReadMulti(|groups[k]|)]);
    Assoc([INSYNC, OK], ReadReplies(groups[..k]), groups[k] + [INSYNC, OK]);
    Assoc(heard, [INSYNC, OK] + ReadReplies(groups[..k]), groups[k] + [INSYNC, OK]);
  }

  /** `n` good replies. */
  function Pairs(n: nat): (r: seq<bv8>)
    ensures |r| == 2 * n
  {
    if n == 0 then [] else Pairs(n - 1) + [INSYNC, OK]
  }

  lemma {:induction false} PairsAdd(m: nat, n: nat)
    ensures Pairs(m) + Pairs(n) == Pairs(m + n)
    decreases n
  {
    if n > 0 {
      PairsAdd(m, n - 1);
      Assoc(Pairs(m), Pairs(n - 1), [INSYNC, OK]);
    }
  }

  /** The window check accepts nothing else. */
  lemma {:induction false} PairsAre(data: seq<bv8>)
    requires PairsOk(data)
    ensures |data| % 2 == 0 && data == Pairs(|data| / 2)
    decreases |data|
  {
    hide Pairs;
    OnePair();
    if |data| >= 2 {
      PairsAre(data[2..]);
      PairsAdd(1, |data| / 2 - 1);
      assert data == [INSYNC, OK] + data[2..];
    }
  }

  lemma OnePair()
    ensures Pairs(0) == [] && Pairs(1) == [INSYNC, OK]
  {
    assert Pairs(0) == [];
  }

  lemma PairsGrow(base: seq<bv8>, n: nat)
    ensures (base + Pairs(n)) + [INSYNC, OK] == base + Pairs(n + 1)
    ensures (base + Pairs(n)) + [] == base + Pairs(n)
    ensures (base + Pairs(n)) + Pairs(0) == base + Pairs(n)
  {
    Assoc(base, Pairs(n), [INSYNC, OK]);
  }

  lemma NoPairs(base: seq<bv8>)
    ensures base + Pairs(0) == base
  {
  }

  lemma PairsClose(base: seq<bv8>, n: nat, w: nat)
    ensures w <= n ==> (base + Pairs(n - w)) + Pairs(w) == base + Pairs(n)
  {
    if w <= n {
      PairsAdd(n - w, w);
      Assoc(base, Pairs(n - w), Pairs(w));
    }
  }

  /** The bytes `r` are the last ones heard, and all came after position `from`. */
  ghost predicate JustHeard(heard: seq<bv8>, from: nat, r: seq<bv8>) {
    from + |r| <= |heard| && heard[|heard| - |r|..] == r
  }

  lemma HeardOn(heard: seq<bv8>, from: nat, r: seq<bv8>, more: seq<bv8>)
    requires JustHeard(heard, from, r)
    ensures JustHeard(heard + more, from, r + more)
  {
  }

  /** A stage that is only begun when the one before is complete. */
  lemma StageAfter(a: seq<Command>, all: seq<Command>, b: seq<Command>, rest: seq<Command>)
    requires a <= all && b <= rest && (a == all || b == [])
    ensures a + b <= all + rest
  {
  }

  /** From position `from` on, the bytes `r` were read in a row. */
  ghost predicate HeardSince(heard: seq<bv8>, from: nat, r: seq<bv8>) {
    exists k: nat :: from <= k && HeardAt(heard, k, r)
  }

  predicate HeardAt(heard: seq<bv8>, k: nat, r: seq<bv8>) {
    k + |r| <= |heard| && heard[k..k + |r|] == r
  }

  lemma HeardBoth(heard: seq<bv8>, from: nat, r: seq<bv8>, more: seq<bv8>, all: seq<bv8>)
    requires JustHeard(heard, from, r)
    ensures heard + more <= all ==> HeardSince(all, from, r + more)
  {
    if heard + more <= all {
      var k := |heard| - |r|;
      assert all[k..k + |r + more|] == (heard + more)[k..k + |r + more|];
      assert HeardAt(all, k, r + more);
    }
  }

  /** Neither erasing nor rebooting. */
  ghost predicate Quiet(cs: seq<Command>) {
    forall k | 0 <= k < |cs| :: !cs[k].ChipErase? && !cs[k].Reboot?
  }

  /** An erase only if `suitable`; a reboot only as the last command and only if `verified`. */
  ghost predicate Safe(cs: seq<Command>, suitable: bool, verified: bool) {
    forall k | 0 <= k < |cs| ::
      (cs[k].ChipErase? ==> suitable) && (cs[k].Reboot? ==> verified && k == |cs| - 1)
  }

  lemma SafeAtMost(a: seq<Command>, suitable: bool, verified: bool)
    requires Safe(a, suitable, false)
    ensures Safe(a, suitable, verified)
    ensures Reboot !in a
  {
  }

  lemma SafeTogether(a: seq<Command>, b: seq<Command>)
    requires Quiet(a) && (b == [] || (|b| == 1 && b[0].SetBootDelay?))
    ensures Quiet(a + b) && Safe(a + b, false, false) && Reboot !in a + b
  {
  }

  lemma SafeWiden(a: seq<Command>, known: bool, suitable: bool, verified: bool)
    requires Safe(a, false, known) && (known ==> verified)
    ensures Safe(a, suitable, verified)
  {
  }

  lemma SafeAfter(a: seq<Command>, b: seq<Command>, suitable: bool, verified: bool)
    requires Safe(a, suitable, false) && Safe(b, suitable, verified)
    ensures Safe(a + b, suitable, verified)
  {
  }

  lemma SafeBlocks(a: seq<Command>, groups: seq<seq<bv8>>, suitable: bool)
    requires Safe(a, suitable, false)
    ensures Safe(a + Blocks(groups), suitable, false)
    ensures ChipErase in a ==> ChipErase in a + Blocks(groups)
  {
    BlocksQuiet(groups);
  }

  lemma {:induction false} BlocksQuiet(groups: seq<seq<bv8>>)
    ensures Quiet(Blocks(groups))
  {
    if groups != [] {
      BlocksQuiet(groups[..|groups| - 1]);
    }
  }

  lemma NoBlocks(groups: seq<seq<bv8>>, before: seq<Command>)
    ensures before + Blocks(groups[..0]) == before && Flatten(groups[..0]) == []
  {
  }

  /** The blocks up to `k` are no longer than all of them. */
  lemma PrefixFits(groups: seq<seq<bv8>>, k: nat)
    requires k < |groups|
    ensures |Flatten(groups[..k])| + |groups[k]| <= |Flatten(groups)|
    ensures Flatten(groups[..k]) + groups[k] <= Flatten(groups)
  {
    assert groups == groups[..k + 1] + groups[k + 1..];
    FlattenConcat(groups[..k + 1], groups[k + 1..]);
    BlocksNext(groups, k, []);
  }

  /** In flash that begins with all blocks, block `k` lies behind the first `k`. */
  lemma BlockInPlace(groups: seq<seq<bv8>>, k: nat, flash: seq<bv8>)
    requires k < |groups|
    ensures var at := |Flatten(groups[..k])|;
            Flatten(groups) <= flash ==>
              at + |groups[k]| <= |flash| && flash[at..at + |groups[k]|] == groups[k]
  {
    PrefixFits(groups, k);
    var head := Flatten(groups[..k]) + groups[k];
    if Flatten(groups) <= flash {
      assert flash[..|head|] == head;
      assert flash[|Flatten(groups[..k])|..|head|] == head[|Flatten(groups[..k])|..];
    }
  }

  /** The silicon error, as a reply. */
  predicate BadSilicon(r: seq<bv8>) {
    |r| >= 2 && r[0] == 0x12 && r[1] == 0x14
  }

  lemma GoodPair()
    ensures SyncOnce([INSYNC, OK]) == Passed([]) && !BadSilicon([INSYNC, OK])
  {
  }

  /** What is still there of a single pair can only be checked whole. */
  lemma PairIsLast(gone: seq<bv8>, rest: seq<bv8>, st: bv8)
    requires gone + rest == [INSYNC, st] && SyncOnce(rest).Passed?
    ensures gone == [] && rest == [INSYNC, OK] && st == OK && SyncOnce(rest) == Passed([])
  {
    assert rest == (gone + rest)[|gone|..];
    assert gone == [];
    assert rest[1] == (gone + rest)[1];
  }

  lemma ErasedIsBlank(flash: seq<bv8>)
    ensures [] + Blank(|flash|) == Blank(|flash|)
  {
  }

  lemma {:induction false} PairsAppend(r: seq<bv8>, st: bv8)
    requires |r| % 2 == 0
    ensures PairsOk(r + [INSYNC, st]) <==> PairsOk(r) && st == OK
    decreases |r|
  {
    if r == [] {
      assert r + [INSYNC, st] == [INSYNC, st];
      assert [INSYNC, st][2..] == [];
    } else {
      assert (r + [INSYNC, st])[2..] == r[2..] + [INSYNC, st];
      PairsAppend(r[2..], st);
    }
  }

  /** Outstanding reply bytes after `k` blocks. */
  function Outstanding(k: nat, windowed: bool): nat {
    if windowed then 2 * (k % 256) else 0
  }

  lemma OutstandingIs(k: nat, windowed: bool)
    ensures Outstanding(k, windowed) % 2 == 0 && Outstanding(k, windowed) <= 510
    ensures Outstanding(k, windowed) <= 2 * k && (!windowed ==> Outstanding(k, windowed) == 0)
  {
  }

  /** One more block: two more bytes, or none after the 256th of a window. */
  lemma WindowGrows(k: nat, windowed: bool)
    ensures windowed && (k + 1) % 256 != 0 ==> Outstanding(k + 1, windowed) == Outstanding(k, windowed) + 2
    ensures (k + 1) % 256 == 0 ==> Outstanding(k + 1, windowed) == 0
  {
  }

  /** Windows of 256 replies each, one for every 256 blocks. */
  ghost predicate Full(windows: seq<nat>, k: nat) {
    |windows| == k / 256 && forall i | 0 <= i < |windows| :: windows[i] == 512
  }

  lemma FullNext(windows: seq<nat>, k: nat)
    requires Full(windows, k)
    ensures (k + 1) % 256 != 0 ==> Full(windows, k + 1)
    ensures (k + 1) % 256 == 0 ==> Outstanding(k, true) + 2 == 512 && Full(windows + [512], k + 1)
  {
  }

  /** The windows read for `n` blocks: full ones, then one for the blocks that are left. */
  ghost predicate WindowsFor(windows: seq<nat>, n: nat) {
    && |windows| == n / 256 + 1 && windows[n / 256] == 2 * (n % 256)
    && forall i | 0 <= i < n / 256 :: windows[i] == 512
  }

  lemma LastWindow(windows: seq<nat>, n: nat, w: nat)
    requires Full(windows, n) && w == Outstanding(n, true)
    ensures WindowsFor(windows + [w], n)
  {
  }

  function Sum(xs: seq<nat>): nat {
    if xs == [] then 0 else Sum(xs[..|xs| - 1]) + xs[|xs| - 1]
  }

  lemma NothingSummed()
    ensures Sum([]) == 0
  {
  }

  lemma SumAppend(xs: seq<nat>, x: nat)
    ensures Sum(xs + [x]) == Sum(xs) + x
  {
  }

  // ---------------------------------------------------------------- the uploader

  datatype Firmware = Firmware(image: seq<bv8>, boardId: int, imageSize: int, imageMaxsize: int)

  class Uploader {
    const dev: Device
    var window: nat
    var ackWindowedMode: bool
    var blRev: int
    var boardType: int
    var fwMaxsize: nat

    constructor (d: Device)
      ensures dev == d && window == 0
    {
      dev, window := d, 0;
      ackWindowedMode, blRev, boardType, fwMaxsize := false, 0, 0, 0;
    }

    /** False stands for a raised error, here and below. */
    method GetSync() returns (ok: bool)
      requires dev.Valid()
      modifies dev`inbox, dev`heard
      ensures dev.Valid()
      ensures old(dev.heard) <= dev.heard && (ok ==> dev.heard == old(dev.heard) + [INSYNC, OK])
      ensures ok ==> SyncOnce(old(dev.inbox)) == Passed(dev.inbox)
      ensures dev.reliable ==> (ok <==> SyncOnce(old(dev.inbox)).Passed?)
    {
      var c := dev.Read(1);
      if |c| < 1 || c[0] != INSYNC { return false; }
      c := dev.Read(1);
      if |c| < 1 { return false; }
      if c[0] == INVALID || c[0] == FAILED || c[0] != OK { return false; }
      return true;
    }

    method AckSyncWindow(count: nat) returns (ok: bool)
      requires dev.Valid() && count % 2 == 0
      modifies dev`inbox, dev`heard
      ensures dev.Valid() && |old(dev.heard)| <= |dev.heard|
      ensures ok ==> dev.heard == old(dev.heard) + Pairs(count / 2)
      ensures ok ==> WindowCheck(old(dev.inbox), count) == Passed(dev.inbox)
      ensures dev.reliable ==> (ok <==> WindowCheck(old(dev.inbox), count).Passed?)
    {
      if count == 0 { return true; }
      var data := dev.Read(count);
      assert old(dev.inbox)[..|data|] == data && old(dev.inbox)[|data|..] == dev.inbox;
      if |data| < 1 || |data| != count { return false; }
      var i := 0;
      while i < |data|
        invariant 0 <= i <= |data| && i % 2 == 0
        invariant PairsOk(data[i..]) == PairsOk(data)
      {
        if data[i] != INSYNC { return false; }
        if data[i + 1] == INVALID || data[i + 1] == FAILED || data[i + 1] != OK { return false; }
        assert data[i..][2..] == data[i + 2..];
        i := i + 2;
      }
      PairsAre(data);
      return true;
    }

    // -------------------------------------------------------------- programming
    // `inStep` says that no stale reply was queued when the erase was sent. Nothing is promised
    // about flash otherwise; what is sent and which replies are insisted on does not depend on it.

    /** A device that will do what it is asked, with room for all blocks. */
    ghost predicate Healthy(groups: seq<seq<bv8>>)
      reads this, dev
    {
      dev.reliable && |Flatten(groups)| <= |dev.flash|
    }

    /** Everything acknowledged so far was programmed, if the unread replies are all good; with a
        healthy device they are. */
    ghost predicate Progress(groups: seq<seq<bv8>>, k: nat, inStep: bool)
      requires k <= |groups|
      reads this, dev
    {
      && dev.Valid()
      && (inStep ==>
            && |dev.inbox| == window
            && (PairsOk(dev.inbox) ==> dev.clean && dev.written == Flatten(groups[..k]) && dev.refused == [])
            && (Healthy(groups) ==> PairsOk(dev.inbox)))
    }

    /** PROG_MULTI for one block; outside windowed mode its reply is checked at once. */
    method ProgramMulti(groups: seq<seq<bv8>>, k: nat, ghost inStep: bool) returns (ok: bool)
      requires k < |groups| && Progress(groups, k, inStep) && window % 2 == 0
      requires !ackWindowedMode ==> window == 0
      modifies this`window, dev`inbox, dev`heard, dev`flash, dev`written, dev`clean, dev`trace, dev`refused
      ensures |old(dev.heard)| <= |dev.heard|
      ensures dev.Valid() && |dev.flash| == |old(dev.flash)|
      ensures dev.trace == old(dev.trace) + [ProgMulti(groups[k])]
      ensures window == if ackWindowedMode then old(window) + 2 else old(window)
      ensures ok ==> dev.heard == old(dev.heard) + if ackWindowedMode then [] else [INSYNC, OK]
      ensures ok ==> Progress(groups, k + 1, inStep)
      ensures inStep && Healthy(groups) ==> ok
    {
      hide Flatten;
      BlocksNext(groups, k, []);
      PrefixFits(groups, k);
      ghost var replies := dev.inbox;
      ghost var st := dev.Program(groups[k]);
      if inStep {
        PairsAppend(replies, st);
      }
      if ackWindowedMode {
        window := window + 2;
        ok := true;
      } else {
        assert inStep ==> replies == [] && dev.inbox == [INSYNC, st];
        ok := GetSync();
      }
    }

    /** After `k` blocks: acknowledgements are checked up to the current window. */
    ghost predicate Underway(groups: seq<seq<bv8>>, k: nat, windows: seq<nat>, inStep: bool,
                             base: seq<bv8>)
      requires k <= |groups|
      reads this, dev
    {
      && window <= 2 * k && dev.heard == base + Pairs(k - window / 2)
      && Progress(groups, k, inStep)
      && window == Outstanding(k, ackWindowedMode)
      && (forall w | w in windows :: w <= 512)
      && (ackWindowedMode ==> Sum(windows) + window == 2 * k && Full(windows, k))
    }

    /** One block, and the window check at every 256th. */
    method ProgramNext(groups: seq<seq<bv8>>, k: nat, windows: seq<nat>, ghost inStep: bool,
                       ghost base: seq<bv8>)
      returns (ok: bool, windows': seq<nat>)
      requires k < |groups| && Underway(groups, k, windows, inStep, base)
      modifies this`window, dev`inbox, dev`heard, dev`flash, dev`written, dev`clean, dev`trace, dev`refused
      ensures |old(dev.heard)| <= |dev.heard|
      ensures dev.Valid() && |dev.flash| == |old(dev.flash)|
      ensures dev.trace == old(dev.trace) + [ProgMulti(groups[k])]
      ensures ok ==> Underway(groups, k + 1, windows', inStep, base)
      ensures forall w | w in windows' :: w <= 512
      ensures inStep && Healthy(groups) ==> ok
    {
      hide Flatten, Sum, Pairs, PairsOk, SyncOnce, Progress, Outstanding, Full;
      windows' := windows;
      if ackWindowedMode {
        FullNext(windows, k);
      }
      OutstandingIs(k, ackWindowedMode);
      OutstandingIs(k + 1, ackWindowedMode);
      WindowGrows(k, ackWindowedMode);
      PairsGrow(base, k - window / 2);
      if (k + 1) % 256 == 0 {
        PairsClose(base, k + 1, (window + 2) / 2);
      }
      ok := ProgramMulti(groups, k, inStep);
      if ok && (k + 1) % 256 == 0 {
        windows' := Acknowledged(windows, window);
        ok := Acknowledge(groups, k + 1, inStep);
      }
    }

    /** Programs the image block by block. When it returns normally every block has been
        acknowledged exactly once: `windows` lists the sizes of the windows read. */
    method Program(fw: Firmware, ghost inStep: bool) returns (ok: bool, windows: seq<nat>, ghost sent: nat)
      requires dev.Valid() && window == 0
      requires inStep ==> dev.inbox == [] && dev.clean && dev.written == [] && dev.refused == []
      modifies this`window, dev`inbox, dev`heard, dev`flash, dev`written, dev`clean, dev`trace, dev`refused
      ensures |old(dev.heard)| <= |dev.heard|
      ensures dev.Valid() && |dev.flash| == |old(dev.flash)|
      ensures var groups := SplitLen(fw.image, PROG_MULTI_MAX);
              && sent <= |groups|
              && dev.trace == old(dev.trace) + Blocks(groups[..sent])
              && (ok ==> sent == |groups| > 0)
              && (ok && ackWindowedMode ==> Sum(windows) == 2 * |groups| && WindowsFor(windows, |groups|))
      ensures ok ==> window == 0
      ensures ok ==> dev.heard == old(dev.heard) + Pairs(|SplitLen(fw.image, 252)|)
      ensures ok && inStep ==> dev.inbox == [] && dev.clean && dev.written == fw.image && dev.refused == []
      ensures forall w | w in windows :: w <= 512
      ensures fw.image == [] ==> !ok && sent == 0 && dev.flash == old(dev.flash)
      ensures inStep && dev.reliable && fw.image != [] && |fw.image| <= |dev.flash| ==> ok
    {
      hide Flatten, Sum, Pairs, Underway, Progress, Device.Valid, SplitLen, Blocks, PairsOk, WindowsFor;
      windows, sent := [], 0;
      var groups := SplitLen(fw.image, PROG_MULTI_MAX);
      SplitLenExact(fw.image, PROG_MULTI_MAX);
      NoBlocks(groups, dev.trace);
      if |groups| == 0 { return false, windows, 0; }  // the progress bar divides by zero
      AtStart(groups, inStep);
      ok, windows, sent := ProgramBlocks(groups, inStep);
      if !ok { return; }
      AtEnd(groups, windows, inStep, old(dev.heard));
      WindowsAtEnd(groups, windows, inStep, old(dev.heard));
      PairsClose(old(dev.heard), |groups|, window / 2);
      windows := Acknowledged(windows, window);
      ok := Acknowledge(groups, |groups|, inStep);
      assert groups[..|groups|] == groups;
    }

    lemma AtStart(groups: seq<seq<bv8>>, inStep: bool)
      requires dev.Valid() && window == 0
      requires inStep ==> dev.inbox == [] && dev.clean && dev.written == [] && dev.refused == []
      ensures Underway(groups, 0, [], inStep, dev.heard)
    {
      NoBlocks(groups, []);
      NothingSummed();
      NoPairs(dev.heard);
    }

    lemma AtEnd(groups: seq<seq<bv8>>, windows: seq<nat>, inStep: bool, base: seq<bv8>)
      requires Underway(groups, |groups|, windows, inStep, base)
      ensures Progress(groups, |groups|, inStep) && dev.Valid()
      ensures window % 2 == 0 && window <= 512 && window <= 2 * |groups|
      ensures dev.heard == base + Pairs(|groups| - window / 2)
      ensures forall w | w in windows :: w <= 512
      ensures if ackWindowedMode then Sum(windows) + window == 2 * |groups| else window == 0
    {
      hide Flatten, Sum, Pairs, Progress, Outstanding, Full;
      OutstandingIs(|groups|, ackWindowedMode);
      ProgressIsValid(groups, |groups|, inStep);
    }

    lemma WindowsAtEnd(groups: seq<seq<bv8>>, windows: seq<nat>, inStep: bool, base: seq<bv8>)
      requires Underway(groups, |groups|, windows, inStep, base)
      ensures ackWindowedMode ==> WindowsFor(windows + [window], |groups|)
    {
      hide Sum, Pairs, Progress, Outstanding, Full, WindowsFor;
      if ackWindowedMode {
        LastWindow(windows, |groups|, window);
      }
    }

    /** The loop over the blocks, up to the remaining window. */
    method ProgramBlocks(groups: seq<seq<bv8>>, ghost inStep: bool)
      returns (ok: bool, windows: seq<nat>, ghost sent: nat)
      requires Underway(groups, 0, [], inStep, dev.heard)
      modifies this`window, dev`inbox, dev`heard, dev`flash, dev`written, dev`clean, dev`trace, dev`refused
      ensures |old(dev.heard)| <= |dev.heard|
      ensures dev.Valid() && |dev.flash| == |old(dev.flash)|
      ensures sent <= |groups| && dev.trace == old(dev.trace) + Blocks(groups[..sent])
      ensures ok ==> sent == |groups| && Underway(groups, |groups|, windows, inStep, old(dev.heard))
      ensures forall w | w in windows :: w <= 512
      ensures inStep && Healthy(groups) ==> ok
    {
      hide Flatten, Sum, Progress, Blocks, Pairs;
      ok, windows, sent := true, [], 0;
      var k := 0;
      NoBlocks(groups, dev.trace);
      ProgressIsValid(groups, 0, inStep);
      while k < |groups|
        invariant 0 <= k == sent <= |groups|
        invariant Underway(groups, k, windows, inStep, old(dev.heard)) && |dev.flash| == |old(dev.flash)|
        invariant dev.Valid() && |old(dev.heard)| <= |dev.heard|
        invariant dev.trace == old(dev.trace) + Blocks(groups[..k])
      {
        BlocksNext(groups, k, old(dev.trace));
        ok, windows := ProgramNext(groups, k, windows, inStep, old(dev.heard));
        k, sent := k + 1, sent + 1;
        if !ok { return; }
        ProgressIsValid(groups, k, inStep);
      }
    }

    lemma ProgressIsValid(groups: seq<seq<bv8>>, k: nat, inStep: bool)
      requires k <= |groups| && Progress(groups, k, inStep)
      ensures dev.Valid()
    {
    }

    function Acknowledged(windows: seq<nat>, w: nat): (r: seq<nat>)
      ensures Sum(r) == Sum(windows) + w
      ensures (forall x | x in windows :: x <= 512) && w <= 512 ==> forall x | x in r :: x <= 512
    {
      SumAppend(windows, w);
      windows + [w]
    }

    /** Reads and checks the outstanding replies. The window is only closed if they are good. */
    method Acknowledge(groups: seq<seq<bv8>>, k: nat, ghost inStep: bool) returns (ok: bool)
      requires k <= |groups| && Progress(groups, k, inStep) && window % 2 == 0
      modifies this`window, dev`inbox, dev`heard
      ensures |old(dev.heard)| <= |dev.heard|
      ensures dev.Valid()
      ensures window == if ok then 0 else old(window)
      ensures ok ==> dev.heard == old(dev.heard) + Pairs(old(window) / 2)
      ensures ok ==> Progress(groups, k, inStep)
      ensures ok && inStep ==>
                dev.inbox == [] && dev.clean && dev.written == Flatten(groups[..k]) && dev.refused == []
      ensures inStep && Healthy(groups) ==> ok
    {
      hide Flatten;
      assert inStep ==> dev.inbox[..window] == dev.inbox;
      ok := AckSyncWindow(window);
      if !ok { return; }
      window := 0;
    }

    // -------------------------------------------------------------- erase

    /** Yes, not yet, or an error that ends the upload. */
    method TrySync() returns (synced: bool, raised: bool)
      requires dev.Valid()
      modifies dev`inbox, dev`heard
      ensures dev.Valid() && |old(dev.heard)| <= |dev.heard|
      ensures exists gone :: old(dev.inbox) == gone + dev.inbox
      ensures synced ==> dev.heard == old(dev.heard) + [INSYNC, OK]
      ensures synced ==> SyncOnce(old(dev.inbox)) == Passed(dev.inbox)
      ensures raised ==> !synced && BadSilicon(old(dev.inbox))
      ensures dev.reliable ==> (synced <==> SyncOnce(old(dev.inbox)).Passed?)
                               && (raised <==> BadSilicon(old(dev.inbox)))
    {
      var c := dev.Read(1);
      if |c| < 1 || c[0] != INSYNC { return false, false; }
      var d := dev.Read(1);
      assert old(dev.inbox) == (c + d) + dev.inbox;
      if |d| < 1 { return false, false; }
      assert dev.heard == old(dev.heard) + (c + d);
      if d[0] == BAD_SILICON_REV { return false, true; }
      return d[0] == OK, false;
    }

    /** CHIP_ERASE, then polling until the deadline allows no further attempt. With an empty
        reply queue success means that the device reported the erase. */
    method Erase(attempts: nat) returns (ok: bool)
      requires dev.Valid()
      modifies dev
      ensures dev.Valid() && |dev.flash| == |old(dev.flash)|
      ensures dev.trace == old(dev.trace) + [ChipErase] && |old(dev.heard)| <= |dev.heard|
      ensures dev.staleAtErase == old(dev.inbox) && dev.described == old(dev.described)
      ensures ok ==> JustHeard(dev.heard, |old(dev.heard)|, [INSYNC, OK])
      ensures ok && old(dev.inbox) == [] ==>
                dev.inbox == [] && dev.clean && dev.written == [] && dev.refused == []
      ensures old(dev.inbox) == [] && dev.reliable && attempts > 0 ==> ok
    {
      hide Device.Valid, SyncOnce, BadSilicon;
      GoodPair();
      ghost var st := dev.Erase();
      ghost var gone: seq<bv8> := [];
      ghost var all := dev.inbox;
      assert old(dev.inbox) == [] ==> all == [INSYNC, st];
      for i := 0 to attempts
        invariant dev.Valid() && |dev.flash| == |old(dev.flash)|
        invariant dev.trace == old(dev.trace) + [ChipErase] && |old(dev.heard)| <= |dev.heard|
        invariant all == gone + dev.inbox
        invariant dev.staleAtErase == old(dev.inbox) && dev.described == old(dev.described)
        invariant st == OK ==> dev.clean && dev.written == [] && dev.refused == []
        invariant old(dev.inbox) == [] && dev.reliable ==> i == 0 && st == OK && gone == []
      {
        assert gone == [] ==> dev.inbox == all;
        ghost var before := dev.inbox;
        var synced, raised := TrySync();
        if raised { return false; }
        if synced {
          if old(dev.inbox) == [] {
            PairIsLast(gone, before, st);
          }
          return true;
        }
        ghost var more :| before == more + dev.inbox;
        Assoc(gone, more, dev.inbox);
        gone := gone + more;
      }
      return false;
    }

    // -------------------------------------------------------------- verification

    /** Flash holds `data` from position `at`. */
    ghost predicate HoldsAt(at: nat, data: seq<bv8>)
      reads this, dev`flash
    {
      at + |data| <= |dev.flash| && dev.flash[at..at + |data|] == data
    }

    /** READ_MULTI for one block: true only if flash holds the block at the read position. */
    method VerifyMulti(data: seq<bv8>) returns (same: bool)
      requires dev.Valid() && |data| >= 1
      modifies dev`inbox, dev`heard, dev`trace, dev`readPos, dev`refused
      ensures dev.Valid() && dev.trace == old(dev.trace) + [ReadMulti(|data|)]
      ensures same ==> dev.heard == old(dev.heard) + (data + [INSYNC, OK])
      ensures same && old(dev.inbox) == [] ==>
                dev.inbox == [] && dev.readPos == old(dev.readPos) + |data|
                && dev.flash[old(dev.readPos)..dev.readPos] == data && dev.refused == old(dev.refused)
      ensures old(dev.inbox) == [] && dev.reliable && HoldsAt(old(dev.readPos), data) ==> same
    {
      hide Device.Valid, Blank;
      ghost var st := dev.ReadBack(|data|);
      ghost var answer := dev.inbox;
      var programmed := dev.Read(|data|);
      assert answer[..|programmed|] == programmed && answer[|programmed|..] == dev.inbox;
      if programmed != data { return false; }
      same := GetSync();
      if same && old(dev.inbox) == [] {
        AnswerIs(answer, data, st);
      }
    }

    /** A lone status pair cannot pass for a block followed by a good pair. */
    lemma AnswerIs(answer: seq<bv8>, data: seq<bv8>, st: bv8)
      requires |data| >= 1 && |answer| >= |data| + 2 && answer[..|data|] == data
      ensures st != OK ==> answer != [INSYNC, st]
    {
    }

    /** The first `k` blocks have been read back and are what flash begins with. */
    ghost predicate Matching(groups: seq<seq<bv8>>, k: nat)
      requires k <= |groups| && dev.Valid()
      reads this, dev
    {
      dev.inbox == [] && dev.refused == [] && dev.flash[..dev.readPos] == Flatten(groups[..k])
    }

    method VerifyNext(groups: seq<seq<bv8>>, k: nat, ghost inStep: bool) returns (same: bool)
      requires k < |groups| && dev.Valid() && |groups[k]| >= 1 && (inStep ==> Matching(groups, k))
      modifies dev`inbox, dev`heard, dev`trace, dev`readPos, dev`refused
      ensures dev.Valid() && dev.trace == old(dev.trace) + [ReadMulti(|groups[k]|)]
      ensures same ==> dev.heard == old(dev.heard) + (groups[k] + [INSYNC, OK])
      ensures same && inStep ==> Matching(groups, k + 1)
      ensures inStep && dev.reliable && Flatten(groups) <= dev.flash ==> same
    {
      hide Flatten;
      BlocksNext(groups, k, []);
      BlockInPlace(groups, k, dev.flash);
      ghost var at := dev.readPos;
      same := VerifyMulti(groups[k]);
      if same && inStep {
        assert dev.flash[..dev.readPos] == dev.flash[..at] + dev.flash[at..dev.readPos];
      }
    }

    /** Reading back: success means that flash begins with the image, and with a reliable device
        the other way round. */
    method VerifyV2(fw: Firmware, ghost inStep: bool) returns (ok: bool, ghost sent: seq<Command>)
      requires dev.Valid() && (inStep ==> dev.inbox == [] && dev.refused == [])
      modifies dev`inbox, dev`heard, dev`trace, dev`readPos, dev`refused
      ensures dev.Valid() && dev.trace == old(dev.trace) + sent && Quiet(sent)
      ensures var groups := SplitLen(fw.image, READ_MULTI_MAX);
              && sent <= [ChipVerify] + Reads(groups)
              && (ok ==> sent == [ChipVerify] + Reads(groups))
              && (ok ==> dev.heard == old(dev.heard) + ([INSYNC, OK] + ReadReplies(groups)))
      ensures ok && inStep ==> dev.inbox == [] && dev.refused == [] && fw.image <= dev.flash
      ensures inStep && dev.reliable && fw.image <= dev.flash ==> ok
    {
      hide Flatten, SplitLen, Reads, ReadReplies;
      var groups := SplitLen(fw.image, READ_MULTI_MAX);
      SplitLenExact(fw.image, READ_MULTI_MAX);
      NothingRead(groups);
      sent := [ChipVerify];
      ghost var st := dev.Plain(ChipVerify);
      ok := GetSync();
      if !ok { return; }
      var k := 0;
      while k < |groups|
        invariant 0 <= k <= |groups| && dev.Valid() && ok
        invariant inStep ==> Matching(groups, k)
        invariant sent == [ChipVerify] + Reads(groups[..k]) && Quiet(sent)
        invariant dev.trace == old(dev.trace) + sent
        invariant dev.heard == old(dev.heard) + ([INSYNC, OK] + ReadReplies(groups[..k]))
      {
        VerifyStep(groups, k, old(dev.trace), old(dev.heard));
        ok := VerifyNext(groups, k, inStep);
        k := k + 1;
        sent := [ChipVerify] + Reads(groups[..k]);
        ReadsPrefix(groups, k);
        ReadsQuiet(groups[..k]);
        if !ok { return; }
      }
      assert groups[..k] == groups;
    }

    /** Comparing checksums: success means that they are equal, and with a reliable device the
        other way round. */
    method VerifyV3(fw: Firmware, ghost inStep: bool) returns (ok: bool, ghost sent: seq<Command>)
      requires dev.Valid() && (inStep ==> dev.inbox == [] && dev.refused == [])
      modifies dev`inbox, dev`heard, dev`trace, dev`refused
      ensures dev.Valid() && sent == [GetCrc] && dev.trace == old(dev.trace) + sent
      ensures ok ==> dev.heard == old(dev.heard) + (WordBytes(WantedCrc(fw)) + [INSYNC, OK])
      ensures ok && inStep ==> dev.inbox == [] && dev.refused == [] && SameCrc(fw)
      ensures inStep && dev.reliable ==> (ok <==> SameCrc(fw))
    {
      hide BitwiseCrc, WordBytes, UnpackWord, Device.Valid, Blank, PadBytes;
      sent := [GetCrc];
      var wanted := ImageCrc(fw.image, fwMaxsize);
      ghost var st := dev.ReportCrc();
      ghost var answer := dev.inbox;
      ghost var crc := BitwiseCrc(dev.flash, 0);
      WordRoundTrip(crc);
      var raw := dev.Read(4);
      assert answer[..|raw|] == raw && answer[|raw|..] == dev.inbox;
      if |raw| != 4 { return false, sent; }
      WordOfBytes(raw);
      var report := UnpackWord(raw);
      ok := GetSync();
      if !ok { return; }
      if inStep {
        assert answer == WordBytes(crc) + [INSYNC, OK];
      }
      ok := report == wanted;
    }

    // -------------------------------------------------------------- upload

    /** The checks that guard the erase: the board is the right one, the image fits, the flash
        is no larger than the board configuration expects if the chip description has two parts,
        and an old bootloader is not given more than a chip with the silicon erratum can hold.
        Force waives all but the fit. */
    ghost predicate Suitable(fw: Firmware, force: bool)
      reads this`boardType, this`blRev, this`fwMaxsize, dev`described
    {
      && fw.imageSize <= fwMaxsize
      && (force || (
            && boardType == fw.boardId
            && (blRev >= 5 && dev.described == Pieces(2) ==> fwMaxsize <= fw.imageMaxsize)
            && (blRev < 5 && fw.boardId == 9 ==> fw.imageSize <= 1032192)))
    }

    /** The board is right, whatever the queries will bring. */
    ghost predicate SuitableBoard(fw: Firmware, force: bool)
      reads this`boardType, this`blRev, this`fwMaxsize
    {
      && fw.imageSize <= fwMaxsize
      && (force || (
            && boardType == fw.boardId
            && (blRev >= 5 && dev.chipPieces == 2 ==> fwMaxsize <= fw.imageMaxsize)
            && (blRev < 5 && fw.boardId == 9 ==> fw.imageSize <= 1032192)))
    }

    /** A condition on the device, known beforehand, under which no stale reply is queued. */
    ghost predicate Orderly()
      reads this`blRev
    {
      blRev < 4 || dev.reliable || dev.prompt
    }

    /** The checksum of the whole flash is that of the padded image. */
    ghost predicate SameCrc(fw: Firmware)
      reads this`blRev, this`fwMaxsize, dev`flash
    {
      BitwiseCrc(dev.flash, 0) == WantedCrc(fw)
    }

    function WantedCrc(fw: Firmware): bv32
      reads this`fwMaxsize
    {
      BitwiseCrc(fw.image + Blank(PadBytes(|fw.image|, fwMaxsize)), 0)
    }

    /** What passing verification means, whatever the device did before. */
    ghost predicate Verified(fw: Firmware)
      reads this`blRev, this`fwMaxsize, dev`flash
    {
      if blRev == 2 then fw.image <= dev.flash else SameCrc(fw)
    }

    /** Everything before the erase. It raises exactly on unsuitable firmware and when the
        board does not answer the queries. */
    method Checks(fw: Firmware, force: bool) returns (ok: bool, ghost sent: seq<Command>)
      requires dev.Valid()
      modifies dev`trace, dev`inbox, dev`described
      ensures dev.Valid() && dev.trace == old(dev.trace) + sent
      ensures ok <==> Suitable(fw, force) && (blRev >= 4 ==> dev.described.Pieces?)
      ensures sent <= Queries() && (ok ==> sent == Queries())
      ensures Orderly() ==> dev.inbox == old(dev.inbox)
      ensures ok && blRev >= 5 && (dev.reliable || dev.prompt) ==> dev.described == Pieces(dev.chipPieces)
      ensures dev.reliable && SuitableBoard(fw, force) ==> ok
    {
      sent := [];
      if boardType != fw.boardId && !force { return false, sent; }
      if fwMaxsize < fw.imageSize { return false, sent; }
      var pieces := 0;
      if blRev >= 4 {
        var answered;
        answered, pieces := dev.Describe();
        sent := [Query];
        if !answered { return false, sent; }
      }
      if blRev >= 5 {
        ok := !(pieces == 2 && fwMaxsize > fw.imageMaxsize && !force);
      } else {
        ok := !(fw.boardId == 9 && fw.imageSize > 1032192 && !force);
      }
    }

    // -------------------------------------------------------------- what is sent

    function Queries(): seq<Command>
      reads this`blRev
    {
      if blRev >= 4 then [Query] else []
    }

    function FlashScript(fw: Firmware): seq<Command>
      reads this`blRev
    {
      (Queries() + [ChipErase]) + Blocks(SplitLen(fw.image, 252))
    }

    function VerifyScript(fw: Firmware): seq<Command>
      reads this`blRev
    {
      if blRev == 2 then [ChipVerify] + Reads(SplitLen(fw.image, 252)) else [GetCrc]
    }

    function DelayScript(bootDelay: Delay): seq<Command> {
      if bootDelay.Delay? then [SetBootDelay(bootDelay.value)] else []
    }

    function DelayReply(bootDelay: Delay): seq<bv8> {
      if bootDelay.Delay? then [INSYNC, OK] else []
    }

    function RebootReply(): seq<bv8>
      reads this`blRev
    {
      if blRev >= 3 then [INSYNC, OK] else []
    }

    function ReleaseScript(fw: Firmware, bootDelay: Delay): seq<Command>
      reads this`blRev
    {
      (VerifyScript(fw) + DelayScript(bootDelay)) + [Reboot]
    }

    /** Every command of an upload that goes through, in order. */
    function Script(fw: Firmware, bootDelay: Delay): seq<Command>
      reads this`blRev
    {
      FlashScript(fw) + ReleaseScript(fw, bootDelay)
    }

    /** Every reply that an upload insists on before it reboots, in order: one for the erase, one
        for each block, those of the verification, and one for the boot delay. */
    function Confirmations(fw: Firmware, bootDelay: Delay): seq<bv8>
      reads this`blRev, this`fwMaxsize
    {
      FlashReplies(fw) + (VerifyReplies(fw) + DelayReply(bootDelay))
    }

    /** And the one for the reboot itself. */
    function AllReplies(fw: Firmware, bootDelay: Delay): seq<bv8>
      reads this`blRev, this`fwMaxsize
    {
      FlashReplies(fw) + ((VerifyReplies(fw) + DelayReply(bootDelay)) + RebootReply())
    }

    function FlashReplies(fw: Firmware): seq<bv8> {
      [INSYNC, OK] + Pairs(|SplitLen(fw.image, 252)|)
    }

    /** The replies that confirm the verification: the blocks themselves, or their checksum. */
    function VerifyReplies(fw: Firmware): seq<bv8>
      reads this`blRev, this`fwMaxsize
    {
      if blRev == 2 then [INSYNC, OK] + ReadReplies(SplitLen(fw.image, 252))
      else WordBytes(WantedCrc(fw)) + [INSYNC, OK]
    }

    method Verify(fw: Firmware, ghost inStep: bool) returns (ok: bool, ghost sent: seq<Command>)
      requires dev.Valid() && (inStep ==> dev.inbox == [] && dev.refused == [])
      modifies dev`inbox, dev`heard, dev`trace, dev`readPos, dev`refused
      ensures dev.Valid() && dev.trace == old(dev.trace) + sent && Quiet(sent)
      ensures sent <= VerifyScript(fw) && (ok ==> sent == VerifyScript(fw))
      ensures ok ==> dev.heard == old(dev.heard) + VerifyReplies(fw)
      ensures ok && inStep ==> dev.inbox == [] && dev.refused == [] && Verified(fw)
      ensures inStep && dev.reliable && Verified(fw) ==> ok
    {
      hide BitwiseCrc, PadBytes, Blank, Reads, ReadReplies, WordBytes, SplitLen;
      if blRev == 2 {
        ok, sent := VerifyV2(fw, inStep);
      } else {
        ok, sent := VerifyV3(fw, inStep);
      }
    }

    /** A delay that does not fit a signed byte raises before anything is sent. */
    method SendBootDelay(delay: int) returns (ok: bool, ghost sent: seq<Command>)
      requires dev.Valid()
      modifies dev`inbox, dev`heard, dev`trace, dev`readPos, dev`refused
      ensures dev.Valid() && dev.trace == old(dev.trace) + sent && old(dev.heard) <= dev.heard
      ensures sent == if -128 <= delay <= 127 then [SetBootDelay(delay)] else []
      ensures ok ==> -128 <= delay <= 127 && dev.heard == old(dev.heard) + [INSYNC, OK]
      ensures ok && old(dev.inbox) == [] ==> dev.inbox == [] && dev.refused == old(dev.refused)
      ensures old(dev.inbox) == [] && dev.reliable && -128 <= delay <= 127 ==> ok
    {
      if delay < -128 || delay > 127 { return false, []; }
      ghost var st := dev.Plain(SetBootDelay(delay));
      ok := GetSync();
      sent := [SetBootDelay(delay)];
    }

    /** From revision 3 on the device can refuse, and its reply is insisted on. */
    method SendReboot() returns (ok: bool)
      requires dev.Valid()
      modifies dev`inbox, dev`heard, dev`trace, dev`readPos, dev`refused
      ensures dev.Valid() && dev.trace == old(dev.trace) + [Reboot] && old(dev.heard) <= dev.heard
      ensures ok ==> dev.heard == old(dev.heard) + RebootReply()
      ensures ok && blRev >= 3 && old(dev.inbox) == [] ==> dev.refused == old(dev.refused)
      ensures dev.refused == old(dev.refused) || dev.refused == old(dev.refused) + [Reboot]
      ensures old(dev.inbox) == [] && dev.reliable ==> ok
    {
      ghost var st := dev.Plain(Reboot);
      ok := true;
      if blRev >= 3 {
        ok := GetSync();
      }
    }

    /** Checks and erase. */
    method Prepare(fw: Firmware, force: bool, attempts: nat) returns (ok: bool, ghost sent: seq<Command>)
      requires dev.Valid() && dev.inbox == []
      modifies dev
      ensures dev.Valid() && |dev.flash| == |old(dev.flash)| && |old(dev.heard)| <= |dev.heard|
      ensures dev.trace == old(dev.trace) + sent && Safe(sent, Suitable(fw, force), false)
      ensures sent <= Queries() + [ChipErase] && (ok ==> sent == Queries() + [ChipErase])
      ensures ChipErase in sent ==> Asked(fw, force)
      ensures ok ==> ChipErase in sent && JustHeard(dev.heard, |old(dev.heard)|, [INSYNC, OK])
      ensures ok && dev.staleAtErase == [] ==>
                dev.inbox == [] && dev.clean && dev.written == [] && dev.refused == []
      ensures Ready(fw, force, attempts) ==> ok && dev.staleAtErase == []
    {
      hide Device.Valid, JustHeard;
      ok, sent := Checks(fw, force);
      if !ok { return; }
      Assoc(old(dev.trace), sent, [ChipErase]);
      sent := sent + [ChipErase];
      ok := Erase(attempts);
    }

    /** Checks, erase, program: nothing here reboots. */
    method Flash(fw: Firmware, force: bool, attempts: nat) returns (ok: bool, ghost sent: seq<Command>)
      requires dev.Valid() && dev.inbox == [] && window == 0
      modifies this`window, dev
      ensures dev.Valid() && |dev.flash| == |old(dev.flash)| && |old(dev.heard)| <= |dev.heard|
      ensures dev.trace == old(dev.trace) + sent && Safe(sent, Suitable(fw, force), false)
      ensures sent <= FlashScript(fw) && (ok ==> sent == FlashScript(fw))
      ensures ChipErase in sent ==> Asked(fw, force)
      ensures ok ==> ChipErase in sent && JustHeard(dev.heard, |old(dev.heard)|, FlashReplies(fw))
      ensures ok && dev.staleAtErase == [] ==>
                dev.inbox == [] && dev.clean && dev.written == fw.image && dev.refused == []
      ensures fw.image == [] ==> !ok
      ensures fw.image == [] && Ready(fw, force, attempts) ==>
                ChipErase in sent && (dev.faithful ==> dev.flash == Blank(|dev.flash|))
      ensures Ready(fw, force, attempts) ==> dev.staleAtErase == []
      ensures fw.image != [] && |fw.image| <= |dev.flash| && Ready(fw, force, attempts) ==> ok
    {
      hide Sum, Flatten, SplitLen, Blocks, Blank, Queries, Device.Valid, Safe, Asked, JustHeard, Suitable,
        SuitableBoard, Pairs;
      ok, sent := Prepare(fw, force, attempts);
      ghost var groups := SplitLen(fw.image, PROG_MULTI_MAX);
      StageAfter(sent, Queries() + [ChipErase], [], Blocks(groups));
      assert sent + [] == sent;
      if !ok { return; }
      BlankNow();
      ghost var heard, before := dev.heard, sent;
      var windows;
      ghost var count;
      ok, windows, count := Program(fw, dev.staleAtErase == []);
      BlocksPrefix(groups, count);
      StageAfter(before, before, Blocks(groups[..count]), Blocks(groups));
      assert count == |groups| ==> groups[..count] == groups;
      Assoc(old(dev.trace), before, Blocks(groups[..count]));
      SafeBlocks(before, groups[..count], Suitable(fw, force));
      HeardOn(heard, |old(dev.heard)|, [INSYNC, OK], Pairs(|groups|));
      sent := before + Blocks(groups[..count]);
    }

    /** What is known once the erase has been sent: the board is suitable, it has described
        itself, and from an orderly device no stale reply was queued. */
    ghost predicate Asked(fw: Firmware, force: bool)
      reads this`boardType, this`blRev, this`fwMaxsize, dev`described, dev`staleAtErase
    {
      && Suitable(fw, force)
      && (blRev >= 4 ==> dev.described.Pieces?)
      && (blRev >= 5 && (dev.reliable || dev.prompt) ==> dev.described == Pieces(dev.chipPieces))
      && (Orderly() ==> dev.staleAtErase == [])
    }

    /** Right after a good erase of a faithful device. */
    lemma BlankNow()
      requires dev.Valid()
      ensures dev.faithful && dev.clean && dev.written == [] ==> dev.flash == Blank(|dev.flash|)
    {
      ErasedIsBlank(dev.flash);
    }

    /** The board is right, will do what it is asked, and gets time to erase. */
    ghost predicate Ready(fw: Firmware, force: bool, attempts: nat)
      reads this`boardType, this`blRev, this`fwMaxsize
    {
      dev.reliable && attempts > 0 && SuitableBoard(fw, force)
    }

    /** Verify, boot delay, reboot: nothing here erases. */
    method Release(fw: Firmware, bootDelay: Delay, ghost inStep: bool)
      returns (ok: bool, ghost sent: seq<Command>)
      requires dev.Valid() && (inStep ==> dev.inbox == [] && dev.refused == [])
      modifies dev`inbox, dev`heard, dev`trace, dev`readPos, dev`refused
      ensures dev.Valid() && dev.trace == old(dev.trace) + sent
      ensures Safe(sent, false, old(dev.heard) + (VerifyReplies(fw) + DelayReply(bootDelay)) <= dev.heard)
      ensures sent <= ReleaseScript(fw, bootDelay) && (ok ==> sent == ReleaseScript(fw, bootDelay))
      ensures ok ==> dev.heard == old(dev.heard) + ((VerifyReplies(fw) + DelayReply(bootDelay)) + RebootReply())
      ensures Reboot in sent && inStep ==> Verified(fw) && (dev.refused == [] || dev.refused == [Reboot])
      ensures ok && inStep && blRev >= 3 ==> dev.refused == []
      ensures inStep && dev.reliable && Verified(fw) && FitsByte(bootDelay) ==> ok
    {
      hide Verified, VerifyScript, VerifyReplies;
      ok, sent := Verify(fw, inStep);
      ghost var heard, checked := old(dev.heard), sent;
      StageAfter(sent, VerifyScript(fw), [], DelayScript(bootDelay));
      StageAfter(sent, VerifyScript(fw) + DelayScript(bootDelay), [], [Reboot]);
      assert sent + [] == sent;
      if !ok { return; }
      ghost var delaySent: seq<Command> := [];
      if bootDelay.Delay? {
        ok, delaySent := SendBootDelay(bootDelay.value);
      }
      Assoc(old(dev.trace), checked, delaySent);
      Assoc(heard, VerifyReplies(fw), DelayReply(bootDelay));
      assert (heard + VerifyReplies(fw)) + [] == heard + VerifyReplies(fw);
      StageAfter(checked, VerifyScript(fw), delaySent, DelayScript(bootDelay));
      sent := checked + delaySent;
      SafeTogether(checked, delaySent);
      StageAfter(sent, VerifyScript(fw) + DelayScript(bootDelay), [], [Reboot]);
      assert sent + [] == sent;
      if !ok { return; }
      Assoc(old(dev.trace), sent, [Reboot]);
      Assoc(heard, VerifyReplies(fw) + DelayReply(bootDelay), RebootReply());
      ok := SendReboot();
      sent := sent + [Reboot];
    }

    /** On every return, normal or not, what was sent is a beginning of the one script of an upload,
        all of it on a normal return: queries, erase, every block, the verification, the boot delay
        if asked for, and the reboot. Erase was sent only to a suitable board, and reboot only
        after every reply the program insists on was read in a row: for the erase, for each block,
        for the verification and for the boot delay; a normal return also read the reply to the reboot.

        If no stale reply was queued when the erase was sent, as with every orderly device, reboot
        was only sent with the image verified, and on a faithful device flash is then exactly the
        image followed by erased bytes; and on a normal return the device accepted every command. */
    method Upload(fw: Firmware, force: bool, bootDelay: Delay, attempts: nat)
      returns (ok: bool, ghost sent: seq<Command>)
      requires dev.Valid() && dev.inbox == [] && window == 0
      modifies this`window, dev
      ensures dev.Valid() && |dev.flash| == |old(dev.flash)|
      ensures dev.trace == old(dev.trace) + sent
      ensures sent <= Script(fw, bootDelay) && (ok ==> sent == Script(fw, bootDelay))
      ensures Safe(sent, Suitable(fw, force), HeardSince(dev.heard, |old(dev.heard)|, Confirmations(fw, bootDelay)))
      ensures ChipErase in sent ==> Asked(fw, force)
      ensures ok ==> ChipErase in sent && Reboot in sent
      ensures ok ==> JustHeard(dev.heard, |old(dev.heard)|, AllReplies(fw, bootDelay))
      ensures Reboot in sent && dev.staleAtErase == [] ==> Verified(fw)
      ensures ok && dev.staleAtErase == [] ==> dev.refused == [] || (blRev < 3 && dev.refused == [Reboot])
      ensures Reboot in sent && dev.staleAtErase == [] && dev.faithful ==>
                |fw.image| <= |dev.flash|
                && dev.flash == fw.image + Blank(|dev.flash| - |fw.image|)
      // an empty image never gets through, but costs the old contents of the flash
      ensures fw.image == [] ==> !ok
      ensures fw.image == [] && Ready(fw, force, attempts) ==>
                ChipErase in sent && (dev.faithful ==> dev.flash == Blank(|dev.flash|))
      // and a sound device accepts every image that fits
      ensures fw.image != [] && Ready(fw, force, attempts) && dev.faithful && Fits(fw) && FitsByte(bootDelay) ==> ok
    {
      hide SuitableBoard, Suitable, Verified, Blank, Flatten, FlashScript, ReleaseScript, VerifyReplies, FlashReplies,
        HeardSince, JustHeard, Asked, Safe, Confirmations, AllReplies, DelayReply, RebootReply, Device.Valid;
      ok, sent := Flash(fw, force, attempts);
      ghost var before := sent;
      ghost var heard := dev.heard;
      RepliesAre(fw, bootDelay);
      SafeAtMost(before, Suitable(fw, force), false);
      if !ok {
        StageAfter(before, FlashScript(fw), [], ReleaseScript(fw, bootDelay));
        assert before + [] == before;
        SafeAtMost(before, Suitable(fw, force), HeardSince(dev.heard, |old(dev.heard)|, Confirmations(fw, bootDelay)));
        return;
      }
      ghost var inStep := dev.staleAtErase == [];
      if inStep && dev.faithful {
        GoodFlashVerifies(fw);
      }
      ghost var more;
      ok, more := Release(fw, bootDelay, inStep);
      sent := before + more;
      HeardBoth(heard, |old(dev.heard)|, FlashReplies(fw), VerifyReplies(fw) + DelayReply(bootDelay), dev.heard);
      HeardOn(heard, |old(dev.heard)|, FlashReplies(fw), (VerifyReplies(fw) + DelayReply(bootDelay)) + RebootReply());
      StageAfter(before, FlashScript(fw), more, ReleaseScript(fw, bootDelay));
      Assoc(old(dev.trace), before, more);
      SafeWiden(more, heard + (VerifyReplies(fw) + DelayReply(bootDelay)) <= dev.heard, Suitable(fw, force),
                HeardSince(dev.heard, |old(dev.heard)|, Confirmations(fw, bootDelay)));
      SafeAfter(before, more, Suitable(fw, force),
                HeardSince(dev.heard, |old(dev.heard)|, Confirmations(fw, bootDelay)));
      ScriptReboots(fw, bootDelay);
    }

    lemma RepliesAre(fw: Firmware, bootDelay: Delay)
      ensures Confirmations(fw, bootDelay) == FlashReplies(fw) + (VerifyReplies(fw) + DelayReply(bootDelay))
      ensures AllReplies(fw, bootDelay)
              == FlashReplies(fw) + ((VerifyReplies(fw) + DelayReply(bootDelay)) + RebootReply())
    {
    }

    lemma ScriptReboots(fw: Firmware, bootDelay: Delay)
      ensures Reboot in ReleaseScript(fw, bootDelay)
    {
      hide VerifyScript;
    }

    /** The image fits the flash, and for the checksum the sizes are whole words. */
    ghost predicate Fits(fw: Firmware)
      reads this`blRev, this`fwMaxsize, dev`flash
    {
      |fw.image| <= |dev.flash|
      && (blRev != 2 ==> |dev.flash| == fwMaxsize && fwMaxsize % 4 == 0 && |fw.image| % 4 == 0)
    }

    /** Flash that holds the image and erased bytes passes both kinds of verification. */
    lemma GoodFlashVerifies(fw: Firmware)
      requires dev.Valid() && dev.faithful && dev.clean && dev.written == fw.image
      ensures |fw.image| <= |dev.flash| && dev.flash == fw.image + Blank(|dev.flash| - |fw.image|)
      ensures Fits(fw) ==> Verified(fw)
    {
      hide BitwiseCrc, Blank;
      if Fits(fw) && blRev != 2 {
        WholeWordPadding(|fw.image|, fwMaxsize);
      }
    }
  }

  // ---------------------------------------------------------------- stale replies

  /** A poll tells the status of the erase, whatever it is, if and only if nothing was queued
      before: otherwise an older pair is taken for it, or it is not recognised. */
  lemma PollTellsStatus(stale: seq<bv8>)
    ensures (forall st: bv8 :: SyncOnce(stale + [INSYNC, st]).Passed? <==> st == OK) <==> stale == []
  {
    var good, bad := stale + [INSYNC, OK], stale + [INSYNC, FAILED];
    if stale == [] {
      assert forall st: bv8 :: stale + [INSYNC, st] == [INSYNC, st];
    } else if |stale| == 1 {
      assert good[1] == INSYNC;
      assert !SyncOnce(stale + [INSYNC, OK]).Passed?;
    } else {
      assert good[0] == bad[0] && good[1] == bad[1];
      assert SyncOnce(stale + [INSYNC, OK]).Passed? == SyncOnce(stale + [INSYNC, FAILED]).Passed?;
    }
  }

  /** The failing case: an erase that failed, taken for a success. */
  lemma StalePairMisleads()
    ensures SyncOnce([INSYNC, OK] + [INSYNC, FAILED]) == Passed([INSYNC, FAILED])
  {
    var r := [INSYNC, OK] + [INSYNC, FAILED];
    assert r[2..] == [INSYNC, FAILED];
  }
}
