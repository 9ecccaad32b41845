/** The bootloader protocol: how an image is cut into blocks, and which replies the two
    acknowledgement modes accept. */
module Bootloader {
  import opened Bytes

  const INSYNC: bv8 := 0x12
  const OK: bv8 := 0x10
  const FAILED: bv8 := 0x11
  const INVALID: bv8 := 0x13
  const BAD_SILICON_REV: bv8 := 0x14
  const PROG_MULTI_MAX: nat := 252
  const READ_MULTI_MAX: nat := 252

  // ---------------------------------------------------------------- splitting an image

  /** `__split_len` */
  function SplitLen<T>(code: seq<T>, length: nat): (groups: seq<seq<T>>)
    requires length > 0
    ensures forall k | 0 <= k < |groups| :: 1 <= |groups[k]| <= length
    ensures groups == [] <==> code == []
    decreases |code|
  {
    if code == [] then [] else [Take(code, length)] + SplitLen(Drop(code, length), length)
  }

  /** The pieces are the image. */
  lemma {:induction false} SplitLenExact<T>(code: seq<T>, length: nat)
    requires length > 0
    ensures Flatten(SplitLen(code, length)) == code
    decreases |code|
  {
    if code != [] {
      var head, rest := Take(code, length), SplitLen(Drop(code, length), length);
      SplitLenExact(Drop(code, length), length);
      assert ([head] + rest)[1..] == rest;
      assert head + Drop(code, length) == code;
    }
  }

  /** All pieces but the last have the full length. */
  lemma {:induction false} SplitLenShape<T>(code: seq<T>, length: nat)
    requires length > 0
    ensures forall k | 0 <= k < |SplitLen(code, length)| - 1 :: |SplitLen(code, length)[k]| == length
    decreases |code|
  {
    if code != [] {
      SplitLenShape(Drop(code, length), length);
    }
  }

  // ---------------------------------------------------------------- acknowledgements

  /** `r` starts with `n` pairs INSYNC (0x12), OK (0x10). */
  ghost predicate Acks(r: seq<bv8>, n: nat) {
    |r| >= 2 * n && forall k: nat | k < n :: AckAt(r, k)
  }

  predicate AckAt(r: seq<bv8>, k: nat) {
    2 * k + 1 < |r| && r[2 * k] == 0x12 && r[2 * k + 1] == 0x10
  }

  datatype Check = Passed(rest: seq<bv8>) | Refused

  /** `__getSync` on a reply stream. */
  function SyncOnce(r: seq<bv8>): Check {
    if |r| >= 2 && r[0] == INSYNC && r[1] == OK then Passed(r[2..]) else Refused
  }

  /** One check after each of `n` blocks. */
  function PerBlock(r: seq<bv8>, n: nat): Check
    decreases n
  {
    if n == 0 then Passed(r)
    else match SyncOnce(r) case Refused => Refused case Passed(rest) => PerBlock(rest, n - 1)
  }

  /** `__ackSyncWindow` on a reply stream: `count` bytes read at once, then checked in pairs. */
  function WindowCheck(r: seq<bv8>, count: nat): Check {
    if |r| < count then Refused
    else if PairsOk(r[..count]) then Passed(r[count..]) else Refused
  }

  predicate PairsOk(data: seq<bv8>) {
    if |data| < 2 then data == [] else data[0] == INSYNC && data[1] == OK && PairsOk(data[2..])
  }

  /** Replies to blocks `k … n-1`, with `window` reply bytes outstanding, checked at every
      256th block and at the end. */
  function Windowed(r: seq<bv8>, k: nat, n: nat, window: nat): Check
    requires k <= n
    decreases n - k
  {
    if k == n then WindowCheck(r, window)
    else if (k + 1) % 256 == 0 then
      match WindowCheck(r, window + 2)
      case Refused => Refused
      case Passed(rest) => Windowed(rest, k + 1, n, 0)
    else Windowed(r, k + 1, n, window + 2)
  }

  lemma {:induction false} PairsAreAcks(r: seq<bv8>, n: nat)
    ensures |r| >= 2 * n ==> (PairsOk(r[..2 * n]) <==> Acks(r, n))
    decreases n
  {
    if n > 0 && |r| >= 2 * n {
      var rest := r[2..];
      PairsAreAcks(rest, n - 1);
      assert r[..2 * n][2..] == rest[..2 * (n - 1)];
      AcksHead(r, n);
    }
  }

  lemma AcksHead(r: seq<bv8>, n: nat)
    requires n > 0 && |r| >= 2 * n
    ensures Acks(r, n) <==> r[0] == INSYNC && r[1] == OK && Acks(r[2..], n - 1)
  {
    var rest := r[2..];
    if Acks(r, n) {
      assert AckAt(r, 0);
      forall k: nat | k < n - 1 ensures AckAt(rest, k) { assert AckAt(r, k + 1); }
    }
    if r[0] == INSYNC && r[1] == OK && Acks(rest, n - 1) {
      forall k: nat | k < n ensures AckAt(r, k) {
        if k > 0 { assert AckAt(rest, k - 1); }
      }
    }
  }

  lemma AcksSplit(r: seq<bv8>, m: nat, n: nat)
    requires m <= n && |r| >= 2 * m
    ensures Acks(r, n) <==> Acks(r, m) && Acks(r[2 * m..], n - m)
  {
    var rest := r[2 * m..];
    if Acks(r, n) {
      forall k: nat | k < n - m ensures AckAt(rest, k) { assert AckAt(r, m + k); }
    }
    if Acks(r, m) && Acks(rest, n - m) {
      forall k: nat | k < n ensures AckAt(r, k) {
        if k >= m { assert AckAt(rest, k - m); }
      }
    }
  }

  /** Per-block checking accepts exactly the streams with one pair per block. */
  lemma {:induction false} PerBlockAccepts(r: seq<bv8>, n: nat)
    ensures PerBlock(r, n) == if Acks(r, n) then Passed(r[2 * n..]) else Refused
    decreases n
  {
    if n > 0 {
      if |r| >= 2 {
        PerBlockAccepts(r[2..], n - 1);
        if |r| >= 2 * n {
          AcksHead(r, n);
          assert r[2..][2 * (n - 1)..] == r[2 * n..];
        }
      }
    }
  }

  lemma WindowAccepts(r: seq<bv8>, u: nat)
    ensures WindowCheck(r, 2 * u) == if Acks(r, u) then Passed(r[2 * u..]) else Refused
  {
    PairsAreAcks(r, u);
  }

  lemma {:induction false} WindowedAccepts(r: seq<bv8>, k: nat, n: nat, u: nat)
    requires k <= n
    ensures Windowed(r, k, n, 2 * u)
            == if Acks(r, u + n - k) then Passed(r[2 * (u + n - k)..]) else Refused
    decreases n - k
  {
    if k == n {
      WindowAccepts(r, u);
    } else if (k + 1) % 256 == 0 {
      WindowAccepts(r, u + 1);
      assert 2 * u + 2 == 2 * (u + 1);
      if |r| >= 2 * (u + 1) {
        WindowedAccepts(r[2 * (u + 1)..], k + 1, n, 0);
        AcksSplit(r, u + 1, u + n - k);
      }
    } else {
      WindowedAccepts(r, k + 1, n, u + 1);
    }
  }

  /** The two acknowledgement modes accept exactly the same reply streams, those with one
      INSYNC, OK pair per block, and leave the same bytes unread. */
  lemma SameReplies(r: seq<bv8>, n: nat)
    ensures PerBlock(r, n) == Windowed(r, 0, n, 0)
    ensures PerBlock(r, n).Passed? <==> Acks(r, n)
  {
    PerBlockAccepts(r, n);
    WindowedAccepts(r, 0, n, 0);
  }
}
