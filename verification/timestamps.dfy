/** Log lines: the prefix dlog gives them and the rewriting of its boot-relative time into wall-clock time,
    in 64-bit arithmetic. */
module Timestamps {
  import opened Bytes

  const WRAP64 := 0x1_0000_0000_0000_0000
  /** The period of the SDK's 32-bit millisecond reading. */
  const PERIOD := 0x1_0000_0000

  /** The end of the 64-bit microsecond timer behind it, in milliseconds. */
  const TIMER_END := 18_446_744_073_709_552

  const LIMIT := 10_000_000_000_000
  const DIGITS := 13
  const MAX_LOG_LEN := 1024
  const OPEN: Byte := 91
  const CLOSE: Byte := 93
  const ZERO: Byte := 48

  function Sub64(a: int, b: int): (r: nat)
    ensures r < WRAP64
  {
    (a - b) % WRAP64
  }

  // ---- Decimal digits ----

  function Pow10(n: nat): (p: nat)
    ensures p > 0
  {
    if n == 0 then 1 else 10 * Pow10(n - 1)
  }

  predicate IsDigit(c: Byte) {
    ZERO <= c < ZERO + 10
  }

  /** The last n decimal digits of x, zero padded. */
  function Digits(x: nat, n: nat): (s: seq<Byte>)
    ensures |s| == n
    ensures forall i :: 0 <= i < n ==> IsDigit(s[i])
  {
    if n == 0 then [] else Digits(x / 10, n - 1) + [ZERO + x % 10]
  }

  function Value(s: seq<Byte>): nat
    requires forall i :: 0 <= i < |s| ==> IsDigit(s[i])
  {
    if s == [] then 0
    else
      assert IsDigit(s[|s| - 1]);
      Value(s[..|s| - 1]) * 10 + (s[|s| - 1] - ZERO)
  }

  lemma {:induction false} ValueOfDigits(x: nat, n: nat)
    requires x < Pow10(n)
    ensures Value(Digits(x, n)) == x
  {
    if n > 0 {
      ValueOfDigits(x / 10, n - 1);
      assert Digits(x, n)[..n - 1] == Digits(x / 10, n - 1);
    }
  }

  lemma {:induction false} ValueBound(s: seq<Byte>)
    requires forall i :: 0 <= i < |s| ==> IsDigit(s[i])
    ensures Value(s) < Pow10(|s|)
  {
    if s != [] {
      ValueBound(s[..|s| - 1]);
    }
  }

  lemma Pow13()
    ensures Pow10(DIGITS) == LIMIT
  {
    assert Pow10(4) == 10_000;
    assert Pow10(8) == 100_000_000;
    assert Pow10(12) == 1_000_000_000_000;
  }

  /** "%013llu" into a 14-byte buffer: thirteen digits, of which a longer number keeps the leading ones. */
  function Printed(x: nat): (s: seq<Byte>)
    ensures |s| == DIGITS
    ensures forall i :: 0 <= i < DIGITS ==> IsDigit(s[i])
  {
    if x < LIMIT then Digits(x, DIGITS) else Printed(x / 10)
  }

  lemma PrintedExactly(x: nat)
    ensures Value(Printed(x)) < LIMIT
    ensures x < LIMIT ==> Value(Printed(x)) == x
  {
    Pow13();
    ValueBound(Printed(x));
    if x < LIMIT {
      ValueOfDigits(x, DIGITS);
    }
  }

  // ---- Log lines ----

  /** "[%013llu] [" and what follows. */
  predicate DlogLine(m: seq<Byte>) {
    && |m| >= 15 && m[0] == OPEN && m[14] == CLOSE
    && forall i :: 1 <= i < 14 ==> IsDigit(m[i])
  }

  function StampOf(m: seq<Byte>): nat
    requires DlogLine(m)
  {
    Value(m[1..14])
  }

  /** The rewritten line. */
  function Rewritten(m: seq<Byte>, now: nat, hwnow: nat): seq<Byte>
    requires DlogLine(m)
  {
    m[..1] + Printed(Sub64(now, Sub64(hwnow, StampOf(m)))) + m[14..]
  }

  /** strtoull on a run of digits that is short enough not to overflow. */
  function LeadingDigits(s: seq<Byte>): (n: nat)
    ensures n <= |s|
    ensures forall i :: 0 <= i < n ==> IsDigit(s[i])
    ensures n < |s| ==> !IsDigit(s[n])
  {
    if s == [] || !IsDigit(s[0]) then 0 else 1 + LeadingDigits(s[1..])
  }

  lemma LeadingThirteen(m: seq<Byte>)
    requires DlogLine(m)
    ensures LeadingDigits(m[1..]) == 13 && m[1..][..13] == m[1..14]
  {
    var s := m[1..];
    var n := LeadingDigits(s);
    assert forall i :: 0 <= i < 13 ==> IsDigit(s[i]);
    assert s[13] == CLOSE;
  }

  method LogTransformTs(msg: array<Byte>, now: nat, hwnow: nat)
    requires Terminated(msg[..]) && DlogLine(Text(msg[..]))
    modifies msg
    ensures Terminated(msg[..]) && Text(msg[..]) == Rewritten(old(Text(msg[..])), now, hwnow)
  {
    var t := Text(msg[..]);
    ScanToIs(t, OPEN, 0, 0);
    var tsStart := ScanTo(t, OPEN, 0);
    if tsStart == |t| {
      return;
    }
    tsStart := tsStart + 1;
    LeadingThirteen(t);
    var ts := Value(t[tsStart..][..LeadingDigits(t[tsStart..])]);
    var delta := Sub64(hwnow, ts);
    var epochTs := Sub64(now, delta);
    var buf := Printed(epochTs);
    forall i | 0 <= i < DIGITS {
      msg[tsStart + i] := buf[i];
    }
    TextIs(msg[..], t[..1] + buf + t[14..]);
  }

  lemma RewrittenIsLine(m: seq<Byte>, now: nat, hwnow: nat)
    requires DlogLine(m)
    ensures var r := Rewritten(m, now, hwnow);
            && DlogLine(r) && |r| == |m|
            && (forall i :: 0 <= i < |m| && !(1 <= i < 14) ==> r[i] == m[i])
            && StampOf(r) == Value(Printed(Sub64(now, Sub64(hwnow, StampOf(m)))))
  {
    var r := Rewritten(m, now, hwnow);
    assert r[1..14] == Printed(Sub64(now, Sub64(hwnow, StampOf(m))));
  }

  // ---- Wall-clock time ----

  /** get_current_epoch at hardware reading hw, after a sync that cached epochSecs at reading hwRef. */
  function CurrentEpoch(epochSecs: nat, hwRef: nat, hw: nat): nat {
    (epochSecs * 1000 + Sub64(hw, hwRef)) % WRAP64
  }

  /** to_ms_since_boot: 32 bits of the true time in milliseconds. */
  function Ms(t: nat): (ms: nat)
    ensures ms < PERIOD
  {
    t % PERIOD
  }

  /** The clock is the cached second plus the time since exactly until the millisecond reading wraps, once in
      49.7 days; from then on it is behind by one period for each wrap since the sync. */
  lemma EpochExact(epochSecs: nat, h: nat, t: nat)
    requires epochSecs < 0x1_0000_0000 && h <= t < TIMER_END
    ensures CurrentEpoch(epochSecs, Ms(h), Ms(t)) == 1000 * epochSecs + (t - h) <==> t / PERIOD == h / PERIOD
    ensures 1000 * epochSecs >= PERIOD ==>
              CurrentEpoch(epochSecs, Ms(h), Ms(t)) ==
              1000 * epochSecs + (t - h) - PERIOD * (t / PERIOD - h / PERIOD)
  {
    var d := Ms(t) - Ms(h);
    assert t - h == d + PERIOD * (t / PERIOD - h / PERIOD);
    var sum := 1000 * epochSecs + d;
    assert CurrentEpoch(epochSecs, Ms(h), Ms(t)) == if sum >= 0 then sum else sum + WRAP64 by {
      ModShift(sum, if d >= 0 then 0 else 1);
    }
  }

  /** A device synced one second after boot: at the first wrap its clock falls behind the second it was given. */
  lemma ClockFallsBack(epochSecs: nat)
    requires epochSecs < 0x1_0000_0000 && 1000 * epochSecs >= PERIOD
    ensures CurrentEpoch(epochSecs, Ms(1000), Ms(4_294_967_295)) == 1000 * epochSecs + 4_294_966_295
    ensures CurrentEpoch(epochSecs, Ms(1000), Ms(4_294_967_296)) == 1000 * epochSecs - 1000
  {
    EpochExact(epochSecs, 1000, 4_294_967_295);
    EpochExact(epochSecs, 1000, 4_294_967_296);
  }

  /** The wall-clock time of a line stamped ts: the epoch read at hw1, the hardware clock at hw2. */
  function WallTime(epochSecs: nat, hwRef: nat, hw1: nat, hw2: nat, ts: nat): int {
    epochSecs * 1000 + ts - hwRef - (hw2 - hw1)
  }

  /** The two 64-bit wraps cancel, also for a line older than the sync. */
  lemma WrapsCancel(epochSecs: nat, hwRef: nat, hw1: nat, hw2: nat, ts: nat)
    ensures Sub64(CurrentEpoch(epochSecs, hwRef, hw1), Sub64(hw2, ts)) ==
            WallTime(epochSecs, hwRef, hw1, hw2, ts) % WRAP64
  {
    var a, b := hw1 - hwRef, hw2 - ts;
    var p, q := a / WRAP64, b / WRAP64;
    assert Sub64(hw1, hwRef) == a - p * WRAP64 && Sub64(hw2, ts) == b - q * WRAP64;
    var c := epochSecs * 1000 + Sub64(hw1, hwRef);
    var r := c / WRAP64;
    assert CurrentEpoch(epochSecs, hwRef, hw1) == c - r * WRAP64;
    assert WallTime(epochSecs, hwRef, hw1, hw2, ts)
        == (CurrentEpoch(epochSecs, hwRef, hw1) - Sub64(hw2, ts)) + (p + r - q) * WRAP64;
    ModShift(CurrentEpoch(epochSecs, hwRef, hw1) - Sub64(hw2, ts), p + r - q);
  }

  lemma ModShift(x: int, k: int)
    ensures (x + k * WRAP64) % WRAP64 == x % WRAP64
  {
    var q := x / WRAP64;
    assert x + k * WRAP64 == (q + k) * WRAP64 + x % WRAP64;
  }

  /** On the readings: a rewritten line shows their wall-clock time exactly when that time fits thirteen digits. */
  lemma RewritingExact(m: seq<Byte>, epochSecs: nat, hwRef: nat, hw1: nat, hw2: nat)
    requires DlogLine(m)
    ensures var wall := WallTime(epochSecs, hwRef, hw1, hw2, StampOf(m));
            var r := Rewritten(m, CurrentEpoch(epochSecs, hwRef, hw1), hw2);
            DlogLine(r) && (StampOf(r) == wall <==> 0 <= wall < LIMIT)
  {
    hide CurrentEpoch, Printed, DlogLine, Rewritten, Sub64;
    var now := CurrentEpoch(epochSecs, hwRef, hw1);
    WrapsCancel(epochSecs, hwRef, hw1, hw2, StampOf(m));
    RewrittenIsLine(m, now, hw2);
    PrintedExactly(Sub64(now, Sub64(hw2, StampOf(m))));
  }

  /** The readings of one rewriting: the line stamped at true time at, the sync at h, the epoch read at t1 and the
      hardware clock at t2. */
  predicate Dated(epochSecs: nat, h: nat, t1: nat, t2: nat, at: nat) {
    epochSecs < 0x1_0000_0000 && 1000 * epochSecs >= 2 * PERIOD && h <= t1 <= t2 && at <= t2
  }

  function Shown(m: seq<Byte>, epochSecs: nat, h: nat, t1: nat, t2: nat): seq<Byte>
    requires DlogLine(m)
  {
    Rewritten(m, CurrentEpoch(epochSecs, Ms(h), Ms(t1)), Ms(t2))
  }

  lemma ShownStamp(m: seq<Byte>, epochSecs: nat, h: nat, t1: nat, t2: nat, at: nat)
    requires DlogLine(m) && StampOf(m) == Ms(at) && Dated(epochSecs, h, t1, t2, at)
    ensures DlogLine(Shown(m, epochSecs, h, t1, t2))
    ensures StampOf(Shown(m, epochSecs, h, t1, t2)) ==
            epochSecs * 1000 + (at - h) - (t2 - t1)
            - PERIOD * (at / PERIOD + t1 / PERIOD - h / PERIOD - t2 / PERIOD)
  {
    hide DlogLine, StampOf, Rewritten;
    RewritingExact(m, epochSecs, Ms(h), Ms(t1), Ms(t2));
  }

  /** Over true time: a rewritten line is dated right, up to the time between the two reads, exactly when the
      wraps between stamp and sync are those between the reads. For two reads in one period that is a line
      stamped in the period of the sync. */
  lemma DatingExact(m: seq<Byte>, epochSecs: nat, h: nat, t1: nat, t2: nat, at: nat)
    requires DlogLine(m) && StampOf(m) == Ms(at) && Dated(epochSecs, h, t1, t2, at)
    ensures var r := Shown(m, epochSecs, h, t1, t2);
            && DlogLine(r)
            && (StampOf(r) == epochSecs * 1000 + (at - h) - (t2 - t1) <==>
                at / PERIOD + t1 / PERIOD == h / PERIOD + t2 / PERIOD)
  {
    hide DlogLine, StampOf, Shown;
    ShownStamp(m, epochSecs, h, t1, t2, at);
  }

  /** Two lines of one dump keep their distance, hence their order, exactly when they were stamped in the same
      period. */
  lemma GapsPreserved(m1: seq<Byte>, m2: seq<Byte>, epochSecs: nat, h: nat, t1: nat, t2: nat, at1: nat, at2: nat)
    requires DlogLine(m1) && StampOf(m1) == Ms(at1) && Dated(epochSecs, h, t1, t2, at1)
    requires DlogLine(m2) && StampOf(m2) == Ms(at2) && Dated(epochSecs, h, t1, t2, at2)
    ensures var r1, r2 := Shown(m1, epochSecs, h, t1, t2), Shown(m2, epochSecs, h, t1, t2);
            && DlogLine(r1) && DlogLine(r2)
            && (StampOf(r2) - StampOf(r1) == at2 - at1 <==> at1 / PERIOD == at2 / PERIOD)
  {
    hide DlogLine, StampOf, Shown;
    ShownStamp(m1, epochSecs, h, t1, t2, at1);
    ShownStamp(m2, epochSecs, h, t1, t2, at2);
  }

  // ---- dlog ----

  const TRUNCMARK: seq<Byte> := [46, 46, 46, 91, 84, 67, 68, 93]

  function Prefix(ms: nat, level: seq<Byte>): (p: seq<Byte>)
    ensures |p| == 20 + |level|
  {
    [OPEN] + Digits(ms, DIGITS) + [CLOSE, 32, OPEN] + level + [CLOSE, 58, 32]
  }

  /** The text dlog stores: prefix and message cut at the buffer, with the mark over its last bytes when the
      message needs more than the remaining room. level is INFO or ERROR. */
  function DlogText(ms: nat, level: seq<Byte>, body: seq<Byte>): seq<Byte>
    requires |level| <= 8
  {
    var remaining := MAX_LOG_LEN - |Prefix(ms, level)|;
    var full := Prefix(ms, level) + if |body| < remaining then body else body[..remaining - 1];
    if |body| > remaining then full[..MAX_LOG_LEN - |TRUNCMARK| - 1] + TRUNCMARK else full
  }

  /** Every stored line is one the rewriting understands, shorter than the buffer, stamped with the time of
      the call; it is complete exactly when the message leaves room for the terminator. A message of exactly
      the remaining size loses its last byte unmarked. */
  lemma DlogTextIsLine(ms: nat, level: seq<Byte>, body: seq<Byte>)
    requires ms < LIMIT && |level| <= 8
    ensures var m, remaining := DlogText(ms, level, body), MAX_LOG_LEN - |Prefix(ms, level)|;
            && DlogLine(m) && StampOf(m) == ms && |m| < MAX_LOG_LEN
            && (m == Prefix(ms, level) + body <==> |body| < remaining)
            && (|body| == remaining ==> m == DlogText(ms, level, body[..remaining - 1]))
            && (|body| > remaining ==> m[|m| - |TRUNCMARK|..] == TRUNCMARK)
  {
    Pow13();
    ValueOfDigits(ms, DIGITS);
    var m, p := DlogText(ms, level, body), Prefix(ms, level);
    assert p[1..14] == Digits(ms, DIGITS) && p[0] == OPEN && p[14] == CLOSE;
    assert m[..15] == p[..15];
    assert m[1..14] == m[..15][1..14] == p[..15][1..14] == p[1..14];
    forall i | 1 <= i < 14 ensures IsDigit(m[i]) {
      assert m[i] == m[..15][i] == p[1..14][i - 1];
    }
    assert m[0] == m[..15][0] && m[14] == m[..15][14];
  }

  lemma DivTen(x: nat, p: nat)
    requires p > 0
    ensures x / 10 / p == x / (10 * p)
  {
    var q, a := x / 10, x / 10 / p;
    var b := q % p;
    assert q == p * a + b;
    QuotientIs(x, 10 * p, a, 10 * b + x % 10);
  }

  lemma QuotientIs(x: nat, d: nat, q: nat, r: nat)
    requires d > 0 && x == d * q + r && r < d
    ensures x / d == q
  {
    var k := x / d - q;
    assert x == d * (q + k) + x % d;
    DistributeLeft(d, q, k);
    assert d * k == r - x % d;
    Between(d, k);
  }

  lemma DistributeLeft(d: int, q: int, k: int)
    ensures d * (q + k) == d * q + d * k
  {
  }

  lemma Between(d: int, k: int)
    requires d > 0 && -d < d * k < d
    ensures k == 0
  {
  }

  /** Digit i of n, counted from the left, in ASCII. */
  lemma {:induction false} DigitAt(x: nat, n: nat, i: nat)
    requires i < n
    ensures Digits(x, n)[i] == 48 + x / Pow10(n - 1 - i) % 10
  {
    if i < n - 1 {
      DigitAt(x / 10, n - 1, i);
      DivTen(x, Pow10(n - 2 - i));
    }
  }

  /** The whole of what dlog stores, byte by byte: time, level and message; a message longer than the room left, 1004
      bytes less the level, keeps its start up to byte 1015 of the line, and the mark follows. */
  lemma DlogBytes(ms: nat, level: seq<Byte>, body: seq<Byte>)
    requires ms < LIMIT && level in {Ascii("INFO"), Ascii("ERROR")}
    ensures var full := Ascii("[") + Digits(ms, 13) + Ascii("] [") + level + Ascii("]: ") + body;
            var m := DlogText(ms, level, body);
            && (forall i :: 0 <= i < 13 ==> Digits(ms, 13)[i] == 48 + ms / Pow10(12 - i) % 10)
            && (|full| <= 1023 ==> m == full)
            && (|full| == 1024 ==> m == full[..1023])
            && (|full| > 1024 ==> m == full[..1015] + Ascii("...[TCD]"))
  {
    hide Digits;
    forall i | 0 <= i < 13 ensures Digits(ms, 13)[i] == 48 + ms / Pow10(12 - i) % 10 {
      DigitAt(ms, 13, i);
    }
    PrefixBytes(ms, level);
    assert Ascii("...[TCD]") == TRUNCMARK;
  }

  lemma PrefixBytes(ms: nat, level: seq<Byte>)
    ensures Prefix(ms, level) == Ascii("[") + Digits(ms, 13) + Ascii("] [") + level + Ascii("]: ")
  {
    hide Digits;
    assert Ascii("[") == [OPEN] && Ascii("] [") == [CLOSE, 32, OPEN] && Ascii("]: ") == [CLOSE, 58, 32];
  }
}
