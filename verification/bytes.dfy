/** Bytes, C strings and the string.h searches the firmware relies on. */
module Bytes {
  type Byte = b: int | 0 <= b < 256

  datatype Option<+T> = None | Some(value: T)

  const NUL: Byte := 0
  const QUOTE: Byte := 34
  const COMMA: Byte := 44
  const EQUALS: Byte := 61
  const BACKSLASH: Byte := 92

  /** The bytes of a text in ASCII. */
  function Ascii(s: string): (b: seq<Byte>)
    ensures |b| == |s|
    ensures forall i :: 0 <= i < |s| ==> b[i] == s[i] as int % 256
  {
    seq(|s|, i requires 0 <= i < |s| => s[i] as int % 256)
  }

  predicate NulFree(s: seq<Byte>) {
    forall i :: 0 <= i < |s| ==> s[i] != NUL
  }

  /** A 32-bit number in network byte order. */
  function BigEndian(val: int): (s: seq<Byte>)
    requires 0 <= val < 0x1_0000_0000
    ensures |s| == 4
  {
    [val / 0x100_0000, val / 0x1_0000 % 256, val / 256 % 256, val % 256]
  }

  lemma BigEndianValue(val: int)
    requires 0 <= val < 0x1_0000_0000
    ensures var s := BigEndian(val);
            (s[0] as int) * 0x100_0000 + (s[1] as int) * 0x1_0000 + (s[2] as int) * 256 + s[3] as int == val
  {
    var a, b := val / 256, val / 256 / 256;
    DivTwice(val);
    DivTwice(a);
    assert val == a * 256 + val % 256 && a == b * 256 + a % 256 && b == b / 256 * 256 + b % 256;
  }

  lemma DivTwice(x: int)
    requires x >= 0
    ensures x / 256 / 256 == x / 0x1_0000 && x / 256 / 0x1_0000 == x / 0x100_0000
  {
  }

  /** The first index at or after i that holds c, or the end: strchr, with the end in place of NULL. */
  function ScanTo(s: seq<Byte>, c: Byte, i: nat): (r: nat)
    requires i <= |s|
    ensures i <= r <= |s|
    ensures r < |s| ==> s[r] == c
    ensures forall k :: i <= k < r ==> s[k] != c
    decreases |s| - i
  {
    if i == |s| || s[i] == c then i else ScanTo(s, c, i + 1)
  }

  lemma {:induction false} ScanToIs(s: seq<Byte>, c: Byte, i: nat, r: nat)
    requires i <= r <= |s|
    requires r < |s| ==> s[r] == c
    requires forall k :: i <= k < r ==> s[k] != c
    ensures ScanTo(s, c, i) == r
    decreases r - i
  {
    if i < r {
      ScanToIs(s, c, i + 1, r);
    }
  }

  /** A buffer holds a C string when some byte is NUL; its text is what stands before the first one. */
  predicate Terminated(buf: seq<Byte>) {
    ScanTo(buf, NUL, 0) < |buf|
  }

  function Text(buf: seq<Byte>): (t: seq<Byte>)
    ensures NulFree(t)
  {
    buf[..ScanTo(buf, NUL, 0)]
  }

  lemma TextIs(buf: seq<Byte>, t: seq<Byte>)
    requires NulFree(t) && |t| < |buf| && buf[..|t|] == t && buf[|t|] == NUL
    ensures Terminated(buf) && Text(buf) == t
  {
    forall k | 0 <= k < |t| ensures buf[k] != NUL {
      assert buf[k] == t[k];
    }
    ScanToIs(buf, NUL, 0, |t|);
  }

  function Zeros(n: nat): (z: seq<Byte>)
    ensures |z| == n && forall i :: 0 <= i < n ==> z[i] == NUL
  {
    seq(n, _ => NUL)
  }

  /** The memory with v at `at` and zeros behind it, n bytes in all. */
  function Overlay(mem: seq<Byte>, at: nat, v: seq<Byte>, n: nat): (r: seq<Byte>)
    requires |v| <= n && at + n <= |mem|
    ensures |r| == |mem|
  {
    mem[..at] + v + Zeros(n - |v|) + mem[at + n..]
  }

  /** Overlay, byte by byte. */
  lemma OverlayBytes(mem: seq<Byte>, at: nat, v: seq<Byte>, n: nat)
    requires |v| <= n && at + n <= |mem|
    ensures var r := Overlay(mem, at, v, n);
            && (forall i :: 0 <= i < |mem| && !(at <= i < at + n) ==> r[i] == mem[i])
            && (forall i :: at <= i < at + |v| ==> r[i] == v[i - at])
            && (forall i :: at + |v| <= i < at + n ==> r[i] == NUL)
  {
  }

  lemma OverlayIs(mem: seq<Byte>, at: nat, v: seq<Byte>, n: nat, r: seq<Byte>)
    requires |v| <= n && at + n <= |mem| && |r| == |mem|
    requires forall i :: 0 <= i < |mem| && !(at <= i < at + n) ==> r[i] == mem[i]
    requires forall i :: at <= i < at + |v| ==> r[i] == v[i - at]
    requires forall i :: at + |v| <= i < at + n ==> r[i] == NUL
    ensures r == Overlay(mem, at, v, n)
  {
    hide Overlay;
    OverlayBytes(mem, at, v, n);
  }

  lemma OverlayTwice(mem: seq<Byte>, at: nat, a: seq<Byte>, b: seq<Byte>, n: nat)
    requires |a| <= n && |b| <= n && at + n <= |mem|
    ensures Overlay(Overlay(mem, at, a, n), at, b, n) == Overlay(mem, at, b, n)
  {
  }

  /** The string at an offset. */
  function View(mem: seq<Byte>, at: nat): (t: seq<Byte>)
    requires at <= |mem|
    ensures NulFree(t)
  {
    Text(mem[at..])
  }

  lemma ViewIs(mem: seq<Byte>, at: nat, t: seq<Byte>)
    requires NulFree(t) && at + |t| < |mem|
    requires forall i :: at <= i < at + |t| ==> mem[i] == t[i - at]
    requires mem[at + |t|] == NUL
    ensures Terminated(mem[at..]) && View(mem, at) == t
  {
    TextIs(mem[at..], t);
  }

  lemma OverlayView(mem: seq<Byte>, at: nat, v: seq<Byte>, n: nat)
    requires NulFree(v) && |v| < n && at + n <= |mem|
    ensures Terminated(Overlay(mem, at, v, n)[at..]) && View(Overlay(mem, at, v, n), at) == v
  {
    hide Overlay, View;
    OverlayBytes(mem, at, v, n);
    ViewIs(Overlay(mem, at, v, n), at, v);
  }

  predicate MatchAt(t: seq<Byte>, p: seq<Byte>, j: nat) {
    j + |p| <= |t| && t[j..j + |p|] == p
  }

  /** MatchAt, byte by byte. */
  lemma MatchBytes(t: seq<Byte>, p: seq<Byte>, j: nat)
    ensures MatchAt(t, p, j) <==> j + |p| <= |t| && forall x :: j <= x < j + |p| ==> t[x] == p[x - j]
  {
    if j + |p| <= |t| {
      var part := t[j..j + |p|];
      if part == p {
        forall x | j <= x < j + |p| ensures t[x] == p[x - j] {
          assert part[x - j] == t[x];
        }
      }
    }
  }

  lemma Assoc<T>(a: seq<T>, b: seq<T>, c: seq<T>)
    ensures (a + b) + c == a + (b + c)
  {
  }

  /** strstr: the first position at or after i where p stands in t. */
  function FindFrom(t: seq<Byte>, p: seq<Byte>, i: nat): (r: Option<nat>)
    ensures r.Some? ==> i <= r.value <= r.value + |p| <= |t|
    decreases if i <= |t| then |t| - i + 1 else 0
  {
    if i + |p| > |t| then None
    else if MatchAt(t, p, i) then Some(i)
    else FindFrom(t, p, i + 1)
  }

  function Find(t: seq<Byte>, p: seq<Byte>): Option<nat> {
    FindFrom(t, p, 0)
  }

  lemma FindBounds(t: seq<Byte>, p: seq<Byte>)
    ensures Find(t, p).Some? ==> Find(t, p).value + |p| <= |t|
  {
  }

  lemma {:induction false} FindFromFirst(t: seq<Byte>, p: seq<Byte>, i: nat)
    ensures var r := FindFrom(t, p, i);
            match r
            case None => forall j: nat :: i <= j ==> !MatchAt(t, p, j)
            case Some(at) => i <= at && MatchAt(t, p, at) && forall j: nat :: i <= j < at ==> !MatchAt(t, p, j)
    decreases if i <= |t| then |t| - i + 1 else 0
  {
    if i + |p| <= |t| && !MatchAt(t, p, i) {
      FindFromFirst(t, p, i + 1);
    }
  }

  lemma FindIs(t: seq<Byte>, p: seq<Byte>, r: nat)
    requires MatchAt(t, p, r)
    requires forall j: nat :: j < r ==> !MatchAt(t, p, j)
    ensures Find(t, p) == Some(r)
  {
    FindFromFirst(t, p, 0);
  }

  lemma FindIsNone(t: seq<Byte>, p: seq<Byte>)
    requires forall j: nat :: !MatchAt(t, p, j)
    ensures Find(t, p) == None
  {
    FindFromFirst(t, p, 0);
  }

  lemma MatchShift(head: seq<Byte>, rest: seq<Byte>, p: seq<Byte>, j: nat)
    ensures MatchAt(head + rest, p, |head| + j) <==> MatchAt(rest, p, j)
  {
    hide MatchAt;
    var t, n := head + rest, |head|;
    MatchBytes(t, p, n + j);
    MatchBytes(rest, p, j);
    assert forall x :: n <= x < |t| ==> t[x] == rest[x - n];
    if MatchAt(t, p, n + j) {
      forall x | j <= x < j + |p| ensures rest[x] == p[x - j] {
        assert t[n + x] == p[n + x - (n + j)];
      }
    }
    if MatchAt(rest, p, j) {
      forall x | n + j <= x < n + j + |p| ensures t[x] == p[x - (n + j)] {
        assert rest[x - n] == p[x - n - j];
      }
    }
  }

  /** When nothing matches in the first |head| positions, the search continues in the rest. */
  lemma FindSkips(head: seq<Byte>, rest: seq<Byte>, p: seq<Byte>)
    requires forall j: nat :: j < |head| ==> !MatchAt(head + rest, p, j)
    ensures Find(head + rest, p) ==
            match Find(rest, p) { case None => None case Some(r) => Some(|head| + r) }
  {
    hide MatchAt;
    var t := head + rest;
    FindFromFirst(rest, p, 0);
    match Find(rest, p)
    case None =>
      forall j: nat ensures !MatchAt(t, p, j) {
        if j >= |head| {
          MatchShift(head, rest, p, j - |head|);
        }
      }
      FindIsNone(t, p);
    case Some(r) =>
      MatchShift(head, rest, p, r);
      forall j: nat | j < |head| + r ensures !MatchAt(t, p, j) {
        if j >= |head| {
          MatchShift(head, rest, p, j - |head|);
        }
      }
      FindIs(t, p, |head| + r);
  }
}
