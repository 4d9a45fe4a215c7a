/** The four strings of the context. They are declared one behind the other, 64 bytes each, so that what is written
    behind the end of one is written into the next, and what has no terminator of its own is read on into it. */
module ContextStrings {
  import opened Bytes

  const PASS_AT := 64
  const TOKEN_AT := 128
  const HUB_AT := 192
  const CTX_SIZE := 256

  /** wifi_ssid, wifi_pass and prv_token. */
  datatype Triple = Triple(ssid: seq<Byte>, password: seq<Byte>, contract: seq<Byte>)

  function Strings(mem: seq<Byte>): Triple
    requires |mem| == CTX_SIZE
  {
    Triple(View(mem, 0), View(mem, PASS_AT), View(mem, TOKEN_AT))
  }

  function Hub(mem: seq<Byte>): seq<Byte>
    requires |mem| == CTX_SIZE
  {
    View(mem, HUB_AT)
  }

  /** The room three writes take from their buffer's start on, values with the zeros behind them. */
  datatype Room = Room(ssid: nat, password: nat, contract: nat)

  /** Each value with its terminator. */
  function Copied(c: Triple): Room {
    Room(|c.ssid| + 1, |c.password| + 1, |c.contract| + 1)
  }

  predicate Fits(c: Triple, n: Room) {
    && |c.ssid| < n.ssid <= CTX_SIZE
    && |c.password| < n.password <= CTX_SIZE - PASS_AT
    && |c.contract| < n.contract <= CTX_SIZE - TOKEN_AT
  }

  /** The memory after the three strings were written in order. */
  function Placed(mem: seq<Byte>, c: Triple, n: Room): (m: seq<Byte>)
    requires |mem| == CTX_SIZE && Fits(c, n)
    ensures |m| == CTX_SIZE
  {
    Overlay(Overlay(Overlay(mem, 0, c.ssid, n.ssid), PASS_AT, c.password, n.password), TOKEN_AT, c.contract, n.contract)
  }

  /** Strings no longer than their buffers, a full buffer leaving its terminator to the next one. */
  predicate Bounded(c: Triple) {
    && NulFree(c.ssid) && NulFree(c.password) && NulFree(c.contract)
    && |c.ssid| <= 64 && |c.password| <= 64 && |c.contract| <= 64
  }

  lemma PlacedBytes(mem: seq<Byte>, c: Triple, n: Room)
    requires |mem| == CTX_SIZE && Bounded(c) && Fits(c, n)
    ensures var m := Placed(mem, c, n);
            && (forall i :: 0 <= i < |c.ssid| ==> m[i] == c.ssid[i])
            && (|c.ssid| < 64 ==> m[|c.ssid|] == NUL)
            && (forall i :: PASS_AT <= i < PASS_AT + |c.password| ==> m[i] == c.password[i - PASS_AT])
            && (|c.password| < 64 ==> m[PASS_AT + |c.password|] == NUL)
            && (n.ssid <= HUB_AT && n.password <= 128 && n.contract <= 64 ==> m[HUB_AT..] == mem[HUB_AT..])
            && (!(n.ssid <= HUB_AT && n.password <= 128 && n.contract <= 64) ==> m[HUB_AT] == NUL)
  {
    hide Overlay, NulFree;
    var m1 := Overlay(mem, 0, c.ssid, n.ssid);
    var m2 := Overlay(m1, PASS_AT, c.password, n.password);
    OverlayBytes(mem, 0, c.ssid, n.ssid);
    OverlayBytes(m1, PASS_AT, c.password, n.password);
    OverlayBytes(m2, TOKEN_AT, c.contract, n.contract);
  }

  /** The text at an offset, when its first bytes are known. */
  lemma ViewJoins(mem: seq<Byte>, at: nat, v: seq<Byte>)
    requires NulFree(v) && at + |v| <= |mem|
    requires forall i :: at <= i < at + |v| ==> mem[i] == v[i - at]
    ensures View(mem, at) == v + View(mem, at + |v|)
  {
    var rest := mem[at + |v|..];
    var end := ScanTo(rest, NUL, 0);
    assert mem[at..] == v + rest;
    ScanToIs(mem[at..], NUL, 0, |v| + end);
  }

  /** What the context holds then: a full buffer runs on into the next string, and a write that reaches behind
      prv_token empties hub_loc. */
  lemma PlacedReads(mem: seq<Byte>, c: Triple, n: Room)
    requires |mem| == CTX_SIZE && Bounded(c) && Fits(c, n)
    ensures var m := Placed(mem, c, n);
            && Strings(m).contract == c.contract
            && Strings(m).password == (if |c.password| < 64 then c.password else c.password + c.contract)
            && Strings(m).ssid == (if |c.ssid| < 64 then c.ssid else c.ssid + Strings(m).password)
            && Hub(m) == (if n.ssid <= HUB_AT && n.password <= 128 && n.contract <= 64 then Hub(mem) else [])
            && Terminated(m[TOKEN_AT..])
  {
    hide View, NulFree, Overlay;
    var m := Placed(mem, c, n);
    PlacedBytes(mem, c, n);
    OverlayView(Overlay(Overlay(mem, 0, c.ssid, n.ssid), PASS_AT, c.password, n.password),
                TOKEN_AT, c.contract, n.contract);
    if |c.password| < 64 {
      ViewIs(m, PASS_AT, c.password);
    } else {
      ViewJoins(m, PASS_AT, c.password);
    }
    if |c.ssid| < 64 {
      ViewIs(m, 0, c.ssid);
    } else {
      ViewJoins(m, 0, c.ssid);
    }
    HubReads(mem, m);
  }

  lemma HubReads(mem: seq<Byte>, m: seq<Byte>)
    requires |mem| == |m| == CTX_SIZE
    ensures m[HUB_AT..] == mem[HUB_AT..] ==> Hub(m) == Hub(mem)
    ensures m[HUB_AT] == NUL ==> Hub(m) == []
  {
  }

  /** Exactly which strings survive their neighbours. */
  lemma PlacedExactly(mem: seq<Byte>, c: Triple, n: Room)
    requires |mem| == CTX_SIZE && Bounded(c) && Fits(c, n)
    ensures var m := Placed(mem, c, n);
            && (Strings(m).ssid == c.ssid <==> |c.ssid| < 64 || c.password == [])
            && (Strings(m).password == c.password <==> |c.password| < 64 || c.contract == [])
            && Strings(m).contract == c.contract
            && (Hub(mem) != [] ==>
                  (Hub(m) == Hub(mem) <==> n.ssid <= HUB_AT && n.password <= 128 && n.contract <= 64))
  {
    hide Strings, Hub, NulFree, Placed;
    PlacedReads(mem, c, n);
    Longer(c.ssid, Strings(Placed(mem, c, n)).password);
    Longer(c.password, c.contract);
  }

  lemma Longer(a: seq<Byte>, b: seq<Byte>)
    ensures a + b == a <==> b == []
  {
    if b != [] {
      assert |a + b| > |a|;
    }
  }
}
