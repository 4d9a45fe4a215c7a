/** The lease table: DISCOVER and REQUEST over eight slots, with expiry kept as the high half of a wrapping
    32-bit millisecond clock. True time is unbounded; the device sees it modulo 2^32. */
module DhcpLeases {
  import opened Bytes

  const SLOTS := 8
  const WRAP := 0x1_0000_0000
  const LEASE_MS := 86_400_000

  type Mac = m: seq<Byte> | |m| == 6 witness [0, 0, 0, 0, 0, 0]

  const NO_MAC: Mac := [0, 0, 0, 0, 0, 0]

  datatype Lease = Lease(mac: Mac, expiry: nat)

  const FREE := Lease(NO_MAC, 0)

  type Table = t: seq<Lease> | |t| == SLOTS witness [FREE, FREE, FREE, FREE, FREE, FREE, FREE, FREE]

  /** One time for each slot. */
  type Times = c: seq<nat> | |c| == SLOTS witness [0, 0, 0, 0, 0, 0, 0, 0]

  const EMPTY: Table := [FREE, FREE, FREE, FREE, FREE, FREE, FREE, FREE]

  function Ticks(time: nat): nat {
    time % WRAP
  }

  /** The 16-bit stamp REQUEST stores. */
  function Stamp(ticks: nat): nat {
    (ticks + LEASE_MS) % WRAP / 0x1_0000
  }

  /** The signed 32-bit difference test of DISCOVER. */
  predicate Expired(expiry: nat, ticks: nat) {
    (expiry * 0x1_0000 + 0xFFFF - ticks) % WRAP >= WRAP / 2
  }

  /** The last millisecond of true time a lease stamped at time is honoured. */
  function LeaseEnd(time: nat): nat {
    (time + LEASE_MS) / 0x1_0000 * 0x1_0000 + 0xFFFF
  }

  lemma StampIsLeaseEnd(time: nat)
    ensures Stamp(Ticks(time)) * 0x1_0000 + 0xFFFF == LeaseEnd(time) % WRAP
  {
    var x := time + LEASE_MS;
    WrapSum(time, LEASE_MS);
    Halves(x, x / WRAP, x % WRAP / 0x1_0000, x % 0x1_0000);
  }

  lemma WrapSum(a: nat, b: nat)
    ensures (a % WRAP + b) % WRAP == (a + b) % WRAP
  {
    var q, r := a / WRAP, a % WRAP;
    var q', r' := (r + b) / WRAP, (r + b) % WRAP;
    ByWrap(a + b, q + q', r');
  }

  lemma ByWrap(x: nat, q: nat, r: nat)
    requires x == q * WRAP + r && r < WRAP
    ensures x / WRAP == q && x % WRAP == r
  {
  }

  lemma By16(x: nat, q: nat, r: nat)
    requires x == q * 0x1_0000 + r && r < 0x1_0000
    ensures x / 0x1_0000 == q && x % 0x1_0000 == r
  {
  }

  /** With x = (q * 65536 + h) * 65536 + l, clearing the low half commutes with the wrap. */
  lemma Halves(x: nat, q: nat, h: nat, l: nat)
    requires q == x / WRAP && h == x % WRAP / 0x1_0000 && l == x % 0x1_0000
    ensures (x / 0x1_0000 * 0x1_0000 + 0xFFFF) % WRAP == h * 0x1_0000 + 0xFFFF
  {
    var r := x % WRAP;
    By16(x, q * 0x1_0000 + h, r % 0x1_0000);
    ByWrap(x / 0x1_0000 * 0x1_0000 + 0xFFFF, q, h * 0x1_0000 + 0xFFFF);
  }

  /** The wrapped test, exactly: a lease counts as expired during the half clock period after its end, and
      again in every later period. */
  lemma ExpiredExactly(stamped: nat, now: nat)
    ensures Expired(Stamp(Ticks(stamped)), Ticks(now)) <==> (now - LeaseEnd(stamped) - 1) % WRAP < WRAP / 2
  {
    StampIsLeaseEnd(stamped);
    WrappedDifference(LeaseEnd(stamped), now);
  }

  lemma WrappedDifference(a: nat, b: nat)
    ensures (a % WRAP - b % WRAP) % WRAP == (a - b) % WRAP
    ensures (a - b) % WRAP + (b - a - 1) % WRAP == WRAP - 1
  {
    var d := a % WRAP - b % WRAP;
    assert a - b == d + (a / WRAP - b / WRAP) * WRAP;
    var r := (a - b) % WRAP;
    assert b - a - 1 == (WRAP - 1 - r) + (-((a - b) / WRAP) - 1) * WRAP;
  }

  /** A lease never ends early, ends at most 65535 ms late, and then stays expired for 2^31 ms. */
  lemma LeaseWindow(stamped: nat, now: nat)
    ensures var end := LeaseEnd(stamped);
            && stamped + 86_400_000 <= end <= stamped + 86_400_000 + 0xFFFF
            && (stamped <= now <= end ==> !Expired(Stamp(Ticks(stamped)), Ticks(now)))
            && (end < now <= end + 0x8000_0000 ==> Expired(Stamp(Ticks(stamped)), Ticks(now)))
  {
    ExpiredExactly(stamped, now);
    var end := LeaseEnd(stamped);
    if stamped <= now <= end {
      assert (now - end - 1) % WRAP == now - end - 1 + WRAP;
    }
  }

  // ---- DISCOVER ----

  /** The first slot at or after i held by mac, or SLOTS. */
  function HeldBy(t: Table, mac: Mac, i: nat): (n: nat)
    requires i <= SLOTS
    ensures i <= n <= SLOTS
    ensures n < SLOTS ==> t[n].mac == mac
    ensures forall k :: i <= k < n ==> t[k].mac != mac
    decreases SLOTS - i
  {
    if i == SLOTS || t[i].mac == mac then i else HeldBy(t, mac, i + 1)
  }

  /** Slot i when its turn comes: the clock is read once per slot, so every slot has its own reading. */
  predicate Available(t: Table, clock: Times, i: nat)
    requires i < SLOTS
  {
    t[i].mac == NO_MAC || Expired(t[i].expiry, Ticks(clock[i]))
  }

  function FirstAvailable(t: Table, clock: Times, i: nat): (n: nat)
    requires i <= SLOTS
    ensures i <= n <= SLOTS
    ensures n < SLOTS ==> Available(t, clock, n)
    ensures forall k :: i <= k < n ==> !Available(t, clock, k)
    decreases SLOTS - i
  {
    if i == SLOTS || Available(t, clock, i) then i else FirstAvailable(t, clock, i + 1)
  }

  /** The slot to offer: the client's own, else the first available, else none (SLOTS). */
  function Offer(t: Table, mac: Mac, clock: Times): (n: nat)
    ensures n <= SLOTS
  {
    var held := HeldBy(t, mac, 0);
    if held < SLOTS then held else FirstAvailable(t, clock, 0)
  }

  /** The table afterwards: an expired slot met before the client's own loses its owner. */
  function Discovered(t: Table, mac: Mac, clock: Times): Table
  {
    var free := FirstAvailable(t, clock, 0);
    if free < HeldBy(t, mac, 0) && Expired(t[free].expiry, Ticks(clock[free]))
    then t[free := t[free].(mac := NO_MAC)]
    else t
  }

  /** DISCOVER stays silent exactly when all eight slots are held by other clients and unexpired; otherwise
      it offers the first slot the client holds, or else the first free or expired one, which the client may
      then request. */
  lemma DiscoverOffers(t: Table, mac: Mac, clock: Times)
    ensures var yi := Offer(t, mac, clock);
            && (yi == SLOTS <==>
                forall i :: 0 <= i < SLOTS ==> t[i].mac != mac && !Available(t, clock, i))
            && (yi < SLOTS ==> Grants(Discovered(t, mac, clock), mac, yi))
            && (forall i :: 0 <= i < SLOTS && t[i].mac == mac ==> yi <= i && t[yi].mac == mac)
            && (yi < SLOTS && t[yi].mac != mac ==>
                  Available(t, clock, yi) && forall i :: 0 <= i < yi ==> !Available(t, clock, i))
  {
    hide Expired;
  }

  /** DISCOVER changes at most one slot, and only clears the owner of an expired one that is not the
      client's own. */
  lemma DiscoverClears(t: Table, mac: Mac, clock: Times)
    ensures var t' := Discovered(t, mac, clock);
            && (forall i :: 0 <= i < SLOTS && t'[i] != t[i] ==>
                  && t'[i] == t[i].(mac := NO_MAC) && t[i].mac != mac
                  && Expired(t[i].expiry, Ticks(clock[i])))
            && (forall i, j :: 0 <= i < j < SLOTS ==> t'[i] == t[i] || t'[j] == t[j])
  {
    hide Expired;
  }

  /** Exactly which slot DISCOVER clears: the first free or expired one, if it is expired and the client holds no
      slot up to it, even when the client's own comes later. */
  lemma DiscoverClearsExactly(t: Table, mac: Mac, clock: Times, i: nat)
    requires i < SLOTS
    ensures Discovered(t, mac, clock)[i] ==
            if && Expired(t[i].expiry, Ticks(clock[i]))
               && (forall k :: 0 <= k <= i ==> t[k].mac != mac)
               && (forall k :: 0 <= k < i ==> t[k].mac != [0, 0, 0, 0, 0, 0] && !Expired(t[k].expiry, Ticks(clock[k])))
            then Lease([0, 0, 0, 0, 0, 0], t[i].expiry)
            else t[i]
  {
    hide Expired, FirstAvailable, HeldBy;
    HeldLater(t, mac, i);
    FreeFrom(t, clock, i);
    if Expired(t[i].expiry, Ticks(clock[i])) {
      assert Available(t, clock, i);
      assert FirstAvailable(t, clock, 0) <= i;
    }
  }

  lemma HeldLater(t: Table, mac: Mac, i: nat)
    requires i < SLOTS
    ensures HeldBy(t, mac, 0) > i <==> forall k :: 0 <= k <= i ==> t[k].mac != mac
  {
  }

  lemma FreeFrom(t: Table, clock: Times, i: nat)
    requires i < SLOTS
    ensures FirstAvailable(t, clock, 0) >= i <==>
            forall k :: 0 <= k < i ==> t[k].mac != [0, 0, 0, 0, 0, 0] && !Expired(t[k].expiry, Ticks(clock[k]))
  {
    hide Expired;
    var free := FirstAvailable(t, clock, 0);
    assert forall k :: 0 <= k < free ==> !Available(t, clock, k);
  }

  // ---- REQUEST ----

  predicate Grants(t: Table, mac: Mac, slot: nat) {
    slot < SLOTS && (t[slot].mac == mac || t[slot].mac == NO_MAC)
  }

  function Requested(t: Table, mac: Mac, slot: nat, now: nat): Table {
    if Grants(t, mac, slot) then t[slot := Lease(mac, Stamp(Ticks(now)))] else t
  }

  // ---- Runs ----

  datatype Event =
    | Discover(mac: Mac, clock: Times)
    | Request(mac: Mac, slot: nat, now: nat)

  datatype Ack = Ack(time: nat, mac: Mac, slot: nat)

  /** The table, every ACK sent so far, for each slot the time of its last ACK, and the last clock reading. */
  datatype State = State(table: Table, acks: seq<Ack>, stamped: Times, now: nat)

  const START := State(EMPTY, [], [0, 0, 0, 0, 0, 0, 0, 0], 0)

  function Step(s: State, e: Event): State
  {
    match e
    case Discover(mac, clock) => s.(table := Discovered(s.table, mac, clock), now := clock[SLOTS - 1])
    case Request(mac, slot, now) =>
      if Grants(s.table, mac, slot)
      then State(Requested(s.table, mac, slot, now), s.acks + [Ack(now, mac, slot)], s.stamped[slot := now], now)
      else s.(now := now)
  }

  /** One reading for each slot, in order. */
  predicate Readings(clock: Times) {
    forall i, j :: 0 <= i < j < SLOTS ==> clock[i] <= clock[j]
  }

  /** Clock readings never go back. */
  predicate Follows(s: State, e: Event) {
    match e
    case Discover(_, clock) => Readings(clock) && s.now <= clock[0]
    case Request(_, _, now) => s.now <= now
  }

  predicate Possible(es: seq<Event>) {
    es == [] || (Possible(es[..|es| - 1]) && Follows(Exec(es[..|es| - 1]), es[|es| - 1]))
  }

  function Exec(es: seq<Event>): State {
    if es == [] then START else Step(Exec(es[..|es| - 1]), es[|es| - 1])
  }

  /** An acknowledged client keeps its slot, at least until a day after the acknowledgement. */
  ghost predicate Protected(s: State, a: Ack) {
    && a.slot < SLOTS && a.time <= s.now
    && (a.mac != NO_MAC ==>
          (s.table[a.slot].mac == a.mac && a.time <= s.stamped[a.slot] <= s.now
           && s.table[a.slot].expiry == Stamp(Ticks(s.stamped[a.slot])))
          || s.now > a.time + LEASE_MS)
  }

  ghost predicate Safe(s: State) {
    forall i :: 0 <= i < |s.acks| ==> Protected(s, s.acks[i])
  }

  lemma DiscoverProtects(s: State, e: Event, a: Ack)
    requires e.Discover? && Follows(s, e) && Protected(s, a)
    ensures Protected(Step(s, e), a)
  {
    hide Expired, Stamp, Discovered;
    DiscoverClears(s.table, e.mac, e.clock);
    var t := Discovered(s.table, e.mac, e.clock);
    if t[a.slot] != s.table[a.slot] {
      LeaseWindow(s.stamped[a.slot], e.clock[a.slot]);
    }
  }

  lemma RequestProtects(s: State, e: Event, a: Ack)
    requires e.Request? && Follows(s, e) && Protected(s, a)
    ensures Protected(Step(s, e), a)
  {
    hide Stamp;
  }

  lemma {:induction false} RunsAreSafe(es: seq<Event>)
    requires Possible(es)
    ensures Safe(Exec(es))
  {
    hide Stamp, Discovered, Grants;
    if es != [] {
      var s, e := Exec(es[..|es| - 1]), es[|es| - 1];
      RunsAreSafe(es[..|es| - 1]);
      forall i | 0 <= i < |s.acks| ensures Protected(Step(s, e), s.acks[i]) {
        if e.Discover? { DiscoverProtects(s, e, s.acks[i]); } else { RequestProtects(s, e, s.acks[i]); }
      }
      NewAckProtected(s, e);
    }
  }

  lemma NewAckProtected(s: State, e: Event)
    requires Follows(s, e)
    ensures var s' := Step(s, e);
            || s'.acks == s.acks
            || (|s'.acks| == |s.acks| + 1 && s'.acks[..|s.acks|] == s.acks && Protected(s', s'.acks[|s.acks|]))
  {
  }

  /** Exclusivity: over any interleaving of DISCOVER and REQUEST and any number of clock wraps, two clients
      are acknowledged for the same address only more than a day apart. */
  lemma {:induction false} Exclusive(es: seq<Event>, i: nat, j: nat)
    requires Possible(es)
    requires i < j < |Exec(es).acks|
    requires var a, b := Exec(es).acks[i], Exec(es).acks[j];
             a.slot == b.slot && a.mac != b.mac && a.mac != NO_MAC && b.mac != NO_MAC
    ensures Exec(es).acks[j].time > Exec(es).acks[i].time + 86_400_000
  {
    var before := es[..|es| - 1];
    var s, e := Exec(before), es[|es| - 1];
    NewAckProtected(s, e);
    if j < |s.acks| {
      assert Exec(es).acks[..|s.acks|] == s.acks;
      Exclusive(before, i, j);
    } else {
      RunsAreSafe(before);
      GrantMeansExpired(s, e, s.acks[i]);
    }
  }

  lemma GrantMeansExpired(s: State, e: Event, a: Ack)
    requires Follows(s, e) && Protected(s, a) && a.mac != NO_MAC
    requires e.Request? && Grants(s.table, e.mac, e.slot) && e.slot == a.slot && e.mac != a.mac
    ensures e.now > a.time + LEASE_MS
  {
  }

  // ---- Offers ----

  predicate AckedToOther(s: State, e: Event, mac: Mac, slot: nat) {
    e.Request? && e.slot == slot && e.mac != mac && Grants(s.table, e.mac, e.slot)
  }

  ghost predicate Uncontested(s: State, es: seq<Event>, mac: Mac, slot: nat)
    decreases |es|
  {
    es == [] ||
    (Follows(s, es[0]) && !AckedToOther(s, es[0], mac, slot) && Uncontested(Step(s, es[0]), es[1..], mac, slot))
  }

  function ExecFrom(s: State, es: seq<Event>): State
    decreases |es|
  {
    if es == [] then s else ExecFrom(Step(s, es[0]), es[1..])
  }

  lemma {:induction false} StaysGranted(s: State, es: seq<Event>, mac: Mac, slot: nat)
    requires Grants(s.table, mac, slot) && Uncontested(s, es, mac, slot)
    ensures Grants(ExecFrom(s, es).table, mac, slot)
    decreases |es|
  {
    if es != [] {
      StepKeepsGrant(s, es[0], mac, slot);
      StaysGranted(Step(s, es[0]), es[1..], mac, slot);
    }
  }

  lemma StepKeepsGrant(s: State, e: Event, mac: Mac, slot: nat)
    requires Follows(s, e)
    requires Grants(s.table, mac, slot) && !AckedToOther(s, e, mac, slot)
    ensures Grants(Step(s, e).table, mac, slot)
  {
    hide Expired, Stamp, Discovered;
    match e
    case Discover(m, clock) => DiscoverClears(s.table, m, clock);
    case Request(m, sl, now) =>
  }

  /** An offer stays honourable: whatever messages arrive in between, the client that was offered a slot and
      requests it is acknowledged, unless another client was acknowledged for that slot. */
  lemma OfferHonoured(s: State, mac: Mac, clock: Times, between: seq<Event>, now: nat)
    requires Follows(s, Discover(mac, clock))
    requires Offer(s.table, mac, clock) < SLOTS
    requires Uncontested(Step(s, Discover(mac, clock)), between, mac, Offer(s.table, mac, clock))
    ensures var slot := Offer(s.table, mac, clock);
            var after := ExecFrom(Step(s, Discover(mac, clock)), between);
            var acked := Step(after, Request(mac, slot, now));
            acked.acks == after.acks + [Ack(now, mac, slot)] && acked.table[slot].mac == mac
  {
    hide Expired, Stamp, Discovered, Offer;
    DiscoverOffers(s.table, mac, clock);
    StaysGranted(Step(s, Discover(mac, clock)), between, mac, Offer(s.table, mac, clock));
  }
}
