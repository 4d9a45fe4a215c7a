/** The SNTP client: one request in flight, one timeout alarm for it, and the cached clock. */
module Ntp {
  import opened Bytes
  import opened Timestamps

  const PORT := 123
  const MSG_LEN := 48
  const DELTA := 2_208_988_800
  const WRAP32 := 0x1_0000_0000
  const POLL_MS := 30_000

  /** What dns_gethostbyname answers: the address, a callback to come, or an error. */
  datatype Dns = Cached(address: nat) | InProgress | Failed

  type Word = s: seq<Byte> | |s| == 4 witness [0, 0, 0, 0]

  /** What ntp_recv looks at: the sender, the length, the first two bytes and the transmit seconds. */
  datatype Packet = Packet(sender: nat, port: nat, len: nat, first: Byte, stratum: Byte, seconds: Word)

  predicate Acceptable(server: nat, p: Packet) {
    p.sender == server && p.port == PORT && p.len == MSG_LEN && p.first % 8 == 4 && p.stratum != 0
  }

  function Seconds1970(s: Word): (u: nat)
    ensures u < WRAP32
  {
    ((s[0] as int) * 0x100_0000 + (s[1] as int) * 0x1_0000 + (s[2] as int) * 256 + s[3] as int - DELTA) % WRAP32
  }

  /** The 1900-based seconds of a Unix time, modulo the 32-bit era of section 6 of RFC 5905. */
  function Transmitted(unix: nat): Word {
    BigEndian((unix + DELTA) % WRAP32)
  }

  /** Decoding is right for every 32-bit Unix second, on both sides of the era rollover. */
  lemma DecodeAcrossEras(unix: nat)
    requires unix < WRAP32
    ensures Seconds1970(Transmitted(unix)) == unix
  {
    hide BigEndian;
    var x := (unix + DELTA) % WRAP32;
    BigEndianValue(x);
    assert Seconds1970(BigEndian(x)) == (x - DELTA) % WRAP32;
  }

  // ---- The client ----

  /** armed is the timer's view: the alarms it will still fire. asked are the addresses requests went to. An
      address of 0 is the one the allocation leaves. */
  datatype State = State(
    server: nat, sent: bool, nextPoll: nat, alarm: int, epochSecs: nat, hwRef: nat, synced: bool,
    armed: set<int>, asked: seq<nat>)

  datatype Event =
    | Poll(now: nat, alarmId: int, dns: Dns)
    | DnsFound(address: Option<nat>, now: nat)
    | Response(packet: Packet, hw: nat, now: nat)
    | AlarmFires(id: int, now: nat)

  function Done(s: State, now: nat): State {
    s.(alarm := if s.alarm > 0 then 0 else s.alarm,
       armed := if s.alarm > 0 then s.armed - {s.alarm} else s.armed,
       sent := false, nextPoll := now + POLL_MS)
  }

  /** The server's address is known: ntp_request to it. */
  function Ask(s: State, address: nat): State {
    s.(server := address, asked := s.asked + [address])
  }

  function Step(s: State, e: Event): State {
    match e
    case Poll(now, alarmId, dns) =>
      if s.nextPoll < now && !s.sent then
        var s' := s.(alarm := alarmId, armed := if alarmId > 0 then s.armed + {alarmId} else s.armed, sent := true);
        match dns
        case Cached(address) => Ask(s', address)
        case InProgress => s'
        case Failed => Done(s', now)
      else s
    case DnsFound(address, now) =>
      (match address
       case Some(a) => Ask(s, a)
       case None => Done(s, now))
    case Response(p, hw, now) =>
      if Acceptable(s.server, p) then Done(s.(epochSecs := Seconds1970(p.seconds), hwRef := hw, synced := true), now)
      else Done(s, now)
    case AlarmFires(id, now) =>
      if id in s.armed then Done(s.(armed := s.armed - {id}), now) else s
  }

  class NtpClient {
    var serverAddress: nat
    var dnsRequestSent: bool
    var ntpNextPoll: nat
    var ntpResendAlarm: int
    var epochSecs: nat
    var hwRefMs: nat
    var synced: bool
    var armed: set<int>
    var asked: seq<nat>

    function Snapshot(): State
      reads this
    {
      State(serverAddress, dnsRequestSent, ntpNextPoll, ntpResendAlarm, epochSecs, hwRefMs, synced, armed, asked)
    }

    constructor (now: nat)
      ensures Snapshot() == Start(now)
    {
      dnsRequestSent, ntpNextPoll, ntpResendAlarm, epochSecs, hwRefMs, synced := false, now, 0, 0, 0, false;
      serverAddress, armed, asked := 0, {}, [];
    }

    method NtpRequest()
      modifies this`asked
      ensures asked == old(asked) + [serverAddress]
    {
      asked := asked + [serverAddress];
    }

    method SyncDone(now: nat)
      modifies this
      ensures Snapshot() == Done(old(Snapshot()), now)
    {
      if ntpResendAlarm > 0 {
        armed := armed - {ntpResendAlarm};
        ntpResendAlarm := 0;
      }
      dnsRequestSent := false;
      ntpNextPoll := now + POLL_MS;
    }

    /** alarmId is what the timer answers; a positive answer is an armed alarm. */
    method NtpPoll(now: nat, alarmId: int, dns: Dns)
      modifies this
      ensures Snapshot() == Step(old(Snapshot()), Poll(now, alarmId, dns))
    {
      if ntpNextPoll < now && !dnsRequestSent {
        ntpResendAlarm := alarmId;
        if alarmId > 0 {
          armed := armed + {alarmId};
        }
        if dns.Cached? {
          serverAddress := dns.address;
        }
        dnsRequestSent := true;
        if dns.Cached? {
          NtpRequest();
        } else if dns != InProgress {
          SyncDone(now);
        }
      }
    }

    method NtpDnsFound(address: Option<nat>, now: nat)
      modifies this
      ensures Snapshot() == Step(old(Snapshot()), DnsFound(address, now))
    {
      if address.Some? {
        serverAddress := address.value;
        NtpRequest();
      } else {
        SyncDone(now);
      }
    }

    method NtpRecv(p: Packet, hw: nat, now: nat)
      modifies this
      ensures Snapshot() == Step(old(Snapshot()), Response(p, hw, now))
    {
      var mode := p.first % 8;
      if p.sender == serverAddress && p.port == PORT && p.len == MSG_LEN && mode == 4 && p.stratum != 0 {
        epochSecs := Seconds1970(p.seconds);
        hwRefMs := hw;
        synced := true;
        SyncDone(now);
      } else {
        SyncDone(now);
      }
    }

    method NtpFailedHandler(id: int, now: nat)
      requires id in armed
      modifies this
      ensures Snapshot() == Step(old(Snapshot()), AlarmFires(id, now))
    {
      armed := armed - {id};
      SyncDone(now);
    }

    /** None is the OFFLINE error. */
    method GetCurrentEpoch(hw: nat) returns (r: Option<nat>)
      ensures r == if synced then Some(CurrentEpoch(epochSecs, hwRefMs, hw)) else None
    {
      if !synced {
        return None;
      }
      var deltaMs := Sub64(hw, hwRefMs);
      r := Some((epochSecs * 1000 + deltaMs) % WRAP64);
    }
  }

  function Start(now: nat): State {
    State(0, false, now, 0, 0, 0, false, {}, [])
  }

  function Exec(s: State, es: seq<Event>): State {
    if es == [] then s else Step(Exec(s, es[..|es| - 1]), es[|es| - 1])
  }

  /** A request is in flight exactly when one timeout is recorded, and it is the only one armed. */
  predicate Tracked(s: State) {
    && (s.sent <==> s.alarm > 0)
    && s.armed == if s.alarm > 0 then {s.alarm} else {}
  }

  predicate AlarmsCreated(es: seq<Event>) {
    forall i :: 0 <= i < |es| && es[i].Poll? ==> es[i].alarmId > 0
  }

  /** While alarms can be created, no reachable state leaks a timeout or waits without one. */
  lemma {:induction false} NeverLeaks(start: nat, es: seq<Event>)
    requires AlarmsCreated(es)
    ensures Tracked(Exec(Start(start), es))
  {
    if es != [] {
      NeverLeaks(start, es[..|es| - 1]);
    }
  }

  /** No reachable state sticks: a request in flight has an armed alarm, whatever ends it leaves no alarm and
      polls again after thirty seconds, and its alarm alone is enough to end it. */
  lemma NeverSticks(start: nat, es: seq<Event>, e: Event, later: nat, alarmId: int)
    requires AlarmsCreated(es) && alarmId > 0
    requires Exec(Start(start), es).sent
    ensures var s := Exec(Start(start), es);
            && s.alarm in s.armed
            && !Step(s, AlarmFires(s.alarm, later)).sent
            && (!Step(s, e).sent ==>
                  && Step(s, e).armed == {} && Step(s, e).nextPoll == e.now + POLL_MS
                  && (later > e.now + POLL_MS ==> Step(Step(s, e), Poll(later, alarmId, InProgress)).sent))
  {
    NeverLeaks(start, es);
  }

  /** When the timer refuses the alarm the client can stick: polls alone never end a request, and a refused
      alarm is exactly when nothing is armed that would. */
  lemma {:induction false} StuckWithoutAlarm(s: State, now: nat, alarmId: int, dns: Dns, polls: seq<Event>)
    requires Tracked(s) && !s.sent && s.nextPoll < now && dns != Failed
    requires forall i :: 0 <= i < |polls| ==> polls[i].Poll?
    ensures var s' := Step(s, Poll(now, alarmId, dns));
            && s'.sent && Exec(s', polls) == s'
            && (s'.armed == {} <==> alarmId <= 0)
  {
    if polls != [] {
      StuckWithoutAlarm(s, now, alarmId, dns, polls[..|polls| - 1]);
    }
  }

  /** Once synced, always synced. */
  lemma {:induction false} SyncedStays(s: State, es: seq<Event>)
    requires s.synced
    ensures Exec(s, es).synced
  {
    if es != [] {
      SyncedStays(s, es[..|es| - 1]);
    }
  }

  /** A response is only ever accepted from an address a request went to (or, before the first address is
      known, from the null address). */
  lemma {:induction false} AcceptsOnlyAsked(start: nat, es: seq<Event>, p: Packet)
    ensures var s := Exec(Start(start), es);
            Acceptable(s.server, p) ==> p.sender in s.asked || (p.sender == 0 && s.asked == [])
  {
    if es != [] {
      var s := Exec(Start(start), es[..|es| - 1]);
      AcceptsOnlyAsked(start, es[..|es| - 1], p.(sender := s.server));
    }
  }

  /** No response of the run is accepted. */
  predicate NoSync(s: State, es: seq<Event>) {
    forall i :: 0 <= i < |es| && es[i].Response? ==> !Acceptable(Exec(s, es[..i]).server, es[i].packet)
  }

  lemma {:induction false} CacheStays(s: State, es: seq<Event>)
    requires NoSync(s, es)
    ensures var s' := Exec(s, es);
            s'.synced == s.synced && s'.epochSecs == s.epochSecs && s'.hwRef == s.hwRef
  {
    if es != [] {
      var before, n := es[..|es| - 1], |es| - 1;
      assert forall i :: 0 <= i < n ==> before[i] == es[i] && before[..i] == es[..i];
      CacheStays(s, before);
      assert es[n].Response? ==> !Acceptable(Exec(s, es[..n]).server, es[n].packet);
    }
  }

  // ---- A request goes out, and its answer sets the clock ----

  /** One request to address a: the address stored, the request recorded, the timeout armed, the clock as before. */
  predicate Asks(s: State, s': State, a: nat, alarmId: int) {
    && s'.server == a && s'.asked == s.asked + [a]
    && s'.sent && s'.alarm == alarmId && s'.armed == {alarmId}
    && s'.epochSecs == s.epochSecs && s'.hwRef == s.hwRef && s'.synced == s.synced
  }

  /** In every reachable idle state that is due, with an alarm granted, a poll leads to exactly one request: at once
      to the cached address, or to the address found when the lookup is answered later. A failed lookup, at once
      or later, sends nothing and ends the attempt for thirty seconds. */
  lemma RequestGoesOut(start: nat, es: seq<Event>, now: nat, alarmId: int, a: nat, later: nat)
    requires AlarmsCreated(es) && alarmId > 0
    requires !Exec(Start(start), es).sent && Exec(Start(start), es).nextPoll < now
    ensures var s := Exec(Start(start), es);
            && Asks(s, Exec(s, [Poll(now, alarmId, Cached(a))]), a, alarmId)
            && Asks(s, Exec(s, [Poll(now, alarmId, InProgress), DnsFound(Some(a), later)]), a, alarmId)
            && Exec(s, [Poll(now, alarmId, Failed)]) == s.(nextPoll := now + 30_000)
            && Exec(s, [Poll(now, alarmId, InProgress), DnsFound(None, later)]) == s.(nextPoll := later + 30_000)
  {
    hide Step;
    var s := Exec(Start(start), es);
    NeverLeaks(start, es);
    NoRefusedAlarm(start, es);
    PollAsks(s, now, alarmId, a, later);
    ExecOne(s, Poll(now, alarmId, Cached(a)));
    ExecOne(s, Poll(now, alarmId, Failed));
    ExecTwo(s, Poll(now, alarmId, InProgress), DnsFound(Some(a), later));
    ExecTwo(s, Poll(now, alarmId, InProgress), DnsFound(None, later));
  }

  /** A poll that is not due, or meets a request in flight, does nothing. */
  lemma PollOnlyWhenDue(s: State, now: nat, alarmId: int, dns: Dns)
    ensures Step(s, Poll(now, alarmId, dns)) != s ==> !s.sent && s.nextPoll < now
    ensures !s.sent && s.nextPoll < now && dns != Failed ==> Step(s, Poll(now, alarmId, dns)).sent
  {
  }

  lemma {:induction false} NoRefusedAlarm(start: nat, es: seq<Event>)
    requires AlarmsCreated(es)
    ensures Exec(Start(start), es).alarm >= 0
  {
    if es != [] {
      NoRefusedAlarm(start, es[..|es| - 1]);
    }
  }

  lemma ExecOne(s: State, e: Event)
    ensures Exec(s, [e]) == Step(s, e)
  {
    hide Step;
    assert [e][..0] == [];
  }

  lemma ExecTwo(s: State, e1: Event, e2: Event)
    ensures Exec(s, [e1, e2]) == Step(Step(s, e1), e2)
  {
    hide Step;
    assert [e1, e2][..1] == [e1];
    ExecOne(s, e1);
  }

  lemma PollAsks(s: State, now: nat, alarmId: int, a: nat, later: nat)
    requires alarmId > 0 && !s.sent && s.nextPoll < now && s.armed == {} && s.alarm == 0
    ensures Asks(s, Step(s, Poll(now, alarmId, Cached(a))), a, alarmId)
    ensures Asks(s, Step(Step(s, Poll(now, alarmId, InProgress)), DnsFound(Some(a), later)), a, alarmId)
    ensures Step(s, Poll(now, alarmId, Failed)) == s.(nextPoll := now + 30_000)
    ensures Step(Step(s, Poll(now, alarmId, InProgress)), DnsFound(None, later)) == s.(nextPoll := later + 30_000)
  {
  }

  /** The seconds that stand on the wire for a Unix time: those since 1900, modulo 2^32, in network order. */
  predicate OnWire(w: Word, unix: nat) {
    (w[0] as int) * 0x100_0000 + (w[1] as int) * 0x1_0000 + (w[2] as int) * 256 + w[3] as int
    == (unix + 2_208_988_800) % 0x1_0000_0000
  }

  /** What a packet does in any state of the client. It sets the clock exactly when it comes from the stored server's
      port 123, has 48 bytes, mode 4 and a stratum: to the second it transmits, at the hardware reading taken.
      Any other leaves the cached clock alone. Every packet ends the attempt. */
  lemma AnswerSetsClock(s: State, p: Packet, unix: nat, hw: nat, now: nat)
    requires unix < 0x1_0000_0000 && OnWire(p.seconds, unix)
    ensures var s' := Step(s, Response(p, hw, now));
            && (p.sender == s.server && p.port == 123 && p.len == 48 && p.first % 8 == 4 && p.stratum != 0 ==>
                  s'.synced && s'.epochSecs == unix && s'.hwRef == hw)
            && (p.sender != s.server || p.port != 123 || p.len != 48 || p.first % 8 != 4 || p.stratum == 0 ==>
                  s'.synced == s.synced && s'.epochSecs == s.epochSecs && s'.hwRef == s.hwRef)
            && !s'.sent && s'.nextPoll == now + 30_000 && s'.alarm <= 0
            && s'.armed == (if s.alarm > 0 then s.armed - {s.alarm} else s.armed)
            && s'.server == s.server && s'.asked == s.asked
  {
    WireSecond(p.seconds, unix);
    hide Seconds1970;
  }

  lemma WireSecond(w: Word, unix: nat)
    requires unix < 0x1_0000_0000 && OnWire(w, unix)
    ensures Seconds1970(w) == unix
  {
  }

  /** Request and answer: after either way to send a request to a, in any reachable due state, the answer of a sets
      the clock. */
  lemma SyncCompletes(start: nat, es: seq<Event>, now: nat, alarmId: int, p: Packet, unix: nat, hw: nat, later: nat)
    requires AlarmsCreated(es) && alarmId > 0
    requires !Exec(Start(start), es).sent && Exec(Start(start), es).nextPoll < now
    requires unix < 0x1_0000_0000 && OnWire(p.seconds, unix)
    requires p.port == 123 && p.len == 48 && p.first % 8 == 4 && p.stratum != 0
    ensures var s := Exec(Start(start), es);
            var once := Exec(s, [Poll(now, alarmId, Cached(p.sender))]);
            var twice := Exec(s, [Poll(now, alarmId, InProgress), DnsFound(Some(p.sender), later)]);
            forall asked :: asked in {once, twice} ==>
              var s' := Step(asked, Response(p, hw, later));
              && s'.synced && s'.epochSecs == unix && s'.hwRef == hw && !s'.sent
              && s'.armed == {} && s'.asked == s.asked + [p.sender]
  {
    hide Exec, Step;
    var s := Exec(Start(start), es);
    RequestGoesOut(start, es, now, alarmId, p.sender, later);
    AnswerSetsClock(Exec(s, [Poll(now, alarmId, Cached(p.sender))]), p, unix, hw, later);
    AnswerSetsClock(Exec(s, [Poll(now, alarmId, InProgress), DnsFound(Some(p.sender), later)]), p, unix, hw, later);
  }

  /** From an accepted response of Unix second unix at true time h until the next one, whatever else happens,
      the clock reads 1000 * unix plus the time since exactly until the millisecond reading wraps, and does not
      go back before. */
  lemma ClockAfterSync(s: State, p: Packet, unix: nat, h: nat, now: nat, es: seq<Event>, t1: nat, t2: nat)
    requires unix < WRAP32 && Acceptable(s.server, p) && p.seconds == Transmitted(unix)
    requires NoSync(Step(s, Response(p, Ms(h), now)), es)
    requires h <= t1 <= t2 < TIMER_END
    ensures var s' := Exec(Step(s, Response(p, Ms(h), now)), es);
            var c1, c2 := CurrentEpoch(s'.epochSecs, s'.hwRef, Ms(t1)), CurrentEpoch(s'.epochSecs, s'.hwRef, Ms(t2));
            && s'.synced
            && (c1 == 1000 * unix + (t1 - h) <==> t1 / PERIOD == h / PERIOD)
            && (t2 / PERIOD == h / PERIOD ==> c1 <= c2)
  {
    hide CurrentEpoch;
    DecodeAcrossEras(unix);
    CacheStays(Step(s, Response(p, Ms(h), now)), es);
    EpochExact(unix, h, t1);
    EpochExact(unix, h, t2);
    if t2 / PERIOD == h / PERIOD {
      SamePeriod(h, t1, t2);
    }
  }

  lemma SamePeriod(h: nat, t1: nat, t2: nat)
    requires h <= t1 <= t2 && t2 / PERIOD == h / PERIOD
    ensures t1 / PERIOD == h / PERIOD
  {
  }
}
