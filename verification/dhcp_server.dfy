/** The DHCP server: decoding a request, running it on the lease table, and building the reply over the
    request's own option bytes. */
module DhcpServer {
  import opened Bytes
  import opened DhcpOptions
  import opened DhcpLeases

  const DISCOVER: Byte := 1
  const OFFER: Byte := 2
  const REQUEST: Byte := 3
  const ACK: Byte := 5

  const SUBNET_MASK: Byte := 1
  const ROUTER: Byte := 3
  const DNS: Byte := 6
  const REQUESTED_IP: Byte := 50
  const IP_LEASE_TIME: Byte := 51
  const MSG_TYPE: Byte := 53
  const SERVER_ID: Byte := 54

  const BASE_IP := 16
  const LEASE_TIME_S := 86400

  type Ip4 = a: seq<Byte> | |a| == 4 witness [0, 0, 0, 0]

  datatype Reply = Reply(yiaddr: seq<Byte>, options: seq<Byte>)

  /** The options a request must carry in full for the server to read them. */
  ghost predicate Readable(opt: seq<Byte>) {
    && |opt| == OPTIONS_SIZE && Walkable(opt)
    && (var p := FindOpt(opt, MSG_TYPE); p.Some? ==> p.value + 2 < OPTIONS_SIZE)
    && (var p := FindOpt(opt, REQUESTED_IP); p.Some? ==> p.value + 5 < OPTIONS_SIZE)
  }

  /** The event a message stands for, or None when it is ignored unread. */
  function Decode(opt: seq<Byte>, ip: Ip4, mac: Mac, clock: Times, now: nat): Option<Event>
    requires Readable(opt)
  {
    match FindOpt(opt, MSG_TYPE)
    case None => None
    case Some(p) =>
      if opt[p + 2] == DISCOVER then Some(Discover(mac, clock))
      else if opt[p + 2] != REQUEST then None
      else
        match FindOpt(opt, REQUESTED_IP)
        case None => None
        case Some(q) =>
          if opt[q + 2..q + 5] != ip[..3] then None
          else Some(Request(mac, (opt[q + 5] as int - BASE_IP) % 256, now))
  }

  function Tabled(t: Table, e: Option<Event>): Table {
    match e
    case None => t
    case Some(Discover(mac, clock)) => Discovered(t, mac, clock)
    case Some(Request(mac, slot, now)) => Requested(t, mac, slot, now)
  }

  /** The message type and slot of the reply, or None for silence. */
  function Answer(t: Table, e: Option<Event>): Option<(Byte, nat)> {
    match e
    case None => None
    case Some(Discover(mac, clock)) =>
      if Offer(t, mac, clock) < SLOTS then Some((OFFER, Offer(t, mac, clock))) else None
    case Some(Request(mac, slot, now)) =>
      if Grants(t, mac, slot) then Some((ACK, slot)) else None
  }

  function ReplyOptions(kind: Byte, ip: Ip4, nm: Ip4): (os: seq<Opt>)
    ensures OptsOk(os)
  {
    [Opt(MSG_TYPE, [kind]), Opt(SERVER_ID, ip), Opt(SUBNET_MASK, nm), Opt(ROUTER, ip), Opt(DNS, ip),
     Opt(IP_LEASE_TIME, BigEndian(LEASE_TIME_S))]
  }

  function Address(ip: Ip4, slot: nat): seq<Byte>
    requires slot < SLOTS
  {
    ip[..3] + [BASE_IP + slot]
  }

  /** A message as it arrives: the option bytes, the sender, the clock readings of the slot loop and of REQUEST. */
  datatype Message = Message(opt: seq<Byte>, mac: Mac, clock: Times, now: nat)

  ghost predicate AllReadable(ms: seq<Message>) {
    forall i :: 0 <= i < |ms| ==> Readable(ms[i].opt)
  }

  /** What the messages stand for, in order. */
  function Events(ms: seq<Message>, ip: Ip4): seq<Event>
    requires AllReadable(ms)
  {
    if ms == [] then []
    else
      var m := ms[|ms| - 1];
      assert Readable(m.opt);
      Events(ms[..|ms| - 1], ip) +
      match Decode(m.opt, ip, m.mac, m.clock, m.now) { case None => [] case Some(e) => [e] }
  }

  /** What a reply acknowledges, by its own bytes: the message type option stands first, the slot is in yiaddr. */
  function Acknowledged(reply: Option<Reply>, m: Message): seq<Ack> {
    match reply
    case None => []
    case Some(r) =>
      if |r.options| > 2 && r.options[2] == ACK && |r.yiaddr| == 4 && r.yiaddr[3] >= BASE_IP
      then [Ack.Ack(m.now, m.mac, r.yiaddr[3] - BASE_IP)] else []
  }

  lemma AcknowledgedIsAnswer(t: Table, e: Option<Event>, ip: Ip4, nm: Ip4, m: Message)
    requires Answer(t, e).Some? ==> Answer(t, e).value.1 < SLOTS
    requires e.Some? && e.value.Request? ==> e.value.mac == m.mac && e.value.now == m.now
    ensures var a := Answer(t, e);
            && (a.None? ==> Acknowledged(None, m) == [])
            && (a.Some? ==>
                  Acknowledged(Some(Reply(Address(ip, a.value.1), Encode(ReplyOptions(a.value.0, ip, nm)) + [END])), m)
                  == if a.value.0 == ACK then [Ack.Ack(m.now, m.mac, a.value.1)] else [])
  {
    hide Encode;
    var a := Answer(t, e);
    if a.Some? {
      EncodeReply(a.value.0, ip, nm);
    }
  }

  /** reply is the one that answers event e on table t. */
  predicate Replies(reply: Option<Reply>, t: Table, e: Option<Event>, ip: Ip4, nm: Ip4) {
    var a := Answer(t, e);
    if a.None? then reply.None?
    else a.value.1 < SLOTS
         && reply == Some(Reply(Address(ip, a.value.1), Encode(ReplyOptions(a.value.0, ip, nm)) + [END]))
  }

  lemma StepAcks(s: State, e: Event, ip: Ip4, nm: Ip4, m: Message, reply: Option<Reply>)
    requires e.mac == m.mac && (e.Request? ==> e.now == m.now)
    requires Replies(reply, s.table, Some(e), ip, nm)
    ensures Step(s, e).table == Tabled(s.table, Some(e)) && Step(s, e).acks == s.acks + Acknowledged(reply, m)
  {
    hide Encode, Discovered, Offer, Grants, Requested, Acknowledged, Address, ReplyOptions;
    AcknowledgedIsAnswer(s.table, Some(e), ip, nm, m);
    ProcessIsStep(s, e);
  }

  lemma EventsSnoc(ms: seq<Message>, m: Message, ip: Ip4)
    requires AllReadable(ms) && Readable(m.opt)
    ensures AllReadable(ms + [m])
    ensures var e := Decode(m.opt, ip, m.mac, m.clock, m.now);
            && Events(ms + [m], ip) == Events(ms, ip) + (if e.None? then [] else [e.value])
            && (e.Some? ==> e.value.mac == m.mac && (e.value.Request? ==> e.value.now == m.now))
  {
    hide FindOpt, Walkable;
    assert (ms + [m])[..|ms|] == ms;
  }

  /** A message is one step of the run, or none. */
  lemma EventsStep(ms: seq<Message>, m: Message, ip: Ip4, nm: Ip4, reply: Option<Reply>)
    requires AllReadable(ms) && Readable(m.opt)
    requires Replies(reply, Exec(Events(ms, ip)).table, Decode(m.opt, ip, m.mac, m.clock, m.now), ip, nm)
    ensures AllReadable(ms + [m])
    ensures var s, s' := Exec(Events(ms, ip)), Exec(Events(ms + [m], ip));
            && s'.table == Tabled(s.table, Decode(m.opt, ip, m.mac, m.clock, m.now))
            && s'.acks == s.acks + Acknowledged(reply, m)
  {
    hide Encode, Readable, AllReadable, Decode, Events, Step, Tabled;
    var e, es := Decode(m.opt, ip, m.mac, m.clock, m.now), Events(ms, ip);
    EventsSnoc(ms, m, ip);
    if e.Some? {
      assert (es + [e.value])[..|es|] == es;
      StepAcks(Exec(es), e.value, ip, nm, m, reply);
    } else {
      NothingHappens(Exec(es).table, m);
      assert es + [] == es;
    }
  }

  lemma NothingHappens(t: Table, m: Message)
    ensures Answer(t, None) == None && Tabled(t, None) == t && Acknowledged(None, m) == []
  {
  }

  class Server {
    const ip: Ip4
    const nm: Ip4
    const lease: array<Lease>

    ghost predicate Valid() {
      lease.Length == SLOTS
    }

    constructor (ip: Ip4, nm: Ip4)
      ensures Valid() && fresh(lease) && lease[..] == EMPTY
      ensures this.ip == ip && this.nm == nm
    {
      this.ip, this.nm := ip, nm;
      lease := new Lease[SLOTS](_ => FREE);
    }

    /** The DISCOVER loop: one pass over the slots that clears and picks as it goes. */
    method PickSlot(mac: Mac, clock: Times) returns (yi: nat)
      requires Valid()
      modifies lease
      ensures lease[..] == Discovered(old(lease[..]), mac, clock)
      ensures yi == Offer(old(lease[..]), mac, clock)
    {
      ghost var t: Table := lease[..];
      ghost var held, free := HeldBy(t, mac, 0), FirstAvailable(t, clock, 0);
      hide Expired;
      yi := SLOTS;
      var i := 0;
      while i < SLOTS
        invariant i <= held
        invariant yi == if free < i then free else SLOTS
        invariant lease[..] == if free < i && Expired(t[free].expiry, Ticks(clock[free]))
                               then t[free := t[free].(mac := NO_MAC)] else t
      {
        assert free >= i ==> lease[i] == lease[..][i] == t[i];
        assert lease[i].mac == mac <==> held == i by {
          assert lease[i] == lease[..][i];
          assert free < i ==> lease[i] == t[i];
        }
        if lease[i].mac == mac {
          yi := i;
          break;
        }
        if yi == SLOTS {
          assert Available(t, clock, i) <==> free == i;
          if lease[i].mac == NO_MAC {
            yi := i;
          }
          if Expired(lease[i].expiry, Ticks(clock[i])) {
            lease[i] := lease[i].(mac := NO_MAC);
            yi := i;
          }
        }
        i := i + 1;
      }
    }

    /** The REQUEST checks on the lease table. */
    method Grant(mac: Mac, slot: nat, now: nat) returns (ok: bool)
      requires Valid()
      modifies lease
      ensures ok == Grants(old(lease[..]), mac, slot)
      ensures lease[..] == Requested(old(lease[..]), mac, slot, now)
    {
      hide Stamp;
      if slot >= SLOTS {
        return false;
      }
      if lease[slot].mac == mac {
      } else if lease[slot].mac == NO_MAC {
        lease[slot] := lease[slot].(mac := mac);
      } else {
        return false;
      }
      lease[slot] := lease[slot].(expiry := Stamp(Ticks(now)));
      ok := true;
    }

    /** The options of a reply, written over those of the request. */
    method WriteReply(opt: array<Byte>, kind: Byte) returns (len: nat)
      requires opt.Length == OPTIONS_SIZE
      modifies opt
      ensures len <= OPTIONS_SIZE && opt[..len] == Encode(ReplyOptions(kind, ip, nm)) + [END]
    {
      ghost var os := ReplyOptions(kind, ip, nm);
      var at := OptWriteU8(opt, 0, MSG_TYPE, kind);
      assert opt[..at] == [MSG_TYPE, 1] + [kind];
      at := WriteNext(opt, at, SERVER_ID, ip);
      at := WriteNext(opt, at, SUBNET_MASK, nm);
      at := WriteNext(opt, at, ROUTER, ip);
      at := WriteNext(opt, at, DNS, ip);
      ghost var five := opt[..at];
      at := OptWriteU32(opt, at, IP_LEASE_TIME, LEASE_TIME_S);
      assert opt[..at] == five + ([IP_LEASE_TIME, 4] + BigEndian(LEASE_TIME_S));
      opt[at] := END;
      len := at + 1;
      EncodeReply(kind, ip, nm);
    }

    /** One message. The reply, if any, goes to the broadcast address. */
    method Process(opt: array<Byte>, mac: Mac, clock: Times, now: nat) returns (reply: Option<Reply>)
      requires Valid() && Readable(opt[..])
      modifies lease, opt
      ensures var t: Table, e := old(lease[..]), Decode(old(opt[..]), ip, mac, clock, now);
              lease[..] == Tabled(t, e) && Replies(reply, t, e, ip, nm)
    {
      hide Discovered, Offer, Grants, Requested, Encode;
      var msgtype := OptFind(opt, MSG_TYPE);
      if msgtype == None {
        return None;
      }
      var kind: Byte;
      var yi: nat;
      if opt[msgtype.value + 2] == DISCOVER {
        yi := PickSlot(mac, clock);
        if yi == SLOTS {
          return None;
        }
        OfferBelow(old(lease[..]), mac, clock);
        kind := OFFER;
      } else if opt[msgtype.value + 2] == REQUEST {
        var o := OptFind(opt, REQUESTED_IP);
        if o == None {
          return None;
        }
        if opt[o.value + 2..o.value + 5] != ip[..3] {
          return None;
        }
        yi := (opt[o.value + 5] as int - BASE_IP) % 256;
        var ok := Grant(mac, yi, now);
        if !ok {
          return None;
        }
        GrantBelow(old(lease[..]), mac, yi);
        kind := ACK;
      } else {
        return None;
      }
      var len := WriteReply(opt, kind);
      reply := Some(Reply(ip[..3] + [BASE_IP + yi], opt[..len]));
    }
  }

  // ---- The server on the wire ----

  /** The payload of the first option with that code. */
  function PayloadOf(os: seq<Opt>, code: Byte): Option<seq<Byte>> {
    var n := FirstWith(os, code);
    if n == |os| then None else Some(os[n].payload)
  }

  /** The bytes of a reply: type, then server, mask, router and DNS addresses, and a lease of one day in seconds. */
  function ReplyBytes(kind: Byte, ip: Ip4, nm: Ip4): seq<Byte> {
    [53, 1, kind, 54, 4] + ip + [1, 4] + nm + [3, 4] + ip + [6, 4] + ip + [51, 4, 0, 1, 81, 128, 255]
  }

  lemma ReplyIsBytes(kind: Byte, ip: Ip4, nm: Ip4)
    ensures Encode(ReplyOptions(kind, ip, nm)) + [END] == ReplyBytes(kind, ip, nm)
  {
    hide Encode, ReplyOptions;
    EncodeReply(kind, ip, nm);
  }

  /** The slot is open to a client without one. */
  predicate Open(t: Table, clock: Times, i: nat)
    requires i < 8
  {
    t[i].mac == [0, 0, 0, 0, 0, 0] || Expired(t[i].expiry, Ticks(clock[i]))
  }

  /** The client's first slot, or the first open one if it has none. */
  predicate FirstChoice(t: Table, mac: Mac, clock: Times, slot: nat) {
    && slot < 8
    && (if t[slot].mac == mac then forall i :: 0 <= i < slot ==> t[i].mac != mac
        else
          && (forall i :: 0 <= i < 8 ==> t[i].mac != mac)
          && Open(t, clock, slot) && forall i :: 0 <= i < slot ==> !Open(t, clock, i))
  }

  /** A DISCOVER is answered with an offer, and is met with silence exactly when all eight slots are held by others
      and unexpired. */
  ghost predicate DiscoverAnswered(t: Table, mac: Mac, clock: Times, ip: Ip4, nm: Ip4, reply: Option<Reply>) {
    && (reply == None <==> forall i :: 0 <= i < 8 ==> t[i].mac != mac && !Open(t, clock, i))
    && (reply != None ==>
          exists slot :: FirstChoice(t, mac, clock, slot)
            && reply == Some(Reply(ip[..3] + [16 + slot], ReplyBytes(2, ip, nm))))
  }

  /** A REQUEST for an address is acknowledged exactly when it is one of the server's eight and its slot is the
      client's own or free; then the slot is the client's, stamped, and all else stays. */
  ghost predicate RequestAnswered(t: Table, t': Table, mac: Mac, now: nat, asked: Option<seq<Byte>>, ip: Ip4, nm: Ip4,
                                  reply: Option<Reply>)
    requires asked.Some? ==> |asked.value| == 4
  {
    var granted := asked.Some? && asked.value[..3] == ip[..3] && 16 <= asked.value[3] < 24
                   && var owner := t[asked.value[3] - 16].mac; owner == mac || owner == [0, 0, 0, 0, 0, 0];
    if granted then
      && reply == Some(Reply(asked.value, ReplyBytes(5, ip, nm)))
      && t' == t[asked.value[3] - 16 := Lease(mac, Stamp(Ticks(now)))]
    else reply == None && t' == t
  }

  lemma OfferIsFirstChoice(t: Table, mac: Mac, clock: Times)
    ensures var slot := Offer(t, mac, clock);
            if slot == 8 then forall i :: 0 <= i < 8 ==> t[i].mac != mac && !Open(t, clock, i)
            else FirstChoice(t, mac, clock, slot)
  {
    hide Expired;
  }

  lemma FirstChoiceSpeaks(t: Table, mac: Mac, clock: Times, slot: nat)
    requires FirstChoice(t, mac, clock, slot)
    ensures t[slot].mac == mac || Open(t, clock, slot)
  {
  }

  /** What the bytes of a message mean: option 53 is its type, option 50 the address it asks for. */
  lemma WireMeaning(os: seq<Opt>, rest: seq<Byte>, ip: Ip4, mac: Mac, clock: Times, now: nat)
    requires OptsOk(os) && |Encode(os)| + 1 + |rest| == 308
    requires PayloadOf(os, 53).Some? ==> |PayloadOf(os, 53).value| == 1
    requires PayloadOf(os, 50).Some? ==> |PayloadOf(os, 50).value| == 4
    ensures var s, kind, asked := Encode(os) + [255] + rest, PayloadOf(os, 53), PayloadOf(os, 50);
            && Readable(s)
            && var e := Decode(s, ip, mac, clock, now);
               && (kind == Some([1]) ==> e == Some(Discover(mac, clock)))
               && (kind == Some([3]) ==>
                     e == if asked.None? || asked.value[..3] != ip[..3] then None
                          else Some(Request(mac, (asked.value[3] as int - 16) % 256, now)))
               && (kind != Some([1]) && kind != Some([3]) ==> e == None)
  {
    hide FindOpt, Walkable, Encode, FirstWith;
    var s := Encode(os) + [255] + rest;
    FindWritten(os, rest, 53);
    FindWritten(os, rest, 50);
    PayloadFound(s, os, 53);
    PayloadFound(s, os, 50);
    var p, q, kind, asked := FindOpt(s, 53), FindOpt(s, 50), PayloadOf(os, 53), PayloadOf(os, 50);
    if p.Some? {
      assert kind.value == [s[p.value + 2]];
    }
    if q.Some? {
      assert s[q.value + 2..q.value + 5] == asked.value[..3] && s[q.value + 5] == asked.value[3];
    }
  }

  lemma PayloadFound(s: seq<Byte>, os: seq<Opt>, code: Byte)
    requires OptsOk(os) && Walkable(s)
    requires var r, n := FindOpt(s, code), FirstWith(os, code);
             if n == |os| then r == None else r.Some? && EncodeOne(os[n]) <= s[r.value..]
    ensures var r, p := FindOpt(s, code), PayloadOf(os, code);
            && (r.None? <==> p.None?)
            && (p.Some? ==> r.value + 2 + |p.value| <= |s|)
            && (p.Some? ==> forall i :: 0 <= i < |p.value| ==> s[r.value + 2 + i] == p.value[i])
  {
    hide FindOpt, Walkable, FirstWith;
    var r, n := FindOpt(s, code), FirstWith(os, code);
    if n < |os| {
      var e := EncodeOne(os[n]);
      assert forall i :: 0 <= i < |e| ==> s[r.value + i] == s[r.value..][i] == e[i];
      var p := os[n].payload;
      forall i | 0 <= i < |p| ensures s[r.value + 2 + i] == p[i] {
        assert s[r.value..][2 + i] == e[2 + i];
      }
    }
  }

  /** One message as a client sends it, any options in any order closed by 255, and what comes back. */
  method Exchange(server: Server, os: seq<Opt>, rest: seq<Byte>, mac: Mac, clock: Times, now: nat)
    returns (reply: Option<Reply>)
    requires server.Valid() && OptsOk(os) && |Encode(os)| + 1 + |rest| == 308
    requires PayloadOf(os, 53).Some? ==> |PayloadOf(os, 53).value| == 1
    requires PayloadOf(os, 50).Some? ==> |PayloadOf(os, 50).value| == 4
    modifies server.lease
    ensures PayloadOf(os, 53) == Some([1]) ==>
              && DiscoverAnswered(old(server.lease[..]), mac, clock, server.ip, server.nm, reply)
              && server.lease[..] == Discovered(old(server.lease[..]), mac, clock)
    ensures PayloadOf(os, 53) == Some([3]) ==>
              RequestAnswered(old(server.lease[..]), server.lease[..], mac, now, PayloadOf(os, 50),
                              server.ip, server.nm, reply)
    ensures PayloadOf(os, 53) != Some([1]) && PayloadOf(os, 53) != Some([3]) ==>
              reply == None && server.lease[..] == old(server.lease[..])
  {
    hide Encode, Decode, Readable, Replies, Tabled, PayloadOf, RequestAnswered, DiscoverAnswered, Discovered;
    var bytes := Encode(os) + [255] + rest;
    var opt := new Byte[OPTIONS_SIZE](i requires 0 <= i < OPTIONS_SIZE => bytes[i]);
    assert opt[..] == bytes;
    WireMeaning(os, rest, server.ip, mac, clock, now);
    ghost var t: Table, e := server.lease[..], Decode(bytes, server.ip, mac, clock, now);
    reply := server.Process(opt, mac, clock, now);
    ghost var t': Table := server.lease[..];
    if PayloadOf(os, 53) == Some([1]) {
      DiscoverOnWire(t, mac, clock, server.ip, server.nm, reply);
    } else if PayloadOf(os, 53) == Some([3]) {
      RequestOnWire(t, t', e, mac, now, PayloadOf(os, 50), server.ip, server.nm, reply);
    } else {
      SilentOnWire(t, server.ip, server.nm, reply);
    }
  }

  lemma DiscoverOnWire(t: Table, mac: Mac, clock: Times, ip: Ip4, nm: Ip4, reply: Option<Reply>)
    requires Replies(reply, t, Some(Discover(mac, clock)), ip, nm)
    ensures DiscoverAnswered(t, mac, clock, ip, nm, reply)
    ensures Tabled(t, Some(Discover(mac, clock))) == Discovered(t, mac, clock)
  {
    hide Encode, Offer, Discovered, ReplyOptions, ReplyBytes, Open;
    ReplyIsBytes(OFFER, ip, nm);
    OfferIsFirstChoice(t, mac, clock);
    if Offer(t, mac, clock) != 8 {
      FirstChoiceSpeaks(t, mac, clock, Offer(t, mac, clock));
    }
  }

  lemma RequestOnWire(t: Table, t': Table, e: Option<Event>, mac: Mac, now: nat, asked: Option<seq<Byte>>, ip: Ip4,
                      nm: Ip4, reply: Option<Reply>)
    requires asked.Some? ==> |asked.value| == 4
    requires e == if asked.None? || asked.value[..3] != ip[..3] then None
                  else Some(Request(mac, (asked.value[3] as int - 16) % 256, now))
    requires Replies(reply, t, e, ip, nm) && t' == Tabled(t, e)
    ensures RequestAnswered(t, t', mac, now, asked, ip, nm, reply)
  {
    hide Encode, ReplyOptions, ReplyBytes, Stamp;
    ReplyIsBytes(ACK, ip, nm);
    if asked.Some? {
      assert asked.value == asked.value[..3] + [asked.value[3]];
    }
  }

  lemma SilentOnWire(t: Table, ip: Ip4, nm: Ip4, reply: Option<Reply>)
    ensures Replies(reply, t, None, ip, nm) <==> reply == None
    ensures Tabled(t, None) == t
  {
    hide Encode;
  }

  // ---- The life of the server ----

  /** Acknowledgements of one address to two clients. */
  predicate Conflict(a: Ack, b: Ack) {
    a.slot == b.slot && a.mac != b.mac && a.mac != NO_MAC && b.mac != NO_MAC
  }

  /** The life of the server. What its replies acknowledge are the acknowledgements of the run its messages stand
      for, and with clock readings that do not go back two clients are acknowledged for one address only more
      than a day apart. */
  method Serve(server: Server, ms: seq<Message>) returns (acks: seq<Ack>)
    requires server.Valid() && server.lease[..] == EMPTY && AllReadable(ms)
    modifies server.lease
    ensures server.lease[..] == Exec(Events(ms, server.ip)).table
    ensures acks == Exec(Events(ms, server.ip)).acks
    ensures Possible(Events(ms, server.ip)) ==>
              forall i, j :: 0 <= i < j < |acks| && Conflict(acks[i], acks[j]) ==>
                acks[j].time > acks[i].time + 1000 * LEASE_TIME_S
  {
    hide Events, Exec, Decode, Answer, Encode, Acknowledged, Possible, Replies, Tabled;
    acks := [];
    NoEvents(server.ip);
    for n := 0 to |ms|
      invariant AllReadable(ms[..n])
      invariant server.lease[..] == Exec(Events(ms[..n], server.ip)).table
      invariant acks == Exec(Events(ms[..n], server.ip)).acks
    {
      var m := ms[n];
      var opt := new Byte[OPTIONS_SIZE](i requires 0 <= i < OPTIONS_SIZE => m.opt[i]);
      assert opt[..] == m.opt;
      var reply := server.Process(opt, m.mac, m.clock, m.now);
      EventsStep(ms[..n], m, server.ip, server.nm, reply);
      assert ms[..n + 1] == ms[..n] + [m];
      acks := acks + Acknowledged(reply, m);
    }
    assert ms[..|ms|] == ms;
    ghost var es := Events(ms, server.ip);
    if Possible(es) {
      forall i, j | 0 <= i < j < |acks| && Conflict(acks[i], acks[j])
        ensures acks[j].time > acks[i].time + 1000 * LEASE_TIME_S
      {
        Exclusive(es, i, j);
      }
    }
  }

  lemma NoEvents(ip: Ip4)
    ensures Exec(Events([], ip)) == START
  {
  }

  method WriteNext(opt: array<Byte>, at: nat, cmd: Byte, data: Ip4) returns (next: nat)
    requires at + 6 <= opt.Length
    modifies opt
    ensures next == at + 6 && opt[..next] == old(opt[..at]) + ([cmd, 4] + data)
  {
    next := OptWriteN(opt, at, cmd, data);
  }

  lemma OfferBelow(t: Table, mac: Mac, clock: Times)
    ensures Offer(t, mac, clock) <= SLOTS
  {
  }

  lemma GrantBelow(t: Table, mac: Mac, slot: nat)
    ensures Grants(t, mac, slot) ==> slot < SLOTS
  {
  }

  lemma EncodeReply(kind: Byte, ip: Ip4, nm: Ip4)
    ensures Encode(ReplyOptions(kind, ip, nm)) ==
            [MSG_TYPE, 1] + [kind] + ([SERVER_ID, 4] + ip) + ([SUBNET_MASK, 4] + nm) + ([ROUTER, 4] + ip)
            + ([DNS, 4] + ip) + ([IP_LEASE_TIME, 4] + BigEndian(LEASE_TIME_S))
  {
    hide Encode;
    var os := ReplyOptions(kind, ip, nm);
    EncodeNone();
    EncodeAppend([], os[0]);
    EncodeAppend([os[0]], os[1]);
    EncodeAppend([os[0], os[1]], os[2]);
    EncodeAppend([os[0], os[1], os[2]], os[3]);
    EncodeAppend([os[0], os[1], os[2], os[3]], os[4]);
    EncodeAppend([os[0], os[1], os[2], os[3], os[4]], os[5]);
    assert [] + [os[0]] == [os[0]];
    assert os == [os[0], os[1], os[2], os[3], os[4]] + [os[5]];
    assert [os[0], os[1], os[2], os[3], os[4]] == [os[0], os[1], os[2], os[3]] + [os[4]];
    assert [os[0], os[1], os[2], os[3]] == [os[0], os[1], os[2]] + [os[3]];
    assert [os[0], os[1], os[2]] == [os[0], os[1]] + [os[2]];
    assert [os[0], os[1]] == [os[0]] + [os[1]];
  }

  lemma EncodeNone()
    ensures Encode([]) == []
  {
  }

  /** Every reply parses back: the server's own search finds each of its six options with its payload, the
      lease time being one day in seconds, and no requested-address option. */
  lemma ReplyParses(kind: Byte, ip: Ip4, nm: Ip4, rest: seq<Byte>, n: nat)
    requires n < 6
    ensures var os := ReplyOptions(kind, ip, nm);
            var s := Encode(os) + [END] + rest;
            && Walkable(s)
            && FindOpt(s, os[n].code).Some?
            && EncodeOne(os[n]) <= s[FindOpt(s, os[n].code).value..]
            && FindOpt(s, REQUESTED_IP) == None
            && os[5] == Opt(51, [0, 1, 81, 128]) && LEASE_MS == 1000 * LEASE_TIME_S == 86_400_000
  {
    hide Encode, FirstWith, FindOpt, Walkable, ReplyOptions;
    var os := ReplyOptions(kind, ip, nm);
    ReplyCodes(kind, ip, nm, n);
    FindWritten(os, rest, os[n].code);
    FindWritten(os, rest, REQUESTED_IP);
  }

  lemma ReplyCodes(kind: Byte, ip: Ip4, nm: Ip4, n: nat)
    requires n < 6
    ensures var os := ReplyOptions(kind, ip, nm);
            && |os| == 6 && FirstWith(os, os[n].code) == n && FirstWith(os, REQUESTED_IP) == 6
            && os[5] == Opt(51, [0, 1, 81, 128])
  {
    hide FirstWith;
    var os := ReplyOptions(kind, ip, nm);
    assert os[0].code == MSG_TYPE && os[1].code == SERVER_ID && os[2].code == SUBNET_MASK;
    assert os[3].code == ROUTER && os[4].code == DNS && os[5].code == IP_LEASE_TIME;
  }

  /** What Process does to the table and whether it acknowledges is a step of the runs the lease guarantees
      are about. */
  lemma ProcessIsStep(s: State, e: Event)
    ensures Step(s, e).table == Tabled(s.table, Some(e))
    ensures Step(s, e).acks ==
            match Answer(s.table, Some(e))
            case Some((kind, slot)) =>
              if kind == ACK then s.acks + [DhcpLeases.Ack.Ack(e.now, e.mac, slot)] else s.acks
            case None => s.acks
  {
  }

  /** An acknowledged address is the address asked for. */
  lemma AckedIsRequested(opt: seq<Byte>, ip: Ip4, mac: Mac, clock: Times, now: nat, t: Table)
    requires Readable(opt)
    requires var a := Answer(t, Decode(opt, ip, mac, clock, now)); a.Some? && a.value.0 == ACK
    ensures var a := Answer(t, Decode(opt, ip, mac, clock, now)).value;
            var q := FindOpt(opt, REQUESTED_IP);
            a.1 < SLOTS && q.Some? && Address(ip, a.1) == opt[q.value + 2..q.value + 6]
  {
    hide FindOpt, Walkable;
    var q := FindOpt(opt, REQUESTED_IP);
    var slot := Answer(t, Decode(opt, ip, mac, clock, now)).value.1;
    assert opt[q.value + 2..q.value + 6] == opt[q.value + 2..q.value + 5] + [opt[q.value + 5]];
    assert opt[q.value + 5] == BASE_IP + slot;
  }
}
