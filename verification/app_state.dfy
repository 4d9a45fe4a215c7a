/** The boot and run state machine, with its handlers as guarded steps and timer, provisioning, reset,
    logging and NTP events arriving at any point between steps. */
module AppState {
  import opened Bytes
  import opened ContextStrings

  datatype LoopState =
    | FlashInit | WifiConfig | FlashWrite | MqttInit | SenseInit | NtpSync
    | MqttPublish | MqttListen | BattListen | SenseListen | LogDump | Throttle

  datatype Ntp = Unallocated | Unsynced | Synced

  /** The flags of the context, grouped by what they are about. */
  datatype Creds = Creds(flashInitd: bool, wifiConfigd: bool, flashWritten: bool)
  datatype Link = Link(mqttInitd: bool, senseInitd: bool, ntpSyncd: bool, mqttClient: bool)
  datatype Pending = Pending(setPublish: bool, reset: bool, dumpLogs: bool)

  datatype Ctx = Ctx(loopState: LoopState, creds: Creds, link: Link, ntp: Ntp, pending: Pending)

  const BOOT := Ctx(FlashInit, Creds(false, false, false), Link(false, false, false, false), Unallocated,
                    Pending(false, false, false))

  // ---- update_state ----

  function Next(c: Ctx): LoopState {
    match c.loopState
    case FlashInit => if c.creds.flashInitd then (if c.creds.wifiConfigd then MqttInit else WifiConfig) else FlashInit
    case WifiConfig => if c.creds.wifiConfigd then FlashWrite else WifiConfig
    case FlashWrite => if c.creds.flashWritten then MqttInit else FlashWrite
    case MqttInit => if c.link.mqttInitd then SenseInit else MqttInit
    case SenseInit => if c.link.senseInitd then NtpSync else SenseInit
    case NtpSync => if c.link.ntpSyncd then MqttPublish else NtpSync
    case MqttPublish => MqttListen
    case MqttListen => BattListen
    case BattListen => SenseListen
    case SenseListen => LogDump
    case LogDump => Throttle
    case Throttle => MqttListen
  }

  predicate Online(c: Ctx) {
    c.creds.wifiConfigd && c.link.senseInitd && c.link.mqttInitd && c.link.ntpSyncd
  }

  function AfterReset(c: Ctx): Ctx {
    if c.pending.reset
    then c.(loopState := WifiConfig, creds := c.creds.(wifiConfigd := false),
            link := c.link.(mqttInitd := false, ntpSyncd := false), pending := c.pending.(reset := false))
    else c
  }

  function AfterPublish(c: Ctx): Ctx {
    if c.pending.setPublish && Online(c)
    then c.(loopState := MqttPublish, pending := c.pending.(setPublish := false))
    else c
  }

  function AfterDump(c: Ctx): Ctx {
    if c.pending.dumpLogs && Online(c)
    then c.(loopState := LogDump, pending := c.pending.(dumpLogs := false))
    else c
  }

  function Update(c: Ctx): Ctx {
    AfterDump(AfterPublish(AfterReset(c.(loopState := Next(c)))))
  }

  class AppCtx {
    var loopState: LoopState
    var setPublish: bool
    var flashInitd: bool
    var wifiConfigd: bool
    var flashWritten: bool
    var mqttInitd: bool
    var senseInitd: bool
    var ntpSyncd: bool
    var mqttClient: bool
    var ntp: Ntp
    var reset: bool
    var dumpLogs: bool
    /** wifi_ssid, wifi_pass, prv_token and hub_loc. */
    const mem: array<Byte>

    function Snapshot(): Ctx
      reads this
    {
      Ctx(loopState, Creds(flashInitd, wifiConfigd, flashWritten), Link(mqttInitd, senseInitd, ntpSyncd, mqttClient),
          ntp, Pending(setPublish, reset, dumpLogs))
    }

    ghost predicate Fields() {
      mem.Length == CTX_SIZE
    }

    /** The zeroed context with the location of the hub. */
    constructor (hubLoc: seq<Byte>)
      requires NulFree(hubLoc) && |hubLoc| < 64
      ensures Fields() && fresh(mem) && Hub(mem[..]) == hubLoc && Terminated(mem[TOKEN_AT..])
      ensures Snapshot() == BOOT
    {
      loopState := FlashInit;
      setPublish, flashInitd, wifiConfigd, flashWritten := false, false, false, false;
      mqttInitd, senseInitd, ntpSyncd, mqttClient := false, false, false, false;
      ntp := Unallocated;
      reset, dumpLogs := false, false;
      mem := new Byte[CTX_SIZE](_ => 0);
      new;
      forall i | 0 <= i < |hubLoc| {
        mem[HUB_AT + i] := hubLoc[i];
      }
      ViewIs(mem[..], HUB_AT, hubLoc);
      ScanToIs(mem[TOKEN_AT..], NUL, 0, 0);
    }

    /** The switch at the head of update_state. */
    method Switch()
      modifies this`loopState
      ensures loopState == Next(old(Snapshot()))
    {
      match loopState {
        case FlashInit =>
          if flashInitd {
            if wifiConfigd { loopState := MqttInit; } else { loopState := WifiConfig; }
          }
        case WifiConfig => if wifiConfigd { loopState := FlashWrite; }
        case FlashWrite => if flashWritten { loopState := MqttInit; }
        case MqttInit => if mqttInitd { loopState := SenseInit; }
        case SenseInit => if senseInitd { loopState := NtpSync; }
        case NtpSync => if ntpSyncd { loopState := MqttPublish; }
        case MqttPublish => loopState := MqttListen;
        case MqttListen => loopState := BattListen;
        case BattListen => loopState := SenseListen;
        case SenseListen => loopState := LogDump;
        case LogDump => loopState := Throttle;
        case Throttle => loopState := MqttListen;
      }
    }

    /** The reset override. */
    method TakeReset()
      modifies this
      ensures Snapshot() == AfterReset(old(Snapshot()))
    {
      if reset {
        wifiConfigd := false;
        mqttInitd := false;
        ntpSyncd := false;
        loopState := WifiConfig;
        reset := false;
      }
    }

    /** The publish override. */
    method TakePublish()
      modifies this
      ensures Snapshot() == AfterPublish(old(Snapshot()))
    {
      if setPublish && wifiConfigd && senseInitd && mqttInitd && ntpSyncd {
        loopState := MqttPublish;
        setPublish := false;
      }
    }

    /** The log dump override. */
    method TakeDump()
      modifies this
      ensures Snapshot() == AfterDump(old(Snapshot()))
    {
      if dumpLogs && wifiConfigd && senseInitd && mqttInitd && ntpSyncd {
        loopState := LogDump;
        dumpLogs := false;
      }
    }

    method UpdateState()
      modifies this
      ensures Snapshot() == Update(old(Snapshot()))
    {
      hide Next, AfterReset, AfterPublish, AfterDump;
      Switch();
      TakeReset();
      TakePublish();
      TakeDump();
    }
  }

  // ---- Handlers and events ----

  /** How a handler ends. Partial is the path that stops half way: flash_init finding no stored
      credentials, mqtt_init failing after the client was allocated. */
  datatype Result = Fails | Partial | Succeeds

  function Handle(c: Ctx, r: Result): Ctx {
    match c.loopState
    case FlashInit =>
      (match r
       case Fails => c
       case Partial => c.(creds := c.creds.(flashInitd := true))
       case Succeeds => c.(creds := Creds(true, true, true)))
    case FlashWrite => if r == Succeeds then c.(creds := c.creds.(flashWritten := true)) else c
    case MqttInit =>
      if !c.creds.wifiConfigd || r == Fails then c
      else if r == Partial then c.(link := c.link.(mqttClient := true))
      else c.(link := c.link.(mqttClient := true, mqttInitd := true))
    case SenseInit => if r == Succeeds then c.(link := c.link.(senseInitd := true)) else c
    case NtpSync => HandleNtp(c, r)
    case _ => c
  }

  /** ntp_sync_handler: allocate the client if need be, then look whether it has synced. */
  function HandleNtp(c: Ctx, r: Result): Ctx {
    match c.ntp
    case Unallocated => if r == Fails then c else c.(ntp := Unsynced)
    case Unsynced => c
    case Synced => c.(link := c.link.(ntpSyncd := true))
  }

  datatype Event = Run(result: Result) | Updated | Timer | Provisioned | ResetPressed | LogsFilling | NtpAnswered

  function Step(c: Ctx, e: Event): Ctx {
    match e
    case Run(r) => Handle(c, r)
    case Updated => Update(c)
    case Timer => if c.link.mqttInitd then c.(pending := c.pending.(setPublish := true)) else c
    case Provisioned => c.(creds := c.creds.(wifiConfigd := true))
    case ResetPressed => c.(pending := c.pending.(reset := true))
    case LogsFilling => c.(pending := c.pending.(dumpLogs := true))
    case NtpAnswered => if c.ntp == Unallocated then c else c.(ntp := Synced)
  }

  function Exec(c: Ctx, es: seq<Event>): Ctx {
    if es == [] then c else Step(Exec(c, es[..|es| - 1]), es[|es| - 1])
  }

  // ---- Readiness ----

  function Phase(s: LoopState): (p: nat)
    ensures p <= 6
  {
    match s
    case FlashInit => 0
    case WifiConfig => 1
    case FlashWrite => 2
    case MqttInit => 3
    case SenseInit => 4
    case NtpSync => 5
    case _ => 6
  }

  predicate Ready(c: Ctx) {
    && (Phase(c.loopState) >= 2 ==> c.creds.wifiConfigd)
    && (Phase(c.loopState) <= 2 ==> !c.link.mqttInitd)
    && (Phase(c.loopState) >= 4 ==> c.link.mqttInitd)
    && (Phase(c.loopState) >= 5 ==> c.link.senseInitd)
    && (Phase(c.loopState) >= 6 ==> c.link.ntpSyncd)
    && (c.link.mqttInitd ==> c.link.mqttClient && c.creds.wifiConfigd)
    && (c.link.ntpSyncd ==> c.ntp == Synced && Phase(c.loopState) >= 5)
  }

  /** In every run, whatever fails and whatever arrives in between, a state that needs a subsystem is only
      entered with it: publishing, listening and dumping logs with wifi, MQTT client, sensor and clock. */
  lemma {:induction false} RunsStayReady(es: seq<Event>)
    ensures Ready(Exec(BOOT, es))
  {
    if es != [] {
      RunsStayReady(es[..|es| - 1]);
      StepStaysReady(Exec(BOOT, es[..|es| - 1]), es[|es| - 1]);
    }
  }

  lemma StepStaysReady(c: Ctx, e: Event)
    requires Ready(c)
    ensures Ready(Step(c, e))
  {
    match e
    case Updated => UpdateStaysReady(c);
    case Run(r) => HandleStaysReady(c, r);
    case _ =>
  }

  lemma HandleStaysReady(c: Ctx, r: Result)
    requires Ready(c)
    ensures Ready(Handle(c, r))
    ensures Handle(c, r).loopState == c.loopState && Handle(c, r).pending == c.pending
  {
  }

  lemma UpdateStaysReady(c: Ctx)
    requires Ready(c)
    ensures Ready(Update(c))
    ensures !c.pending.reset ==> !Update(c).pending.reset && (Phase(c.loopState) <= Phase(Update(c).loopState))
  {
    var c1 := c.(loopState := Next(c));
    assert Ready(c1) && Phase(c.loopState) <= Phase(c1.loopState);
    var c2 := AfterReset(c1);
    assert Ready(c2);
    assert Ready(AfterPublish(c2));
  }

  lemma SteadyIsOnline(es: seq<Event>)
    ensures var c := Exec(BOOT, es);
            && (Phase(c.loopState) == 6 ==> Online(c) && c.link.mqttClient && c.ntp == Synced)
            && (c.loopState == MqttInit ==> c.creds.wifiConfigd)
  {
    RunsStayReady(es);
  }

  predicate BringsCredentials(before: Ctx, e: Event) {
    e == Provisioned || (e == Run(Succeeds) && before.loopState == FlashInit)
  }

  lemma StepWithoutCredentials(c: Ctx, e: Event)
    requires Ready(c) && !c.creds.wifiConfigd && Phase(c.loopState) < 2 && !BringsCredentials(c, e)
    ensures !Step(c, e).creds.wifiConfigd && Phase(Step(c, e).loopState) < 2
  {
  }

  /** Until credentials are provisioned or found in flash, no run leaves the first two states. */
  lemma {:induction false} NoCredentialsNoConnection(es: seq<Event>)
    requires forall i :: 0 <= i < |es| ==> !BringsCredentials(Exec(BOOT, es[..i]), es[i])
    ensures var c := Exec(BOOT, es);
            !c.creds.wifiConfigd && Phase(c.loopState) < 2
  {
    hide Step, BringsCredentials;
    if es != [] {
      var before := es[..|es| - 1];
      forall i | 0 <= i < |before| ensures !BringsCredentials(Exec(BOOT, before[..i]), before[i]) {
        assert before[..i] == es[..i] && before[i] == es[i];
      }
      NoCredentialsNoConnection(before);
      RunsStayReady(before);
      StepWithoutCredentials(Exec(BOOT, before), es[|es| - 1]);
    }
  }

  // ---- Boot makes progress ----

  /** How many times a run has changed state before it first reached the steady loop. */
  function BootChanges(es: seq<Event>): nat {
    if es == [] then 0
    else
      var before := Exec(BOOT, es[..|es| - 1]);
      BootChanges(es[..|es| - 1]) +
      if Phase(before.loopState) < 6 && Exec(BOOT, es).loopState != before.loopState then 1 else 0
  }

  /** Boot ends in NTP_SYNC and nowhere else, in every run, resets included: the steady loop is entered at
      MQTT_PUBLISH exactly when no log dump is pending, and at LOGDUMP otherwise. */
  lemma BootEndsAt(es: seq<Event>, e: Event)
    requires Phase(Exec(BOOT, es).loopState) < 6 && Phase(Step(Exec(BOOT, es), e).loopState) == 6
    ensures var before := Exec(BOOT, es);
            && before.loopState == NtpSync
            && Step(before, e).loopState == if before.pending.dumpLogs then LogDump else MqttPublish
  {
    hide Step, Ready;
    RunsStayReady(es);
    StepEndsBoot(Exec(BOOT, es), e);
  }

  lemma StepEndsBoot(c: Ctx, e: Event)
    requires Ready(c) && Phase(c.loopState) < 6 && Phase(Step(c, e).loopState) == 6
    ensures c.loopState == NtpSync
    ensures Step(c, e).loopState == if c.pending.dumpLogs then LogDump else MqttPublish
  {
    match e
    case Updated =>
    case Run(r) => HandleStaysReady(c, r);
    case _ =>
  }

  predicate NoReset(es: seq<Event>) {
    forall i :: 0 <= i < |es| ==> es[i] != ResetPressed
  }

  /** Without a reset, boot never goes back, takes at most six state changes, and the steady loop is never
      left again. */
  lemma {:induction false} BootMovesForward(es: seq<Event>)
    requires NoReset(es)
    ensures var c := Exec(BOOT, es);
            && !c.pending.reset
            && BootChanges(es) <= Phase(c.loopState) <= 6
            && (es != [] ==> Phase(Exec(BOOT, es[..|es| - 1]).loopState) <= Phase(c.loopState))
  {
    hide Step, Ready, Phase;
    if es != [] {
      var before := es[..|es| - 1];
      BootMovesForward(before);
      RunsStayReady(before);
      StepMovesForward(Exec(BOOT, before), es[|es| - 1]);
    }
  }

  lemma StepMovesForward(c: Ctx, e: Event)
    requires Ready(c) && !c.pending.reset && e != ResetPressed
    ensures !Step(c, e).pending.reset && Phase(c.loopState) <= Phase(Step(c, e).loopState) <= 6
    ensures Step(c, e).loopState != c.loopState && Phase(c.loopState) < 6 ==>
              Phase(c.loopState) < Phase(Step(c, e).loopState)
  {
    match e
    case Updated => UpdateStaysReady(c);
    case Run(r) => HandleStaysReady(c, r);
    case _ =>
  }

  /** What has to happen in a boot state for it to be left: rounds of the main loop, a handler and then
      update_state, with the user's or the time server's answer where it is awaited. */
  function Push(c: Ctx): seq<Event> {
    match c.loopState
    case WifiConfig => [Provisioned, Run(Succeeds), Updated]
    case NtpSync => [Run(Succeeds), Updated, NtpAnswered, Run(Succeeds), Updated]
    case _ => [Run(Succeeds), Updated]
  }

  lemma {:induction false} ExecConcat(c: Ctx, a: seq<Event>, b: seq<Event>)
    ensures Exec(c, a + b) == Exec(Exec(c, a), b)
  {
    hide Step;
    if b == [] {
      assert a + b == a;
    } else {
      ExecConcat(c, a, b[..|b| - 1]);
      assert (a + b)[..|a + b| - 1] == a + b[..|b| - 1];
    }
  }

  /** No boot state is a dead end, after any history, resets included: from every reachable boot state with no
      reset pending, a round of the main loop in which the handler succeeds (two around the server's answer in
      NTP_SYNC) enters a later one. */
  lemma NoDeadEnd(es: seq<Event>)
    requires !Exec(BOOT, es).pending.reset
    requires Phase(Exec(BOOT, es).loopState) < 6
    ensures var c := Exec(BOOT, es);
            Phase(Exec(c, Push(c)).loopState) > Phase(c.loopState)
  {
    RunsStayReady(es);
    PushMoves(Exec(BOOT, es));
  }

  lemma PushMoves(c: Ctx)
    requires Ready(c) && !c.pending.reset && Phase(c.loopState) < 6
    ensures Phase(Exec(c, Push(c)).loopState) > Phase(c.loopState)
  {
    hide Exec, Update, Online;
    var push := Push(c);
    if c.loopState == NtpSync {
      ExecThree(c, push[..3]);
      ExecTwo(Exec(c, push[..3]), push[3..]);
      ExecConcat(c, push[..3], push[3..]);
      assert push[..3] + push[3..] == push;
      ClockArrives(c);
    } else if c.loopState == WifiConfig {
      ExecThree(c, push);
      UpdateEnters(Step(Step(c, push[0]), push[1]));
    } else {
      ExecTwo(c, push);
      UpdateEnters(Step(c, push[0]));
    }
  }

  /** The two rounds of NTP_SYNC: the first allocates the client, the second finds it synced. */
  lemma ClockArrives(c: Ctx)
    requires Ready(c) && !c.pending.reset && c.loopState == NtpSync
    ensures var c3 := Step(Step(Step(c, Run(Succeeds)), Updated), NtpAnswered);
            Phase(Step(Step(c3, Run(Succeeds)), Updated).loopState) == 6
  {
    hide Step;
    var c1 := Step(c, Run(Succeeds));
    var c2 := Step(c1, Updated);
    var c3 := Step(c2, NtpAnswered);
    var c4 := Step(c3, Run(Succeeds));
    StepStaysReady(c, Run(Succeeds));
    StepMovesForward(c, Run(Succeeds));
    StepStaysReady(c1, Updated);
    StepMovesForward(c1, Updated);
    StepStaysReady(c2, NtpAnswered);
    StepMovesForward(c2, NtpAnswered);
    StepStaysReady(c3, Run(Succeeds));
    StepMovesForward(c3, Run(Succeeds));
    StepMovesForward(c4, Updated);
    ClockStays(c);
    if Phase(c4.loopState) < 6 {
      UpdateEnters(c4);
    }
  }

  lemma ClockStays(c: Ctx)
    requires c.loopState == NtpSync
    ensures var c1 := Step(c, Run(Succeeds));
            var c2 := Step(c1, Updated);
            var c3 := Step(c2, NtpAnswered);
            c1.ntp != Unallocated && c2.ntp == c1.ntp && c3.ntp == Synced && c3.loopState == c2.loopState
            && (c3.loopState == NtpSync ==> Step(c3, Run(Succeeds)).link.ntpSyncd)
            && Step(c3, Run(Succeeds)).loopState == c3.loopState
  {
    UpdateKeepsClock(Step(c, Run(Succeeds)));
    hide Update;
  }

  lemma UpdateKeepsClock(c: Ctx)
    ensures Update(c).ntp == c.ntp
  {
    hide Next, Online;
  }

  lemma UpdateEnters(c: Ctx)
    requires !c.pending.reset
    ensures Phase(Step(c, Updated).loopState) >= Phase(Next(c))
  {
  }

  lemma ExecTwo(c: Ctx, es: seq<Event>)
    requires |es| == 2
    ensures Exec(c, es) == Step(Step(c, es[0]), es[1])
  {
    hide Step;
    assert es[..1][..0] == [];
    assert Exec(c, es[..1]) == Step(c, es[0]);
  }

  lemma ExecThree(c: Ctx, es: seq<Event>)
    requires |es| == 3
    ensures Exec(c, es) == Step(Step(Step(c, es[0]), es[1]), es[2])
  {
    hide Step;
    ExecTwo(c, es[..2]);
  }

  /** After a reset no run leaves WIFI_CONFIG until credentials are provisioned again: nothing pending, and no
      handler, can bring back the old connection. */
  lemma {:induction false} ResetDemandsProvisioning(before: seq<Event>, es: seq<Event>)
    requires Exec(BOOT, before).pending.reset
    requires forall i :: 0 <= i < |es| ==> es[i] != Provisioned
    ensures var c := Exec(Step(Exec(BOOT, before), Updated), es);
            c.loopState == WifiConfig && !c.creds.wifiConfigd
  {
    hide Next;
    if es != [] {
      ResetDemandsProvisioning(before, es[..|es| - 1]);
      StaysUnconfigured(Exec(Step(Exec(BOOT, before), Updated), es[..|es| - 1]), es[|es| - 1]);
    }
  }

  lemma StaysUnconfigured(c: Ctx, e: Event)
    requires c.loopState == WifiConfig && !c.creds.wifiConfigd && e != Provisioned
    ensures Step(c, e).loopState == WifiConfig && !Step(c, e).creds.wifiConfigd
  {
  }

  /** A pending publish is taken as soon as the device is online, but it is honoured exactly when no log dump
      is pending as well: the dump overrides it and the request is gone. */
  lemma PublishLostToDump(c: Ctx)
    requires Online(c) && c.pending.setPublish && !c.pending.reset
    ensures !Update(c).pending.setPublish
    ensures Update(c).loopState == if c.pending.dumpLogs then LogDump else MqttPublish
  {
    hide Next;
  }

  // ---- The order of the states ----

  /** The boot states in the order in which a run enters them. */
  function BootTrace(es: seq<Event>): (t: seq<LoopState>)
    ensures t != []
  {
    if es == [] then [FlashInit]
    else
      var t, s := BootTrace(es[..|es| - 1]), Exec(BOOT, es).loopState;
      if s == t[|t| - 1] || s in [MqttPublish, MqttListen, BattListen, SenseListen, LogDump, Throttle] then t
      else t + [s]
  }

  /** A boot with credentials to ask for, and one with credentials in flash. */
  const PROVISIONING_PATH: seq<LoopState> := [FlashInit, WifiConfig, FlashWrite, MqttInit, SenseInit, NtpSync]
  const RESTORING_PATH: seq<LoopState> := [FlashInit, MqttInit, SenseInit, NtpSync]

  /** How far along one of the two paths the trace t is, in state s. */
  predicate OnPath(s: LoopState, t: seq<LoopState>) {
    match s
    case FlashInit => t == [FlashInit]
    case WifiConfig => t == PROVISIONING_PATH[..2]
    case FlashWrite => t == PROVISIONING_PATH[..3]
    case MqttInit => t == PROVISIONING_PATH[..4] || t == RESTORING_PATH[..2]
    case SenseInit => t == PROVISIONING_PATH[..5] || t == RESTORING_PATH[..3]
    case _ => t == PROVISIONING_PATH || t == RESTORING_PATH
  }

  /** Without a reset every boot visits its states in one of two orders and leaves none out: new credentials are
      always written to flash before the broker is asked, and no state is entered before those in front of it. */
  lemma {:induction false} BootPath(es: seq<Event>)
    requires NoReset(es)
    ensures OnPath(Exec(BOOT, es).loopState, BootTrace(es))
  {
    hide Step, Ready, OnPath, PROVISIONING_PATH, RESTORING_PATH;
    if es == [] {
      PathStarts();
    } else {
      var before := es[..|es| - 1];
      BootPath(before);
      BootMovesForward(before);
      RunsStayReady(before);
      StepFollows(Exec(BOOT, before), es[|es| - 1]);
      PathGrows(Exec(BOOT, before).loopState, Exec(BOOT, es).loopState, BootTrace(before));
    }
  }

  lemma PathStarts()
    ensures OnPath(FlashInit, [FlashInit])
  {
  }

  /** The states that may follow s without a reset. */
  predicate Follows(s: LoopState, s': LoopState) {
    s' == s ||
    match s
    case FlashInit => s' in [WifiConfig, MqttInit]
    case WifiConfig => s' == FlashWrite
    case FlashWrite => s' == MqttInit
    case MqttInit => s' == SenseInit
    case SenseInit => s' == NtpSync
    case _ => s' in [MqttPublish, MqttListen, BattListen, SenseListen, LogDump, Throttle]
  }

  lemma StepFollows(c: Ctx, e: Event)
    requires Ready(c) && !c.pending.reset
    ensures Follows(c.loopState, Step(c, e).loopState)
  {
    match e
    case Updated => UpdateFollows(c);
    case Run(r) => HandleStaysReady(c, r);
    case _ =>
  }

  lemma UpdateFollows(c: Ctx)
    requires Ready(c) && !c.pending.reset
    ensures Follows(c.loopState, Update(c).loopState)
  {
  }

  lemma PathGrows(s: LoopState, s': LoopState, t: seq<LoopState>)
    requires OnPath(s, t) && t != [] && Follows(s, s')
    ensures var steady := s' in [MqttPublish, MqttListen, BattListen, SenseListen, LogDump, Throttle];
            OnPath(s', if s' == t[|t| - 1] || steady then t else t + [s'])
  {
  }

  // ---- What the flags stand for ----

  /** Event e happened in state s. */
  ghost predicate Happened(es: seq<Event>, s: LoopState, e: Event) {
    exists i :: 0 <= i < |es| && Exec(BOOT, es[..i]).loopState == s && es[i] == e
  }

  lemma HappenedBefore(es: seq<Event>, n: nat, s: LoopState, e: Event)
    requires n < |es| && Happened(es[..n], s, e)
    ensures Happened(es, s, e)
  {
    hide Exec;
    var i :| 0 <= i < n && Exec(BOOT, es[..n][..i]).loopState == s && es[..n][i] == e;
    assert es[..n][..i] == es[..i];
  }

  lemma HappenedSplits(es: seq<Event>, s: LoopState, e: Event)
    requires es != []
    ensures var n := |es| - 1;
            Happened(es, s, e) <==> Happened(es[..n], s, e) || (Exec(BOOT, es[..n]).loopState == s && es[n] == e)
  {
    hide Exec;
    var n := |es| - 1;
    if Happened(es, s, e) {
      var i :| 0 <= i < |es| && Exec(BOOT, es[..i]).loopState == s && es[i] == e;
      if i < n {
        assert es[..n][..i] == es[..i] && es[..n][i] == e;
      }
    }
    if Happened(es[..n], s, e) {
      HappenedBefore(es, n, s, e);
    }
  }

  /** A handler of state s has done its work, all of it or the first half. */
  ghost predicate Done(es: seq<Event>, s: LoopState) {
    Happened(es, s, Run(Succeeds))
  }

  ghost predicate Begun(es: seq<Event>, s: LoopState) {
    Happened(es, s, Run(Succeeds)) || Happened(es, s, Run(Partial))
  }

  /** What each flag stands for, over every run: exactly a handler that did its work in its own state, in this life
      of the device. The three that a reset clears stand for no more than that. */
  lemma {:induction false} FlagsAreEarned(es: seq<Event>)
    ensures var c := Exec(BOOT, es);
            && (c.creds.flashInitd <==> Begun(es, FlashInit))
            && (c.creds.flashWritten <==> Done(es, FlashWrite) || Done(es, FlashInit))
            && (c.link.mqttClient <==> Begun(es, MqttInit))
            && (c.link.senseInitd <==> Done(es, SenseInit))
            && (c.ntp != Unallocated <==> Begun(es, NtpSync))
            && (c.link.mqttInitd ==> Done(es, MqttInit))
            && (c.ntp == Synced ==> NtpAnswered in es)
            && (c.creds.wifiConfigd ==> Provisioned in es || Done(es, FlashInit))
  {
    hide Step, Happened;
    if es == [] {
      NothingHappened();
    } else {
      var n := |es| - 1;
      FlagsAreEarned(es[..n]);
      RunsStayReady(es[..n]);
      StepEarns(Exec(BOOT, es[..n]), es[n]);
      StepEarnsForGood(Exec(BOOT, es[..n]), es[n]);
      forall s: LoopState, e: Event
        ensures Happened(es, s, e) <==> Happened(es[..n], s, e) || (Exec(BOOT, es[..n]).loopState == s && es[n] == e)
      {
        HappenedSplits(es, s, e);
      }
    }
  }

  lemma NothingHappened()
    ensures forall s: LoopState, e: Event :: !Happened([], s, e)
  {
  }

  lemma StepEarns(c: Ctx, e: Event)
    ensures var c' := Step(c, e);
            && (c'.link.mqttInitd ==> c.link.mqttInitd || (c.loopState == MqttInit && e == Run(Succeeds)))
            && (c'.ntp == Synced ==> c.ntp == Synced || e == NtpAnswered)
            && (c'.creds.wifiConfigd ==>
                  c.creds.wifiConfigd || e == Provisioned || (c.loopState == FlashInit && e == Run(Succeeds)))
  {
    hide Next, Online;
  }

  lemma StepEarnsForGood(c: Ctx, e: Event)
    requires Ready(c)
    ensures var c', did, half := Step(c, e), e == Run(Succeeds), e == Run(Partial);
            && (c'.creds.flashInitd <==> c.creds.flashInitd || (c.loopState == FlashInit && (did || half)))
            && (c'.creds.flashWritten <==>
                  c.creds.flashWritten || (c.loopState == FlashWrite && did) || (c.loopState == FlashInit && did))
            && (c'.link.mqttClient <==> c.link.mqttClient || (c.loopState == MqttInit && (did || half)))
            && (c'.link.senseInitd <==> c.link.senseInitd || (c.loopState == SenseInit && did))
            && (c'.ntp != Unallocated <==> c.ntp != Unallocated || (c.loopState == NtpSync && (did || half)))
  {
    hide Next, Online, Ready;
    match e
    case Updated => UpdateKeepsForGood(c);
    case Run(r) => HandleEarns(c, r);
    case _ =>
  }

  lemma UpdateKeepsForGood(c: Ctx)
    ensures var c' := Update(c);
            && c'.creds.flashInitd == c.creds.flashInitd && c'.creds.flashWritten == c.creds.flashWritten
            && c'.link.mqttClient == c.link.mqttClient && c'.link.senseInitd == c.link.senseInitd && c'.ntp == c.ntp
  {
    hide Next, Online;
  }

  lemma HandleEarns(c: Ctx, r: Result)
    requires Ready(c)
    ensures var c', did, half := Handle(c, r), r == Succeeds, r == Partial;
            && (c'.creds.flashInitd <==> c.creds.flashInitd || (c.loopState == FlashInit && (did || half)))
            && (c'.creds.flashWritten <==>
                  c.creds.flashWritten || (c.loopState == FlashWrite && did) || (c.loopState == FlashInit && did))
            && (c'.link.mqttClient <==> c.link.mqttClient || (c.loopState == MqttInit && (did || half)))
            && (c'.link.senseInitd <==> c.link.senseInitd || (c.loopState == SenseInit && did))
            && (c'.ntp != Unallocated <==> c.ntp != Unallocated || (c.loopState == NtpSync && (did || half)))
  {
  }

  /** A device that finds no stored credentials asks for them: one round in which flash_init stops half way leads
      from FLASH_INIT to WIFI_CONFIG, one in which it fails changes nothing. */
  lemma FirstRoundAsks()
    ensures Exec(BOOT, [Run(Partial), Updated]).loopState == WifiConfig
    ensures Exec(BOOT, [Run(Succeeds), Updated]).loopState == MqttInit
    ensures Exec(BOOT, [Run(Fails), Updated]) == BOOT
  {
    hide Exec;
    ExecTwo(BOOT, [Run(Partial), Updated]);
    ExecTwo(BOOT, [Run(Succeeds), Updated]);
    ExecTwo(BOOT, [Run(Fails), Updated]);
  }

  // ---- The steady loop ----

  const CYCLE: seq<LoopState> := [MqttListen, BattListen, SenseListen, LogDump, Throttle]

  /** Whatever asks for no reset, publish or log dump. */
  predicate Quiet(es: seq<Event>) {
    forall i :: 0 <= i < |es| ==> es[i] !in [Timer, ResetPressed, LogsFilling]
  }

  function Updates(es: seq<Event>): nat {
    if es == [] then 0 else Updates(es[..|es| - 1]) + if es[|es| - 1] == Updated then 1 else 0
  }

  predicate NothingPending(c: Ctx) {
    !c.pending.setPublish && !c.pending.reset && !c.pending.dumpLogs
  }

  /** The steady loop: from any steady state with nothing pending, MQTT_PUBLISH counting as the end of a cycle, each
      update is the next of MQTT_LISTEN, BATT_LISTEN, SENSE_LISTEN, LOGDUMP, THROTTLE, in that order and round
      again, for any number of updates and whatever handlers and answers do in between. */
  lemma {:induction false} SteadyCycle(c: Ctx, es: seq<Event>, k: nat)
    requires k < 5 && (c.loopState == CYCLE[k] || (c.loopState == MqttPublish && k == 4))
    requires NothingPending(c) && Quiet(es)
    ensures NothingPending(Exec(c, es))
    ensures Exec(c, es).loopState == if Updates(es) == 0 then c.loopState else CYCLE[(k + Updates(es)) % 5]
  {
    hide Step, CYCLE;
    if es != [] {
      var before, e := es[..|es| - 1], es[|es| - 1];
      SteadyCycle(c, before, k);
      CycleIndex(k, Updates(before));
      QuietStep(Exec(c, before), e, (k + Updates(before)) % 5);
    }
  }

  lemma CycleIndex(k: nat, n: nat)
    requires k < 5
    ensures ((k + n) % 5 + 1) % 5 == (k + n + 1) % 5 && (n == 0 ==> (k + n) % 5 == k)
  {
  }

  lemma QuietStep(c: Ctx, e: Event, k: nat)
    requires k < 5 && (c.loopState == CYCLE[k] || (c.loopState == MqttPublish && k == 4))
    requires NothingPending(c) && e !in [Timer, ResetPressed, LogsFilling]
    ensures NothingPending(Step(c, e))
    ensures Step(c, e).loopState == if e == Updated then CYCLE[(k + 1) % 5] else c.loopState
  {
  }

  /** What is pending in a reachable steady state is taken by the next update, a dump before a publish; the cycle
      goes on at THROTTLE after the dump, at MQTT_LISTEN after the publish. */
  lemma OverridesReturn(es: seq<Event>, between: seq<Event>)
    requires var c := Exec(BOOT, es);
             && Phase(c.loopState) == 6 && !c.pending.reset && (c.pending.dumpLogs || c.pending.setPublish)
    requires Quiet(between) && Updates(between) == 0
    ensures var c := Exec(BOOT, es);
            var c1 := Exec(BOOT, es + [Updated]);
            && c1.loopState == (if c.pending.dumpLogs then LogDump else MqttPublish)
            && NothingPending(c1)
            && Exec(c1, between + [Updated]).loopState == if c.pending.dumpLogs then Throttle else MqttListen
  {
    hide Step;
    var c, c1 := Exec(BOOT, es), Exec(BOOT, es + [Updated]);
    SteadyIsOnline(es);
    ExecConcat(BOOT, es, [Updated]);
    ExecOne(c, Updated);
    OverrideTaken(c);
    assert (between + [Updated])[..|between|] == between;
    SteadyCycle(c1, between + [Updated], if c.pending.dumpLogs then 3 else 4);
  }

  lemma OverrideTaken(c: Ctx)
    requires Online(c) && Phase(c.loopState) == 6 && !c.pending.reset && (c.pending.dumpLogs || c.pending.setPublish)
    ensures var c1 := Step(c, Updated);
            c1.loopState == (if c.pending.dumpLogs then LogDump else MqttPublish) && NothingPending(c1)
  {
  }

  /** The sample timer leads to a publish: on a reachable steady device with nothing pending, the timer and one
      update give MQTT_PUBLISH. Without a broker connection it does nothing. */
  lemma TimerPublishes(es: seq<Event>)
    ensures var c := Exec(BOOT, es);
            && (Phase(c.loopState) == 6 && NothingPending(c) ==>
                  Exec(BOOT, es + [Timer, Updated]).loopState == MqttPublish)
            && (!c.link.mqttInitd ==> Exec(BOOT, es + [Timer]) == c)
  {
    hide Next;
    RunsStayReady(es);
    SteadyIsOnline(es);
    ExecPair(BOOT, es, Timer, Updated);
    ExecConcat(BOOT, es, [Timer]);
    ExecOne(Exec(BOOT, es), Timer);
  }

  /** Requests wait: unless credentials, sensor, broker and clock are all there, an update without a reset leaves a
      pending publish and a pending dump alone, and goes where it would go without them. */
  lemma RequestsWait(c: Ctx)
    requires !c.pending.reset
    requires !c.creds.wifiConfigd || !c.link.senseInitd || !c.link.mqttInitd || !c.link.ntpSyncd
    ensures Update(c).pending == c.pending
    ensures Update(c).loopState == Update(c.(pending := Pending(false, false, false))).loopState
  {
    hide Next;
    assert Next(c) == Next(c.(pending := Pending(false, false, false))) by {
      NextIgnoresRequests(c);
    }
  }

  lemma NextIgnoresRequests(c: Ctx)
    ensures Next(c) == Next(c.(pending := Pending(false, false, false)))
  {
  }

  /** What a reset takes and what it leaves, in every run: the connection and the credentials' flag go, all else
      stays, pending requests included. */
  lemma ResetExactly(es: seq<Event>)
    requires Exec(BOOT, es).pending.reset
    ensures var c, c' := Exec(BOOT, es), Exec(BOOT, es + [Updated]);
            && c'.loopState == WifiConfig && !c'.pending.reset
            && c'.creds == Creds(c.creds.flashInitd, false, c.creds.flashWritten)
            && c'.link == Link(false, c.link.senseInitd, false, c.link.mqttClient)
            && c'.ntp == c.ntp
            && c'.pending.setPublish == c.pending.setPublish && c'.pending.dumpLogs == c.pending.dumpLogs
  {
    hide Next;
    ExecConcat(BOOT, es, [Updated]);
    ExecOne(Exec(BOOT, es), Updated);
  }

  // ---- Runs on which requests for a publish and for a log dump meet ----

  const ROUND: seq<Event> := [Run(Succeeds), Updated]

  /** A boot with stored credentials in which everything succeeds, up to the answer of the time server. */
  const BOOT_RUN: seq<Event> := ROUND + ROUND + ROUND + ROUND + [NtpAnswered, Run(Succeeds)]

  lemma ExecPair(c: Ctx, es: seq<Event>, a: Event, b: Event)
    ensures Exec(c, es + [a, b]) == Step(Step(Exec(c, es), a), b)
  {
    hide Step;
    ExecConcat(c, es, [a, b]);
    ExecTwo(Exec(c, es), [a, b]);
  }

  lemma Round(es: seq<Event>)
    ensures Exec(BOOT, es + ROUND) == Update(Handle(Exec(BOOT, es), Succeeds))
  {
    hide Exec, Handle, Update;
    ExecPair(BOOT, es, Run(Succeeds), Updated);
  }

  lemma BootRunState()
    ensures Exec(BOOT, BOOT_RUN) ==
            Ctx(NtpSync, Creds(true, true, true), Link(true, true, true, true), Synced, Pending(false, false, false))
  {
    hide Exec, Handle, Update;
    ExecNone(BOOT);
    Round([]);
    Round(ROUND);
    Round(ROUND + ROUND);
    Round(ROUND + ROUND + ROUND);
    assert [] + ROUND == ROUND;
    FourRounds();
    ExecPair(BOOT, ROUND + ROUND + ROUND + ROUND, NtpAnswered, Run(Succeeds));
  }

  lemma FourRounds()
    ensures var c := Update(Handle(Update(Handle(Update(Handle(Update(Handle(BOOT, Succeeds)), Succeeds)), Succeeds)),
                                   Succeeds));
            Handle(c.(ntp := Synced), Succeeds) ==
            Ctx(NtpSync, Creds(true, true, true), Link(true, true, true, true), Synced, Pending(false, false, false))
            && c.ntp == Unsynced
  {
  }

  lemma ExecNone(c: Ctx)
    ensures Exec(c, []) == c
  {
  }

  lemma {:induction false} BootGoesForward(es: seq<Event>, n: nat)
    requires NoReset(es) && n <= |es|
    ensures Phase(Exec(BOOT, es[..n]).loopState) <= Phase(Exec(BOOT, es).loopState)
  {
    if n == |es| {
      assert es[..n] == es;
    } else {
      var before := es[..|es| - 1];
      BootGoesForward(before, n);
      BootMovesForward(es);
      assert before[..n] == es[..n];
    }
  }

  /** A boot without a reset that does not pass MQTT_PUBLISH: the log filled up before its last round. */
  lemma BootIntoDumpWitness()
    ensures var es := BOOT_RUN + [LogsFilling, Updated];
            && NoReset(es) && Exec(BOOT, es).loopState == LogDump
            && forall n :: 0 <= n <= |es| ==> Exec(BOOT, es[..n]).loopState != MqttPublish
  {
    hide Exec, Step, Phase;
    var before, es := BOOT_RUN + [LogsFilling], BOOT_RUN + [LogsFilling, Updated];
    BootRunState();
    ExecPair(BOOT, BOOT_RUN, LogsFilling, Updated);
    ExecConcat(BOOT, BOOT_RUN, [LogsFilling]);
    ExecOne(Exec(BOOT, BOOT_RUN), LogsFilling);
    FullBootDumps();
    forall n | 0 <= n <= |es| ensures Exec(BOOT, es[..n]).loopState != MqttPublish {
      if n < |es| {
        BootGoesForward(before, n);
        assert es[..n] == before[..n];
      } else {
        assert es[..n] == es;
      }
    }
  }

  lemma ExecOne(c: Ctx, e: Event)
    ensures Exec(c, [e]) == Step(c, e)
  {
    hide Step;
    assert [e][..0] == [];
  }

  lemma FullBootDumps()
    ensures var c := Ctx(NtpSync, Creds(true, true, true), Link(true, true, true, true), Synced,
                         Pending(false, false, false));
            && Step(Step(c, LogsFilling), Updated).loopState == LogDump
            && Step(c, LogsFilling).loopState == NtpSync && Phase(NtpSync) < Phase(MqttPublish)
  {
  }

  /** A reachable publish that is lost: the timer and a full log in one round of MQTT_PUBLISH. */
  lemma PublishLostWitness()
    ensures var es := BOOT_RUN + [LogsFilling, Updated] + [Timer, LogsFilling];
            var c := Exec(BOOT, es);
            && Online(c) && c.pending.setPublish && !c.pending.reset
            && Step(c, Updated).loopState == LogDump && !Step(c, Updated).pending.setPublish
  {
    hide Exec;
    BootRunState();
    ExecPair(BOOT, BOOT_RUN, LogsFilling, Updated);
    ExecPair(BOOT, BOOT_RUN + [LogsFilling, Updated], Timer, LogsFilling);
  }

  // ---- A flash write that fails ----

  /** Without a reset the flag tells about the write at hand: it is only set before FLASH_WRITE by a restore
      that bypasses it. */
  predicate FlagIsCurrent(c: Ctx) {
    && (c.loopState == FlashInit && c.creds.flashWritten ==> c.creds.flashInitd && c.creds.wifiConfigd)
    && (c.loopState == WifiConfig ==> !c.creds.flashWritten)
  }

  /** Some handler call of the run was a successful flash write. */
  ghost predicate WroteFlash(es: seq<Event>) {
    exists i :: 0 <= i < |es| && Exec(BOOT, es[..i]).loopState == FlashWrite && es[i] == Run(Succeeds)
  }

  /** Without a reset a failed flash write is always noticed: FLASH_WRITE is entered with the flag clear, and
      the flag is set there only after a write of this run succeeded. */
  lemma {:induction false} FailedWriteNoticed(es: seq<Event>)
    requires NoReset(es)
    ensures var c := Exec(BOOT, es);
            && FlagIsCurrent(c)
            && (c.loopState == FlashWrite && c.creds.flashWritten ==> WroteFlash(es))
    ensures es != [] && Exec(BOOT, es).loopState == FlashWrite && Exec(BOOT, es[..|es| - 1]).loopState != FlashWrite ==>
              !Exec(BOOT, es).creds.flashWritten
  {
    hide Step, FlagIsCurrent;
    if es == [] {
      BootFlag();
    } else {
      var before, n := es[..|es| - 1], |es| - 1;
      FailedWriteNoticed(before);
      BootMovesForward(before);
      RunsStayReady(before);
      StepKeepsFlag(Exec(BOOT, before), es[n]);
      if WroteFlash(before) {
        var i :| 0 <= i < |before| && Exec(BOOT, before[..i]).loopState == FlashWrite && before[i] == Run(Succeeds);
        assert before[..i] == es[..i] && es[i] == before[i];
      }
      assert Exec(BOOT, es[..n]).loopState == FlashWrite && es[n] == Run(Succeeds) ==> WroteFlash(es);
    }
  }

  lemma BootFlag()
    ensures FlagIsCurrent(BOOT)
  {
  }

  lemma StepKeepsFlag(c: Ctx, e: Event)
    requires Ready(c) && FlagIsCurrent(c) && !c.pending.reset && e != ResetPressed
    ensures FlagIsCurrent(Step(c, e))
    ensures Step(c, e).loopState == FlashWrite && c.loopState != FlashWrite ==> !Step(c, e).creds.flashWritten
    ensures Step(c, e).loopState == FlashWrite && c.loopState == FlashWrite && Step(c, e).creds.flashWritten ==>
              c.creds.flashWritten || e == Run(Succeeds)
  {
    match e
    case Updated => UpdateKeepsFlag(c);
    case _ =>
  }

  lemma UpdateKeepsFlag(c: Ctx)
    requires Ready(c) && FlagIsCurrent(c) && !c.pending.reset
    ensures FlagIsCurrent(Update(c)) && Update(c).creds == c.creds
    ensures Update(c).loopState == FlashWrite && c.loopState != FlashWrite ==> !c.creds.flashWritten
  {
  }

  /** flash_written outlives a reset. After one, a flash write that fails is not noticed: the next update
      goes on to MQTT_INIT exactly when some earlier write, or the restore at boot, had succeeded. */
  lemma FailedWriteAfterReset(es: seq<Event>)
    requires Exec(BOOT, es).loopState == FlashWrite && !Exec(BOOT, es).pending.reset
    ensures var c := Exec(BOOT, es + [Run(Fails), Updated]);
            c.loopState == if Exec(BOOT, es).creds.flashWritten then MqttInit else FlashWrite
  {
    RunsStayReady(es);
    ExecConcat(BOOT, es, [Run(Fails), Updated]);
    ExecTwo(Exec(BOOT, es), [Run(Fails), Updated]);
  }

  lemma FailedWriteAfterResetWitness()
    ensures var es := [Run(Succeeds), ResetPressed, Updated, Provisioned, Updated];
            && Exec(BOOT, es).loopState == FlashWrite
            && Exec(BOOT, es + [Run(Fails), Updated]).loopState == MqttInit
  {
    var es := [Run(Succeeds), ResetPressed, Updated, Provisioned, Updated];
    var c := BOOT.(loopState := WifiConfig, creds := Creds(true, false, true));
    assert es == es[..3] + [Provisioned, Updated];
    ExecThree(BOOT, es[..3]);
    assert Exec(BOOT, es[..3]) == c;
    ExecConcat(BOOT, es[..3], [Provisioned, Updated]);
    ExecTwo(c, [Provisioned, Updated]);
    assert Exec(BOOT, es) == c.(creds := Creds(true, true, true), loopState := FlashWrite);
    FailedWriteAfterReset(es);
  }
}
