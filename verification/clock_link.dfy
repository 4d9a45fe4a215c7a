/** The state machine and the time client together: the flag the machine waits for is the client's own, so the
    clock is there whenever logs are dumped. */
module ClockLink {
  import opened Bytes
  import opened Timestamps
  import AppState
  import Ntp

  /** The context and, once ntp_init has allocated it, the client it points to. */
  datatype State = State(app: AppState.Ctx, ntp: Option<Ntp.State>)

  /** What the context can see of the client. */
  function View(ntp: Option<Ntp.State>): AppState.Ntp {
    match ntp
    case None => AppState.Unallocated
    case Some(n) => if n.synced then AppState.Synced else AppState.Unsynced
  }

  function Seen(s: State): AppState.Ctx {
    s.app.(ntp := View(s.ntp))
  }

  /** What ntp_sync_handler meets: the time at which the client is allocated, if it is, then that of its poll, with
      the timer's and the resolver's answers. */
  datatype Call = Call(start: nat, now: nat, alarmId: int, dns: Ntp.Dns)

  /** A step of the main loop or of its asynchronous events, or a callback of the client. The client is polled
      by ntp_sync_handler and nobody else. */
  datatype Event = Loop(event: AppState.Event, call: Call) | Net(step: Ntp.Event)

  const BOOT := State(AppState.BOOT, None)

  function Step(s: State, e: Event): State {
    match e
    case Loop(event, call) =>
      if event == AppState.NtpAnswered then s
      else
        var app := AppState.Step(Seen(s), event);
        var ntp := if s.ntp == None && app.ntp != AppState.Unallocated then Some(Ntp.Start(call.start)) else s.ntp;
        State(app, if event.Run? && s.app.loopState == AppState.NtpSync then Polled(ntp, call) else ntp)
    case Net(step) =>
      match s.ntp
      case None => s
      case Some(n) => if step.Poll? then s else s.(ntp := Some(Ntp.Step(n, step)))
  }

  function Polled(ntp: Option<Ntp.State>, call: Call): Option<Ntp.State> {
    match ntp
    case None => None
    case Some(n) => Some(Ntp.Step(n, Ntp.Poll(call.now, call.alarmId, call.dns)))
  }

  function Exec(es: seq<Event>): State {
    if es == [] then BOOT else Step(Exec(es[..|es| - 1]), es[|es| - 1])
  }

  /** get_current_epoch on the context: None is the OFFLINE error. */
  function Epoch(s: State, hw: nat): Option<nat> {
    match s.ntp
    case None => None
    case Some(n) => if n.synced then Some(CurrentEpoch(n.epochSecs, n.hwRef, hw)) else None
  }

  lemma LoopKeepsClock(c: AppState.Ctx, e: AppState.Event)
    requires e != AppState.NtpAnswered
    ensures c.ntp != AppState.Unallocated ==> AppState.Step(c, e).ntp == c.ntp
    ensures c.ntp == AppState.Unallocated ==> AppState.Step(c, e).ntp != AppState.Synced
  {
    hide AppState.Update;
    AppState.UpdateKeepsClock(c);
  }

  /** Each step of the two together is, for the context, one step of the machine, an answer of the server, or
      nothing. */
  lemma StepSimulates(s: State, e: Event)
    ensures || Seen(Step(s, e)) == Seen(s)
            || Seen(Step(s, e)) == AppState.Step(Seen(s), AppState.NtpAnswered)
            || (e.Loop? && Seen(Step(s, e)) == AppState.Step(Seen(s), e.event))
  {
    hide AppState.Update, AppState.Handle, Ntp.Done;
    match e
    case Loop(event, call) =>
      if event != AppState.NtpAnswered {
        LoopKeepsClock(Seen(s), event);
        PollKeepsView(s.ntp, call);
        PollKeepsView(Some(Ntp.Start(call.start)), call);
      }
    case Net(step) =>
      if s.ntp.Some? {
        SyncedOnce(s.ntp.value, step);
      }
  }

  lemma PollKeepsView(ntp: Option<Ntp.State>, call: Call)
    ensures View(Polled(ntp, call)) == View(ntp)
  {
  }

  lemma SyncedOnce(n: Ntp.State, e: Ntp.Event)
    ensures n.synced ==> Ntp.Step(n, e).synced
  {
  }

  /** Every run of the two together is a run of the machine. */
  lemma {:induction false} RunSimulates(es: seq<Event>) returns (abs: seq<AppState.Event>)
    ensures AppState.Exec(AppState.BOOT, abs) == Seen(Exec(es))
  {
    hide AppState.Step, Step;
    if es == [] {
      abs := [];
    } else {
      var s, e := Exec(es[..|es| - 1]), es[|es| - 1];
      abs := RunSimulates(es[..|es| - 1]);
      StepSimulates(s, e);
      if Seen(Step(s, e)) != Seen(s) {
        var answered := Seen(Step(s, e)) == AppState.Step(Seen(s), AppState.NtpAnswered);
        var next := if answered then AppState.NtpAnswered else e.event;
        assert (abs + [next])[..|abs|] == abs;
        abs := abs + [next];
      }
    }
  }

  /** In every run, from MQTT_PUBLISH to THROTTLE, and so whenever logs are dumped, the clock is synced and
      get_current_epoch does not report OFFLINE. */
  lemma ClockWhenDumping(es: seq<Event>, hw: nat)
    requires AppState.Phase(Exec(es).app.loopState) == 6
    ensures Epoch(Exec(es), hw).Some?
  {
    var abs := RunSimulates(es);
    AppState.SteadyIsOnline(abs);
  }

  // ---- The clock arrives ----

  /** A poll is due when ntp_sync_handler is called. */
  predicate Due(s: State, call: Call) {
    match s.ntp
    case None => call.start < call.now
    case Some(n) => !n.sent && n.nextPoll < call.now
  }

  /** From every state of waiting for the clock, with a poll due and no reset pending: a round of the main
      loop puts a request in flight; when the server's address is found it is asked; its answer sets the clock;
      and the next round enters the steady loop, in which the clock is right. */
  lemma ClockArrives(s: State, call: Call, a: nat, found: nat, p: Ntp.Packet, unix: nat, h: nat, now: nat,
                     call2: Call, t: nat)
    requires s.app.loopState == AppState.NtpSync && !s.app.pending.reset && Due(s, call)
    requires call.alarmId > 0 && call.dns == Ntp.InProgress
    requires unix < 0x1_0000_0000 && Ntp.OnWire(p.seconds, unix)
    requires p.sender == a && p.port == 123 && p.len == 48 && p.first % 8 == 4 && p.stratum != 0
    requires h <= t < TIMER_END && t / PERIOD == h / PERIOD
    ensures var s1 := Step(s, Loop(AppState.Run(AppState.Succeeds), call));
            var s2 := Step(s1, Net(Ntp.DnsFound(Some(a), found)));
            var s3 := Step(s2, Net(Ntp.Response(p, Ms(h), now)));
            var s4 := Step(s3, Loop(AppState.Run(AppState.Succeeds), call2));
            var s5 := Step(s4, Loop(AppState.Updated, call2));
            && s1.ntp.Some? && s1.ntp.value.sent && call.alarmId in s1.ntp.value.armed
            && s2.ntp.Some? && s2.ntp.value.sent && s2.ntp.value.server == a
            && s2.ntp.value.asked == s1.ntp.value.asked + [a]
            && Epoch(s3, Ms(t)) == Some(1000 * unix + (t - h))
            && AppState.Phase(s5.app.loopState) == 6
            && Epoch(s5, Ms(t)) == Some(1000 * unix + (t - h))
  {
    hide AppState.Update, Ntp.OnWire, CurrentEpoch, Ms;
    var s1 := Step(s, Loop(AppState.Run(AppState.Succeeds), call));
    PollSends(s, call);
    var s2 := Step(s1, Net(Ntp.DnsFound(Some(a), found)));
    var s3 := Step(s2, Net(Ntp.Response(p, Ms(h), now)));
    Ntp.AnswerSetsClock(s2.ntp.value, p, unix, Ms(h), now);
    EpochExact(unix, h, t);
    SecondRound(s3, call2);
  }

  lemma PollSends(s: State, call: Call)
    requires s.app.loopState == AppState.NtpSync && Due(s, call) && call.alarmId > 0 && call.dns == Ntp.InProgress
    ensures var s1 := Step(s, Loop(AppState.Run(AppState.Succeeds), call));
            && s1.ntp.Some? && s1.ntp.value.sent && call.alarmId in s1.ntp.value.armed
            && s1.app.loopState == AppState.NtpSync && s1.app.pending == s.app.pending
  {
  }

  lemma SecondRound(s: State, call: Call)
    requires s.app.loopState == AppState.NtpSync && !s.app.pending.reset && s.ntp.Some? && s.ntp.value.synced
    ensures var s4 := Step(s, Loop(AppState.Run(AppState.Succeeds), call));
            var s5 := Step(s4, Loop(AppState.Updated, call));
            && AppState.Phase(s5.app.loopState) == 6 && s5.ntp.Some? && s5.ntp.value.synced
            && s5.ntp.value.epochSecs == s.ntp.value.epochSecs && s5.ntp.value.hwRef == s.ntp.value.hwRef
  {
    hide AppState.Update;
    var s4 := Step(s, Loop(AppState.Run(AppState.Succeeds), call));
    assert s4.app.link.ntpSyncd && s4.app.loopState == AppState.NtpSync && !s4.app.pending.reset;
    assert s4.ntp.Some? && s4.ntp.value.synced && s4.ntp.value.epochSecs == s.ntp.value.epochSecs
           && s4.ntp.value.hwRef == s.ntp.value.hwRef;
    SameLoop(s4);
    AppState.UpdateEnters(Seen(s4));
    AppState.UpdateKeepsClock(Seen(s4));
  }

  // ---- No poll after boot ----

  /** The step polls the client. */
  predicate Polls(s: State, e: Event) {
    e.Loop? && e.event.Run? && s.app.loopState == AppState.NtpSync && Step(s, e).ntp.Some?
  }

  predicate NoReset(es: seq<Event>) {
    forall i :: 0 <= i < |es| && es[i].Loop? ==> es[i].event != AppState.ResetPressed
  }

  lemma SteadyStep(s: State, e: Event)
    requires AppState.Ready(Seen(s)) && AppState.Phase(s.app.loopState) == 6 && !s.app.pending.reset
    requires e.Loop? ==> e.event != AppState.ResetPressed
    ensures AppState.Phase(Step(s, e).app.loopState) == 6 && !Step(s, e).app.pending.reset
    ensures !Polls(s, e)
    ensures s.ntp.Some? ==> Step(s, e).ntp.Some? && (Step(s, e).ntp.value.sent ==> s.ntp.value.sent)
    ensures s.ntp.Some? && !(e.Net? && e.step.Response?) ==>
              Step(s, e).ntp.value.epochSecs == s.ntp.value.epochSecs && Step(s, e).ntp.value.hwRef == s.ntp.value.hwRef
  {
    hide AppState.Update, AppState.Handle, AppState.Ready;
    if e.Loop? && e.event != AppState.NtpAnswered {
      AppState.StepMovesForward(Seen(s), e.event);
    }
  }

  /** The client polls every thirty seconds while the machine waits for it, and never again: from the steady loop
      on, without a reset, no step polls it, and once no request is in flight none ever is. Unless a server
      answers unasked, the clock keeps the second it was given at boot. */
  lemma {:induction false} SteadyNeverPolls(before: seq<Event>, es: seq<Event>)
    requires AppState.Phase(Exec(before).app.loopState) == 6 && !Exec(before).app.pending.reset
    requires NoReset(es)
    ensures var s, s' := Exec(before), Exec(before + es);
            && AppState.Phase(s'.app.loopState) == 6 && !s'.app.pending.reset && s.ntp.Some? && s'.ntp.Some?
            && (s'.ntp.value.sent ==> s.ntp.value.sent)
            && ((forall i :: 0 <= i < |es| ==> !(es[i].Net? && es[i].step.Response?)) ==>
                  s'.ntp.value.epochSecs == s.ntp.value.epochSecs && s'.ntp.value.hwRef == s.ntp.value.hwRef)
    ensures forall e: Event :: !Polls(Exec(before + es), e)
  {
    hide Step, Seen, AppState.Ready, AppState.Phase;
    if es == [] {
      assert before + es == before;
      ClockWhenDumping(before, 0);
    } else {
      var init, e := es[..|es| - 1], es[|es| - 1];
      SteadyNeverPolls(before, init);
      assert (before + es)[..|before + es| - 1] == before + init;
      var abs := RunSimulates(before + init);
      AppState.RunsStayReady(abs);
      SameLoop(Exec(before + init));
      SteadyStep(Exec(before + init), e);
      assert es[|es| - 1] == e;
    }
    SteadyIsNotSync(Exec(before + es));
  }

  lemma SameLoop(s: State)
    ensures Seen(s).loopState == s.app.loopState && Seen(s).pending == s.app.pending
  {
  }

  lemma SteadyIsNotSync(s: State)
    requires AppState.Phase(s.app.loopState) == 6
    ensures s.app.loopState != AppState.NtpSync
  {
  }
}
