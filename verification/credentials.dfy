/** Storing the three credentials and getting them back after a reboot. */
module Credentials {
  import opened Bytes
  import opened FlashText
  import opened FlashMap
  import opened FlashLimits
  import opened FlashStore
  import opened AppState
  import opened ContextStrings

  const SSID: seq<Byte> := [115, 115, 105, 100]
  const PASSWORD: seq<Byte> := [112, 97, 115, 115, 119, 111, 114, 100]
  const CONTRACT: seq<Byte> := [99, 111, 110, 116, 114, 97, 99, 116]

  function CredOps(c: Triple): seq<Op> {
    [Op(SSID, c.ssid), Op(PASSWORD, c.password), Op(CONTRACT, c.contract)]
  }

  /** Writes in order, stopping at the first error; None when one is unsafe or loses the terminator. */
  function WriteSeq(t: seq<Byte>, ops: seq<Op>): Option<(Status, seq<Byte>)>
    decreases |ops|
  {
    if ops == [] then Some((OK, t))
    else
      match WriteText(t, ops[0])
      case Refused(s) => Some((s, t))
      case Unsafe => None
      case Programmed(t', _) => if KeepsTerminator(t') then WriteSeq(t', ops[1..]) else None
  }

  function CtxCreds(ctx: AppCtx): Triple
    requires ctx.Fields()
    reads ctx.mem
  {
    Strings(ctx.mem[..])
  }

  // ---- The handlers ----

  /** Each write takes its string from the context up to the first NUL, wherever that stands. */
  method FlashWriteHandler(ctx: AppCtx, store: Flash) returns (status: Status)
    requires ctx.Fields() && Terminated(ctx.mem[TOKEN_AT..]) && store.Valid() && store.sector != ctx.mem
    requires WriteSeq(Text(store.sector[..]), CredOps(CtxCreds(ctx))).Some?
    modifies ctx, store.sector
    ensures ctx.mem[..] == old(ctx.mem[..]) && store.Valid()
    ensures Some((status, Text(store.sector[..]))) == old(WriteSeq(Text(store.sector[..]), CredOps(CtxCreds(ctx))))
    ensures var was := old(ctx.Snapshot());
            && ctx.Snapshot() == (if status == OK then was.(creds := was.creds.(flashWritten := true)) else was)
            && (was.loopState == FlashWrite ==>
                  ctx.Snapshot() == Handle(was, if status == OK then Succeeds else Fails))
  {
    hide WriteText, Text, Terminated;
    ghost var ops, t0 := CredOps(CtxCreds(ctx)), Text(store.sector[..]);
    assert ops[1..] == [ops[1], ops[2]] && ops[1..][1..] == [ops[2]] && [ops[2]][1..] == [];
    WriteSeqStep(t0, ops);
    var err := store.Write(SSID, View(ctx.mem[..], 0));
    if err != OK {
      return err;
    }
    ghost var t1 := Text(store.sector[..]);
    WriteSeqStep(t1, ops[1..]);
    err := store.Write(PASSWORD, View(ctx.mem[..], PASS_AT));
    if err != OK {
      return err;
    }
    ghost var t2 := Text(store.sector[..]);
    WriteSeqStep(t2, ops[2..]);
    err := store.Write(CONTRACT, View(ctx.mem[..], TOKEN_AT));
    if err != OK {
      return err;
    }
    ctx.flashWritten := true;
    status := OK;
  }

  /** Three writes: the status is OK exactly when each programs, the first refusal is the last write made, and the
      sector is left with the writes before it. */
  lemma StopsAtFirstError(t: seq<Byte>, a: Op, b: Op, c: Op)
    requires WriteSeq(t, [a, b, c]).Some?
    ensures var r, o1 := WriteSeq(t, [a, b, c]).value, WriteText(t, a);
            && (o1.Refused? ==> r == (o1.status, t))
            && (o1.Programmed? ==>
                  var o2 := WriteText(o1.text, b);
                  && (o2.Refused? ==> r == (o2.status, o1.text))
                  && (o2.Programmed? ==>
                        var o3 := WriteText(o2.text, c);
                        && (o3.Refused? ==> r == (o3.status, o2.text))
                        && (o3.Programmed? ==> r == (OK, o3.text))))
  {
    hide WriteText;
    var ops := [a, b, c];
    assert ops[1..] == [b, c] && [b, c][1..] == [c] && [c][1..] == [];
    WriteSeqStep(t, ops);
    if WriteText(t, a).Programmed? {
      WriteSeqStep(WriteText(t, a).text, [b, c]);
      if WriteText(WriteText(t, a).text, b).Programmed? {
        WriteSeqStep(WriteText(WriteText(t, a).text, b).text, [c]);
      }
    }
  }

  lemma WriteSeqStep(t: seq<Byte>, ops: seq<Op>)
    requires ops != [] && WriteSeq(t, ops).Some?
    ensures WriteText(t, ops[0]) != Unsafe
    ensures var out := WriteText(t, ops[0]);
            && (out.Refused? ==> WriteSeq(t, ops) == Some((out.status, t)))
            && (out.Programmed? ==> KeepsTerminator(out.text) && WriteSeq(t, ops) == WriteSeq(out.text, ops[1..]))
  {
  }

  datatype Readings = Readings(ssid: Reading, password: Reading, contract: Reading) {
    predicate Complete() {
      ssid.Found? && password.Found? && contract.Found?
    }

    function Value(): Triple
      requires Complete()
    {
      Triple(ssid.value, password.value, contract.value)
    }
  }

  function Stored(t: seq<Byte>): Readings {
    Readings(ReadText(t, SSID), ReadText(t, PASSWORD), ReadText(t, CONTRACT))
  }

  /** The stored forms that flash_init_handler copies stay within the strings of the context. */
  predicate InitFits(t: seq<Byte>) {
    var s, p, c := RawText(t, SSID), RawText(t, PASSWORD), RawText(t, CONTRACT);
    && (s.Some? ==> |s.value| < CTX_SIZE)
    && (s.Some? && p.Some? ==> |p.value| < CTX_SIZE - PASS_AT)
    && (s.Some? && p.Some? && c.Some? ==> |c.value| < CTX_SIZE - TOKEN_AT)
  }

  /** The memory after one read: the value and zeros behind it over the room of the stored form. */
  function ReadOver(mem: seq<Byte>, at: nat, raw: seq<Byte>): seq<Byte>
    requires at + |raw| < |mem|
  {
    Overlay(mem, at, Unescape(raw), |raw| + 1)
  }

  /** The memory flash_init_handler leaves: it stops at the first name that is not stored. */
  function Restored(mem: seq<Byte>, t: seq<Byte>): seq<Byte>
    requires |mem| == CTX_SIZE && InitFits(t)
  {
    var s, p, c := RawText(t, SSID), RawText(t, PASSWORD), RawText(t, CONTRACT);
    if s == None then mem
    else
      var m1 := ReadOver(mem, 0, s.value);
      if p == None then m1
      else
        var m2 := ReadOver(m1, PASS_AT, p.value);
        if c == None then m2 else ReadOver(m2, TOKEN_AT, c.value)
  }

  method FlashInitHandler(ctx: AppCtx, store: Flash) returns (ok: bool)
    requires ctx.Fields() && store.Valid() && store.sector != ctx.mem
    requires InitFits(Text(store.sector[..]))
    modifies ctx, store.sector, ctx.mem
    ensures store.Valid() && Text(store.sector[..]) == old(Text(store.sector[..]))
    ensures ctx.mem[..] == Restored(old(ctx.mem[..]), Text(store.sector[..]))
    ensures ok <==> Stored(Text(store.sector[..])).ssid == KeyNotFound || Stored(Text(store.sector[..])).Complete()
    ensures var was := old(ctx.Snapshot());
            ctx.Snapshot() ==
            if Stored(Text(store.sector[..])).Complete()
            then was.(creds := Creds(true, true, true))
            else was.(creds := was.creds.(flashInitd := was.creds.flashInitd || ok))
    ensures var was, stored := old(ctx.Snapshot()), Stored(Text(store.sector[..]));
            was.loopState == FlashInit ==>
              ctx.Snapshot() == Handle(was, if stored.Complete() then Succeeds
                                            else if stored.ssid == KeyNotFound then Partial
                                            else Fails)
  {
    hide ReadText, RawText, Unescape, Overlay, Text, Terminated;
    NotErased(store.sector[..]);
    store.InitializeFlash(false);
    ghost var t := Text(store.sector[..]);
    FoundIsRaw(t);
    var r := ReadInto(store, SSID, ctx.mem, 0);
    if r == KeyNotFound {
      ctx.flashInitd := true;
      return true;
    }
    r := ReadInto(store, PASSWORD, ctx.mem, PASS_AT);
    if r == KeyNotFound {
      return false;
    }
    r := ReadInto(store, CONTRACT, ctx.mem, TOKEN_AT);
    if r == KeyNotFound {
      return false;
    }
    ctx.wifiConfigd := true;
    ctx.flashInitd := true;
    ctx.flashWritten := true;
    ok := true;
  }

  lemma FoundIsRaw(t: seq<Byte>)
    ensures forall k {:trigger ReadText(t, k)} :: ReadText(t, k).Found? <==> RawText(t, k).Some?
  {
    hide RawText;
  }

  lemma NotErased(s: seq<Byte>)
    requires Terminated(s)
    ensures !IsErased(s)
  {
    assert s[ScanTo(s, NUL, 0)] == NUL;
  }

  /** read with one of the three literal keys. */
  method ReadInto(store: Flash, key: seq<Byte>, buf: array<Byte>, at: nat) returns (r: Reading)
    requires store.Valid() && buf != store.sector && key in {SSID, PASSWORD, CONTRACT}
    requires var raw := RawText(Text(store.sector[..]), key);
             raw.Some? ==> at + |raw.value| < buf.Length
    modifies buf
    ensures store.sector[..] == old(store.sector[..])
    ensures r == ReadText(Text(store.sector[..]), key)
    ensures var raw := RawText(Text(store.sector[..]), key);
            buf[..] == if raw.Some? then ReadOver(old(buf[..]), at, raw.value) else old(buf[..])
  {
    hide ReadText, RawText, Unescape, Overlay, ValidKey, Text;
    NamesAreKeys();
    assert key in {Name(0), Name(1), Name(2)};
    var o := store.Read(key, buf, at);
    r := o.value;
  }

  /** The first round of the main loop: a device that finds its credentials goes straight to MQTT_INIT, one
      without them to WIFI_CONFIG. */
  method FirstRound(ctx: AppCtx, store: Flash) returns (ok: bool)
    requires ctx.Fields() && ctx.Snapshot() == BOOT && store.Valid() && store.sector != ctx.mem
    requires InitFits(Text(store.sector[..]))
    modifies ctx, store.sector, ctx.mem
    ensures store.Valid() && Text(store.sector[..]) == old(Text(store.sector[..]))
    ensures ctx.mem[..] == Restored(old(ctx.mem[..]), Text(store.sector[..]))
    ensures var stored := Stored(Text(store.sector[..]));
            ctx.loopState == if stored.ssid == KeyNotFound then WifiConfig
                             else if stored.Complete() then MqttInit
                             else FlashInit
  {
    hide ReadText, InitFits, Restored, Text;
    ok := FlashInitHandler(ctx, store);
    ctx.UpdateState();
  }

  // ---- The image of three credentials ----

  function Name(i: nat): seq<Byte>
    requires i < 3
  {
    [SSID, PASSWORD, CONTRACT][i]
  }

  lemma NamesAreKeys()
    ensures forall i: nat :: i < 3 ==> ValidKey(Name(i)) && NulFree(Name(i)) && |Name(i)| == if i == 0 then 4 else 8
  {
  }

  lemma NamesDistinct(i: nat, j: nat)
    requires i < 3 && j < 3
    ensures EndsWith(Name(i), Name(j)) <==> i == j
  {
    assert PASSWORD[4..][0] == 119 && CONTRACT[4..][0] == 114;
    if i == j {
      assert Name(i)[0..] == Name(j);
    }
  }

  /** The credentials written so far, in order, with no fragment among them. */
  ghost predicate Shape(es: seq<Entry>) {
    && |es| <= 3 && AllOk(es)
    && forall i :: 0 <= i < |es| ==> es[i].Live? && es[i].key == Name(i) && |es[i].raw| <= 63
  }

  lemma {:induction false} LocateName(es: seq<Entry>, j: nat)
    requires Shape(es) && j <= |es| && j < 3
    ensures Locate(es, Name(j)) == j
  {
    var n := Locate(es, Name(j));
    forall i | 0 <= i < |es| ensures Answers(es[i], Name(j)) <==> i == j {
      NamesDistinct(i, j);
    }
  }

  lemma {:induction false} EscapeCommaFree(v: seq<Byte>)
    requires CommaFree(v)
    ensures CommaFree(Escape(v)) && |v| <= |Escape(v)|
  {
    if v != [] {
      EscapeCommaFree(v[1..]);
    }
  }

  lemma OneEntryOf(key: seq<Byte>, s: seq<Byte>)
    requires CommaFree(s)
    ensures EntriesOf(key, s) == [Live(key, s)]
  {
    ScanToIs(s, COMMA, 0, |s|);
    assert s[..|s|] == s && s[|s|..] == [];
  }

  predicate Storable(v: seq<Byte>) {
    NulFree(v) && CommaFree(v) && |Escape(v)| <= 63
  }

  lemma ShapeSize(es: seq<Entry>)
    requires Shape(es)
    ensures |Render(es)| <= 215
    ensures es != [] ==> |Render(es)| > 0
  {
    hide Render;
    NamesAreKeys();
    RenderNone();
    if |es| > 0 {
      RenderPrefix(es, |es|);
      assert es[..|es|] == es;
      var rest := es[1..];
      if |es| > 1 {
        assert rest[0] == es[1];
        RenderPrefix(rest, |rest|);
        assert rest[..|rest|] == rest;
        if |es| > 2 {
          assert rest[1..] == [es[2]];
          RenderPrefix([es[2]], 1);
          assert [es[2]][..1] == [es[2]] && [es[2]][1..][..0] == [];
        }
      }
    }
  }

  function SetRaw(es: seq<Entry>, i: nat, raw: seq<Byte>): seq<Entry>
    requires i <= |es| && i < 3
  {
    if i == |es| then es + [Live(Name(i), raw)] else es[i := Live(Name(i), raw)]
  }

  lemma UpsertName(es: seq<Entry>, i: nat, v: seq<Byte>)
    requires Shape(es) && i <= |es| && i < 3 && Storable(v)
    ensures UpsertEntries(es, Name(i), v) == SetRaw(es, i, Escape(v))
    ensures Shape(SetRaw(es, i, Escape(v)))
  {
    hide Escape, EntriesOf, Locate, Guarded, AllOk, EntryOk, CommaFree, Name;
    EscapeCommaFree(v);
    EscapeGuarded(v);
    OneEntryOf(Name(i), Escape(v));
    LocateName(es, i);
    ShapeKept(es, i, Escape(v));
    assert i < |es| ==> es[..i] + [Live(Name(i), Escape(v))] + es[i + 1..] == es[i := Live(Name(i), Escape(v))];
  }

  lemma ShapeKept(es: seq<Entry>, i: nat, raw: seq<Byte>)
    requires Shape(es) && i <= |es| && i < 3 && Guarded(raw) && CommaFree(raw) && |raw| <= 63
    ensures Shape(SetRaw(es, i, raw))
  {
    hide Guarded, CommaFree, Name;
    NamesAreKeys();
    assert EntryOk(Live(Name(i), raw));
  }

  /** One credential written on such an image lands, keeps the terminator and keeps the shape. */
  lemma WriteName(es: seq<Entry>, i: nat, v: seq<Byte>)
    requires Shape(es) && i <= |es| && i < 3 && Storable(v)
    ensures var es' := SetRaw(es, i, Escape(v));
            && Shape(es') && WriteText(Render(es), Op(Name(i), v)) == Programmed(Render(es'), true)
            && KeepsTerminator(Render(es'))
  {
    hide Render, Find, Escape, WriteText, UpsertText, UpsertEntries, ValidKey, SetRaw, Name;
    var key := Name(i);
    var es' := SetRaw(es, i, Escape(v));
    NamesAreKeys();
    UpsertName(es, i, v);
    EscapeCommaFree(v);
    UpsertInImage(es, key, v);
    ShapeSize(es);
    NonEmpty(es, i, Escape(v));
    ShapeSize(es');
    LandsSmall(Render(es), Op(key, v), Render(es'));
  }

  lemma NonEmpty(es: seq<Entry>, i: nat, raw: seq<Byte>)
    requires i <= |es| && i < 3
    ensures SetRaw(es, i, raw) != []
  {
  }

  lemma LandsSmall(t: seq<Byte>, op: Op, t': seq<Byte>)
    requires ValidKey(op.key) && |op.value| <= |Escape(op.value)| <= 128 && |op.key| <= 8 && |t| <= 276
    requires UpsertText(t, op.key, op.value).Updated? ==> UpsertText(t, op.key, op.value).text == t'
    ensures WriteText(t, op) == Programmed(t', true)
  {
    hide Find, Escape, UpsertText;
    RoomSuffices(t, op);
  }

  predicate StorableCreds(c: Triple) {
    Storable(c.ssid) && Storable(c.password) && Storable(c.contract)
  }

  function CredEntries(c: Triple): seq<Entry> {
    [Live(SSID, Escape(c.ssid)), Live(PASSWORD, Escape(c.password)), Live(CONTRACT, Escape(c.contract))]
  }

  lemma WriteCreds(es: seq<Entry>, c: Triple)
    requires Shape(es) && (es == [] || |es| == 3) && StorableCreds(c)
    ensures Shape(CredEntries(c))
    ensures WriteSeq(Render(es), CredOps(c)) == Some((OK, Render(CredEntries(c))))
  {
    hide Render, Escape, WriteText, Storable;
    var ops := CredOps(c);
    assert ops[1..] == [ops[1], ops[2]] && ops[1..][1..] == [ops[2]] && [ops[2]][1..] == [];
    WriteName(es, 0, c.ssid);
    var e1 := SetRaw(es, 0, Escape(c.ssid));
    WriteName(e1, 1, c.password);
    var e2 := SetRaw(e1, 1, Escape(c.password));
    WriteName(e2, 2, c.contract);
    assert SetRaw(e2, 2, Escape(c.contract)) == CredEntries(c);
    assert WriteSeq(Render(e2), [ops[2]]) == Some((OK, Render(CredEntries(c))));
    assert WriteSeq(Render(e1), [ops[1], ops[2]]) == WriteSeq(Render(e2), [ops[2]]);
  }

  /** The text of the sector after a history of completed flash_write_handler runs on a fresh sector. */
  function History(cs: seq<Triple>): Option<(Status, seq<Byte>)> {
    if cs == [] then Some((OK, []))
    else
      match History(cs[..|cs| - 1])
      case None => None
      case Some((_, t)) => WriteSeq(t, CredOps(cs[|cs| - 1]))
  }

  lemma {:induction false} HistoryImage(cs: seq<Triple>)
    requires forall i :: 0 <= i < |cs| ==> StorableCreds(cs[i])
    ensures var es := if cs == [] then [] else CredEntries(cs[|cs| - 1]);
            Shape(es) && History(cs) == Some((OK, Render(es)))
  {
    hide Render, WriteSeq, StorableCreds;
    if cs == [] {
      assert Render([]) == [] by { RenderNone(); }
    } else {
      var before := cs[..|cs| - 1];
      HistoryImage(before);
      WriteCreds(if before == [] then [] else CredEntries(before[|before| - 1]), cs[|cs| - 1]);
    }
  }

  /** What a sector holds for the three names, as it is stored. */
  predicate StoresRaw(t: seq<Byte>, c: Triple) {
    && RawText(t, SSID) == Some(c.ssid)
    && RawText(t, PASSWORD) == Some(c.password)
    && RawText(t, CONTRACT) == Some(c.contract)
  }

  function Escaped(c: Triple): Triple {
    Triple(Escape(c.ssid), Escape(c.password), Escape(c.contract))
  }

  /** Credentials survive a reboot: after any history of writes, every one of which succeeds, the image is
      at most 215 bytes, still terminated, and stores and reads back the last triple. */
  lemma CredentialsSurvive(cs: seq<Triple>)
    requires cs != [] && forall i :: 0 <= i < |cs| ==> StorableCreds(cs[i])
    ensures History(cs).Some? && History(cs).value.0 == OK
    ensures var t, last := History(cs).value.1, cs[|cs| - 1];
            && 0 < |t| <= 215 && KeepsTerminator(t) && StoresRaw(t, Escaped(last))
            && Stored(t) == Readings(Found(last.ssid), Found(last.password), Found(last.contract))
  {
    hide Render, ReadText, RawText, Escape, History;
    HistoryImage(cs);
    var last := cs[|cs| - 1];
    var es := CredEntries(last);
    ShapeSize(es);
    ReadName(es, 0, last.ssid);
    ReadName(es, 1, last.password);
    ReadName(es, 2, last.contract);
  }

  lemma ReadName(es: seq<Entry>, i: nat, v: seq<Byte>)
    requires Shape(es) && i < |es| && es[i].raw == Escape(v) && CommaFree(v)
    ensures RawText(Render(es), Name(i)) == Some(Escape(v)) && ReadText(Render(es), Name(i)) == Found(v)
  {
    hide Render, Find, Escape, Unescape, ReadText, RawText, Name, ValidKey;
    NamesAreKeys();
    LocateName(es, i);
    ReadInImage(es, Name(i));
    UnescapeEscape(v);
  }

  lemma UnescapeEscape(v: seq<Byte>)
    requires CommaFree(v)
    ensures Unescape(Escape(v)) == v
  {
    hide Escape, Unescape;
    EscapeCommaFree(v);
    CutCommaFree(v);
    CutCommaFree(Escape(v));
    UnescapeCut(v);
  }

  function Unescaped(raw: Triple): Triple {
    Triple(Unescape(raw.ssid), Unescape(raw.password), Unescape(raw.contract))
  }

  /** Reading back three stored forms places their values, each in the room of its stored form. */
  lemma RestoredIsPlaced(mem: seq<Byte>, t: seq<Byte>, raw: Triple)
    requires |mem| == CTX_SIZE && StoresRaw(t, raw) && Fits(raw, Copied(raw))
    ensures InitFits(t) && Fits(Unescaped(raw), Copied(raw))
    ensures Restored(mem, t) == Placed(mem, Unescaped(raw), Copied(raw))
  {
    hide RawText, Unescape, Overlay;
  }

  lemma StorableFits(c: Triple)
    requires StorableCreds(c)
    ensures Bounded(c) && Fits(c, Copied(Escaped(c))) && Unescaped(Escaped(c)) == c
    ensures |Escape(c.ssid)| < 64 && |Escape(c.password)| < 64 && |Escape(c.contract)| < 64
    ensures |c.ssid| < 64 && |c.password| < 64 && |c.contract| < 64
  {
    hide Escape, Unescape, CommaFree;
    EscapeCommaFree(c.ssid);
    EscapeCommaFree(c.password);
    EscapeCommaFree(c.contract);
    UnescapeEscape(c.ssid);
    UnescapeEscape(c.password);
    UnescapeEscape(c.contract);
  }

  /** A device whose sector carries any such history is in MQTT_INIT after one round of its main loop, with
      the last credentials, and the location of its hub, in its context. */
  method Reboot(ghost cs: seq<Triple>, ctx: AppCtx, store: Flash) returns (ok: bool)
    requires cs != [] && forall i :: 0 <= i < |cs| ==> StorableCreds(cs[i])
    requires store.Valid() && History(cs) == Some((OK, Text(store.sector[..])))
    requires ctx.Fields() && ctx.Snapshot() == BOOT && store.sector != ctx.mem
    modifies ctx, store.sector, ctx.mem
    ensures ctx.loopState == MqttInit && CtxCreds(ctx) == cs[|cs| - 1]
    ensures Hub(ctx.mem[..]) == old(Hub(ctx.mem[..]))
    ensures store.Valid() && Text(store.sector[..]) == old(Text(store.sector[..]))
  {
    hide ReadText, RawText, Text, Terminated, History, StorableCreds, Restored, Placed, Escape, Unescape, View;
    ghost var c, t, mem := cs[|cs| - 1], Text(store.sector[..]), ctx.mem[..];
    CredentialsSurvive(cs);
    StorableFits(c);
    RestoredIsPlaced(mem, t, Escaped(c));
    PlacedReads(mem, c, Copied(Escaped(c)));
    ok := FirstRound(ctx, store);
  }

  // ---- Which provisioned credentials survive ----

  lemma {:induction false} LocateConcat(a: seq<Entry>, b: seq<Entry>, k: seq<Byte>)
    ensures Locate(a + b, k) == if Locate(a, k) < |a| then Locate(a, k) else |a| + Locate(b, k)
  {
    hide Answers;
    if a == [] {
      assert a + b == b;
    } else {
      LocateConcat(a[1..], b, k);
      assert (a + b)[1..] == a[1..] + b;
    }
  }

  lemma {:induction false} LocateNowhere(es: seq<Entry>, k: seq<Byte>)
    requires forall i :: 0 <= i < |es| ==> es[i].Fragment?
    ensures Locate(es, k) == |es|
  {
    if es != [] {
      LocateNowhere(es[1..], k);
    }
  }

  /** The entries of one item: its live one answers to its own name, the fragments to none. */
  lemma LocateOwn(i: nat, j: nat, s: seq<Byte>)
    requires i < 3 && j < 3
    ensures var es := EntriesOf(Name(i), s);
            && Locate(es, Name(j)) == (if i == j then 0 else |es|)
            && |es| > 0 && es[0] == Live(Name(i), Cut(s))
  {
    hide Name;
    var c := ScanTo(s, COMMA, 0);
    var live, rest := Live(Name(i), s[..c]), FragmentsOf(s[c..]);
    NamesDistinct(i, j);
    LocateNowhere(rest, Name(j));
    LocateConcat([live], rest, Name(j));
    assert [live][1..] == [];
  }

  function Value(c: Triple, i: nat): seq<Byte>
    requires i < 3
  {
    if i == 0 then c.ssid else if i == 1 then c.password else c.contract
  }

  /** The image of a first provisioning, fragments included: the items of the first n credentials. */
  function FirstImage(c: Triple, n: nat): seq<Entry>
    requires n <= 3
  {
    if n == 0 then [] else FirstImage(c, n - 1) + EntriesOf(Name(n - 1), Escape(Value(c, n - 1)))
  }

  /** The length of that image. */
  function ImageLength(c: Triple, n: nat): nat
    requires n <= 3
  {
    if n == 0 then 0 else ImageLength(c, n - 1) + 2 + |Name(n - 1)| + |Escape(Value(c, n - 1))|
  }

  lemma {:induction false} LocateFirstImage(c: Triple, n: nat, j: nat)
    requires n <= 3 && j < 3
    ensures var es, at := FirstImage(c, n), Locate(FirstImage(c, n), Name(j));
            if j < n then at < |es| && es[at] == Live(Name(j), Cut(Escape(Value(c, j))))
            else at == |es|
  {
    hide Name, Escape, Cut, EntriesOf, Value;
    if n > 0 {
      LocateFirstImage(c, n - 1, j);
      LocateOwn(n - 1, j, Escape(Value(c, n - 1)));
      LocateConcat(FirstImage(c, n - 1), EntriesOf(Name(n - 1), Escape(Value(c, n - 1))), Name(j));
    }
  }

  lemma {:induction false} EscapeAtMostTwice(v: seq<Byte>)
    ensures |Escape(v)| <= 2 * |v|
  {
    if v != [] {
      EscapeAtMostTwice(v[1..]);
    }
  }

  /** Each write of a first provisioning appends its item. */
  lemma {:induction false} ProvisionStep(c: Triple, n: nat)
    requires n < 3 && Bounded(c)
    ensures AllOk(FirstImage(c, n)) && |Render(FirstImage(c, n))| == ImageLength(c, n) <= 138 * n
    ensures WriteText(Render(FirstImage(c, n)), Op(Name(n), Value(c, n))) ==
            Programmed(Render(FirstImage(c, n + 1)), true)
    ensures AllOk(FirstImage(c, n + 1)) && |Render(FirstImage(c, n + 1))| == ImageLength(c, n + 1)
            && 0 < ImageLength(c, n + 1) <= 138 * (n + 1)
  {
    hide Name, Escape, Render, Find, WriteText, UpsertText, ValidKey, NulFree, Value, EntriesOf, AllOk;
    if n == 0 {
      FirstImageNone(c);
    } else {
      ProvisionStep(c, n - 1);
    }
    var es, key, v := FirstImage(c, n), Name(n), Value(c, n);
    NamesAreKeys();
    LocateFirstImage(c, n, n);
    ValueBounded(c, n);
    EscapeAtMostTwice(v);
    EscapeGrows(v);
    UpsertInImage(es, key, v);
    AppendEntries(es, key, v);
    LandsSmall(Render(es), Op(key, v), Render(FirstImage(c, n + 1)));
  }

  lemma ValueBounded(c: Triple, i: nat)
    requires Bounded(c) && i < 3
    ensures NulFree(Value(c, i)) && |Value(c, i)| <= 64
  {
  }

  lemma FirstImageNone(c: Triple)
    ensures FirstImage(c, 0) == [] && AllOk([]) && Render([]) == [] && ImageLength(c, 0) == 0
  {
  }

  lemma AppendEntries(es: seq<Entry>, key: seq<Byte>, v: seq<Byte>)
    requires Locate(es, key) == |es| && key != [] && ValidKey(key) && NulFree(v)
    ensures UpsertEntries(es, key, v) == es + EntriesOf(key, Escape(v))
    ensures |Render(es + EntriesOf(key, Escape(v)))| == |Render(es)| + 2 + |key| + |Escape(v)|
  {
    hide EntriesOf, Escape, Render;
    EscapeGuarded(v);
    EntriesRender(key, Escape(v));
    RenderConcat(es, EntriesOf(key, Escape(v)));
  }

  /** A first provisioning, exactly: its three writes succeed unless the image fills a page after the second
      or the third, and then each credential is stored, and reads back, up to its first comma. */
  lemma FirstProvisioning(c: Triple)
    requires Bounded(c)
    ensures WriteSeq([], CredOps(c)) ==
            if ImageLength(c, 2) == PAGE_SIZE || ImageLength(c, 3) == PAGE_SIZE then None
            else Some((OK, Render(FirstImage(c, 3))))
    ensures forall i :: 0 <= i < 3 ==> RawText(Render(FirstImage(c, 3)), Name(i)) == Some(Cut(Escape(Value(c, i))))
    ensures forall i :: 0 <= i < 3 ==> ReadText(Render(FirstImage(c, 3)), Name(i)) == Found(Cut(Value(c, i)))
  {
    hide Escape, Render, WriteText, FirstImage, Cut, ReadText, RawText, ImageLength, NulFree;
    ProvisionStep(c, 0);
    ProvisionStep(c, 1);
    ProvisionStep(c, 2);
    FirstImageNone(c);
    var ops := CredOps(c);
    assert ops[1..] == [ops[1], ops[2]] && ops[1..][1..] == [ops[2]] && [ops[2]][1..] == [];
    var t1, t2, t3 := Render(FirstImage(c, 1)), Render(FirstImage(c, 2)), Render(FirstImage(c, 3));
    assert ops[0] == Op(Name(0), Value(c, 0)) && ops[1] == Op(Name(1), Value(c, 1));
    assert ops[2] == Op(Name(2), Value(c, 2)) && KeepsTerminator(t1);
    assert (KeepsTerminator(t2) <==> |t2| != PAGE_SIZE) && (KeepsTerminator(t3) <==> |t3| != PAGE_SIZE);
    assert WriteSeq(t2, [ops[2]]) == if |t3| == PAGE_SIZE then None else Some((OK, t3));
    assert WriteSeq(t1, [ops[1], ops[2]]) == if |t2| == PAGE_SIZE then None else WriteSeq(t2, [ops[2]]);
    assert WriteSeq([], ops) == WriteSeq(t1, [ops[1], ops[2]]);
    forall i | 0 <= i < 3
      ensures RawText(Render(FirstImage(c, 3)), Name(i)) == Some(Cut(Escape(Value(c, i))))
      ensures ReadText(Render(FirstImage(c, 3)), Name(i)) == Found(Cut(Value(c, i)))
    {
      LocateFirstImage(c, 3, i);
      ReadLocated(FirstImage(c, 3), i, Value(c, i));
    }
  }

  /** What a stored credential is, and what a read of it gives. */
  lemma ReadLocated(es: seq<Entry>, i: nat, v: seq<Byte>)
    requires AllOk(es) && i < 3
    requires var n := Locate(es, Name(i)); n < |es| && es[n] == Live(Name(i), Cut(Escape(v)))
    ensures RawText(Render(es), Name(i)) == Some(Cut(Escape(v))) && ReadText(Render(es), Name(i)) == Found(Cut(v))
  {
    hide Render, Find, Escape, Unescape, ReadText, RawText, Name, ValidKey, Cut, AllOk;
    NamesAreKeys();
    ReadInImage(es, Name(i));
    UnescapeCut(v);
  }

  /** Provisioned on a fresh sector from the memory mem, and found again in full by a reboot into the memory boot:
      the context holds the strings and the location of the hub both times, and all writes succeed. */
  ghost predicate Survives(c: Triple, mem: seq<Byte>, boot: seq<Byte>)
    requires |mem| == |boot| == CTX_SIZE && Bounded(c)
  {
    var m := Placed(mem, c, Copied(c));
    var r := WriteSeq([], CredOps(Strings(m)));
    && Strings(m) == c && Hub(m) == Hub(mem)
    && r.Some? && r.value.0 == OK && InitFits(r.value.1)
    && Strings(Restored(boot, r.value.1)) == c && Hub(Restored(boot, r.value.1)) == Hub(boot)
  }

  /** The test before the request is made. */
  predicate Survivable(c: Triple) {
    && (|c.ssid| < 64 || c.password == []) && (|c.password| < 64 || c.contract == []) && |c.contract| < 64
    && CommaFree(c.ssid) && CommaFree(c.password) && CommaFree(c.contract)
    && |Escape(c.password)| < 128 && |Escape(c.contract)| < 64
    && ImageLength(c, 2) != PAGE_SIZE && ImageLength(c, 3) != PAGE_SIZE
  }

  /** Of everything the parser accepts, exactly what passes the test survives. */
  lemma SurvivesExactly(c: Triple, mem: seq<Byte>, boot: seq<Byte>)
    requires Bounded(c) && |mem| == |boot| == CTX_SIZE && Hub(mem) != [] && Hub(boot) != []
    ensures Survives(c, mem, boot) <==> Survivable(c)
  {
    hide Escape, Hub, Strings, Placed, Restored, Cut, WriteSeq, CommaFree, ImageLength, RawText, NulFree, FirstImage;
    PlacedExactly(mem, c, Copied(c));
    FirstProvisioning(c);
    if |c.contract| < 64 && (|c.ssid| < 64 || c.password == []) && (|c.password| < 64 || c.contract == []) {
      RestoredExactly(c, boot, Render(FirstImage(c, 3)));
    }
  }

  /** The three strings up to their commas, as they are stored and as they read back. */
  function StoredCut(c: Triple): Triple {
    Triple(Cut(Escape(c.ssid)), Cut(Escape(c.password)), Cut(Escape(c.contract)))
  }

  function CutCreds(c: Triple): Triple {
    Triple(Cut(c.ssid), Cut(c.password), Cut(c.contract))
  }

  lemma RestoredExactly(c: Triple, boot: seq<Byte>, t: seq<Byte>)
    requires Bounded(c) && |boot| == CTX_SIZE && Hub(boot) != [] && |c.contract| < 64
    requires |c.ssid| < 64 || c.password == []
    requires |c.password| < 64 || c.contract == []
    requires forall i :: 0 <= i < 3 ==> RawText(t, Name(i)) == Some(Cut(Escape(Value(c, i))))
    ensures InitFits(t)
    ensures Strings(Restored(boot, t)) == c && Hub(Restored(boot, t)) == Hub(boot) <==>
            && CommaFree(c.ssid) && CommaFree(c.password) && CommaFree(c.contract)
            && |Escape(c.password)| < 128 && |Escape(c.contract)| < 64
  {
    hide Escape, Unescape, Hub, Strings, Placed, Restored, Cut, CommaFree, RawText, NulFree;
    assert Name(0) == SSID && Name(1) == PASSWORD && Name(2) == CONTRACT;
    assert Value(c, 0) == c.ssid && Value(c, 1) == c.password && Value(c, 2) == c.contract;
    CutOne(c.ssid);
    CutOne(c.password);
    CutOne(c.contract);
    RestoredIsPlaced(boot, t, StoredCut(c));
    PlacedReads(boot, CutCreds(c), Copied(StoredCut(c)));
  }

  lemma CutOne(v: seq<Byte>)
    ensures Unescape(Cut(Escape(v))) == Cut(v) && |Cut(Escape(v))| <= 2 * |v|
    ensures NulFree(v) ==> NulFree(Cut(v))
    ensures if CommaFree(v) then Cut(v) == v && Cut(Escape(v)) == Escape(v) else |Cut(v)| < |v|
  {
    UnescapeCut(v);
    EscapeAtMostTwice(v);
    CutCommaFree(v);
    if CommaFree(v) {
      EscapeCommaFree(v);
      CutCommaFree(Escape(v));
    }
  }

  // ---- The sector, byte by byte ----

  /** Without equals signs, commas and backslashes. */
  predicate PlainCreds(c: Triple) {
    forall v :: v in {c.ssid, c.password, c.contract} ==> 61 !in v && 44 !in v && 92 !in v && 0 !in v && |v| <= 63
  }

  /** Plain credentials of at most 63 bytes each are storable, survive, and stand in the sector as they are, each
      behind its name. */
  lemma PlainSector(c: Triple)
    requires PlainCreds(c)
    ensures StorableCreds(c) && Survivable(c)
    ensures WriteSeq([], CredOps(c)) ==
            Some((OK, Ascii(",ssid=") + c.ssid + Ascii(",password=") + c.password + Ascii(",contract=") + c.contract))
  {
    hide Escape, Render, WriteSeq, EntryText, Ascii, SSID, PASSWORD, CONTRACT, ImageLength, CommaFree;
    PlainValue(c, c.ssid);
    PlainValue(c, c.password);
    PlainValue(c, c.contract);
    WriteCreds([], c);
    RenderNone();
    var es := CredEntries(c);
    RenderThree(es[0], es[1], es[2]);
    NamesInAscii();
    ItemInFront(SSID, c.ssid, Ascii(",ssid="));
    ItemInFront(PASSWORD, c.password, Ascii(",password="));
    ItemInFront(CONTRACT, c.contract, Ascii(",contract="));
    Assoc(Ascii(",ssid=") + c.ssid, Ascii(",password="), c.password);
    Assoc(Ascii(",ssid=") + c.ssid + Ascii(",password=") + c.password, Ascii(",contract="), c.contract);
    PlainLength(c);
  }

  lemma PlainValue(c: Triple, v: seq<Byte>)
    requires PlainCreds(c) && v in {c.ssid, c.password, c.contract}
    ensures Escape(v) == v && Storable(v) && CommaFree(v) && |v| < 64
  {
    EscapeExactly(v);
  }

  lemma NamesInAscii()
    ensures Ascii(",ssid=") == [COMMA] + SSID + [EQUALS]
    ensures Ascii(",password=") == [COMMA] + PASSWORD + [EQUALS]
    ensures Ascii(",contract=") == [COMMA] + CONTRACT + [EQUALS]
  {
  }

  lemma RenderThree(a: Entry, b: Entry, c: Entry)
    ensures Render([a, b, c]) == ([COMMA] + EntryText(a)) + ([COMMA] + EntryText(b)) + ([COMMA] + EntryText(c))
  {
    hide EntryText, Render;
    RenderConcat([a] + [b], [c]);
    RenderConcat([a], [b]);
    RenderOne(a);
    RenderOne(b);
    RenderOne(c);
    assert [a] + [b] + [c] == [a, b, c];
  }

  /** An item in front of the others. */
  lemma ItemInFront(key: seq<Byte>, raw: seq<Byte>, head: seq<Byte>)
    requires head == [COMMA] + key + [EQUALS]
    ensures [COMMA] + EntryText(Live(key, raw)) == head + raw
  {
  }

  lemma PlainLength(c: Triple)
    requires |Escape(c.ssid)| <= 63 && |Escape(c.password)| <= 63 && |Escape(c.contract)| <= 63
    ensures ImageLength(c, 2) < PAGE_SIZE && ImageLength(c, 3) < PAGE_SIZE
  {
    hide Escape;
    assert ImageLength(c, 0) == 0;
    assert ImageLength(c, 1) <= 69;
  }
}
