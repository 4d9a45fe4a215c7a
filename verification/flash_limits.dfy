/** Which writes land, as tests a caller could make before the call, and what happens to the others. */
module FlashLimits {
  import opened Bytes
  import opened FlashText
  import opened FlashMap

  // ---- One write ----

  /** With keys and values that write accepts, the outcome is decided by a test on lengths before the
      call; OK without landing is exactly the splice guard. */
  lemma WhenWritesLand(t: seq<Byte>, op: Op)
    requires ValidKey(op.key) && |op.value| <= MAX_VAL_SIZE
    ensures var at := Find(t, op.key + [EQUALS]);
            var out, size := WriteText(t, op), |Item(op.key, op.value)|;
            match at
            case None =>
              && out != Unsafe
              && (out.Programmed? <==> |t| + 1 + size <= NVS_SIZE - 1)
              && (out.Programmed? ==> out.landed && |out.text| == |t| + 1 + size)
            case Some(start) =>
              var kept := start + (|t| - ScanTo(t, COMMA, start));
              && !out.Refused?
              && (out.Programmed? && !out.landed <==> 2 * start + |t| + size > NVS_SIZE + kept)
              && (out == Unsafe <==> kept + size > NVS_SIZE - 1 && 2 * start + |t| + size <= NVS_SIZE + kept)
              && (out.Programmed? && out.landed ==> |out.text| == kept + size <= NVS_SIZE - 1)
  {
    hide Escape;
  }

  /** The length the text would have after the write. */
  function NewLength(t: seq<Byte>, op: Op): int {
    var size := |Item(op.key, op.value)|;
    match Find(t, op.key + [EQUALS])
    case None => |t| + 1 + size
    case Some(start) => start + size + |t| - ScanTo(t, COMMA, start)
  }

  /** The test before the call: a key and value write accepts, room by the guard in force, a new length that
      fits with its terminator and does not fill its pages. */
  predicate Lands(t: seq<Byte>, op: Op) {
    && ValidKey(op.key) && |op.value| <= MAX_VAL_SIZE
    && (match Find(t, op.key + [EQUALS])
        case None => true
        case Some(start) => start + ScanTo(t, COMMA, start) + |Item(op.key, op.value)| <= NVS_SIZE)
    && NewLength(t, op) < NVS_SIZE && NewLength(t, op) % PAGE_SIZE != 0
  }

  /** Every write, whatever its key and value, ends in a terminated sector that holds it exactly when the
      test passes. */
  lemma LandsExactly(img: Image, op: Op)
    ensures var after := Advance(img, op);
            && (after.Some? && after.value.landed == img.landed + [op] <==> Lands(img.text, op))
            && (Lands(img.text, op) ==> |after.value.text| == NewLength(img.text, op))
  {
    hide Find, Escape, UpsertText, Item;
    assert img.landed != img.landed + [op] by { assert |img.landed + [op]| == |img.landed| + 1; }
    if ValidKey(op.key) && |op.value| <= MAX_VAL_SIZE {
      LandsByOutcome(img.text, op);
    }
  }

  lemma LandsByOutcome(t: seq<Byte>, op: Op)
    requires ValidKey(op.key) && |op.value| <= MAX_VAL_SIZE
    ensures var out := WriteText(t, op);
            && (out.Programmed? && out.landed && KeepsTerminator(out.text) <==> Lands(t, op))
            && (out.Programmed? && out.landed ==> |out.text| == NewLength(t, op))
  {
    hide Find, Escape, WriteText, Item;
    WhenWritesLand(t, op);
  }

  /** Twice the old length plus the new item within the sector is room enough in every case. */
  lemma RoomSuffices(t: seq<Byte>, op: Op)
    requires ValidKey(op.key) && |op.value| <= MAX_VAL_SIZE
    requires 2 * |t| + |Item(op.key, op.value)| <= NVS_SIZE - 1
    requires t == [] ==> |Item(op.key, op.value)| < NVS_SIZE - 1
    ensures WriteText(t, op).Programmed? && WriteText(t, op).landed
    ensures NewLength(t, op) % PAGE_SIZE != 0 ==> Lands(t, op)
  {
    hide Escape;
    WhenWritesLand(t, op);
  }

  /** Which writes are refused, and how: values of more than 256 bytes before keys with a backslash, a comma or an
      equals sign, and a new item that does not fit; nothing else is. */
  lemma RefusedExactly(t: seq<Byte>, op: Op)
    requires 0 !in op.key
    ensures var out := WriteText(t, op);
            var bad := 92 in op.key || 44 in op.key || 61 in op.key;
            && (out == Refused(VALSIZE) <==> |op.value| > 256)
            && (out == Refused(INVALIDKEY) <==> |op.value| <= 256 && bad)
            && (out == Refused(FLASHMEMSIZE) <==>
                  && |op.value| <= 256 && !bad && Find(t, op.key + [61]) == None
                  && |t| + 2 + |op.key| + |op.value| + Specials(op.value) > 4095)
            && out != Refused(OK)
  {
    hide Escape;
    EscapeExactly(op.value);
  }

  /** A first write, byte by byte: a comma, the key, an equals sign and the value, verbatim when it holds no equals
      sign, comma or backslash. */
  lemma FirstWrite(op: Op)
    requires 0 !in op.key && 92 !in op.key && 44 !in op.key && 61 !in op.key
    requires |op.value| <= 256 && 2 + |op.key| + |op.value| + Specials(op.value) <= 4095
    ensures WriteText([], op) == Programmed([44] + op.key + [61] + Escape(op.value), true)
    ensures Specials(op.value) == 0 ==> WriteText([], op) == Programmed([44] + op.key + [61] + op.value, true)
  {
    hide Escape;
    EscapeExactly(op.value);
    FindIsNone([], op.key + [61]);
    if Specials(op.value) == 0 {
      PlainIsVerbatim(op.value);
    }
  }

  lemma {:induction false} PlainIsVerbatim(v: seq<Byte>)
    requires Specials(v) == 0
    ensures Escape(v) == v
  {
    if v != [] {
      PlainIsVerbatim(v[1..]);
    }
  }

  // ---- Runs of writes that all land ----

  /** Conditions on the writes of a run, each on the text the run has reached. */
  predicate Roomy(ops: seq<Op>) {
    ops == [] ||
    var before, op := ops[..|ops| - 1], ops[|ops| - 1];
    && Roomy(before) && Run(before).Some?
    && var t, size := Run(before).value.text, |Item(op.key, op.value)|;
       && ValidKey(op.key) && |op.value| <= MAX_VAL_SIZE
       && 2 * |t| + size <= NVS_SIZE - 1 && (t == [] ==> size < NVS_SIZE - 1)
       && NewLength(t, op) % PAGE_SIZE != 0
  }

  lemma {:induction false} RoomyRunLands(ops: seq<Op>)
    requires Roomy(ops)
    ensures Run(ops).Some? && Run(ops).value.landed == ops
  {
    hide Lands, WriteText, Item, NewLength, Advance;
    if ops != [] {
      var before, op := ops[..|ops| - 1], ops[|ops| - 1];
      RoomyRunLands(before);
      RoomSuffices(Run(before).value.text, op);
      LandsExactly(Run(before).value, op);
      assert before + [op] == ops;
    }
  }

  /** The store refines a map: over any roomy run, with keys none of which ends with another, a read returns
      the last value written to its key up to the first comma, which is the value itself when it has none,
      and KEYNOTFOUND when the key was never written. */
  lemma ReadsLastWrite(ops: seq<Op>, keys: set<seq<Byte>>, k: seq<Byte>)
    requires CStrings(ops) && Roomy(ops)
    requires SuffixFree(keys) && KeysWithin(ops, keys)
    requires k in keys && k != [] && ValidKey(k)
    ensures Run(ops).Some?
    ensures var last := LastWrites(ops);
            && ReadText(Run(ops).value.text, k) == (if k in last then Found(Cut(last[k])) else KeyNotFound)
            && (k in last && CommaFree(last[k]) ==> ReadText(Run(ops).value.text, k) == Found(last[k]))
  {
    hide ReadText, Cut, Roomy;
    RoomyRunLands(ops);
    RunRefinesMap(ops, keys, k);
  }

  /** What a run can at most have stored. */
  function Budget(ops: seq<Op>): nat {
    if ops == [] then 0
    else
      var op := ops[|ops| - 1];
      Budget(ops[..|ops| - 1]) + 1 + |Item(op.key, op.value)|
  }

  /** A condition on the writes alone: accepted keys, and items that together stay below the first page. */
  lemma {:induction false} SmallRunsAreRoomy(ops: seq<Op>)
    requires forall i :: 0 <= i < |ops| ==> ValidKey(ops[i].key)
    requires Budget(ops) < PAGE_SIZE
    ensures Roomy(ops) && |Run(ops).value.text| <= Budget(ops)
  {
    hide Lands, WriteText, Advance, Escape, Find;
    if ops != [] {
      var before, op := ops[..|ops| - 1], ops[|ops| - 1];
      SmallRunsAreRoomy(before);
      RoomyRunLands(before);
      EscapeGrows(op.value);
      var t := Run(before).value.text;
      LengthGrows(t, op);
      RoomSuffices(t, op);
      LandsExactly(Run(before).value, op);
    }
  }

  lemma {:induction false} EscapeGrows(v: seq<Byte>)
    ensures |v| <= |Escape(v)|
  {
    if v != [] {
      EscapeGrows(v[1..]);
    }
  }

  lemma LengthGrows(t: seq<Byte>, op: Op)
    ensures 0 < NewLength(t, op) <= |t| + 1 + |Item(op.key, op.value)|
  {
    hide Escape;
  }

  // ---- Inputs that show why the conditions are needed ----

  const A: Byte := 97
  const K: Byte := 107

  lemma {:induction false} EscapePlain(v: seq<Byte>)
    requires forall i :: 0 <= i < |v| ==> !Special(v[i])
    ensures Escape(v) == v
  {
    if v != [] {
      EscapePlain(v[1..]);
    }
  }

  lemma {:induction false} EscapeAll(v: seq<Byte>)
    requires forall i :: 0 <= i < |v| ==> Special(v[i])
    ensures |Escape(v)| == 2 * |v|
  {
    if v != [] {
      EscapeAll(v[1..]);
    }
  }

  /** One ordinary write on a fresh sector, of a 253-byte value under a one-byte key: it answers OK, fills
      exactly one page, and the sector has lost its terminator. */
  lemma PageWitness()
    ensures var op := Op([K], seq(253, _ => A));
            && WriteText([], op).Programmed? && WriteText([], op).landed
            && |WriteText([], op).text| == PAGE_SIZE && Run([op]) == None
  {
    hide Escape, Find;
    var op := Op([K], seq(253, _ => A));
    EscapePlain(op.value);
    FindIsNone([], op.key + [EQUALS]);
    WhenWritesLand([], op);
    RunStep([], op);
    assert [] + [op] == [op];
  }

  /** Without suffix freedom, on two runs of the store: `kk` reads what was written to it, until `k` is
      written. */
  lemma SuffixWitness()
    ensures var o1, o2 := Op([K, K], [A]), Op([K], [K]);
            && Run([o1]).Some? && ReadText(Run([o1]).value.text, [K, K]) == Found([A])
            && Run([o1, o2]).Some? && ReadText(Run([o1, o2]).value.text, [K, K]) == Found([K])
  {
    hide ReadText, Run, Roomy, Find;
    var o1, o2 := Op([K, K], [A]), Op([K], [K]);
    SuffixBudget();
    SmallRunsAreRoomy([o1]);
    SmallRunsAreRoomy([o1, o2]);
    RoomyRunLands([o1]);
    RoomyRunLands([o1, o2]);
    RunReads([o1], [K, K]);
    RunReads([o1, o2], [K, K]);
    SuffixTable();
  }

  lemma SuffixBudget()
    ensures Budget([Op([K, K], [A])]) < PAGE_SIZE && Budget([Op([K, K], [A]), Op([K], [K])]) < PAGE_SIZE
  {
    EscapePlain([A]);
    EscapePlain([K]);
    assert [Op([K, K], [A]), Op([K], [K])][..1] == [Op([K, K], [A])];
    assert [Op([K, K], [A])][..0] == [];
  }

  lemma ReplayStep(ops: seq<Op>, op: Op)
    ensures Replay(ops + [op]) == Put(Replay(ops), op.key, op.value)
  {
    hide Put;
    assert (ops + [op])[..|ops|] == ops;
  }

  lemma SuffixTable()
    ensures var o1, o2 := Op([K, K], [A]), Op([K], [K]);
            Get(Replay([o1]), [K, K]) == Found([A]) && Get(Replay([o1, o2]), [K, K]) == Found([K])
  {
    var o1, o2 := Op([K, K], [A]), Op([K], [K]);
    var m := Put([], [K, K], [A]);
    ReplayStep([], o1);
    ReplayStep([o1], o2);
    assert [] + [o1] == [o1] && [o1] + [o2] == [o1, o2];
    WriteThenRead([], [K, K], [A], [K, K]);
    WriteThenRead(m, [K], [K], [K, K]);
    CutCommaFree([A]);
    CutCommaFree([K]);
    assert m[0].key[1..] == [K];
  }

  function Pair2(o1: Op, o2: Op): seq<Entry> {
    [Live(o1.key, Escape(o1.value)), Live(o2.key, Escape(o2.value))]
  }

  /** Two writes of comma-free values on a fresh sector, the second key not matching the first entry. */
  lemma TwoWrites(o1: Op, o2: Op)
    requires forall o :: o in [o1, o2] ==>
               && o.key != [] && ValidKey(o.key)
               && NulFree(o.value) && CommaFree(Escape(o.value)) && |o.value| <= MAX_VAL_SIZE
    requires !EndsWith(o1.key, o2.key)
    requires var n1, n2 := 1 + |Item(o1.key, o1.value)|, 1 + |Item(o2.key, o2.value)|;
             n1 + n2 < NVS_SIZE && n1 % PAGE_SIZE != 0 && (n1 + n2) % PAGE_SIZE != 0
    ensures AllOk(Pair2(o1, o2))
    ensures Run([o1, o2]) == Some(Image(Render(Pair2(o1, o2)), [o1, o2]))
    ensures |Render(Pair2(o1, o2)[..1])| == 1 + |Item(o1.key, o1.value)|
    ensures |Render(Pair2(o1, o2))| == 2 + |Item(o1.key, o1.value)| + |Item(o2.key, o2.value)|
  {
    hide Find, Escape, Render, WriteText, EndsWith, ValidKey;
    assert o1 in [o1, o2] && o2 in [o1, o2];
    var e1, e2 := Live(o1.key, Escape(o1.value)), Live(o2.key, Escape(o2.value));
    EscapeGuarded(o1.value);
    EscapeGuarded(o2.value);
    RenderNone();
    RenderTwo(e1, e2);
    FindIsNone([], o1.key + [EQUALS]);
    AppendLands(Image([], []), [], o1);
    FindInImage([e1], o2.key);
    AppendLands(Image(Render([e1]), [o1]), [e1], o2);
    RunStep([], o1);
    RunStep([o1], o2);
    assert [] + [o1] == [o1] && [o1] + [o2] == [o1, o2] && [e1] + [e2] == [e1, e2] && [] + [e1] == [e1];
    assert Pair2(o1, o2)[..1] == [e1];
  }

  lemma RenderOne(e: Entry)
    ensures Render([e]) == [COMMA] + EntryText(e)
  {
    hide EntryText;
    assert [e][1..] == [];
  }

  lemma RenderTwo(e1: Entry, e2: Entry)
    ensures Render([e1]) == [COMMA] + EntryText(e1)
    ensures Render([e1] + [e2]) == Render([e1]) + ([COMMA] + EntryText(e2))
  {
    hide Render, EntryText;
    RenderConcat([e1], [e2]);
    RenderOne(e1);
    RenderOne(e2);
  }

  lemma AppendLands(img: Image, es: seq<Entry>, op: Op)
    requires img.text == Render(es) && ValidKey(op.key) && |op.value| <= MAX_VAL_SIZE
    requires Find(img.text, op.key + [EQUALS]) == None
    requires |img.text| + 1 + |Item(op.key, op.value)| < NVS_SIZE
    requires (|img.text| + 1 + |Item(op.key, op.value)|) % PAGE_SIZE != 0
    ensures Advance(img, op) == Some(Image(Render(es + [Live(op.key, Escape(op.value))]), img.landed + [op]))
  {
    hide Find, Escape, Render;
    var e := Live(op.key, Escape(op.value));
    RenderConcat(es, [e]);
    RenderOne(e);
    Assoc(Render(es), [COMMA], EntryText(e));
    assert EntryText(e) == Item(op.key, op.value);
  }

  function LongKey(n: nat, c: Byte): seq<Byte> {
    seq(n, _ => c)
  }

  /** A lost write on a reachable image: after a 2100-byte key, rewriting a key stored behind it reports
      OK, and the old value is still read. */
  lemma DroppedWitness()
    ensures var ops := [Op(LongKey(2100, A), []), Op([K], [A]), Op([K], [K])];
            && Run(ops).Some? && Run(ops[..2]).Some?
            && WriteText(Run(ops[..2]).value.text, ops[2]) == Programmed(Run(ops).value.text, false)
            && ReadText(Run(ops).value.text, [K]) == Found([A])
  {
    hide Find, Render, WriteText, ReadText, Unescape, ScanTo;
    var o1, o2, o3 := Op(LongKey(2100, A), []), Op([K], [A]), Op([K], [K]);
    EscapePlain([]);
    EscapePlain([A]);
    EscapePlain([K]);
    assert o1.key[2099] == A;
    TwoWrites(o1, o2);
    var es := Pair2(o1, o2);
    DroppedThird(es, o1, o2, o3);
    RunStep([o1, o2], o3);
    assert [o1, o2] + [o3] == [o1, o2, o3] && [o1, o2, o3][..2] == [o1, o2];
  }

  lemma DroppedThird(es: seq<Entry>, o1: Op, o2: Op, o3: Op)
    requires o1 == Op(LongKey(2100, A), []) && o2 == Op([K], [A]) && o3 == Op([K], [K]) && es == Pair2(o1, o2)
    requires AllOk(es) && |Render(es[..1])| == 2102 && |Render(es)| == 2106
    ensures WriteText(Render(es), o3) == Programmed(Render(es), false)
    ensures ReadText(Render(es), [K]) == Found([A])
  {
    hide Find, Render, WriteText, ReadText, Unescape, ScanTo, AllOk;
    EscapePlain([]);
    EscapePlain([A]);
    EscapePlain([K]);
    assert o1.key[2099] == A;
    FindInImage(es, [K]);
    ScanInImage(es, 1, 2103);
    WhenWritesLand(Render(es), o3);
    SameText(Render(es), o3);
    ReadInImage(es, [K]);
    UnescapeCut([A]);
    CutCommaFree([A]);
  }

  /** Programming without landing leaves the text as it was. */
  lemma SameText(t: seq<Byte>, op: Op)
    ensures WriteText(t, op).Programmed? && !WriteText(t, op).landed ==> WriteText(t, op).text == t
  {
  }

  /** An overrun on a reachable image: behind a short first entry stands a 3600-byte key; rewriting the first
      entry with a value write accepts passes the splice guard, and 4117 bytes go into the 4096-byte buffer. */
  lemma OverrunWitness()
    ensures var ops := [Op([A], []), Op(LongKey(3600, K), []), Op([A], seq(256, _ => EQUALS))];
            && Run(ops[..2]).Some?
            && WriteText(Run(ops[..2]).value.text, ops[2]) == Unsafe
            && NewLength(Run(ops[..2]).value.text, ops[2]) == 4117
  {
    hide Find, Render, WriteText, ScanTo;
    var o1, o2, o3 := Op([A], []), Op(LongKey(3600, K), []), Op([A], seq(256, _ => EQUALS));
    EscapePlain([]);
    EscapeAll(o3.value);
    TwoWrites(o1, o2);
    var es := Pair2(o1, o2);
    assert Answers(es[0], [A]) by { assert [A][0..] == [A]; }
    FindInImage(es, [A]);
    RenderNone();
    assert es[..0] == [];
    ScanInImage(es, 0, 1);
    WhenWritesLand(Render(es), o3);
    assert [o1, o2, o3][..2] == [o1, o2];
  }
}
