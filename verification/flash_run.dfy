/** Runs of the flash store itself. */
module FlashRun {
  import opened Bytes
  import opened FlashText
  import opened FlashMap
  import opened FlashLimits
  import opened FlashStore

  lemma {:induction false} RunPrefix(ops: seq<Op>, n: nat)
    requires Run(ops).Some? && n <= |ops|
    ensures Run(ops[..n]).Some?
  {
    hide Advance;
    if n == |ops| {
      assert ops[..n] == ops;
    } else {
      RunPrefix(ops[..|ops| - 1], n);
      assert ops[..|ops| - 1][..n] == ops[..n];
    }
  }

  /** Write i of the run answers OK exactly when it programs the sector. */
  predicate Answered(ops: seq<Op>, i: nat, status: Status)
    requires i < |ops|
  {
    && Run(ops[..i]).Some?
    && var out := WriteText(Run(ops[..i]).value.text, ops[i]);
       status == if out.Refused? then out.status else OK
  }

  /** A run of writes on a zeroed sector, none of which overruns the buffer or loses the terminator, leaves the image
      of that run. */
  method WriteAll(store: Flash, ops: seq<Op>) returns (statuses: seq<Status>)
    requires store.Valid() && Text(store.sector[..]) == []
    requires CStrings(ops) && Run(ops).Some?
    modifies store.sector
    ensures store.Valid() && Text(store.sector[..]) == Run(ops).value.text
    ensures |statuses| == |ops|
    ensures forall i :: 0 <= i < |ops| ==> Answered(ops, i, statuses[i])
  {
    hide WriteText, Text, Terminated, Run;
    statuses := [];
    NoWrites();
    for n := 0 to |ops|
      invariant store.Valid() && |statuses| == n
      invariant Run(ops[..n]).Some? && Text(store.sector[..]) == Run(ops[..n]).value.text
      invariant forall i :: 0 <= i < n ==> Answered(ops, i, statuses[i])
    {
      RunPrefix(ops, n + 1);
      assert ops[..n + 1] == ops[..n] + [ops[n]];
      RunStep(ops[..n], ops[n]);
      var s := store.Write(ops[n].key, ops[n].value);
      statuses := statuses + [s];
    }
    assert ops[..|ops|] == ops;
  }

  lemma NoWrites()
    ensures Run([]) == Some(Image([], []))
  {
  }

  /** The store as a map: on a device fresh from the factory, after any roomy run under keys none of which ends with
      another, read answers with the last value written to its key up to the first comma, KEYNOTFOUND if there
      was none, and leaves it as a string at the place asked for. */
  method WriteAllThenRead(store: Flash, ops: seq<Op>, keys: set<seq<Byte>>, k: seq<Byte>, out: array<Byte>, at: nat)
    returns (r: Option<Reading>)
    requires store.sector.Length == NVS_SIZE && IsErased(store.sector[..]) && out != store.sector
    requires CStrings(ops) && Roomy(ops) && SuffixFree(keys) && KeysWithin(ops, keys)
    requires k in keys && k != [] && ValidKey(k) && at + NVS_SIZE <= out.Length
    modifies store.sector, out
    ensures var last := LastWrites(ops);
            && r == Some(if k in last then Found(Cut(last[k])) else KeyNotFound)
            && (k in last ==> View(out[..], at) == Cut(last[k]))
            && (k in last && CommaFree(last[k]) ==> View(out[..], at) == last[k])
            && (k !in last ==> out[..] == old(out[..]))
  {
    hide ReadText, RawText, Roomy, Text, Terminated, LastWrites, Cut, Run, View, Overlay, Unescape;
    ghost var was := out[..];
    store.InitializeFlash(false);
    RoomyRunLands(ops);
    var _ := WriteAll(store, ops);
    ReadsLastWrite(ops, keys, k);
    ghost var t := Text(store.sector[..]);
    RawFits(store.sector[..], k);
    r := store.Read(k, out, at);
    ReadIsRaw(t, k);
    if RawText(t, k).Some? {
      UnescapeNulFree(RawText(t, k).value);
      OverlayView(was, at, Unescape(RawText(t, k).value), |RawText(t, k).value| + 1);
    }
    if k in LastWrites(ops) {
      CutCommaFree(LastWrites(ops)[k]);
    }
  }

  lemma RawFits(sector: seq<Byte>, k: seq<Byte>)
    requires Terminated(sector)
    ensures var raw := RawText(Text(sector), k);
            raw.Some? ==> |raw.value| + 1 <= |sector| && NulFree(raw.value)
  {
    FindBounds(Text(sector), k + [EQUALS]);
  }

  lemma ReadIsRaw(t: seq<Byte>, k: seq<Byte>)
    ensures ReadText(t, k) == match RawText(t, k) { case None => KeyNotFound case Some(raw) => Found(Unescape(raw)) }
  {
    hide RawText, Unescape;
  }
}
