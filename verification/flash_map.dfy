/** What a run of writes means: the store is a list of keys searched by suffix, and a map when no key
    ends with another. */
module FlashMap {
  import opened Bytes
  import opened FlashText

  datatype Pair = Pair(key: seq<Byte>, value: seq<Byte>)

  /** The first pair whose key ends with k, or |m|. */
  function Slot(m: seq<Pair>, k: seq<Byte>): (n: nat)
    ensures n <= |m|
    ensures n < |m| ==> EndsWith(m[n].key, k)
    ensures forall i :: 0 <= i < n ==> !EndsWith(m[i].key, k)
  {
    if m == [] || EndsWith(m[0].key, k) then 0 else 1 + Slot(m[1..], k)
  }

  lemma {:induction false} SlotIs(m: seq<Pair>, k: seq<Byte>, n: nat)
    requires n <= |m| && (n < |m| ==> EndsWith(m[n].key, k))
    requires forall i :: 0 <= i < n ==> !EndsWith(m[i].key, k)
    ensures Slot(m, k) == n
  {
    if n > 0 {
      SlotIs(m[1..], k, n - 1);
    }
  }

  function Put(m: seq<Pair>, k: seq<Byte>, v: seq<Byte>): seq<Pair> {
    var n := Slot(m, k);
    if n == |m| then m + [Pair(k, Cut(v))] else m[n := Pair(m[n].key, Cut(v))]
  }

  function Get(m: seq<Pair>, k: seq<Byte>): Reading {
    var n := Slot(m, k);
    if n == |m| then KeyNotFound else Found(m[n].value)
  }

  /** Whether a write to k is what a read of j sees. */
  predicate Shares(m: seq<Pair>, k: seq<Byte>, j: seq<Byte>) {
    if Slot(m, k) < |m| then Slot(m, j) == Slot(m, k)
    else Slot(m, j) == |m| && EndsWith(k, j)
  }

  /** The interference law: exactly which reads a write changes. */
  lemma WriteThenRead(m: seq<Pair>, k: seq<Byte>, v: seq<Byte>, j: seq<Byte>)
    ensures Get(Put(m, k, v), j) == if Shares(m, k, j) then Found(Cut(v)) else Get(m, j)
    ensures Shares(m, k, k)
  {
    assert EndsWith(k, k);
    var n, m' := Slot(m, j), Put(m, k, v);
    if n < |m| || EndsWith(k, j) || Slot(m, k) < |m| {
      SlotIs(m', j, n);
    } else {
      SlotIs(m', j, |m'|);
    }
  }

  // ---- The image as such a list ----

  /** The live entries with their values; fragments are invisible. */
  function Abs(es: seq<Entry>): seq<Pair> {
    if es == [] then []
    else (if es[0].Live? then [Pair(es[0].key, Unescape(es[0].raw))] else []) + Abs(es[1..])
  }

  lemma {:induction false} AbsConcat(a: seq<Entry>, b: seq<Entry>)
    ensures Abs(a + b) == Abs(a) + Abs(b)
  {
    hide Unescape;
    if a == [] {
      assert a + b == b;
    } else {
      AbsConcat(a[1..], b);
      assert (a + b)[1..] == a[1..] + b;
      Assoc(if a[0].Live? then [Pair(a[0].key, Unescape(a[0].raw))] else [], Abs(a[1..]), Abs(b));
    }
  }

  lemma {:induction false} AbsSlot(es: seq<Entry>, k: seq<Byte>)
    ensures var n := Locate(es, k);
            && Slot(Abs(es), k) == |Abs(es[..n])|
            && (n == |es| <==> Slot(Abs(es), k) == |Abs(es)|)
  {
    var n := Locate(es, k);
    assert es == es[..n] + es[n..];
    AbsConcat(es[..n], es[n..]);
    AbsNoAnswer(es[..n], k);
    SlotIs(Abs(es), k, |Abs(es[..n])|);
  }

  lemma {:induction false} AbsNoAnswer(es: seq<Entry>, k: seq<Byte>)
    requires forall i :: 0 <= i < |es| ==> !Answers(es[i], k)
    ensures forall i :: 0 <= i < |Abs(es)| ==> !EndsWith(Abs(es)[i].key, k)
  {
    if es != [] {
      assert !Answers(es[0], k);
      AbsNoAnswer(es[1..], k);
    }
  }

  lemma AbsAt(es: seq<Entry>, n: nat)
    requires n < |es| && es[n].Live?
    ensures Abs(es) == Abs(es[..n]) + [Pair(es[n].key, Unescape(es[n].raw))] + Abs(es[n + 1..])
  {
    hide Unescape;
    var a, b := es[..n], es[n..];
    assert es == a + b && b[1..] == es[n + 1..];
    AbsConcat(a, b);
    Assoc(Abs(a), [Pair(es[n].key, Unescape(es[n].raw))], Abs(es[n + 1..]));
  }

  lemma {:induction false} AbsFragments(s: seq<Byte>)
    requires s != [] ==> s[0] == COMMA
    ensures Abs(FragmentsOf(s)) == []
    decreases |s|
  {
    if s != [] {
      var c := ScanTo(s, COMMA, 1);
      AbsFragments(s[c..]);
      assert FragmentsOf(s)[1..] == FragmentsOf(s[c..]);
    }
  }

  lemma AbsEntries(key: seq<Byte>, v: seq<Byte>)
    ensures Abs(EntriesOf(key, Escape(v))) == [Pair(key, Cut(v))]
  {
    var s := Escape(v);
    UnescapeCut(v);
    AbsFragments(s[ScanTo(s, COMMA, 0)..]);
    assert EntriesOf(key, s)[1..] == FragmentsOf(s[ScanTo(s, COMMA, 0)..]);
  }

  /** Reading the text of an image is looking up its list. */
  lemma ReadIsGet(es: seq<Entry>, k: seq<Byte>)
    requires AllOk(es) && k != [] && ValidKey(k)
    ensures ReadText(Render(es), k) == Get(Abs(es), k)
  {
    hide Find, Render, Unescape;
    ReadInImage(es, k);
    AbsSlot(es, k);
    var n := Locate(es, k);
    if n < |es| {
      AbsAt(es, n);
    }
  }

  /** Upserting entries is putting into the list: no other pair changes, whatever commas the old and the
      new value hold. */
  lemma UpsertIsPut(es: seq<Entry>, k: seq<Byte>, v: seq<Byte>)
    ensures Abs(UpsertEntries(es, k, v)) == Put(Abs(es), k, v)
  {
    hide EntriesOf, Escape, Unescape;
    AbsSlot(es, k);
    var n := Locate(es, k);
    if n == |es| {
      AbsEntries(k, v);
      AbsConcat(es, EntriesOf(k, Escape(v)));
    } else {
      var key := es[n].key;
      var mid := EntriesOf(key, Escape(v));
      AbsEntries(key, v);
      AbsConcat(es[..n], mid);
      AbsConcat(es[..n] + mid, es[n + 1..]);
      AbsAt(es, n);
      PutInMiddle(Abs(es[..n]), Pair(key, Unescape(es[n].raw)), Abs(es[n + 1..]), k, v);
    }
  }

  lemma PutInMiddle(a: seq<Pair>, p: Pair, b: seq<Pair>, k: seq<Byte>, v: seq<Byte>)
    requires Slot(a + [p] + b, k) == |a|
    ensures Put(a + [p] + b, k, v) == a + [Pair(p.key, Cut(v))] + b
  {
  }

  /** One write on a well-formed image, for every key and value: the key written reads as the value up to its
      first comma, and so does exactly every other key that shares its slot. */
  lemma WriteReads(es: seq<Entry>, k: seq<Byte>, v: seq<Byte>, j: seq<Byte>)
    requires AllOk(es) && NulFree(v) && k != [] && ValidKey(k) && j != [] && ValidKey(j)
    requires UpsertText(Render(es), k, v).Updated?
    ensures ReadText(UpsertText(Render(es), k, v).text, j) ==
            if Shares(Abs(es), k, j) then Found(Cut(v)) else ReadText(Render(es), j)
    ensures Shares(Abs(es), k, k)
  {
    hide Find, Render, Escape, Cut, UpsertText, ReadText, UpsertEntries, Shares;
    UpsertInImage(es, k, v);
    UpsertIsPut(es, k, v);
    ReadIsGet(UpsertEntries(es, k, v), j);
    ReadIsGet(es, j);
    WriteThenRead(Abs(es), k, v, j);
    WriteThenRead(Abs(es), k, v, k);
  }

  // ---- What commas cost ----

  function Commas(s: seq<Byte>): nat {
    if s == [] then 0 else (if s[0] == COMMA then 1 else 0) + Commas(s[1..])
  }

  /** Fragments never go away: every write adds as many as its value has commas, so rewriting a value that
      holds commas grows the image each time. */
  lemma FragmentsAccumulate(es: seq<Entry>, k: seq<Byte>, v: seq<Byte>)
    ensures var es' := UpsertEntries(es, k, v);
            |es'| - |Abs(es')| == |es| - |Abs(es)| + Commas(v)
  {
    hide EntriesOf, Escape, Abs;
    UpsertIsPut(es, k, v);
    AbsSlot(es, k);
    var n := Locate(es, k);
    var key := if n == |es| then k else es[n].key;
    EntriesCount(key, Escape(v));
    EscapeCommas(v);
  }

  lemma EntriesCount(key: seq<Byte>, s: seq<Byte>)
    ensures |EntriesOf(key, s)| == 1 + Commas(s)
  {
    var c := ScanTo(s, COMMA, 0);
    FragmentsCount(s[c..]);
    CommasSkip(s, c);
  }

  lemma {:induction false} CommasSkip(s: seq<Byte>, c: nat)
    requires c <= |s| && forall i :: 0 <= i < c ==> s[i] != COMMA
    ensures Commas(s) == Commas(s[c..])
  {
    if c == 0 {
      assert s[0..] == s;
    } else {
      CommasSkip(s[1..], c - 1);
      assert s[1..][c - 1..] == s[c..];
    }
  }

  lemma {:induction false} FragmentsCount(s: seq<Byte>)
    requires s != [] ==> s[0] == COMMA
    ensures |FragmentsOf(s)| == Commas(s)
    decreases |s|
  {
    if s != [] {
      var c := ScanTo(s, COMMA, 1);
      FragmentsCount(s[c..]);
      CommasSkip(s[1..], c - 1);
      assert s[1..][c - 1..] == s[c..];
    }
  }

  lemma {:induction false} EscapeCommas(v: seq<Byte>)
    ensures Commas(Escape(v)) == Commas(v)
  {
    if v != [] {
      EscapeCommas(v[1..]);
      var e := Escape(v);
      if Special(v[0]) {
        assert e[0] == BACKSLASH && e[1..][0] == v[0] && e[1..][1..] == Escape(v[1..]);
      } else {
        assert e[1..] == Escape(v[1..]);
      }
    }
  }

  // ---- Runs ----

  datatype Op = Op(key: seq<Byte>, value: seq<Byte>)

  datatype Status = OK | FLASHMEMSIZE | INVALIDKEY | VALSIZE

  /** Refused: an error comes back and the sector is left alone. Programmed: OK comes back and the sector
      now holds text; landed tells whether the new value is in it. */
  datatype Outcome = Refused(status: Status) | Programmed(text: seq<Byte>, landed: bool) | Unsafe

  function WriteText(t: seq<Byte>, op: Op): Outcome {
    if |op.value| > MAX_VAL_SIZE then Refused(VALSIZE)
    else if !ValidKey(op.key) then Refused(INVALIDKEY)
    else
      match UpsertText(t, op.key, op.value)
      case Rejected => Refused(FLASHMEMSIZE)
      case Overrun => Unsafe
      case Dropped => Programmed(t, false)
      case Updated(t') => Programmed(t', true)
  }

  /** Only whole pages are programmed, so a text that fills its pages loses its terminator. */
  predicate KeepsTerminator(t: seq<Byte>) {
    |t| % PAGE_SIZE != 0
  }

  /** A sector's text and the writes it holds, in order. */
  datatype Image = Image(text: seq<Byte>, landed: seq<Op>)

  function Advance(img: Image, op: Op): Option<Image> {
    match WriteText(img.text, op)
    case Refused(_) => Some(img)
    case Unsafe => None
    case Programmed(t, landed) =>
      if !KeepsTerminator(t) then None
      else Some(Image(t, if landed then img.landed + [op] else img.landed))
  }

  /** The image after a run of writes on a fresh sector, or None when a write of the run overran the
      buffer or programmed a text without its terminator. */
  function Run(ops: seq<Op>): Option<Image> {
    if ops == [] then Some(Image([], []))
    else
      match Run(ops[..|ops| - 1])
      case None => None
      case Some(img) => Advance(img, ops[|ops| - 1])
  }

  function Replay(ops: seq<Op>): seq<Pair> {
    if ops == [] then []
    else
      var op := ops[|ops| - 1];
      Put(Replay(ops[..|ops| - 1]), op.key, op.value)
  }

  function LastWrites(ops: seq<Op>): map<seq<Byte>, seq<Byte>> {
    if ops == [] then map[]
    else
      var op := ops[|ops| - 1];
      LastWrites(ops[..|ops| - 1])[op.key := op.value]
  }

  predicate CStrings(ops: seq<Op>) {
    forall i :: 0 <= i < |ops| ==> ops[i].key != [] && NulFree(ops[i].key) && NulFree(ops[i].value)
  }

  ghost predicate Holds(img: Image, es: seq<Entry>) {
    AllOk(es) && img.text == Render(es) && Abs(es) == Replay(img.landed)
  }

  lemma AdvanceHolds(img: Image, es: seq<Entry>, op: Op)
    requires Holds(img, es) && op.key != [] && NulFree(op.value)
    ensures Advance(img, op).Some? ==>
              Holds(Advance(img, op).value, es) || Holds(Advance(img, op).value, UpsertEntries(es, op.key, op.value))
  {
    hide Find, Render, Escape, UpsertText, UpsertEntries;
    if ValidKey(op.key) {
      UpsertInImage(es, op.key, op.value);
      UpsertIsPut(es, op.key, op.value);
      assert (img.landed + [op])[..|img.landed|] == img.landed;
    }
  }

  /** After any run the sector is a well-formed image of the writes that landed: every equals sign is a
      live key's separator or follows a backslash, leftovers included. */
  lemma {:induction false} RunHolds(ops: seq<Op>) returns (es: seq<Entry>)
    requires CStrings(ops) && Run(ops).Some?
    ensures Holds(Run(ops).value, es)
  {
    if ops == [] {
      es := [];
    } else {
      var op, before := ops[|ops| - 1], ops[..|ops| - 1];
      es := RunHolds(before);
      AdvanceHolds(Run(before).value, es, op);
      if !Holds(Run(ops).value, es) {
        es := UpsertEntries(es, op.key, op.value);
      }
    }
  }

  /** Exact behaviour of every run, for every key and value: a read sees the suffix-searched list of the
      writes that landed, each value cut at its first comma. */
  lemma RunReads(ops: seq<Op>, k: seq<Byte>)
    requires CStrings(ops) && Run(ops).Some?
    requires k != [] && ValidKey(k)
    ensures ReadText(Run(ops).value.text, k) == Get(Replay(Run(ops).value.landed), k)
  {
    var es := RunHolds(ops);
    ReadIsGet(es, k);
  }

  ghost predicate SuffixFree(keys: set<seq<Byte>>) {
    forall a, b :: a in keys && b in keys && EndsWith(a, b) ==> a == b
  }

  ghost predicate KeysWithin(ops: seq<Op>, keys: set<seq<Byte>>) {
    forall i :: 0 <= i < |ops| ==> ops[i].key in keys
  }

  lemma {:induction false} ReplayKeys(ops: seq<Op>, keys: set<seq<Byte>>)
    requires KeysWithin(ops, keys)
    ensures forall i :: 0 <= i < |Replay(ops)| ==> Replay(ops)[i].key in keys
  {
    if ops != [] {
      ReplayKeys(ops[..|ops| - 1], keys);
    }
  }

  lemma {:induction false} ReplayIsMap(ops: seq<Op>, keys: set<seq<Byte>>, k: seq<Byte>)
    requires SuffixFree(keys) && KeysWithin(ops, keys) && k in keys
    ensures Get(Replay(ops), k) ==
            if k in LastWrites(ops) then Found(Cut(LastWrites(ops)[k])) else KeyNotFound
  {
    if ops != [] {
      var op, before := ops[|ops| - 1], ops[..|ops| - 1];
      ReplayIsMap(before, keys, k);
      ReplayKeys(before, keys);
      var m := Replay(before);
      WriteThenRead(m, op.key, op.value, k);
      assert op.key in keys;
      var n := Slot(m, k);
      assert n < |m| ==> m[n].key in keys;
      assert Shares(m, op.key, k) <==> op.key == k;
    }
  }

  /** The store refines a map: over any run, with keys none of which ends with another, a read returns
      the last landed value up to its first comma, and KEYNOTFOUND when there was none. */
  lemma RunRefinesMap(ops: seq<Op>, keys: set<seq<Byte>>, k: seq<Byte>)
    requires CStrings(ops) && Run(ops).Some?
    requires SuffixFree(keys) && KeysWithin(ops, keys)
    requires k in keys && k != [] && ValidKey(k)
    ensures var last := LastWrites(Run(ops).value.landed);
            && ReadText(Run(ops).value.text, k) == (if k in last then Found(Cut(last[k])) else KeyNotFound)
            && (k in last && CommaFree(last[k]) ==> ReadText(Run(ops).value.text, k) == Found(last[k]))
  {
    RunReads(ops, k);
    LandedKeys(ops, keys);
    var landed := Run(ops).value.landed;
    ReplayIsMap(landed, keys, k);
    if k in LastWrites(landed) {
      CutCommaFree(LastWrites(landed)[k]);
    }
  }

  lemma RunStep(ops: seq<Op>, op: Op)
    ensures Run(ops + [op]) == match Run(ops) { case None => None case Some(img) => Advance(img, op) }
  {
    assert (ops + [op])[..|ops|] == ops;
  }

  lemma {:induction false} LandedKeys(ops: seq<Op>, keys: set<seq<Byte>>)
    requires Run(ops).Some? && KeysWithin(ops, keys)
    ensures KeysWithin(Run(ops).value.landed, keys)
  {
    hide WriteText;
    if ops != [] {
      LandedKeys(ops[..|ops| - 1], keys);
    }
  }
}
