/** The text format of the flash store and what a search, a read and an upsert do to it. */
module FlashText {
  import opened Bytes

  const NVS_SIZE := 4096
  const MAX_VAL_SIZE := 256
  const PAGE_SIZE := 256

  predicate Special(c: Byte) {
    c == EQUALS || c == COMMA || c == BACKSLASH
  }

  function EscapeByte(c: Byte): seq<Byte> {
    if Special(c) then [BACKSLASH, c] else [c]
  }

  function Escape(v: seq<Byte>): seq<Byte> {
    if v == [] then [] else EscapeByte(v[0]) + Escape(v[1..])
  }

  /** What the unescape loop of read leaves: a backslash is dropped and the byte after it is kept. */
  function Unescape(s: seq<Byte>): (v: seq<Byte>)
    ensures |v| <= |s|
  {
    if s == [] then []
    else if s[0] != BACKSLASH then [s[0]] + Unescape(s[1..])
    else if |s| == 1 then []
    else [s[1]] + Unescape(s[2..])
  }

  lemma {:induction false} EscapeConcat(a: seq<Byte>, b: seq<Byte>)
    ensures Escape(a + b) == Escape(a) + Escape(b)
  {
    hide EscapeByte;
    if a == [] {
      assert a + b == b;
    } else {
      EscapeConcat(a[1..], b);
      assert (a + b)[1..] == a[1..] + b;
      Assoc(EscapeByte(a[0]), Escape(a[1..]), Escape(b));
    }
  }

  /** How many equals signs, commas and backslashes v holds. */
  function Specials(v: seq<Byte>): nat {
    if v == [] then 0 else (if v[0] == 61 || v[0] == 44 || v[0] == 92 then 1 else 0) + Specials(v[1..])
  }

  /** The stored form is longer by one byte for each equals sign, comma and backslash, and is the value itself when
      there is none. */
  lemma {:induction false} EscapeExactly(v: seq<Byte>)
    ensures |Escape(v)| == |v| + Specials(v)
    ensures 61 !in v && 44 !in v && 92 !in v ==> Specials(v) == 0 && Escape(v) == v
  {
    if v != [] {
      EscapeExactly(v[1..]);
    }
  }

  /** Anywhere in a value, an equals sign, a comma and a backslash are stored behind a backslash, and every other
      byte is stored as itself. */
  lemma StoredByte(before: seq<Byte>, c: Byte, after: seq<Byte>)
    ensures Escape(before + [c] + after) ==
            Escape(before) + (if c == 61 || c == 44 || c == 92 then [92, c] else [c]) + Escape(after)
  {
    EscapeConcat(before + [c], after);
    EscapeConcat(before, [c]);
    assert [c][1..] == [];
  }

  lemma {:induction false} UnescapeNulFree(s: seq<Byte>)
    requires NulFree(s)
    ensures NulFree(Unescape(s))
  {
    if s != [] {
      UnescapeNulFree(if s[0] != BACKSLASH then s[1..] else if |s| == 1 then [] else s[2..]);
    }
  }

  /** A value up to its first comma. */
  function Cut(v: seq<Byte>): seq<Byte> {
    v[..ScanTo(v, COMMA, 0)]
  }

  predicate KeyByte(c: Byte) {
    c != BACKSLASH && c != COMMA && c != EQUALS && c != NUL
  }

  predicate ValidKey(k: seq<Byte>) {
    forall i :: 0 <= i < |k| ==> KeyByte(k[i])
  }

  function Item(k: seq<Byte>, v: seq<Byte>): seq<Byte> {
    k + [EQUALS] + Escape(v)
  }

  // ---- The operations, on the text of the image ----

  datatype Upsert = Updated(text: seq<Byte>) | Rejected | Dropped | Overrun

  /** upsert_key on a valid key: append when the key is absent, otherwise splice over the item found.
      Dropped is the splice guard tripping (its result is ignored by the caller); Overrun is a splice
      that the guard lets through although the new text and its terminator do not fit the buffer. */
  function UpsertText(t: seq<Byte>, k: seq<Byte>, v: seq<Byte>): Upsert {
    var item := Item(k, v);
    match Find(t, k + [EQUALS])
    case None =>
      if |item| + |t| + 1 > NVS_SIZE - 1 then Rejected else Updated(t + [COMMA] + item)
    case Some(start) =>
      var end := ScanTo(t, COMMA, start);
      var endSz := |t| - end;
      if |t| + (start - endSz) + |item| > NVS_SIZE then Dropped
      else if start + |item| + endSz > NVS_SIZE - 1 then Overrun
      else Updated(t[..start] + item + t[end..])
  }

  datatype Reading = Found(value: seq<Byte>) | KeyNotFound

  /** The bytes of a value as they are stored. */
  function RawText(t: seq<Byte>, k: seq<Byte>): Option<seq<Byte>> {
    match Find(t, k + [EQUALS])
    case None => None
    case Some(start) =>
      var val := start + |k| + 1;
      Some(t[val..ScanTo(t, COMMA, val)])
  }

  function ReadText(t: seq<Byte>, k: seq<Byte>): Reading {
    match RawText(t, k)
    case None => KeyNotFound
    case Some(raw) => Found(Unescape(raw))
  }

  // ---- The structure of an image ----

  /** Every comma starts a segment. A segment is a live item, or what an overwrite left of a value
      that contained a comma. */
  datatype Entry = Live(key: seq<Byte>, raw: seq<Byte>) | Fragment(bytes: seq<Byte>)

  /** Every equals sign follows a backslash. */
  predicate Guarded(s: seq<Byte>) {
    NulFree(s) && forall i :: 0 <= i < |s| && s[i] == EQUALS ==> i > 0 && s[i - 1] == BACKSLASH
  }

  predicate CommaFree(s: seq<Byte>) {
    forall i :: 0 <= i < |s| ==> s[i] != COMMA
  }

  predicate EntryOk(e: Entry) {
    match e
    case Live(k, r) => k != [] && ValidKey(k) && Guarded(r) && CommaFree(r)
    case Fragment(b) => Guarded(b) && CommaFree(b)
  }

  predicate AllOk(es: seq<Entry>) {
    forall i :: 0 <= i < |es| ==> EntryOk(es[i])
  }

  function EntryText(e: Entry): seq<Byte> {
    match e
    case Live(k, r) => k + [EQUALS] + r
    case Fragment(b) => b
  }

  function Render(es: seq<Entry>): (t: seq<Byte>)
    ensures es != [] ==> t != [] && t[0] == COMMA
    ensures es == [] ==> t == []
  {
    if es == [] then [] else [COMMA] + EntryText(es[0]) + Render(es[1..])
  }

  predicate EndsWith(s: seq<Byte>, k: seq<Byte>) {
    |k| <= |s| && s[|s| - |k|..] == k
  }

  predicate Answers(e: Entry, k: seq<Byte>) {
    e.Live? && EndsWith(e.key, k)
  }

  /** The first entry whose key ends with k, or |es|. */
  function Locate(es: seq<Entry>, k: seq<Byte>): (n: nat)
    ensures n <= |es|
    ensures n < |es| ==> Answers(es[n], k)
    ensures forall i :: 0 <= i < n ==> !Answers(es[i], k)
  {
    if es == [] || Answers(es[0], k) then 0 else 1 + Locate(es[1..], k)
  }

  // ---- Rendering ----

  lemma {:induction false} RenderConcat(a: seq<Entry>, b: seq<Entry>)
    ensures Render(a + b) == Render(a) + Render(b)
  {
    hide EntryText;
    if a == [] {
      assert a + b == b;
    } else {
      RenderConcat(a[1..], b);
      assert (a + b)[1..] == a[1..] + b;
      Assoc([COMMA] + EntryText(a[0]), Render(a[1..]), Render(b));
    }
  }

  lemma RenderAt(es: seq<Entry>, n: nat)
    requires n < |es|
    ensures Render(es) == Render(es[..n]) + [COMMA] + EntryText(es[n]) + Render(es[n + 1..])
  {
    hide EntryText;
    var a, b := es[..n], es[n..];
    assert es == a + b && b[1..] == es[n + 1..];
    RenderConcat(a, b);
    var text := EntryText(es[n]);
    Assoc(Render(a), [COMMA] + text, Render(es[n + 1..]));
    Assoc(Render(a), [COMMA], text);
  }

  lemma RenderPrefix(es: seq<Entry>, n: nat)
    requires 0 < n <= |es|
    ensures |Render(es[..n])| == 1 + |EntryText(es[0])| + |Render(es[1..][..n - 1])|
  {
    assert es[..n][1..] == es[1..][..n - 1];
  }

  // ---- The search lands only on a separator ----

  /** In an entry followed by a comma or the end, `k=` stands exactly before the entry's own separator,
      and only when the entry's key ends with k. */
  lemma MatchInEntry(e: Entry, rest: seq<Byte>, k: seq<Byte>, j: nat)
    requires EntryOk(e) && k != [] && ValidKey(k)
    requires rest != [] ==> rest[0] == COMMA
    requires j < 1 + |EntryText(e)|
    ensures MatchAt([COMMA] + EntryText(e) + rest, k + [EQUALS], j)
            <==> Answers(e, k) && j == 1 + |e.key| - |k|
  {
    hide MatchAt, EndsWith;
    var t := [COMMA] + EntryText(e) + rest;
    MatchBytes(t, k + [EQUALS], j);
    if MatchAt(t, k + [EQUALS], j) {
      MatchEndsAtSeparator(e, rest, k, j);
    }
    if e.Live? {
      EndsWithBytes(e.key, k);
      if j > 0 && j + |k| == 1 + |e.key| {
        LiveBytes(e, rest);
        MatchAtKeyEnd(t, e.key, k, j);
      }
    }
  }

  lemma LiveBytes(e: Entry, rest: seq<Byte>)
    requires e.Live?
    ensures KeyStands([COMMA] + EntryText(e) + rest, e.key)
  {
  }

  /** t starts with a comma, the key and its separator. */
  predicate KeyStands(t: seq<Byte>, key: seq<Byte>) {
    && |key| + 1 < |t| && t[|key| + 1] == EQUALS
    && forall x :: 0 < x <= |key| ==> t[x] == key[x - 1]
  }

  /** Where k ends with the key, the bytes of a match are the bytes of the key's tail. */
  lemma MatchAtKeyEnd(t: seq<Byte>, key: seq<Byte>, k: seq<Byte>, j: nat)
    requires KeyStands(t, key) && j > 0 && j + |k| == 1 + |key|
    ensures MatchAt(t, k + [EQUALS], j) <==> EndsWith(key, k)
  {
    hide MatchAt, EndsWith;
    var p := k + [EQUALS];
    MatchBytes(t, p, j);
    EndsWithBytes(key, k);
    if MatchAt(t, p, j) {
      forall y | |key| - |k| <= y < |key| ensures key[y] == k[y - (|key| - |k|)] {
        assert t[y + 1] == p[y + 1 - j];
      }
    }
    if EndsWith(key, k) {
      forall x | j <= x < j + |p| ensures t[x] == p[x - j] {
        assert x < j + |k| ==> key[x - 1] == k[x - j];
      }
    }
  }

  lemma EndsWithBytes(s: seq<Byte>, k: seq<Byte>)
    ensures EndsWith(s, k) <==> |k| <= |s| && forall x :: |s| - |k| <= x < |s| ==> s[x] == k[x - (|s| - |k|)]
  {
    if |k| <= |s| {
      var tail := s[|s| - |k|..];
      if tail == k {
        forall x | |s| - |k| <= x < |s| ensures s[x] == k[x - (|s| - |k|)] {
          assert tail[x - (|s| - |k|)] == s[x];
        }
      }
    }
  }

  lemma MatchEndsAtSeparator(e: Entry, rest: seq<Byte>, k: seq<Byte>, j: nat)
    requires EntryOk(e) && k != [] && ValidKey(k)
    requires rest != [] ==> rest[0] == COMMA
    requires j < 1 + |EntryText(e)|
    requires MatchAt([COMMA] + EntryText(e) + rest, k + [EQUALS], j)
    ensures e.Live? && j > 0 && j + |k| == 1 + |e.key|
  {
    hide MatchAt, EntryOk, EntryText;
    var text := EntryText(e);
    var t := [COMMA] + text + rest;
    var p := k + [EQUALS];
    MatchBytes(t, p, j);
    var q := j + |k|;
    assert KeyByte(k[|k| - 1]) && t[q - 1] == k[|k| - 1] && t[q] == EQUALS;
    forall x | j <= x <= q ensures t[x] != COMMA {
      assert t[x] == p[x - j];
      assert x < q ==> KeyByte(k[x - j]);
    }
    assert t[0] == COMMA && (rest != [] ==> t[1 + |text|] == COMMA);
    assert j > 0 && q <= |text|;
    assert text[q - 1] == t[q] && (q > 1 ==> text[q - 2] == t[q - 1]);
    SeparatorIsUnguarded(e, q - 1);
  }

  /** An equals sign with a key byte before it is the separator of a live entry. */
  lemma SeparatorIsUnguarded(e: Entry, i: nat)
    requires EntryOk(e) && 0 < i < |EntryText(e)|
    requires EntryText(e)[i] == EQUALS && KeyByte(EntryText(e)[i - 1])
    ensures e.Live? && i == |e.key|
  {
    var text := EntryText(e);
    match e
    case Fragment(b) =>
    case Live(k, r) =>
      assert forall x :: 0 <= x < |k| ==> text[x] == k[x] && KeyByte(k[x]);
      assert forall x :: 0 <= x < |r| ==> text[|k| + 1 + x] == r[x];
      assert forall x :: 0 <= x < |r| && r[x] == EQUALS ==> text[|k| + x] == BACKSLASH;
  }

  /** Where `k=` starts in the image, when entry n answers to k. */
  function Spot(es: seq<Entry>, n: nat, k: seq<Byte>): nat
    requires n < |es| && Answers(es[n], k)
  {
    |Render(es[..n])| + 1 + |es[n].key| - |k|
  }

  /** strstr for `k=` on a well-formed image finds the first live key that ends with k, and nothing else:
      never a fragment, never the inside of a value. */
  lemma {:induction false} FindInImage(es: seq<Entry>, k: seq<Byte>)
    requires AllOk(es) && k != [] && ValidKey(k)
    ensures var n := Locate(es, k);
            Find(Render(es), k + [EQUALS]) == if n == |es| then None else Some(Spot(es, n, k))
  {
    hide Find, EntryOk, Render, Spot;
    if es == [] {
      RenderNone();
      FindIsNone(Render(es), k + [EQUALS]);
    } else {
      if Answers(es[0], k) {
        FindInFirst(es, k);
      } else {
        FindInRest(es, k);
        FindInImage(es[1..], k);
        SpotInRest(es, k);
      }
    }
  }

  lemma RenderNone()
    ensures Render([]) == []
  {
  }

  lemma SpotInRest(es: seq<Entry>, k: seq<Byte>)
    requires es != [] && !Answers(es[0], k)
    ensures Locate(es, k) == 1 + Locate(es[1..], k)
    ensures var n := Locate(es[1..], k);
            n < |es| - 1 ==> Spot(es, n + 1, k) == 1 + |EntryText(es[0])| + Spot(es[1..], n, k)
  {
    var n := Locate(es[1..], k);
    if n < |es| - 1 {
      RenderPrefix(es, n + 1);
    }
  }

  lemma FindInFirst(es: seq<Entry>, k: seq<Byte>)
    requires AllOk(es) && k != [] && ValidKey(k)
    requires es != [] && Answers(es[0], k)
    ensures Find(Render(es), k + [EQUALS]) == Some(Spot(es, 0, k))
  {
    hide MatchAt, Find;
    var e, rest, spot := es[0], Render(es[1..]), Spot(es, 0, k);
    assert EntryOk(e);
    forall j: nat | j <= spot
      ensures MatchAt([COMMA] + EntryText(e) + rest, k + [EQUALS], j) <==> j == spot
    {
      MatchInEntry(e, rest, k, j);
    }
    FindIs([COMMA] + EntryText(e) + rest, k + [EQUALS], spot);
  }

  lemma FindInRest(es: seq<Entry>, k: seq<Byte>)
    requires AllOk(es) && k != [] && ValidKey(k)
    requires es != [] && !Answers(es[0], k)
    ensures Find(Render(es), k + [EQUALS]) ==
            match Find(Render(es[1..]), k + [EQUALS])
            case None => None
            case Some(r) => Some(1 + |EntryText(es[0])| + r)
  {
    hide MatchAt, Find, EntryOk, EntryText;
    var e, rest := es[0], Render(es[1..]);
    var head := [COMMA] + EntryText(e);
    assert EntryOk(e);
    forall j: nat | j < |head| ensures !MatchAt(head + rest, k + [EQUALS], j) {
      MatchInEntry(e, rest, k, j);
    }
    FindSkips(head, rest, k + [EQUALS]);
  }

  /** From inside entry n, the next comma (or the end of the text) is the end of entry n. */
  lemma ScanInImage(es: seq<Entry>, n: nat, i: nat)
    requires AllOk(es) && n < |es|
    requires |Render(es[..n])| < i <= |Render(es[..n])| + 1 + |EntryText(es[n])|
    ensures i <= |Render(es)|
    ensures ScanTo(Render(es), COMMA, i) == |Render(es[..n])| + 1 + |EntryText(es[n])|
  {
    RenderAt(es, n);
    var t, at, text := Render(es), |Render(es[..n])|, EntryText(es[n]);
    assert EntryOk(es[n]);
    assert CommaFree(text);
    forall k | i <= k < at + 1 + |text| ensures t[k] != COMMA {
      assert t[k] == text[k - at - 1];
    }
    ScanToIs(t, COMMA, i, at + 1 + |text|);
  }

  // ---- Splitting an escaped value at its commas ----

  /** Text that is empty or starts with a comma, as leftover segments. */
  function FragmentsOf(s: seq<Byte>): (fs: seq<Entry>)
    requires s != [] ==> s[0] == COMMA
    ensures forall i :: 0 <= i < |fs| ==> fs[i].Fragment?
    decreases |s|
  {
    if s == [] then []
    else
      var c := ScanTo(s, COMMA, 1);
      [Fragment(s[1..c])] + FragmentsOf(s[c..])
  }

  function EntriesOf(key: seq<Byte>, s: seq<Byte>): seq<Entry> {
    var c := ScanTo(s, COMMA, 0);
    [Live(key, s[..c])] + FragmentsOf(s[c..])
  }

  lemma GuardedSlices(s: seq<Byte>, c: nat)
    requires Guarded(s) && 1 <= c <= |s| && s[0] == COMMA && (c < |s| ==> s[c] == COMMA)
    ensures Guarded(s[1..c]) && Guarded(s[c..])
  {
  }

  lemma {:induction false} FragmentsRender(s: seq<Byte>)
    requires Guarded(s) && (s != [] ==> s[0] == COMMA)
    ensures Render(FragmentsOf(s)) == s && AllOk(FragmentsOf(s))
    decreases |s|
  {
    if s == [] {
      RenderNone();
    } else {
      hide Guarded, CommaFree, FragmentsOf, Render, AllOk;
      var c := ScanTo(s, COMMA, 1);
      var f, rest := Fragment(s[1..c]), FragmentsOf(s[c..]);
      FragmentsSplit(s);
      GuardedSlices(s, c);
      CommaFreeSlice(s, c);
      FragmentsRender(s[c..]);
      RenderCons(f, rest);
      AllOkCons(f, rest);
      SplitAfterFirst(s, c);
    }
  }

  lemma FragmentsSplit(s: seq<Byte>)
    requires s != [] && s[0] == COMMA
    ensures var c := ScanTo(s, COMMA, 1);
            FragmentsOf(s) == [Fragment(s[1..c])] + FragmentsOf(s[c..])
  {
  }

  lemma CommaFreeSlice(s: seq<Byte>, c: nat)
    requires s != [] && c == ScanTo(s, COMMA, 1)
    ensures CommaFree(s[1..c])
  {
  }

  lemma SplitAfterFirst(s: seq<Byte>, c: nat)
    requires 1 <= c <= |s|
    ensures s == [s[0]] + s[1..c] + s[c..]
  {
  }

  lemma AllOkCons(e: Entry, es: seq<Entry>)
    requires EntryOk(e) && AllOk(es)
    ensures AllOk([e] + es)
  {
  }

  lemma RenderCons(e: Entry, es: seq<Entry>)
    ensures Render([e] + es) == [COMMA] + EntryText(e) + Render(es)
  {
    assert ([e] + es)[1..] == es;
  }

  lemma EntriesRender(key: seq<Byte>, s: seq<Byte>)
    requires key != [] && ValidKey(key) && Guarded(s)
    ensures Render(EntriesOf(key, s)) == [COMMA] + (key + [EQUALS] + s) && AllOk(EntriesOf(key, s))
  {
    var c := ScanTo(s, COMMA, 0);
    var live, rest := Live(key, s[..c]), FragmentsOf(s[c..]);
    assert EntryOk(live);
    FragmentsRender(s[c..]);
    RenderConcat([live], rest);
    Reassociate(key + [EQUALS], s, c);
  }

  lemma Reassociate(a: seq<Byte>, s: seq<Byte>, c: nat)
    requires c <= |s|
    ensures [COMMA] + (a + s[..c]) + s[c..] == [COMMA] + (a + s)
  {
    assert s == s[..c] + s[c..];
  }

  lemma {:induction false} EscapeGuarded(v: seq<Byte>)
    requires NulFree(v)
    ensures Guarded(Escape(v))
  {
    if v != [] {
      EscapeGuarded(v[1..]);
    }
  }

  lemma CutEscaped(c: Byte, rest: seq<Byte>)
    requires c != COMMA
    ensures Cut(EscapeByte(c) + rest) == EscapeByte(c) + Cut(rest)
  {
    var n := |EscapeByte(c)|;
    ScanToIs(EscapeByte(c) + rest, COMMA, 0, n + ScanTo(rest, COMMA, 0));
  }

  lemma CutCons(c: Byte, rest: seq<Byte>)
    requires c != COMMA
    ensures Cut([c] + rest) == [c] + Cut(rest)
  {
    ScanToIs([c] + rest, COMMA, 0, 1 + ScanTo(rest, COMMA, 0));
  }

  lemma UnescapeFirst(c: Byte, rest: seq<Byte>)
    ensures Unescape(EscapeByte(c) + rest) == [c] + Unescape(rest)
  {
    var e := EscapeByte(c) + rest;
    assert e[|EscapeByte(c)|..] == rest;
  }

  /** Unescaping inverts escaping, and a stored value cut at its first (escaped) comma reads as the
      original cut at its first comma. */
  lemma {:induction false} UnescapeCut(v: seq<Byte>)
    ensures Unescape(Cut(Escape(v))) == Cut(v)
  {
    if v != [] {
      var e := Escape(v);
      if v[0] == COMMA {
        assert e[0] == BACKSLASH && e[1] == COMMA;
        ScanToIs(e, COMMA, 0, 1);
        assert Cut(e) == [BACKSLASH];
      } else {
        hide Unescape, Cut, EscapeByte;
        UnescapeCut(v[1..]);
        CutEscaped(v[0], Escape(v[1..]));
        UnescapeFirst(v[0], Cut(Escape(v[1..])));
        CutCons(v[0], v[1..]);
        assert [v[0]] + v[1..] == v;
      }
    }
  }

  lemma CutCommaFree(v: seq<Byte>)
    ensures Cut(v) == v <==> CommaFree(v)
  {
    var c := ScanTo(v, COMMA, 0);
    assert c < |v| ==> v[c] == COMMA;
  }

  // ---- Upsert and read on entries ----

  function UpsertEntries(es: seq<Entry>, k: seq<Byte>, v: seq<Byte>): seq<Entry> {
    var n := Locate(es, k);
    if n == |es| then es + EntriesOf(k, Escape(v))
    else es[..n] + EntriesOf(es[n].key, Escape(v)) + es[n + 1..]
  }

  /** An upsert that goes through rewrites exactly the value of the entry found: the entries before and
      after it are kept, and the image stays well formed. */
  lemma UpsertInImage(es: seq<Entry>, k: seq<Byte>, v: seq<Byte>)
    requires AllOk(es) && k != [] && ValidKey(k) && NulFree(v)
    ensures UpsertText(Render(es), k, v).Updated? ==>
              UpsertText(Render(es), k, v).text == Render(UpsertEntries(es, k, v))
    ensures AllOk(UpsertEntries(es, k, v))
  {
    hide Find, Render;
    var n := Locate(es, k);
    EscapeGuarded(v);
    FindInImage(es, k);
    if n == |es| {
      EntriesRender(k, Escape(v));
      RenderConcat(es, EntriesOf(k, Escape(v)));
    } else {
      assert EntryOk(es[n]);
      EntriesRender(es[n].key, Escape(v));
      SpliceInImage(es, n, k, v);
    }
  }

  lemma SpliceInImage(es: seq<Entry>, n: nat, k: seq<Byte>, v: seq<Byte>)
    requires AllOk(es) && NulFree(v)
    requires n < |es| && Answers(es[n], k)
    ensures var t, start := Render(es), Spot(es, n, k);
            && start <= |t|
            && t[..start] + Item(k, v) + t[ScanTo(t, COMMA, start)..]
               == Render(es[..n] + EntriesOf(es[n].key, Escape(v)) + es[n + 1..])
  {
    hide Render, Escape, EntriesOf, EntryOk, ScanTo;
    var key, s := es[n].key, Escape(v);
    KeyOfEntry(es, n);
    EscapeGuarded(v);
    EntriesRender(key, s);
    RenderConcat(es[..n], EntriesOf(key, s));
    RenderConcat(es[..n] + EntriesOf(key, s), es[n + 1..]);
    RenderAt(es, n);
    ScanInImage(es, n, Spot(es, n, k));
    SpliceBytes(Render(es[..n]), key, k, es[n].raw, s, Render(es[n + 1..]));
  }

  lemma KeyOfEntry(es: seq<Entry>, n: nat)
    requires AllOk(es) && n < |es| && es[n].Live?
    ensures es[n].key != [] && ValidKey(es[n].key)
  {
    assert EntryOk(es[n]);
  }

  lemma SpliceBytes(pre: seq<Byte>, key: seq<Byte>, k: seq<Byte>, raw: seq<Byte>, s: seq<Byte>, post: seq<Byte>)
    requires EndsWith(key, k)
    ensures var t := pre + [COMMA] + (key + [EQUALS] + raw) + post;
            t[..|pre| + 1 + |key| - |k|] + (k + [EQUALS] + s) + t[|pre| + 1 + |key| + 1 + |raw|..]
            == pre + ([COMMA] + (key + [EQUALS] + s)) + post
  {
    var x := key[..|key| - |k|];
    assert key == x + k;
    var t := pre + [COMMA] + (key + [EQUALS] + raw) + post;
    assert t == (pre + [COMMA] + x) + (k + [EQUALS] + raw + post);
    assert t[..|pre| + 1 + |x|] == pre + [COMMA] + x;
    assert t[|pre| + 1 + |key| + 1 + |raw|..] == post;
  }

  /** A read returns the unescaped value of the first live entry whose key ends with k. */
  lemma ReadInImage(es: seq<Entry>, k: seq<Byte>)
    requires AllOk(es) && k != [] && ValidKey(k)
    ensures var n := Locate(es, k);
            && RawText(Render(es), k) == (if n == |es| then None else Some(es[n].raw))
            && ReadText(Render(es), k) == (if n == |es| then KeyNotFound else Found(Unescape(es[n].raw)))
  {
    hide Find, Render, Unescape, Spot, AllOk, ScanTo, ValidKey;
    var n := Locate(es, k);
    FindInImage(es, k);
    if n < |es| {
      RawInImage(es, n, k);
    }
  }

  lemma RawInImage(es: seq<Entry>, n: nat, k: seq<Byte>)
    requires AllOk(es) && n < |es| && Answers(es[n], k)
    ensures var t, val := Render(es), Spot(es, n, k) + |k| + 1;
            val <= |t| && t[val..ScanTo(t, COMMA, val)] == es[n].raw
  {
    hide Render;
    var t, at, val := Render(es), |Render(es[..n])|, Spot(es, n, k) + |k| + 1;
    RenderAt(es, n);
    ScanInImage(es, n, val);
    var text := EntryText(es[n]);
    assert t[at + 1..at + 1 + |text|] == text;
    assert text[|es[n].key| + 1..] == es[n].raw;
    assert t[val..at + 1 + |text|] == t[at + 1..at + 1 + |text|][|es[n].key| + 1..];
  }
}
