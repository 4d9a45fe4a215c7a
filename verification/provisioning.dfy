/** The provisioning request: recovering the credentials from a compact JSON object by first-match search. */
module Provisioning {
  import opened Bytes
  import opened AppState
  import opened ContextStrings
  import opened Credentials
  import FlashStore

  const COLON: Byte := 58
  const LBRACE: Byte := 123
  const RBRACE: Byte := 125
  const TOKEN: seq<Byte> := [116, 111, 107, 101, 110]

  datatype Field = Field(name: seq<Byte>, value: seq<Byte>)

  predicate QuoteFree(s: seq<Byte>) {
    forall i :: 0 <= i < |s| ==> s[i] != QUOTE
  }

  /** A name without any of JSON's punctuation. */
  predicate Plain(n: seq<Byte>) {
    n != [] && forall i :: 0 <= i < |n| ==> n[i] !in {QUOTE, COLON, COMMA, RBRACE}
  }

  predicate FieldsOk(fs: seq<Field>) {
    forall i :: 0 <= i < |fs| ==> QuoteFree(fs[i].name) && QuoteFree(fs[i].value)
  }

  function FieldText(f: Field): seq<Byte> {
    [QUOTE] + f.name + [QUOTE, COLON, QUOTE] + f.value + [QUOTE]
  }

  function Body(fs: seq<Field>): (t: seq<Byte>)
    ensures t != []
  {
    if fs == [] then [RBRACE]
    else FieldText(fs[0]) + (if |fs| == 1 then [] else [COMMA]) + Body(fs[1..])
  }

  function Print(fs: seq<Field>): seq<Byte> {
    [LBRACE] + Body(fs)
  }

  function Query(n: seq<Byte>): seq<Byte> {
    [QUOTE] + n + [QUOTE, COLON, QUOTE]
  }

  /** strstr for the query, then strchr for the closing quote. */
  function Extract(json: seq<Byte>, n: seq<Byte>): Option<seq<Byte>> {
    match Find(json, Query(n))
    case None => None
    case Some(at) =>
      var start := at + |Query(n)|;
      var end := ScanTo(json, QUOTE, start);
      if end == |json| then None else Some(json[start..end])
  }

  /** The value of the first field of that name. */
  function Lookup(fs: seq<Field>, n: seq<Byte>): Option<seq<Byte>> {
    if fs == [] then None
    else if fs[0].name == n then Some(fs[0].value)
    else Lookup(fs[1..], n)
  }

  // ---- The search lands only on the name of a field ----

  /** s stands in t between the quotes at `at` and at + 1 + |s|. */
  predicate QuotedAt(t: seq<Byte>, at: nat, s: seq<Byte>) {
    && at + |s| + 1 < |t| && t[at] == QUOTE && t[at + 1 + |s|] == QUOTE
    && forall x :: at < x <= at + |s| ==> t[x] == s[x - at - 1]
  }

  lemma QuotedAgree(t: seq<Byte>, at: nat, a: seq<Byte>, b: seq<Byte>)
    requires QuotedAt(t, at, a) && QuotedAt(t, at, b) && QuoteFree(a) && QuoteFree(b)
    ensures a == b
  {
    assert forall x :: at < x <= at + |a| ==> t[x] == a[x - at - 1] && t[x] != QUOTE;
    assert forall x :: at < x <= at + |b| ==> t[x] == b[x - at - 1] && t[x] != QUOTE;
    assert |a| == |b|;
    forall i | 0 <= i < |a| ensures a[i] == b[i] {
      assert t[at + 1 + i] == b[i];
    }
  }

  lemma QueryIsQuoted(t: seq<Byte>, n: seq<Byte>, j: nat)
    ensures MatchAt(t, Query(n), j) <==>
            QuotedAt(t, j, n) && j + |n| + 3 < |t| && t[j + |n| + 2] == COLON && t[j + |n| + 3] == QUOTE
  {
    var p := Query(n);
    assert forall i :: 0 <= i < |n| ==> p[1 + i] == n[i];
    if MatchAt(t, p, j) {
      assert forall i :: 0 <= i < |p| ==> t[j + i] == t[j..j + |p|][i] == p[i];
    }
    if QuotedAt(t, j, n) && j + |n| + 3 < |t| && t[j + |n| + 2] == COLON && t[j + |n| + 3] == QUOTE {
      assert forall i :: 0 <= i < |p| ==> t[j + i] == p[i];
      assert t[j..j + |p|] == p;
    }
  }

  lemma FieldIsQuoted(f: Field, rest: seq<Byte>)
    requires rest != []
    ensures var t, q3, q4 := FieldText(f) + rest, 3 + |f.name|, 4 + |f.name| + |f.value|;
            && QuotedAt(t, 0, f.name) && t[2 + |f.name|] == COLON && QuotedAt(t, q3, f.value) && t[q4 + 1] == rest[0]
  {
    var t := FieldText(f) + rest;
    assert forall i :: 0 <= i < |f.name| ==> t[1 + i] == f.name[i];
    assert forall i :: 0 <= i < |f.value| ==> t[4 + |f.name| + i] == f.value[i];
  }

  /** In a field followed by a separator, the query stands only at the field's own start, and only when the
      field has that name: a value that spells a name is followed by no colon. */
  lemma MatchInField(f: Field, rest: seq<Byte>, n: seq<Byte>, j: nat)
    requires QuoteFree(f.name) && QuoteFree(f.value) && Plain(n)
    requires rest != [] && (rest[0] == COMMA || rest[0] == RBRACE)
    requires j < |FieldText(f)|
    ensures MatchAt(FieldText(f) + rest, Query(n), j) <==> j == 0 && f.name == n
  {
    hide MatchAt, Query;
    var t := FieldText(f) + rest;
    QueryIsQuoted(t, n, j);
    FieldIsQuoted(f, rest);
    if MatchAt(t, Query(n), j) {
      QuoteStarts(t, f.name, f.value, n, j);
    }
  }

  lemma QuoteStarts(t: seq<Byte>, name: seq<Byte>, value: seq<Byte>, n: seq<Byte>, j: nat)
    requires QuoteFree(name) && QuoteFree(value) && Plain(n)
    requires var q3, q4 := 3 + |name|, 4 + |name| + |value|;
             && q4 + 1 < |t| && QuotedAt(t, 0, name) && t[2 + |name|] == COLON && QuotedAt(t, q3, value)
             && t[q4 + 1] in {COMMA, RBRACE} && j <= q4
    requires QuotedAt(t, j, n) && j + |n| + 2 < |t| && t[j + |n| + 2] == COLON
    ensures j == 0 && name == n
  {
    var q3 := 3 + |name|;
    assert t[j + 1 + 0] == n[0] && n[0] !in {QUOTE, COLON, COMMA, RBRACE};
    assert forall i :: 0 < i < 1 + |name| ==> t[i] == name[i - 1] != QUOTE;
    assert forall i :: q3 < i < q3 + 1 + |value| ==> t[i] == value[i - q3 - 1] != QUOTE;
    assert j == 0 || j == q3;
    assert QuoteFree(n);
    QuotedAgree(t, j, if j == 0 then name else value, n);
  }

  /** Search and closing quote, on the printed fields. */
  lemma {:induction false} ExtractFromBody(fs: seq<Field>, n: seq<Byte>)
    requires FieldsOk(fs) && Plain(n)
    ensures Extract(Body(fs), n) == Lookup(fs, n)
  {
    hide Extract, MatchAt;
    if fs == [] {
      NoMatchInBrace(n);
    } else {
      var f := fs[0];
      var sep := if |fs| == 1 then [] else [COMMA];
      var rest := sep + Body(fs[1..]);
      BodyStarts(fs);
      assert Body(fs) == FieldText(f) + rest;
      assert QuoteFree(f.name) && QuoteFree(f.value);
      if f.name == n {
        ExtractHere(f, rest, n);
      } else {
        ExtractFromBody(fs[1..], n);
        SkipField(f, sep, Body(fs[1..]), n);
        assert FieldText(f) + sep + Body(fs[1..]) == Body(fs);
      }
    }
  }

  lemma BodyStarts(fs: seq<Field>)
    requires fs != []
    ensures |fs| == 1 ==> Body(fs[1..]) == [RBRACE]
  {
  }

  lemma NoMatchInBrace(n: seq<Byte>)
    ensures Extract([RBRACE], n) == None
  {
    forall j: nat ensures !MatchAt([RBRACE], Query(n), j) {
      assert |Query(n)| > 1;
    }
    FindIsNone([RBRACE], Query(n));
  }

  lemma ExtractHere(f: Field, rest: seq<Byte>, n: seq<Byte>)
    requires QuoteFree(f.value) && f.name == n
    ensures Extract(FieldText(f) + rest, n) == Some(f.value)
  {
    var t, start := FieldText(f) + rest, |Query(n)|;
    assert t[0..|Query(n)|] == Query(n);
    FindIs(t, Query(n), 0);
    var end := start + |f.value|;
    assert t[start..end] == f.value;
    assert forall i :: start <= i < end ==> t[i] == f.value[i - start];
    assert t[end] == QUOTE;
    ScanToIs(t, QUOTE, start, end);
  }

  lemma SkipField(f: Field, sep: seq<Byte>, rest: seq<Byte>, n: seq<Byte>)
    requires QuoteFree(f.name) && QuoteFree(f.value) && Plain(n) && f.name != n
    requires sep == [COMMA] || (sep == [] && rest != [] && rest[0] == RBRACE)
    ensures Extract(FieldText(f) + sep + rest, n) == Extract(rest, n)
  {
    hide Find;
    var head := FieldText(f) + sep;
    assert head + rest == FieldText(f) + (sep + rest);
    forall j: nat | j < |head| ensures !MatchAt(head + rest, Query(n), j) {
      if j < |FieldText(f)| {
        MatchInField(f, sep + rest, n, j);
      } else {
        CommaStartsNothing(head + rest, n, j);
      }
    }
    FindSkips(head, rest, Query(n));
    ShiftExtract(head, rest, n);
  }

  lemma CommaStartsNothing(t: seq<Byte>, n: seq<Byte>, j: nat)
    requires j < |t| && t[j] != QUOTE
    ensures !MatchAt(t, Query(n), j)
  {
    var p := Query(n);
    if j + |p| <= |t| {
      assert t[j..j + |p|][0] == t[j];
    }
  }

  lemma ShiftExtract(head: seq<Byte>, rest: seq<Byte>, n: seq<Byte>)
    requires Find(head + rest, Query(n)) ==
             match Find(rest, Query(n)) { case None => None case Some(r) => Some(|head| + r) }
    ensures Extract(head + rest, n) == Extract(rest, n)
  {
    hide Find, ScanTo;
    var at := Find(rest, Query(n));
    if at.Some? {
      FindBounds(rest, Query(n));
      var start := at.value + |Query(n)|;
      var end := ScanTo(rest, QUOTE, start);
      assert forall k :: start <= k < |rest| ==> (head + rest)[|head| + k] == rest[k];
      ScanToIs(head + rest, QUOTE, |head| + start, |head| + end);
      assert (head + rest)[|head| + start..|head| + end] == rest[start..end];
    }
  }

  /** Parsing inverts printing, for any number of quote-free fields in any order: each search recovers the
      value of the first field of its name, even when a value spells a name. */
  lemma ExtractPrinted(fs: seq<Field>, n: seq<Byte>)
    requires FieldsOk(fs) && Plain(n)
    ensures Extract(Print(fs), n) == Lookup(fs, n)
  {
    hide Find, Extract;
    ExtractFromBody(fs, n);
    forall j: nat | j < 1 ensures !MatchAt([LBRACE] + Body(fs), Query(n), j) {
      CommaStartsNothing([LBRACE] + Body(fs), n, j);
    }
    FindSkips([LBRACE], Body(fs), Query(n));
    ShiftExtract([LBRACE], Body(fs), n);
  }

  lemma NamesPlain()
    ensures Plain(SSID) && Plain(PASSWORD) && Plain(TOKEN)
    ensures SSID != PASSWORD && SSID != TOKEN && PASSWORD != TOKEN
  {
    assert SSID[0] != PASSWORD[0] && SSID[0] != TOKEN[0] && PASSWORD[0] != TOKEN[0];
  }

  lemma {:induction false} LookupUnique(fs: seq<Field>, f: Field)
    requires f in fs
    requires forall g :: g in fs && g.name == f.name ==> g == f
    ensures Lookup(fs, f.name) == Some(f.value)
  {
    if fs[0].name == f.name {
      assert fs[0] in fs;
    } else {
      LookupUnique(fs[1..], f);
    }
  }

  /** The three searches on an object of the three fields, in whatever order they were printed. */
  lemma ThreeFieldsAnyOrder(fs: seq<Field>, c: Triple)
    requires QuoteFree(c.ssid) && QuoteFree(c.password) && QuoteFree(c.contract)
    requires multiset(fs) == multiset{Field(SSID, c.ssid), Field(PASSWORD, c.password), Field(TOKEN, c.contract)}
    ensures Extract(Print(fs), SSID) == Some(c.ssid)
    ensures Extract(Print(fs), PASSWORD) == Some(c.password)
    ensures Extract(Print(fs), TOKEN) == Some(c.contract)
  {
    hide Extract, Print, Plain;
    var s, p, t := Field(SSID, c.ssid), Field(PASSWORD, c.password), Field(TOKEN, c.contract);
    NamesPlain();
    assert forall g :: g in fs <==> g in multiset(fs);
    assert s in fs && p in fs && t in fs;
    forall i | 0 <= i < |fs| ensures QuoteFree(fs[i].name) && QuoteFree(fs[i].value) {
      assert fs[i] in multiset(fs);
      assert QuoteFree(SSID) && QuoteFree(PASSWORD) && QuoteFree(TOKEN);
    }
    LookupUnique(fs, s);
    LookupUnique(fs, p);
    LookupUnique(fs, t);
    ExtractPrinted(fs, SSID);
    ExtractPrinted(fs, PASSWORD);
    ExtractPrinted(fs, TOKEN);
  }

  // ---- The parser ----

  /** What the guard of the parser lets through. */
  predicate Accepts(json: seq<Byte>) {
    var s, p, t := Extract(json, SSID), Extract(json, PASSWORD), Extract(json, TOKEN);
    s.Some? && p.Some? && t.Some? && |s.value| <= 64 && |p.value| <= 64 && |t.value| <= 64
  }

  function Parsed(json: seq<Byte>): Triple
    requires Accepts(json)
  {
    Triple(Extract(json, SSID).value, Extract(json, PASSWORD).value, Extract(json, TOKEN).value)
  }

  /** Parsing inverts printing: an object of the three fields, in any order, is accepted exactly when no value
      exceeds 64 bytes, and gives back the three values. */
  lemma ParseInvertsPrint(fs: seq<Field>, c: Triple)
    requires QuoteFree(c.ssid) && QuoteFree(c.password) && QuoteFree(c.contract)
    requires multiset(fs) == multiset{Field(SSID, c.ssid), Field(PASSWORD, c.password), Field(TOKEN, c.contract)}
    ensures Accepts(Print(fs)) <==> |c.ssid| <= 64 && |c.password| <= 64 && |c.contract| <= 64
    ensures Accepts(Print(fs)) ==> Parsed(Print(fs)) == c
  {
    hide Extract, Print, QuoteFree;
    ThreeFieldsAnyOrder(fs, c);
  }

  /** The request as the provisioning page sends it, byte by byte. */
  lemma ParsesRequest(c: Triple)
    requires QuoteFree(c.ssid) && QuoteFree(c.password) && QuoteFree(c.contract)
    ensures var json := Ascii("{\"ssid\":\"") + c.ssid + Ascii("\",\"password\":\"") + c.password
                        + Ascii("\",\"token\":\"") + c.contract + Ascii("\"}");
            && (Accepts(json) <==> |c.ssid| <= 64 && |c.password| <= 64 && |c.contract| <= 64)
            && (Accepts(json) ==> Parsed(json) == c)
  {
    hide Extract, QuoteFree, Print, Ascii, Accepts, Parsed, SSID, PASSWORD, TOKEN;
    var fs := [Field(SSID, c.ssid), Field(PASSWORD, c.password), Field(TOKEN, c.contract)];
    ParseInvertsPrint(fs, c);
    PrintThree(fs);
    NamesInJson();
  }

  /** The pieces of the object between the values. */
  lemma NamesInJson()
    ensures Ascii("{\"ssid\":\"") == [LBRACE, QUOTE] + SSID + [QUOTE, COLON, QUOTE]
    ensures Ascii("\",\"password\":\"") == [QUOTE, COMMA, QUOTE] + PASSWORD + [QUOTE, COLON, QUOTE]
    ensures Ascii("\",\"token\":\"") == [QUOTE, COMMA, QUOTE] + TOKEN + [QUOTE, COLON, QUOTE]
    ensures Ascii("\"}") == [QUOTE, RBRACE]
  {
  }

  lemma PrintThree(fs: seq<Field>)
    requires |fs| == 3
    ensures Print(fs) ==
            ([LBRACE, QUOTE] + fs[0].name + [QUOTE, COLON, QUOTE]) + fs[0].value
            + ([QUOTE, COMMA, QUOTE] + fs[1].name + [QUOTE, COLON, QUOTE]) + fs[1].value
            + ([QUOTE, COMMA, QUOTE] + fs[2].name + [QUOTE, COLON, QUOTE]) + fs[2].value + [QUOTE, RBRACE]
  {
    hide FieldText, Head;
    var last, mid := fs[2..], fs[1..];
    assert mid[1..] == last && last[1..] == [];
    assert Body(last) == FieldText(fs[2]) + [RBRACE];
    assert Body(mid) == FieldText(fs[1]) + [COMMA] + Body(last);
    assert Body(fs) == FieldText(fs[0]) + [COMMA] + Body(mid);
    assert [LBRACE] + [QUOTE] == [LBRACE, QUOTE] && [QUOTE, COMMA] + [QUOTE] == [QUOTE, COMMA, QUOTE];
    FieldPieces(fs[0], [LBRACE]);
    FieldPieces(fs[1], [QUOTE, COMMA]);
    FieldPieces(fs[2], [QUOTE, COMMA]);
    Flatten(Head(fs[0]), fs[0].value, Head(fs[1]), fs[1].value, Head(fs[2]), fs[2].value);
  }

  /** A field up to its value. */
  function Head(f: Field): seq<Byte> {
    [QUOTE] + f.name + [QUOTE, COLON, QUOTE]
  }

  lemma FieldPieces(f: Field, before: seq<Byte>)
    ensures FieldText(f) == Head(f) + f.value + [QUOTE]
    ensures before + Head(f) == (before + [QUOTE]) + f.name + [QUOTE, COLON, QUOTE]
  {
  }

  lemma Flatten(h0: seq<Byte>, v0: seq<Byte>, h1: seq<Byte>, v1: seq<Byte>, h2: seq<Byte>, v2: seq<Byte>)
    ensures [LBRACE] + ((h0 + v0 + [QUOTE]) + [COMMA]
                        + ((h1 + v1 + [QUOTE]) + [COMMA] + ((h2 + v2 + [QUOTE]) + [RBRACE])))
         == ([LBRACE] + h0) + v0 + ([QUOTE, COMMA] + h1) + v1 + ([QUOTE, COMMA] + h2) + v2 + [QUOTE, RBRACE]
  {
    var last := (h2 + v2 + [QUOTE]) + [RBRACE];
    assert last == h2 + v2 + [QUOTE, RBRACE];
    var mid := (h1 + v1 + [QUOTE]) + [COMMA] + last;
    assert mid == h1 + v1 + ([QUOTE, COMMA] + h2) + v2 + [QUOTE, RBRACE];
  }

  /** A text that ends inside a value is refused, and so is one without the three names. */
  lemma CutOffRefused(json: seq<Byte>, n: seq<Byte>)
    requires n in {Ascii("ssid"), Ascii("password"), Ascii("token")}
    requires var at := Find(json, Ascii("\"") + n + Ascii("\":\""));
             at == None || 34 !in json[at.value + |n| + 4..]
    ensures !Accepts(json)
  {
    hide Find, Query, Ascii, SSID, PASSWORD, TOKEN;
    QueryInAscii(n);
    FindBounds(json, Query(n));
    var at := Find(json, Query(n));
    if at.Some? {
      var start := at.value + |Query(n)|;
      assert forall k :: start <= k < |json| ==> json[k] == json[start..][k - start];
      ScanToIs(json, QUOTE, start, |json|);
    }
  }

  lemma QueryInAscii(n: seq<Byte>)
    ensures Query(n) == Ascii("\"") + n + Ascii("\":\"") && |Query(n)| == |n| + 4
    ensures SSID == Ascii("ssid") && PASSWORD == Ascii("password") && TOKEN == Ascii("token")
  {
  }

  method CopyTerminated(buf: array<Byte>, at: nat, v: seq<Byte>)
    requires at + |v| < buf.Length
    modifies buf
    ensures buf[..] == Overlay(old(buf[..]), at, v, |v| + 1)
  {
    FlashStore.CopyInto(buf, at, v);
    buf[at + |v|] := NUL;
    OverlayIs(old(buf[..]), at, v, |v| + 1, buf[..]);
  }

  /** For every input: what the guard lets through is copied, whatever it overwrites; all else changes nothing. */
  method ParseWifiCredentials(ctx: AppCtx, json: seq<Byte>) returns (ok: bool)
    requires ctx.Fields()
    modifies ctx, ctx.mem
    ensures ok == Accepts(json)
    ensures ok ==> Fits(Parsed(json), Copied(Parsed(json)))
    ensures ctx.mem[..] == if ok then Placed(old(ctx.mem[..]), Parsed(json), Copied(Parsed(json)))
                           else old(ctx.mem[..])
    ensures var was := old(ctx.Snapshot());
            && ctx.Snapshot() == (if ok then was.(creds := was.creds.(wifiConfigd := true)) else was)
            && (ok ==> ctx.Snapshot() == AppState.Step(was, Provisioned))
  {
    hide Extract, Overlay;
    var ssid, pass, token := Extract(json, SSID), Extract(json, PASSWORD), Extract(json, TOKEN);
    if ssid == None || pass == None || token == None {
      return false;
    }
    if |ssid.value| > 64 || |pass.value| > 64 || |token.value| > 64 {
      return false;
    }
    CopyTerminated(ctx.mem, 0, ssid.value);
    CopyTerminated(ctx.mem, PASS_AT, pass.value);
    CopyTerminated(ctx.mem, TOKEN_AT, token.value);
    ctx.wifiConfigd := true;
    ok := true;
  }

  lemma ExtractNulFree(json: seq<Byte>, n: seq<Byte>)
    requires NulFree(json)
    ensures Extract(json, n).Some? ==> NulFree(Extract(json, n).value)
  {
  }

  /** The guard is one byte too generous. Of every accepted request, what the context then holds, exactly: the ssid
      reads back unless it fills its buffer and a password follows, the password unless it fills its buffer and
      a token follows, the token always, and the location of the hub is intact unless the token fills its
      buffer. */
  lemma AcceptedExactly(mem: seq<Byte>, json: seq<Byte>)
    requires |mem| == CTX_SIZE && NulFree(json) && Accepts(json)
    ensures var c := Parsed(json);
            Bounded(c) && Fits(c, Copied(c)) &&
            var m := Placed(mem, c, Copied(c));
            && (Strings(m).ssid == c.ssid <==> |c.ssid| < 64 || c.password == [])
            && (Strings(m).password == c.password <==> |c.password| < 64 || c.contract == [])
            && Strings(m).contract == c.contract
            && (Hub(mem) != [] ==> (Hub(m) == Hub(mem) <==> |c.contract| < 64))
  {
    hide Extract, Placed, Strings, Hub;
    ExtractNulFree(json, SSID);
    ExtractNulFree(json, PASSWORD);
    ExtractNulFree(json, TOKEN);
    PlacedExactly(mem, Parsed(json), Copied(Parsed(json)));
  }

  /** A 64-byte token, as 64 hexadecimal digits are: the printed request is accepted, the three strings read
      back, and hub_loc is the empty string. */
  lemma LongTokenWitness(mem: seq<Byte>)
    requires |mem| == CTX_SIZE && Hub(mem) != []
    ensures var c := Triple([110], [112], LongToken());
            var json := Print([Field(SSID, c.ssid), Field(PASSWORD, c.password), Field(TOKEN, c.contract)]);
            && Accepts(json) && Parsed(json) == c && Fits(c, Copied(c))
            && Strings(Placed(mem, c, Copied(c))) == c && Hub(Placed(mem, c, Copied(c))) == []
  {
    hide Extract, Print, Placed, Hub;
    var c := Triple([110], [112], LongToken());
    var fs := [Field(SSID, c.ssid), Field(PASSWORD, c.password), Field(TOKEN, c.contract)];
    ParseInvertsPrint(fs, c);
    PlacedReads(mem, c, Copied(c));
  }

  function LongToken(): (t: seq<Byte>)
    ensures |t| == 64 && QuoteFree(t) && NulFree(t)
  {
    seq(64, _ => 48)
  }
}
