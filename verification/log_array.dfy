/** The JSON array of Base64 log lines that logdump assembles in one buffer. */
module LogArray {
  import opened Bytes
  import opened Base64
  import opened Timestamps

  const NUM_LOGS := 16
  const LBRACKET: Byte := 91
  const RBRACKET: Byte := 93

  /** logarrsize: 1369 bytes for each of 16 encoded lines, and 81 for the JSON around them. */
  const LOG_ARR_SIZE := 21985

  // ---- The text ----

  function Quoted(m: seq<Byte>): seq<Byte> {
    [QUOTE] + Encode(m) + [QUOTE]
  }

  function Join(ms: seq<seq<Byte>>): seq<Byte> {
    if ms == [] then []
    else if |ms| == 1 then Quoted(ms[0])
    else Quoted(ms[0]) + [COMMA] + Join(ms[1..])
  }

  function ArrayText(ms: seq<seq<Byte>>): seq<Byte> {
    [LBRACKET] + Join(ms) + [RBRACKET]
  }

  lemma {:induction false} JoinSnoc(ms: seq<seq<Byte>>, m: seq<Byte>)
    ensures Join(ms + [m]) == Join(ms) + (if ms == [] then [] else [COMMA]) + Quoted(m)
  {
    hide Quoted;
    if ms == [] {
      assert ms + [m] == [m];
    } else {
      JoinSnoc(ms[1..], m);
      assert (ms + [m])[1..] == ms[1..] + [m];
      if |ms| > 1 {
        Assoc(Quoted(ms[0]) + [COMMA], Join(ms[1..]) + [COMMA], Quoted(m));
        Assoc(Quoted(ms[0]) + [COMMA], Join(ms[1..]), [COMMA]);
      }
    }
  }

  // ---- Reading the array back ----

  /** Splits at quotes and commas and decodes each piece. */
  function ParseItems(t: seq<Byte>): Option<seq<seq<Byte>>>
    decreases |t|
  {
    if t == [RBRACKET] then Some([])
    else if t == [] || t[0] != QUOTE then None
    else
      var end := ScanTo(t, QUOTE, 1);
      if end + 1 >= |t| then None
      else
        var item, rest := Base64.Decode(t[1..end]), t[end + 1..];
        if rest == [RBRACKET] then Some([item])
        else if rest[0] != COMMA then None
        else match ParseItems(rest[1..])
             case None => None
             case Some(items) => Some([item] + items)
  }

  function Parse(t: seq<Byte>): Option<seq<seq<Byte>>> {
    if t == [] || t[0] != LBRACKET then None else ParseItems(t[1..])
  }

  lemma {:induction false} ParseJoin(ms: seq<seq<Byte>>)
    ensures ParseItems(Join(ms) + [RBRACKET]) == Some(ms)
  {
    hide Encode, Decode, ParseItems, Quoted;
    if ms == [] {
      ParseClose();
    } else if |ms| == 1 {
      ParseQuoted(ms[0], [RBRACKET]);
      assert ms == [ms[0]];
    } else {
      ParseJoin(ms[1..]);
      var tail := Join(ms[1..]) + [RBRACKET];
      ParseQuoted(ms[0], [COMMA] + tail);
      assert ([COMMA] + tail)[1..] == tail;
      Assoc(Quoted(ms[0]), [COMMA], Join(ms[1..]));
      Assoc(Quoted(ms[0]), [COMMA] + Join(ms[1..]), [RBRACKET]);
      Assoc([COMMA], Join(ms[1..]), [RBRACKET]);
      assert [ms[0]] + ms[1..] == ms;
    }
  }

  lemma ParseClose()
    ensures ParseItems(Join([]) + [RBRACKET]) == Some([])
  {
  }

  /** One quoted line and what follows it. */
  lemma ParseQuoted(m: seq<Byte>, rest: seq<Byte>)
    requires rest == [RBRACKET] || (rest != [] && rest[0] == COMMA)
    ensures ParseItems(Quoted(m) + rest) ==
            if rest == [RBRACKET] then Some([m])
            else match ParseItems(rest[1..]) { case None => None case Some(items) => Some([m] + items) }
  {
    hide Encode, Decode, Quoted;
    EncodeLength(m);
    DecodeOfEncode(m);
    QuotedScan(m, rest);
  }

  lemma QuotedScan(m: seq<Byte>, rest: seq<Byte>)
    requires Symbols(Encode(m))
    ensures var e, t := Encode(m), Quoted(m) + rest;
            && |t| == 2 + |e| + |rest| && t[0] == QUOTE && ScanTo(t, QUOTE, 1) == 1 + |e|
            && t[1..1 + |e|] == e && t[1 + |e| + 1..] == rest
  {
    hide Encode;
    var e, t := Encode(m), Quoted(m) + rest;
    assert forall k :: 1 <= k < 1 + |e| ==> t[k] == e[k - 1];
    assert t[1 + |e|] == QUOTE;
    ScanToIs(t, QUOTE, 1, 1 + |e|);
  }

  /** The array is faithful: splitting and decoding it gives back exactly the lines, in order. */
  lemma ArrayFaithful(ms: seq<seq<Byte>>)
    ensures Parse(ArrayText(ms)) == Some(ms)
  {
    hide Join, ParseItems;
    ParseJoin(ms);
    assert ArrayText(ms)[1..] == Join(ms) + [RBRACKET];
  }

  /** The text of an array, byte by byte. */
  lemma ArrayBytes(ms: seq<seq<Byte>>, m: seq<Byte>)
    ensures ArrayText([]) == Ascii("[]")
    ensures ArrayText([m]) == Ascii("[\"") + Encode(m) + Ascii("\"]")
    ensures ms != [] ==>
              ArrayText(ms + [m]) == ArrayText(ms)[..|ArrayText(ms)| - 1] + Ascii(",\"") + Encode(m) + Ascii("\"]")
  {
    hide Encode;
    JoinSnoc(ms, m);
    assert Ascii("[]") == [LBRACKET, RBRACKET] && Ascii("[\"") == [LBRACKET, QUOTE];
    assert Ascii("\"]") == [QUOTE, RBRACKET] && Ascii(",\"") == [COMMA, QUOTE];
    if ms != [] {
      assert ArrayText(ms)[..|ArrayText(ms)| - 1] == [LBRACKET] + Join(ms);
    }
  }

  // ---- Assembly ----

  /** snprintf of one character with room for it and its terminator, which is what makes it not truncate. */
  method PutChar(buf: array<Byte>, pos: nat, c: Byte) returns (next: nat)
    requires pos + 1 < buf.Length
    modifies buf
    ensures next == pos + 1 && buf[..next] == old(buf[..pos]) + [c] && buf[next] == NUL
  {
    buf[pos] := c;
    buf[pos + 1] := NUL;
    next := pos + 1;
  }

  /** b64_encode into the buffer at pos, then strlen from there. */
  method PutEncoded(buf: array<Byte>, pos: nat, m: seq<Byte>) returns (next: nat)
    requires pos + |Encode(m)| < buf.Length
    modifies buf
    ensures next == pos + |Encode(m)| && buf[..next] == old(buf[..pos]) + Encode(m)
  {
    hide Encode;
    var enc := B64Encode(m);
    forall i | 0 <= i < |enc| {
      buf[pos + i] := enc[i];
    }
    EncodeLength(m);
    ghost var end := pos + |Encode(m)|;
    assert forall i :: pos <= i < end ==> buf[i] == enc[i - pos] == Encode(m)[i - pos];
    ScanToIs(buf[..], NUL, pos, end);
    next := pos + (ScanTo(buf[..], NUL, pos) - pos);
  }

  method PutItem(buf: array<Byte>, pos: nat, first: bool, m: seq<Byte>) returns (next: nat)
    requires |m| < MAX_LOG_LEN && pos + 1368 < buf.Length
    modifies buf
    ensures next == pos + (if first then 0 else 1) + |Quoted(m)| <= pos + 1367
    ensures buf[..next] == old(buf[..pos]) + (if first then [] else [COMMA]) + Quoted(m)
  {
    hide Encode;
    EncodeLength(m);
    next := pos;
    if !first {
      next := PutChar(buf, next, COMMA);
    }
    next := PutChar(buf, next, QUOTE);
    next := PutEncoded(buf, next, m);
    next := PutChar(buf, next, QUOTE);
  }

  /** Slot i of the log table holds line t. */
  ghost predicate Holds(log: array?<Byte>, t: seq<Byte>)
    reads if log == null then {} else {log}
  {
    log != null && Terminated(log[..]) && Text(log[..]) == t && DlogLine(t) && |t| < MAX_LOG_LEN
  }

  /** Sixteen slots, distinct where used, holding the lines given and then NULL. */
  ghost predicate Lines(logs: seq<array?<Byte>>, lines: seq<seq<Byte>>)
    reads set i | 0 <= i < |logs| && logs[i] != null :: logs[i]
  {
    && |logs| == NUM_LOGS && |lines| <= NUM_LOGS
    && (|lines| < NUM_LOGS ==> logs[|lines|] == null)
    && (forall i, j :: 0 <= i < j < |lines| ==> logs[i] != logs[j])
    && (forall i :: 0 <= i < |lines| ==> logs[i] != null && DlogLine(lines[i]) && Holds(logs[i], lines[i]))
  }

  function RewriteAll(lines: seq<seq<Byte>>, now: nat, hwnow: nat): (ms: seq<seq<Byte>>)
    requires forall i :: 0 <= i < |lines| ==> DlogLine(lines[i])
    ensures |ms| == |lines|
    ensures forall i :: 0 <= i < |lines| ==> ms[i] == Rewritten(lines[i], now, hwnow)
  {
    if lines == [] then []
    else RewriteAll(lines[..|lines| - 1], now, hwnow) + [Rewritten(lines[|lines| - 1], now, hwnow)]
  }

  /** One turn of the loop: rewrite the line in place, then add it. */
  method DumpLine(log: array<Byte>, ghost line: seq<Byte>, logarray: array<Byte>, pos: nat, first: bool, now: nat,
                  hwnow: nat)
    returns (next: nat)
    requires log != logarray && Holds(log, line)
    requires pos + 1368 < logarray.Length
    modifies log, logarray
    ensures Holds(log, Rewritten(line, now, hwnow))
    ensures pos <= next <= pos + 1367
    ensures logarray[..next] ==
            old(logarray[..pos]) + (if first then [] else [COMMA]) + Quoted(Rewritten(line, now, hwnow))
  {
    hide Rewritten, DlogLine, Quoted;
    LogTransformTs(log, now, hwnow);
    RewrittenIsLine(line, now, hwnow);
    next := PutItem(logarray, pos, first, Text(log[..]));
  }

  /** The loop over the slots, stopping at the first NULL. */
  method DumpLines(logs: seq<array?<Byte>>, ghost lines: seq<seq<Byte>>, ghost repr: set<object>,
                   logarray: array<Byte>, now: nat, hwnow: nat)
    returns (pos: nat)
    requires Lines(logs, lines) && logarray.Length == LOG_ARR_SIZE && logarray !in repr
    requires forall i :: 0 <= i < |lines| ==> logs[i] in repr
    requires logarray[..1] == [LBRACKET]
    modifies repr, logarray
    ensures pos + 1 < LOG_ARR_SIZE && logarray[..pos] == [LBRACKET] + Join(RewriteAll(lines, now, hwnow))
    ensures forall i :: 0 <= i < |lines| ==> Holds(logs[i], Rewritten(lines[i], now, hwnow))
  {
    hide Join, Quoted, Rewritten, DlogLine, Text, Terminated, Encode, RewriteAll, Holds;
    ghost var all := RewriteAll(lines, now, hwnow);
    pos := 1;
    var i := 0;
    assert all[..0] == [];
    JoinNone();
    while i < NUM_LOGS && logs[i] != null
      invariant i <= |lines|
      invariant pos <= 1 + 1367 * i
      invariant logarray[..pos] == [LBRACKET] + Join(all[..i])
      invariant forall k :: i <= k < |lines| ==> Holds(logs[k], lines[k])
      invariant forall k :: 0 <= k < i ==> Holds(logs[k], all[k])
    {
      pos := DumpLine(logs[i], lines[i], logarray, pos, i == 0, now, hwnow);
      JoinStep(all, i);
      i := i + 1;
    }
    assert all[..i] == all;
  }

  /** The assembly of the array. Every write is inside the buffer with its terminator, so no snprintf
      truncates, and the text is the array of the rewritten lines. */
  method Assemble(logs: seq<array?<Byte>>, ghost lines: seq<seq<Byte>>, ghost repr: set<object>, now: nat, hwnow: nat)
    returns (logarray: array<Byte>)
    requires Lines(logs, lines)
    requires forall i :: 0 <= i < |lines| ==> logs[i] in repr
    modifies repr
    ensures fresh(logarray) && logarray.Length == LOG_ARR_SIZE && Terminated(logarray[..])
    ensures Text(logarray[..]) == ArrayText(RewriteAll(lines, now, hwnow))
    ensures forall i :: 0 <= i < |lines| ==> Holds(logs[i], Rewritten(lines[i], now, hwnow))
  {
    hide Join, Quoted, Rewritten, DlogLine, Text, Terminated, Encode, RewriteAll, Holds, ArrayText;
    logarray := new Byte[LOG_ARR_SIZE](_ => 0);
    var pos := PutChar(logarray, 0, LBRACKET);
    pos := DumpLines(logs, lines, repr, logarray, now, hwnow);
    CloseArray(logarray, pos, RewriteAll(lines, now, hwnow));
  }

  method CloseArray(logarray: array<Byte>, pos: nat, ghost ms: seq<seq<Byte>>)
    requires pos + 1 < logarray.Length && logarray[..pos] == [LBRACKET] + Join(ms)
    modifies logarray
    ensures Terminated(logarray[..]) && Text(logarray[..]) == ArrayText(ms)
  {
    var end := PutChar(logarray, pos, RBRACKET);
    JoinNulFree(ms);
    TextIs(logarray[..], ArrayText(ms));
  }

  lemma JoinStep(ms: seq<seq<Byte>>, i: nat)
    requires i < |ms|
    ensures Join(ms[..i + 1]) == Join(ms[..i]) + (if i == 0 then [] else [COMMA]) + Quoted(ms[i])
  {
    JoinSnoc(ms[..i], ms[i]);
    assert ms[..i + 1] == ms[..i] + [ms[i]];
  }

  lemma JoinNone()
    ensures Join([]) == []
  {
  }

  lemma {:induction false} JoinNulFree(ms: seq<seq<Byte>>)
    ensures NulFree(Join(ms))
  {
    hide Encode;
    if ms != [] {
      EncodeLength(ms[0]);
      JoinNulFree(ms[1..]);
    }
  }
}
