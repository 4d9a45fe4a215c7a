/** The flash store itself: one erasable sector, edited through a RAM copy of it. */
module FlashStore {
  import opened Bytes
  import opened FlashText
  import opened FlashMap

  const ERASED: Byte := 0xFF

  ghost predicate IsErased(s: seq<Byte>) {
    forall i :: 0 <= i < |s| ==> s[i] == ERASED
  }

  ghost predicate IsZero(s: seq<Byte>) {
    forall i :: 0 <= i < |s| ==> s[i] == NUL
  }

  /** A programmed sector holds t; t is still terminated unless it fills its pages. */
  ghost predicate Carries(sector: seq<Byte>, t: seq<Byte>) {
    && t <= sector
    && (KeepsTerminator(t) ==> Terminated(sector) && Text(sector) == t)
    && (!KeepsTerminator(t) ==> !Terminated(sector))
  }

  /** memcpy and memmove. */
  method CopyInto(buf: array<Byte>, at: nat, data: seq<Byte>)
    requires at + |data| <= buf.Length
    modifies buf
    ensures buf[..] == old(buf[..])[..at] + data + old(buf[..])[at + |data|..]
  {
    forall i | 0 <= i < |data| {
      buf[at + i] := data[i];
    }
  }

  lemma EscapeNext(val: seq<Byte>, i: nat)
    requires i < |val|
    ensures Escape(val[..i + 1]) == Escape(val[..i]) + EscapeByte(val[i])
    ensures |Escape(val[..i + 1])| <= |Escape(val)|
  {
    hide EscapeByte;
    assert val[..i + 1] == val[..i] + [val[i]];
    EscapeConcat(val[..i], [val[i]]);
    assert [val[i]][1..] == [];
    assert val == val[..i + 1] + val[i + 1..];
    EscapeConcat(val[..i + 1], val[i + 1..]);
  }

  method PutByte(res: array<Byte>, head: nat, c: Byte) returns (next: nat)
    requires head < res.Length
    modifies res
    ensures next == head + 1 && res[..next] == old(res[..head]) + [c]
  {
    res[head] := c;
    next := head + 1;
  }

  method EscChars(val: seq<Byte>) returns (res: array<Byte>)
    requires NulFree(val)
    ensures fresh(res) && res[..] == Escape(val) + [NUL]
    ensures res.Length == |val| + Specials(val) + 1
  {
    EscapeExactly(val);
    hide Escape;
    var specials, len := 0, 0;
    EscapeNone();
    assert val[..0] == [] && val[..|val|] == val;
    while len < |val|
      invariant len <= |val|
      invariant |Escape(val[..len])| == len + specials
    {
      EscapeNext(val, len);
      if Special(val[len]) {
        specials := specials + 1;
      }
      len := len + 1;
    }
    res := new Byte[len + specials + 1](_ => 0);
    var head: nat, src := 0, 0;
    while src < |val|
      invariant src <= |val| && head == |Escape(val[..src])| < res.Length
      invariant res[..head] == Escape(val[..src])
    {
      EscapeNext(val, src);
      if Special(val[src]) {
        head := PutByte(res, head, BACKSLASH);
      }
      head := PutByte(res, head, val[src]);
      src := src + 1;
    }
    head := PutByte(res, head, NUL);
  }

  lemma EscapeNone()
    ensures Escape([]) == []
  {
  }

  method GetNextItem(buf: array<Byte>, start: nat) returns (r: Option<nat>)
    requires Terminated(buf[..]) && start <= |Text(buf[..])|
    ensures var t := Text(buf[..]);
            var c := ScanTo(t, COMMA, start);
            r == if c < |t| then Some(c) else None
  {
    var ptr := start;
    ghost var t := Text(buf[..]);
    assert forall i :: 0 <= i < |t| ==> t[i] == buf[i];
    while buf[ptr] != NUL
      invariant start <= ptr <= |t| < buf.Length && buf[|t|] == NUL
      invariant forall k :: start <= k < ptr ==> t[k] != COMMA
      decreases |t| - ptr
    {
      if buf[ptr] == COMMA {
        ScanToIs(t, COMMA, start, ptr);
        return Some(ptr);
      }
      ptr := ptr + 1;
    }
    ScanToIs(t, COMMA, start, |t|);
    return None;
  }

  /** Skipping the byte after each backslash never skips the first comma: the reader's end of a value is
      the writer's end of an item, whatever the buffer holds. */
  method GetValEnd(buf: array<Byte>, val: nat) returns (end: nat)
    requires Terminated(buf[..]) && val <= |Text(buf[..])|
    ensures end == ScanTo(Text(buf[..]), COMMA, val)
  {
    ghost var t := Text(buf[..]);
    assert forall i :: 0 <= i < |t| ==> t[i] == buf[i];
    var len := ScanTo(buf[..], NUL, 0) - val;
    var i := 0;
    while i < len
      invariant 0 <= i <= len + 1 && len == |t| - val && buf[|t|] == NUL
      invariant forall k :: val <= k < val + i && k < |t| ==> t[k] != COMMA
    {
      if buf[val + i] == BACKSLASH {
        i := i + 1;
      }
      if buf[val + i] == COMMA {
        ScanToIs(t, COMMA, val, val + i);
        return val + i;
      }
      i := i + 1;
    }
    ScanToIs(t, COMMA, val, |t|);
    end := ScanTo(buf[..], NUL, val);
    ScanToIs(buf[..], NUL, val, |t|);
  }

  /** Writer and reader end an item at the same place, in every text: the scan from the match, where the writer
      starts, and the scan from the value, where the reader starts, find the same comma. */
  lemma ItemEndsAgree(t: seq<Byte>, k: seq<Byte>, at: nat)
    requires ValidKey(k) && MatchAt(t, k + [EQUALS], at)
    ensures ScanTo(t, COMMA, at) == ScanTo(t, COMMA, at + |k| + 1)
  {
    hide MatchAt;
    var p, val := k + [EQUALS], at + |k| + 1;
    MatchBytes(t, p, at);
    forall x | at <= x < val ensures t[x] != COMMA {
      assert t[x] == p[x - at];
      assert x < at + |k| ==> KeyByte(k[x - at]);
    }
    ScanToIs(t, COMMA, at, ScanTo(t, COMMA, val));
  }

  method Splice(buf: array<Byte>, start: nat, end: nat, replace: seq<Byte>) returns (status: Status)
    requires buf.Length == NVS_SIZE && Terminated(buf[..]) && NulFree(replace)
    requires start <= end <= |Text(buf[..])|
    requires var t := Text(buf[..]);
             var endSz := |t| - end;
             |t| + (start - endSz) + |replace| > NVS_SIZE || start + |replace| + endSz < NVS_SIZE
    modifies buf
    ensures var t := old(Text(buf[..]));
            var endSz := |t| - end;
            if |t| + (start - endSz) + |replace| > NVS_SIZE then
              status == FLASHMEMSIZE && buf[..] == old(buf[..])
            else
              status == OK && Terminated(buf[..]) && Text(buf[..]) == t[..start] + replace + t[end..]
  {
    var t := Text(buf[..]);
    var endSz := |t| - end;
    if |t| + (start - endSz) + |replace| > NVS_SIZE {
      return FLASHMEMSIZE;
    }
    var chunkPre, chunkPost := buf[..start], buf[end..end + endSz];
    assert chunkPre == t[..start] && chunkPost == t[end..];
    forall i | 0 <= i < buf.Length {
      buf[i] := NUL;
    }
    Rebuild(buf, chunkPre, replace, chunkPost);
    status := OK;
  }

  /** The three copies of splice, into the cleared buffer; the middle one is closed by strchr. */
  method Rebuild(buf: array<Byte>, pre: seq<Byte>, replace: seq<Byte>, post: seq<Byte>)
    requires buf.Length == NVS_SIZE && IsZero(buf[..])
    requires NulFree(pre) && NulFree(replace) && NulFree(post)
    requires |pre| + |replace| + |post| < NVS_SIZE
    modifies buf
    ensures Terminated(buf[..]) && Text(buf[..]) == pre + replace + post
  {
    var n := |pre| + |replace|;
    CopyInto(buf, 0, pre);
    ghost var once := buf[..];
    assert once[..|pre|] == pre && IsZero(once[|pre|..]) by { ZeroTail(old(buf[..]), pre); }
    CopyInto(buf, |pre|, replace);
    ghost var twice := buf[..];
    MiddleCloses(once, twice, pre, replace);
    var postStart := ScanTo(buf[..], NUL, |pre|);
    CopyInto(buf, postStart, post);
    LastCopy(twice, buf[..], pre + replace, post);
  }

  lemma ZeroTail(buf: seq<Byte>, pre: seq<Byte>)
    requires IsZero(buf) && |pre| <= |buf|
    ensures var once := buf[..0] + pre + buf[0 + |pre|..];
            once[..|pre|] == pre && IsZero(once[|pre|..])
  {
  }

  /** After the second copy the buffer starts with both parts, and the first NUL behind the first part is
      right behind the second. */
  lemma MiddleCloses(once: seq<Byte>, twice: seq<Byte>, pre: seq<Byte>, replace: seq<Byte>)
    requires NulFree(replace) && |pre| + |replace| < |once|
    requires once[..|pre|] == pre && IsZero(once[|pre|..])
    requires twice == once[..|pre|] + replace + once[|pre| + |replace|..]
    ensures |twice| == |once|
    ensures var n := |pre| + |replace|;
            && twice[..n] == pre + replace && IsZero(twice[n..])
            && ScanTo(twice, NUL, |pre|) == n
  {
    var n := |pre| + |replace|;
    forall i | n <= i < |once| ensures twice[i] == NUL {
      assert twice[i] == once[i] == once[|pre|..][i - |pre|];
    }
    forall i | |pre| <= i < n ensures twice[i] != NUL {
      assert twice[i] == replace[i - |pre|];
    }
    ScanToIs(twice, NUL, |pre|, n);
  }

  lemma LastCopy(twice: seq<Byte>, buf: seq<Byte>, head: seq<Byte>, post: seq<Byte>)
    requires NulFree(head) && NulFree(post) && |head| + |post| < |twice|
    requires twice[..|head|] == head && IsZero(twice[|head|..])
    requires buf == twice[..|head|] + post + twice[|head| + |post|..]
    ensures Terminated(buf) && Text(buf) == head + post
  {
    var n := |head| + |post|;
    assert buf[n] == twice[n] == twice[|head|..][|post|];
    assert buf[..n] == head + post;
    TextIs(buf, head + post);
  }

  /** The comma over the terminator, then the item with its own. */
  method AppendItem(buf: array<Byte>, item: seq<Byte>)
    requires Terminated(buf[..]) && NulFree(item) && |Text(buf[..])| + 1 + |item| < buf.Length
    modifies buf
    ensures Terminated(buf[..]) && Text(buf[..]) == old(Text(buf[..])) + [COMMA] + item
  {
    ghost var t := Text(buf[..]);
    var end := ScanTo(buf[..], NUL, 0);
    CopyInto(buf, end, [COMMA]);
    CopyInto(buf, end + 1, item + [NUL]);
    TextIs(buf[..], t + [COMMA] + item);
  }

  class Flash {
    const sector: array<Byte>

    ghost predicate Valid()
      reads this, sector
    {
      sector.Length == NVS_SIZE && Terminated(sector[..])
    }

    /** A sector as it leaves the factory. */
    constructor ()
      ensures fresh(sector) && sector.Length == NVS_SIZE && IsErased(sector[..])
    {
      sector := new Byte[NVS_SIZE](_ => 0xFF);
    }

    method EraseAndProgram(data: seq<Byte>)
      requires sector.Length == NVS_SIZE && |data| <= NVS_SIZE
      modifies sector
      ensures sector[..|data|] == data && IsErased(sector[|data|..])
    {
      forall i | 0 <= i < sector.Length {
        sector[i] := ERASED;
      }
      CopyInto(sector, 0, data);
    }

    method InitializeFlash(forceClear: bool)
      requires sector.Length == NVS_SIZE
      modifies sector
      ensures if forceClear || IsErased(old(sector[..])) then IsZero(sector[..]) && Valid() && Text(sector[..]) == []
              else sector[..] == old(sector[..])
    {
      if !forceClear {
        var i := 0;
        while i < NVS_SIZE
          invariant i <= NVS_SIZE && IsErased(sector[..i])
        {
          if sector[i] != ERASED {
            assert sector[..][i] != ERASED;
            return;
          }
          i := i + 1;
        }
        assert sector[..] == sector[..NVS_SIZE];
      }
      EraseAndProgram(seq(NVS_SIZE, _ => NUL));
      assert sector[..] == sector[..NVS_SIZE];
      TextIs(sector[..], []);
    }

    method UpsertKey(key: seq<Byte>, val: seq<Byte>, buf: array<Byte>) returns (status: Status)
      requires Valid() && buf != sector && buf.Length == NVS_SIZE && Terminated(buf[..])
      requires NulFree(key) && NulFree(val)
      requires ValidKey(key) ==> UpsertText(Text(buf[..]), key, val) != Overrun
      modifies buf, sector
      ensures sector[..] == old(sector[..])
      ensures Terminated(buf[..])
      ensures status == if !ValidKey(key) then INVALIDKEY
                        else if UpsertText(old(Text(buf[..])), key, val) == Rejected then FLASHMEMSIZE else OK
      ensures Text(buf[..]) ==
              if !ValidKey(key) then old(Text(buf[..]))
              else match UpsertText(old(Text(buf[..])), key, val)
                   case Updated(t) => t
                   case _ => old(Text(buf[..]))
    {
      hide Find, Escape;
      if !ValidKey(key) {
        return INVALIDKEY;
      }
      assert !IsErased(sector[..]);
      InitializeFlash(false);
      var clean := EscChars(val);
      var keySearch := key + [EQUALS];
      var item := keySearch + clean[..clean.Length - 1];
      assert item == Item(key, val);
      EscapeGuarded(val);
      var t := Text(buf[..]);
      var at := Find(t, keySearch);
      if at == None {
        if |keySearch| + (clean.Length - 1) + |t| + 1 > NVS_SIZE - 1 {
          return FLASHMEMSIZE;
        }
        AppendItem(buf, item);
      } else {
        FindBounds(t, keySearch);
        var start := at.value;
        var next := GetNextItem(buf, start);
        var end := if next == None then ScanTo(buf[..], NUL, 0) else next.value;
        var _ := Splice(buf, start, end, item);
      }
      status := OK;
    }

    /** OK is returned and the sector reprogrammed exactly when WriteText says so. The new text keeps a
        terminator only when its length is not a whole number of pages. */
    method Write(key: seq<Byte>, val: seq<Byte>) returns (status: Status)
      requires Valid() && NulFree(key) && NulFree(val)
      requires WriteText(Text(sector[..]), Op(key, val)) != Unsafe
      modifies sector
      ensures var out := WriteText(old(Text(sector[..])), Op(key, val));
              && (out.Refused? ==> status == out.status && status != OK && sector[..] == old(sector[..]))
              && (out.Programmed? ==> status == OK && Carries(sector[..], out.text))
      ensures sector.Length == NVS_SIZE
    {
      hide Find, Escape, UpsertText;
      if |val| > MAX_VAL_SIZE {
        return VALSIZE;
      }
      var buf := new Byte[NVS_SIZE](_ => 0);
      assert sector[..] == sector[..NVS_SIZE];
      CopyInto(buf, 0, sector[..]);
      assert buf[..] == sector[..];
      var err := UpsertKey(key, val, buf);
      if err != OK {
        return err;
      }
      ProgramPages(buf);
      status := OK;
    }

    /** The sector erased and the pages of the buffer's text programmed. */
    method ProgramPages(buf: array<Byte>)
      requires sector.Length == NVS_SIZE && buf.Length == NVS_SIZE && buf != sector && Terminated(buf[..])
      modifies sector
      ensures Carries(sector[..], Text(buf[..]))
    {
      var memSize := ScanTo(buf[..], NUL, 0);
      var writeSize := if memSize % PAGE_SIZE != 0 then (memSize / PAGE_SIZE + 1) * PAGE_SIZE else memSize;
      PageBound(memSize);
      EraseAndProgram(buf[..writeSize]);
      PagesKeepText(buf[..], sector[..], writeSize);
    }

    /** OK with the value at base, or KEYNOTFOUND with the memory untouched. The escaped form is copied first, so
        the value and zeros behind it take up the room of that form and its terminator. */
    method Read(key: seq<Byte>, outVal: array<Byte>, base: nat) returns (r: Option<Reading>)
      requires Valid() && NulFree(key) && outVal != sector
      requires var raw := RawText(Text(sector[..]), key);
               raw.Some? ==> base + |raw.value| + 1 <= outVal.Length
      modifies outVal
      ensures sector[..] == old(sector[..])
      ensures r == if ValidKey(key) then Some(ReadText(Text(sector[..]), key)) else None
      ensures var raw := RawText(Text(sector[..]), key);
              outVal[..] == if ValidKey(key) && raw.Some?
                            then Overlay(old(outVal[..]), base, Unescape(raw.value), |raw.value| + 1)
                            else old(outVal[..])
    {
      hide Find, Unescape, ReadText, RawText, ValidKey, Overlay;
      if !ValidKey(key) {
        return None;
      }
      var keySearch := key + [EQUALS];
      var t := Text(sector[..]);
      var at := Find(t, keySearch);
      if at == None {
        ReadNowhere(t, key);
        return Some(KeyNotFound);
      }
      ReadAt(t, key);
      var val := ScanTo(t, EQUALS, at.value) + 1;
      var valEnd := GetValEnd(sector, val);
      var raw := sector[val..valEnd];
      TextSlice(sector[..], val, valEnd);
      assert raw == sector[..][val..valEnd];
      CopyUnescaped(raw, outVal, base);
      return Some(Found(View(outVal[..], base)));
    }
  }

  lemma ReadNowhere(t: seq<Byte>, k: seq<Byte>)
    requires Find(t, k + [EQUALS]) == None
    ensures RawText(t, k) == None && ReadText(t, k) == KeyNotFound
  {
  }

  /** memcpy of the stored bytes, then the unescape loop over the copy. */
  method CopyUnescaped(raw: seq<Byte>, outVal: array<Byte>, base: nat)
    requires NulFree(raw) && base + |raw| + 1 <= outVal.Length
    modifies outVal
    ensures outVal[..] == Overlay(old(outVal[..]), base, Unescape(raw), |raw| + 1)
    ensures View(outVal[..], base) == Unescape(raw)
  {
    hide Overlay, Unescape, View;
    CopyValue(raw, outVal, base);
    UnescapeInPlace(outVal, base);
    UnescapeNulFree(raw);
    OverlayTwice(old(outVal[..]), base, raw, Unescape(raw), |raw| + 1);
    OverlayView(old(outVal[..]), base, Unescape(raw), |raw| + 1);
  }

  method CopyValue(raw: seq<Byte>, outVal: array<Byte>, base: nat)
    requires NulFree(raw) && base + |raw| + 1 <= outVal.Length
    modifies outVal
    ensures outVal[..] == Overlay(old(outVal[..]), base, raw, |raw| + 1)
    ensures Terminated(outVal[base..]) && Text(outVal[base..]) == raw
  {
    CopyInto(outVal, base, raw);
    outVal[base + |raw|] := NUL;
    OverlayIs(old(outVal[..]), base, raw, |raw| + 1, outVal[..]);
    OverlayView(old(outVal[..]), base, raw, |raw| + 1);
    assert outVal[base..] == outVal[..][base..];
  }

  /** The loop drops one byte at each backslash and closes up the rest of the string with its terminator: what
      it frees behind the string stays zero. */
  method UnescapeInPlace(outVal: array<Byte>, base: nat)
    requires base <= outVal.Length && Terminated(outVal[base..])
    modifies outVal
    ensures var raw := old(Text(outVal[base..]));
            && base + |raw| + 1 <= outVal.Length
            && outVal[..] == Overlay(old(outVal[..]), base, Unescape(raw), |raw| + 1)
  {
    hide Pending, Unescape, Overlay;
    ghost var was, raw := outVal[..], Text(outVal[base..]);
    ghost var n := |raw| + 1;
    ghost var cur := raw;
    OverlaySelf(was, base);
    assert was[base..] == outVal[base..];
    var escChar: nat := base;
    var end: nat := base + ScanTo(outVal[base..], NUL, 0);
    PendingStart(cur);
    while escChar < end
      invariant |cur| < n && NulFree(cur) && base <= escChar <= end + 1 && end == base + |cur|
      invariant outVal[..] == Overlay(was, base, cur, n)
      invariant Pending(cur, escChar - base) == Unescape(raw)
    {
      end, cur := UnescapeTurn(outVal, base, escChar, end, was, cur, n);
      escChar := escChar + 1;
    }
    PendingDone(cur, escChar - base);
  }

  lemma OverlaySelf(mem: seq<Byte>, base: nat)
    requires base <= |mem| && Terminated(mem[base..])
    ensures var raw := Text(mem[base..]);
            base + |raw| + 1 <= |mem| && mem == Overlay(mem, base, raw, |raw| + 1)
  {
    var raw := Text(mem[base..]);
    assert mem[base + |raw|] == mem[base..][|raw|];
    forall i | base <= i < base + |raw| ensures mem[i] == raw[i - base] {
      assert mem[i] == mem[base..][i - base];
    }
    OverlayIs(mem, base, raw, |raw| + 1, mem);
  }

  /** One turn of the unescape loop, on the string cur. */
  method UnescapeTurn(outVal: array<Byte>, base: nat, escChar: nat, end: nat,
                      ghost was: seq<Byte>, ghost cur: seq<Byte>, ghost n: nat)
    returns (next: nat, ghost cur': seq<Byte>)
    requires |cur| < n && base + n <= |was| && NulFree(cur) && base <= escChar < end == base + |cur|
    requires outVal[..] == Overlay(was, base, cur, n)
    modifies outVal
    ensures |cur'| < n && NulFree(cur') && (next == end || next == end - 1) && next == base + |cur'|
    ensures outVal[..] == Overlay(was, base, cur', n)
    ensures Pending(cur', escChar - base + 1) == Pending(cur, escChar - base)
  {
    hide Pending, Overlay;
    ghost var i := escChar - base;
    PendingStep(cur, i);
    OverlayBytes(was, base, cur, n);
    assert outVal[escChar] == outVal[..][escChar] == cur[i];
    next := end;
    cur' := cur;
    if outVal[escChar] == BACKSLASH {
      DropByte(outVal, escChar, end);
      cur' := cur[..i] + cur[i + 1..];
      DropInOverlay(was, base, cur, n, i);
      next := end - 1;
    }
  }

  /** memmove of the rest of the string, with its terminator, over one byte. */
  method DropByte(outVal: array<Byte>, at: nat, end: nat)
    requires at < end < outVal.Length
    modifies outVal
    ensures outVal[..] == old(outVal[..at] + outVal[at + 1..end + 1] + outVal[end..])
  {
    CopyInto(outVal, at, outVal[at + 1..end + 1]);
  }

  lemma DropInOverlay(was: seq<Byte>, base: nat, cur: seq<Byte>, n: nat, i: nat)
    requires i < |cur| < n && base + n <= |was|
    ensures var r, end := Overlay(was, base, cur, n), base + |cur|;
            r[..base + i] + r[base + i + 1..end + 1] + r[end..] == Overlay(was, base, cur[..i] + cur[i + 1..], n)
  {
    hide Overlay;
    OverlayBytes(was, base, cur, n);
    var r, end, cur' := Overlay(was, base, cur, n), base + |cur|, cur[..i] + cur[i + 1..];
    var r' := r[..base + i] + r[base + i + 1..end + 1] + r[end..];
    assert forall x :: 0 <= x < base + i ==> r'[x] == r[x];
    assert forall x :: base + i <= x < end ==> r'[x] == r[x + 1];
    assert forall x :: end <= x < |r| ==> r'[x] == r[x];
    assert forall x :: 0 <= x < |cur'| ==> cur'[x] == if x < i then cur[x] else cur[x + 1];
    OverlayIs(was, base, cur', n, r');
  }

  /** The string the loop will leave: what it has passed, and the rest unescaped. */
  function Pending(s: seq<Byte>, i: nat): seq<Byte> {
    if i <= |s| then s[..i] + Unescape(s[i..]) else s
  }

  lemma PendingStart(s: seq<Byte>)
    ensures Pending(s, 0) == Unescape(s)
  {
    assert s[0..] == s;
  }

  lemma PendingDone(s: seq<Byte>, i: nat)
    requires i >= |s|
    ensures Pending(s, i) == s
  {
  }

  lemma PendingStep(s: seq<Byte>, i: nat)
    requires i < |s|
    ensures Pending(if s[i] == BACKSLASH then s[..i] + s[i + 1..] else s, i + 1) == Pending(s, i)
  {
    var done, rest := s[..i], s[i..];
    if s[i] == BACKSLASH {
      var now := done + s[i + 1..];
      assert rest[1..] == s[i + 1..];
      if i + 1 <= |now| {
        assert now[..i + 1] == done + [rest[1]] && now[i + 1..] == rest[2..];
      }
    } else {
      assert s[..i + 1] == done + [s[i]] && s[i + 1..] == rest[1..];
    }
  }

  lemma FindMatches(t: seq<Byte>, p: seq<Byte>)
    ensures Find(t, p).Some? ==> MatchAt(t, p, Find(t, p).value)
  {
    FindFromFirst(t, p, 0);
  }

  lemma TextSlice(buf: seq<Byte>, a: nat, b: nat)
    requires a <= b <= |Text(buf)|
    ensures buf[a..b] == Text(buf)[a..b]
  {
  }

  /** The value starts behind the first equals sign after the match. */
  lemma ReadAt(t: seq<Byte>, key: seq<Byte>)
    requires ValidKey(key) && Find(t, key + [EQUALS]).Some?
    ensures var start := Find(t, key + [EQUALS]).value;
            && start + |key| + 1 <= |t|
            && ScanTo(t, EQUALS, start) == start + |key|
            && RawText(t, key) == Some(t[start + |key| + 1..ScanTo(t, COMMA, start + |key| + 1)])
            && ReadText(t, key) == Found(Unescape(RawText(t, key).value))
  {
    hide Find, Unescape;
    FindMatches(t, key + [EQUALS]);
    FirstEquals(t, key, Find(t, key + [EQUALS]).value);
  }

  lemma FirstEquals(t: seq<Byte>, key: seq<Byte>, start: nat)
    requires ValidKey(key) && MatchAt(t, key + [EQUALS], start)
    ensures ScanTo(t, EQUALS, start) == start + |key|
  {
    var p := key + [EQUALS];
    assert forall i :: 0 <= i < |p| ==> t[start + i] == t[start..start + |p|][i] == p[i];
    forall k | start <= k < start + |key| ensures t[k] != EQUALS {
      assert t[start + (k - start)] == p[k - start] && KeyByte(key[k - start]);
    }
    assert t[start + |key|] == p[|key|];
    ScanToIs(t, EQUALS, start, start + |key|);
  }

  lemma PageBound(n: nat)
    requires n < NVS_SIZE
    ensures n % PAGE_SIZE != 0 ==> n < (n / PAGE_SIZE + 1) * PAGE_SIZE <= NVS_SIZE
  {
  }

  lemma PagesKeepText(buf: seq<Byte>, sector: seq<Byte>, size: nat)
    requires |buf| == |sector| == NVS_SIZE && Terminated(buf)
    requires |Text(buf)| <= size <= NVS_SIZE && (KeepsTerminator(Text(buf)) <==> |Text(buf)| < size)
    requires sector[..size] == buf[..size] && IsErased(sector[size..])
    ensures Carries(sector, Text(buf))
  {
    var t := Text(buf);
    assert sector[..|t|] == sector[..size][..|t|];
    if |t| < size {
      assert sector[|t|] == sector[..size][|t|];
      TextIs(sector, t);
    } else {
      forall k | 0 <= k < |sector| ensures sector[k] != NUL {
        if k < |t| {
          assert sector[k] == t[k];
        } else {
          assert sector[k] == sector[size..][k - size];
        }
      }
      ScanToIs(sector, NUL, 0, |sector|);
    }
  }
}
