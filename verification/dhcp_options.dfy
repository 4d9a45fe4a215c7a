/** DHCP options: the code, length, payload list of section 2 of RFC 2132, written at a cursor and searched
    by code. */
module DhcpOptions {
  import opened Bytes

  const END: Byte := 255
  const OPTIONS_SIZE := 308

  datatype Opt = Opt(code: Byte, payload: seq<Byte>)

  predicate OptOk(o: Opt) {
    o.code != END && |o.payload| <= 255
  }

  predicate OptsOk(os: seq<Opt>) {
    forall i :: 0 <= i < |os| ==> OptOk(os[i])
  }

  function EncodeOne(o: Opt): (s: seq<Byte>)
    requires OptOk(o)
    ensures |s| == 2 + |o.payload|
  {
    [o.code, |o.payload|] + o.payload
  }

  function Encode(os: seq<Opt>): seq<Byte>
    requires OptsOk(os)
  {
    if os == [] then [] else EncodeOne(os[0]) + Encode(os[1..])
  }

  /** The search stays inside s: every step reads a length byte that is there. */
  predicate Walkable(s: seq<Byte>)
    decreases |s|
  {
    s == [] || s[0] == END || (|s| >= 2 && (2 + s[1] >= |s| || Walkable(s[2 + s[1]..])))
  }

  /** The offset of the first option with the code sought, before END. */
  function FindOpt(s: seq<Byte>, cmd: Byte): (r: Option<nat>)
    requires Walkable(s)
    ensures r.Some? ==> r.value < |s| && s[r.value] == cmd
    decreases |s|
  {
    if s == [] || s[0] == END then None
    else if s[0] == cmd then Some(0)
    else if 2 + s[1] >= |s| then None
    else
      match FindOpt(s[2 + s[1]..], cmd)
      case None => None
      case Some(r) => Some(2 + s[1] + r)
  }

  method OptFind(opt: array<Byte>, cmd: Byte) returns (r: Option<nat>)
    requires opt.Length == OPTIONS_SIZE && Walkable(opt[..])
    ensures r == FindOpt(opt[..], cmd)
  {
    var i := 0;
    assert opt[..][0..] == opt[..];
    while i < OPTIONS_SIZE && opt[i] != END
      invariant i <= OPTIONS_SIZE ==> Walkable(opt[i..])
      invariant FindOpt(opt[..], cmd) ==
                if i > OPTIONS_SIZE then None
                else match FindOpt(opt[i..], cmd) { case None => None case Some(x) => Some(i + x) }
      decreases OPTIONS_SIZE - i
    {
      if opt[i] == cmd {
        return Some(i);
      }
      var next := i + 2 + opt[i + 1];
      assert next <= OPTIONS_SIZE ==> opt[i..][2 + opt[i + 1]..] == opt[next..];
      i := next;
    }
    r := None;
  }

  method OptWriteN(opt: array<Byte>, at: nat, cmd: Byte, data: seq<Byte>) returns (next: nat)
    requires |data| <= 255 && at + 2 + |data| <= opt.Length
    modifies opt
    ensures next == at + 2 + |data|
    ensures opt[..] == old(opt[..at]) + ([cmd, |data|] + data) + old(opt[next..])
  {
    opt[at] := cmd;
    opt[at + 1] := |data|;
    forall i | 0 <= i < |data| {
      opt[at + 2 + i] := data[i];
    }
    next := at + 2 + |data|;
  }

  method OptWriteU8(opt: array<Byte>, at: nat, cmd: Byte, val: Byte) returns (next: nat)
    requires at + 3 <= opt.Length
    modifies opt
    ensures next == at + 3
    ensures opt[..] == old(opt[..at]) + ([cmd, 1] + [val]) + old(opt[next..])
  {
    opt[at] := cmd;
    opt[at + 1] := 1;
    opt[at + 2] := val;
    next := at + 3;
  }

  method OptWriteU32(opt: array<Byte>, at: nat, cmd: Byte, val: int) returns (next: nat)
    requires 0 <= val < 0x1_0000_0000 && at + 6 <= opt.Length
    modifies opt
    ensures next == at + 6
    ensures opt[..] == old(opt[..at]) + ([cmd, 4] + BigEndian(val)) + old(opt[next..])
  {
    opt[at] := cmd;
    opt[at + 1] := 4;
    opt[at + 2] := val / 0x100_0000;
    opt[at + 3] := val / 0x1_0000 % 256;
    opt[at + 4] := val / 256 % 256;
    opt[at + 5] := val % 256;
    next := at + 6;
  }

  /** The first option of the list with the code sought, or |os|. */
  function FirstWith(os: seq<Opt>, cmd: Byte): (n: nat)
    ensures n <= |os|
    ensures n < |os| ==> os[n].code == cmd
    ensures forall i :: 0 <= i < n ==> os[i].code != cmd
  {
    if os == [] || os[0].code == cmd then 0 else 1 + FirstWith(os[1..], cmd)
  }

  /** Whatever is written and closed by END is found again: the search stays inside, returns the first
      option of the asked code with its exact payload, and nothing when there is none, whatever follows. */
  lemma {:induction false} FindWritten(os: seq<Opt>, rest: seq<Byte>, cmd: Byte)
    requires OptsOk(os)
    ensures var s := Encode(os) + [END] + rest;
            && Walkable(s)
            && var r, n := FindOpt(s, cmd), FirstWith(os, cmd);
               if n == |os| then r == None
               else r.Some? && EncodeOne(os[n]) <= s[r.value..]
  {
    hide FindOpt, Walkable, EncodeOne;
    var s := Encode(os) + [END] + rest;
    if os == [] {
      FindAtEnd(s, cmd);
    } else {
      FindWritten(os[1..], rest, cmd);
      var tail := Encode(os[1..]) + [END] + rest;
      assert s == EncodeOne(os[0]) + tail by {
        Assoc(EncodeOne(os[0]), Encode(os[1..]), [END]);
        Assoc(EncodeOne(os[0]), Encode(os[1..]) + [END], rest);
      }
      FindAtOption(os[0], tail, cmd);
    }
  }

  lemma FindAtEnd(s: seq<Byte>, cmd: Byte)
    requires s != [] && s[0] == END
    ensures Walkable(s) && FindOpt(s, cmd) == None
  {
  }

  /** The search meets one option, and goes on behind it if the code differs. */
  lemma FindAtOption(o: Opt, tail: seq<Byte>, cmd: Byte)
    requires OptOk(o) && Walkable(tail) && tail != []
    ensures var s := EncodeOne(o) + tail;
            && Walkable(s)
            && (o.code == cmd ==> FindOpt(s, cmd) == Some(0) && EncodeOne(o) <= s[0..])
            && (o.code != cmd && FindOpt(tail, cmd) == None ==> FindOpt(s, cmd) == None)
            && (o.code != cmd && FindOpt(tail, cmd).Some? ==>
                  FindOpt(s, cmd).Some? && s[FindOpt(s, cmd).value..] == tail[FindOpt(tail, cmd).value..])
  {
    var s := EncodeOne(o) + tail;
    assert s[0] == o.code && s[1] == |o.payload| && s[2 + s[1]..] == tail;
    FindWrittenTail(s, tail, 2 + |o.payload|);
    assert s[0..] == s;
  }

  lemma FindWrittenTail(s: seq<Byte>, tail: seq<Byte>, n: nat)
    requires n <= |s| && s[n..] == tail
    ensures forall r: nat :: r <= |tail| ==> s[n + r..] == tail[r..]
  {
  }

  lemma {:induction false} EncodeAppend(os: seq<Opt>, o: Opt)
    requires OptsOk(os) && OptOk(o)
    ensures Encode(os + [o]) == Encode(os) + EncodeOne(o)
  {
    if os == [] {
      assert os + [o] == [o] && [o][1..] == [];
    } else {
      EncodeAppend(os[1..], o);
      assert (os + [o])[1..] == os[1..] + [o];
    }
  }
}
