/** The Base64 encoder, against section 4 of RFC 4648 and its decoder. */
module Base64 {
  import opened Bytes

  const PAD: Byte := 61
  const BUFFER_SIZE := 65536

  /** Table 1 of RFC 4648. */
  function Letter(v: nat): (c: Byte)
    requires v < 64
    ensures c != PAD && c != QUOTE && c != COMMA && c != NUL
  {
    if v < 26 then 65 + v
    else if v < 52 then 97 + (v - 26)
    else if v < 62 then 48 + (v - 52)
    else if v == 62 then 43
    else 47
  }

  function LetterValue(c: Byte): (v: nat)
    ensures v < 64
  {
    if 65 <= c < 91 then c - 65
    else if 97 <= c < 123 then c - 97 + 26
    else if 48 <= c < 58 then c - 48 + 52
    else if c == 43 then 62
    else 63
  }

  lemma LetterValueOfLetter(v: nat)
    requires v < 64
    ensures LetterValue(Letter(v)) == v
  {
  }

  // ---- The specification: three bytes are a 24-bit number, read as four base-64 digits ----

  function Group24(b0: Byte, b1: Byte, b2: Byte): (n: nat)
    ensures n < 0x100_0000
  {
    (b0 as nat) * 0x1_0000 + (b1 as nat) * 0x100 + b2 as nat
  }

  function Digit(n: nat, i: nat): (d: nat)
    requires n < 0x100_0000 && i < 4
    ensures d < 64
  {
    if i == 0 then n / 0x4_0000
    else if i == 1 then n / 0x1000 % 64
    else if i == 2 then n / 64 % 64
    else n % 64
  }

  function Symbol(n: nat, i: nat): Byte
    requires n < 0x100_0000 && i < 4
  {
    Letter(Digit(n, i))
  }

  function Quad(b0: Byte, b1: Byte, b2: Byte): (q: seq<Byte>)
    ensures |q| == 4
  {
    var n := Group24(b0, b1, b2);
    [Symbol(n, 0), Symbol(n, 1), Symbol(n, 2), Symbol(n, 3)]
  }

  /** A final group of one or two bytes is padded with zero bits, and the digits it lacks with `=`. */
  function Last(s: seq<Byte>): (q: seq<Byte>)
    requires |s| < 3
    ensures |q| == if s == [] then 0 else 4
  {
    if s == [] then []
    else if |s| == 1 then Quad(s[0], 0, 0)[..2] + [PAD, PAD]
    else Quad(s[0], s[1], 0)[..3] + [PAD]
  }

  function Encode(s: seq<Byte>): seq<Byte> {
    if |s| < 3 then Last(s) else Quad(s[0], s[1], s[2]) + Encode(s[3..])
  }

  // ---- Decoding ----

  function Byte0(a: nat, b: nat): Byte
    requires a < 64 && b < 64
  {
    a * 4 + b / 16
  }

  function Byte1(b: nat, c: nat): Byte
    requires b < 64 && c < 64
  {
    b % 16 * 16 + c / 4
  }

  function Byte2(c: nat, d: nat): Byte
    requires c < 64 && d < 64
  {
    c % 4 * 64 + d
  }

  function DecodeQuad(q: seq<Byte>): seq<Byte>
    requires |q| == 4
  {
    var a, b, c, d := LetterValue(q[0]), LetterValue(q[1]), LetterValue(q[2]), LetterValue(q[3]);
    if q[2] == PAD then [Byte0(a, b)]
    else if q[3] == PAD then [Byte0(a, b), Byte1(b, c)]
    else [Byte0(a, b), Byte1(b, c), Byte2(c, d)]
  }

  function Decode(t: seq<Byte>): seq<Byte> {
    if |t| < 4 then [] else DecodeQuad(t[..4]) + Decode(t[4..])
  }

  lemma SymbolValue(n: nat, i: nat)
    requires n < 0x100_0000 && i < 4
    ensures LetterValue(Symbol(n, i)) == Digit(n, i) && Symbol(n, i) != PAD
  {
    LetterValueOfLetter(Digit(n, i));
  }

  lemma DecodeThree(b0: Byte, b1: Byte, b2: Byte)
    ensures DecodeQuad(Quad(b0, b1, b2)) == [b0, b1, b2]
  {
    hide LetterValue, Symbol, Digit, Group24, Byte0, Byte1, Byte2;
    var n := Group24(b0, b1, b2);
    DigitsOf(b0, b1, b2);
    SymbolValue(n, 0);
    SymbolValue(n, 1);
    SymbolValue(n, 2);
    SymbolValue(n, 3);
    BytesBack(b0, b1, b2);
  }

  lemma DecodeTwo(b0: Byte, b1: Byte)
    ensures DecodeQuad(Quad(b0, b1, 0)[..3] + [PAD]) == [b0, b1]
  {
    hide LetterValue, Symbol, Digit, Group24, Byte0, Byte1, Byte2;
    var n := Group24(b0, b1, 0);
    var q := Quad(b0, b1, 0)[..3] + [PAD];
    assert q[0] == Symbol(n, 0) && q[1] == Symbol(n, 1) && q[2] == Symbol(n, 2) && q[3] == PAD;
    DigitsOf(b0, b1, 0);
    SymbolValue(n, 0);
    SymbolValue(n, 1);
    SymbolValue(n, 2);
    BytesBack(b0, b1, 0);
  }

  lemma DecodeOne(b0: Byte)
    ensures DecodeQuad(Quad(b0, 0, 0)[..2] + [PAD, PAD]) == [b0]
  {
    hide LetterValue, Symbol, Digit, Group24, Byte0, Byte1, Byte2;
    var n := Group24(b0, 0, 0);
    var q := Quad(b0, 0, 0)[..2] + [PAD, PAD];
    DigitsOf(b0, 0, 0);
    SymbolValue(n, 0);
    SymbolValue(n, 1);
    BytesBack(b0, 0, 0);
    assert q[0] == Symbol(n, 0) && q[1] == Symbol(n, 1) && q[2] == PAD;
  }

  lemma BytesBack(b0: Byte, b1: Byte, b2: Byte)
    ensures Byte0(b0 / 4, b0 % 4 * 16 + b1 / 16) == b0
    ensures Byte1(b0 % 4 * 16 + b1 / 16, b1 % 16 * 4 + b2 / 64) == b1
    ensures Byte2(b1 % 16 * 4 + b2 / 64, b2 % 64) == b2
  {
  }

  lemma By64(n: nat, q: nat, r: nat)
    requires n == q * 64 + r && r < 64
    ensures n / 64 == q && n % 64 == r
  {
  }

  lemma By4096(n: nat, q: nat, r: nat)
    requires n == q * 0x1000 + r && r < 0x1000
    ensures n / 0x1000 == q
  {
  }

  lemma By262144(n: nat, q: nat, r: nat)
    requires n == q * 0x4_0000 + r && r < 0x4_0000
    ensures n / 0x4_0000 == q
  {
  }

  /** The digits of 65536 b0 + 256 b1 + b2, with b0 = 4 q0 + r0, b1 = 16 q1 + r1, b2 = 64 q2 + r2. */
  lemma DigitsSplit(n: nat, q0: nat, r0: nat, q1: nat, r1: nat, q2: nat, r2: nat)
    requires q0 < 64 && r0 < 4 && q1 < 16 && r1 < 16 && q2 < 4 && r2 < 64
    requires n == (q0 * 4 + r0) * 0x1_0000 + (q1 * 16 + r1) * 0x100 + (q2 * 64 + r2)
    ensures n < 0x100_0000
    ensures n / 0x4_0000 == q0 && n / 0x1000 % 64 == r0 * 16 + q1
    ensures n / 64 % 64 == r1 * 4 + q2 && n % 64 == r2
  {
    By262144(n, q0, r0 * 0x1_0000 + (q1 * 16 + r1) * 0x100 + (q2 * 64 + r2));
    var m := q0 * 64 + (r0 * 16 + q1);
    By4096(n, m, r1 * 0x100 + (q2 * 64 + r2));
    By64(m, q0, r0 * 16 + q1);
    var l := m * 64 + (r1 * 4 + q2);
    By64(n, l, r2);
    By64(l, m, r1 * 4 + q2);
  }

  /** The digits of a group, byte by byte. */
  lemma DigitsOf(b0: Byte, b1: Byte, b2: Byte)
    ensures var n := Group24(b0, b1, b2);
            && Digit(n, 0) == b0 / 4
            && Digit(n, 1) == b0 % 4 * 16 + b1 / 16
            && Digit(n, 2) == b1 % 16 * 4 + b2 / 64
            && Digit(n, 3) == b2 % 64
  {
    DigitsSplit(Group24(b0, b1, b2), b0 / 4, b0 % 4, b1 / 16, b1 % 16, b2 / 64, b2 % 64);
  }

  /** Decoding inverts encoding, for every input. */
  lemma {:induction false} DecodeOfEncode(s: seq<Byte>)
    ensures Decode(Encode(s)) == s
  {
    hide Quad, DecodeQuad;
    var e := Encode(s);
    if |s| >= 3 {
      DecodeThree(s[0], s[1], s[2]);
      DecodeOfEncode(s[3..]);
      assert e[..4] == Quad(s[0], s[1], s[2]) && e[4..] == Encode(s[3..]);
      assert s == [s[0], s[1], s[2]] + s[3..];
    } else if |s| == 2 {
      DecodeTwo(s[0], s[1]);
      assert e[..4] == e && e[4..] == [];
    } else if |s| == 1 {
      DecodeOne(s[0]);
      assert e[..4] == e && e[4..] == [];
    }
  }

  lemma EncodeInjective(s: seq<Byte>, t: seq<Byte>)
    requires Encode(s) == Encode(t)
    ensures s == t
  {
    DecodeOfEncode(s);
    DecodeOfEncode(t);
  }

  predicate Symbols(t: seq<Byte>) {
    forall i :: 0 <= i < |t| ==> t[i] != QUOTE && t[i] != COMMA && t[i] != NUL
  }

  lemma {:induction false} EncodeLength(s: seq<Byte>)
    ensures |Encode(s)| == (|s| + 2) / 3 * 4
    ensures Symbols(Encode(s))
  {
    hide Quad, Last, Symbols;
    if |s| >= 3 {
      EncodeLength(s[3..]);
      QuadSymbols(s[0], s[1], s[2]);
      SymbolsConcat(Quad(s[0], s[1], s[2]), Encode(s[3..]));
    } else {
      LastSymbol(s);
    }
  }

  lemma QuadSymbols(b0: Byte, b1: Byte, b2: Byte)
    ensures Symbols(Quad(b0, b1, b2))
  {
    hide Digit, Letter;
  }

  lemma LastSymbol(s: seq<Byte>)
    requires |s| < 3
    ensures Symbols(Last(s))
  {
    hide Quad;
    if s != [] {
      QuadSymbols(s[0], if |s| == 1 then 0 else s[1], 0);
    }
  }

  lemma SymbolsConcat(a: seq<Byte>, b: seq<Byte>)
    requires Symbols(a) && Symbols(b)
    ensures Symbols(a + b)
  {
  }

  lemma {:induction false} EncodeConcat(a: seq<Byte>, b: seq<Byte>)
    requires |a| % 3 == 0
    ensures Encode(a + b) == Encode(a) + Encode(b)
  {
    hide Quad, Last;
    if |a| == 0 {
      assert a + b == b;
    } else {
      EncodeConcat(a[3..], b);
      assert (a + b)[3..] == a[3..] + b;
    }
  }

  // ---- The symbols, by the table ----

  const UPPER := "ABCDEFGHIJKLMNOPQRSTUVWXYZ"
  const LOWER := "abcdefghijklmnopqrstuvwxyz"
  const NUMERALS := "0123456789"

  /** The alphabet of b64_table. */
  const TABLE := UPPER + LOWER + NUMERALS + "+/"

  lemma UpperAt(i: nat)
    requires i < 26
    ensures UPPER[i] as int == 65 + i
  {
  }

  lemma LowerAt(i: nat)
    requires i < 26
    ensures LOWER[i] as int == 97 + i
  {
  }

  lemma NumeralAt(i: nat)
    requires i < 10
    ensures NUMERALS[i] as int == 48 + i
  {
  }

  lemma LetterIsInTable(v: nat)
    requires v < 64
    ensures Letter(v) == TABLE[v] as int
  {
    if v < 26 {
      UpperAt(v);
    } else if v < 52 {
      LowerAt(v - 26);
    } else if v < 62 {
      NumeralAt(v - 52);
    }
  }

  /** The text of one group of up to three bytes. */
  function GroupText(g: seq<Byte>): (q: string)
    requires 1 <= |g| <= 3
    ensures |q| == 4
  {
    if |g| == 1 then [TABLE[g[0] / 4], TABLE[g[0] % 4 * 16], '=', '=']
    else if |g| == 2 then [TABLE[g[0] / 4], TABLE[g[0] % 4 * 16 + g[1] / 16], TABLE[g[1] % 16 * 4], '=']
    else [TABLE[g[0] / 4], TABLE[g[0] % 4 * 16 + g[1] / 16], TABLE[g[1] % 16 * 4 + g[2] / 64], TABLE[g[2] % 64]]
  }

  /** Group k of s. */
  function GroupAt(s: seq<Byte>, k: nat): (g: seq<Byte>)
    requires 3 * k < |s|
    ensures 1 <= |g| <= 3
  {
    s[3 * k..if 3 * k + 3 <= |s| then 3 * k + 3 else |s|]
  }

  /** e is the encoding of s by the table: four symbols for each group, the last one padded. */
  ghost predicate ByTable(s: seq<Byte>, e: seq<Byte>) {
    && |e| == (|s| + 2) / 3 * 4
    && forall k: nat :: 3 * k < |s| ==> e[4 * k..4 * k + 4] == Ascii(GroupText(GroupAt(s, k)))
  }

  lemma SymbolInTable(b0: Byte, b1: Byte, b2: Byte)
    ensures var q := Quad(b0, b1, b2);
            && q[0] == TABLE[b0 / 4] as int && q[1] == TABLE[b0 % 4 * 16 + b1 / 16] as int
            && q[2] == TABLE[b1 % 16 * 4 + b2 / 64] as int && q[3] == TABLE[b2 % 64] as int
  {
    hide Letter, Digit, Group24, TABLE;
    DigitsOf(b0, b1, b2);
    LetterIsInTable(b0 / 4);
    LetterIsInTable(b0 % 4 * 16 + b1 / 16);
    LetterIsInTable(b1 % 16 * 4 + b2 / 64);
    LetterIsInTable(b2 % 64);
  }

  lemma FirstGroup(s: seq<Byte>)
    requires s != []
    ensures |Encode(s)| >= 4 && Encode(s)[..4] == Ascii(GroupText(GroupAt(s, 0)))
  {
    hide Quad, TABLE, GroupText;
    var g := GroupAt(s, 0);
    if |s| == 1 {
      assert g == s;
      GroupOfOne(g);
    } else if |s| == 2 {
      assert g == s;
      GroupOfTwo(g);
    } else {
      assert g == [s[0], s[1], s[2]];
      GroupOfThree(g);
    }
  }

  lemma GroupOfOne(g: seq<Byte>)
    requires |g| == 1
    ensures Quad(g[0], 0, 0)[..2] + [PAD, PAD] == Ascii(GroupText(g))
  {
    hide Quad, TABLE;
    SymbolInTable(g[0], 0, 0);
    FourBytes(Quad(g[0], 0, 0)[..2] + [PAD, PAD], GroupText(g));
  }

  lemma GroupOfTwo(g: seq<Byte>)
    requires |g| == 2
    ensures Quad(g[0], g[1], 0)[..3] + [PAD] == Ascii(GroupText(g))
  {
    hide Quad, TABLE;
    SymbolInTable(g[0], g[1], 0);
    FourBytes(Quad(g[0], g[1], 0)[..3] + [PAD], GroupText(g));
  }

  lemma GroupOfThree(g: seq<Byte>)
    requires |g| == 3
    ensures Quad(g[0], g[1], g[2]) == Ascii(GroupText(g))
  {
    hide Quad, TABLE;
    SymbolInTable(g[0], g[1], g[2]);
    FourBytes(Quad(g[0], g[1], g[2]), GroupText(g));
  }

  lemma FourBytes(q: seq<Byte>, t: string)
    requires |q| == |t| == 4
    requires q[0] == t[0] as int && q[1] == t[1] as int && q[2] == t[2] as int && q[3] == t[3] as int
    ensures q == Ascii(t)
  {
  }

  /** Every encoding is the one by the table. */
  lemma {:induction false} EncodeByTable(s: seq<Byte>)
    ensures ByTable(s, Encode(s))
  {
    hide Encode, GroupText, TABLE, Ascii;
    EncodeLength(s);
    if s != [] {
      FirstGroup(s);
    }
    if |s| >= 3 {
      EncodeByTable(s[3..]);
      EncodeFirst(s);
      OtherGroups(s, Encode(s), Encode(s[3..]));
    }
  }

  lemma EncodeFirst(s: seq<Byte>)
    requires |s| >= 3
    ensures |Encode(s)| >= 4 && Encode(s)[4..] == Encode(s[3..])
  {
    hide Quad;
  }

  lemma OtherGroups(s: seq<Byte>, e: seq<Byte>, t: seq<Byte>)
    requires |s| >= 3 && |e| >= 4 && e[4..] == t && ByTable(s[3..], t)
    ensures forall k: nat :: k > 0 && 3 * k < |s| ==>
              4 * k + 4 <= |e| && e[4 * k..4 * k + 4] == Ascii(GroupText(GroupAt(s, k)))
  {
    hide GroupText, TABLE, Ascii, GroupAt;
    forall k: nat | k > 0 && 3 * k < |s|
      ensures 4 * k + 4 <= |e| && e[4 * k..4 * k + 4] == Ascii(GroupText(GroupAt(s, k)))
    {
      GroupShift(s, k);
      assert t[4 * (k - 1)..4 * (k - 1) + 4] == Ascii(GroupText(GroupAt(s[3..], k - 1)));
      SliceShift(e, 4 * k);
    }
  }

  lemma GroupShift(s: seq<Byte>, k: nat)
    requires k > 0 && 3 * k < |s|
    ensures GroupAt(s[3..], k - 1) == GroupAt(s, k)
  {
  }

  lemma SliceShift(e: seq<Byte>, n: nat)
    requires 4 <= n && n + 4 <= |e|
    ensures e[4..][n - 4..n] == e[n..n + 4]
  {
  }

  /** The test vectors of section 10 of RFC 4648. */
  lemma TestVectors()
    ensures Encode(Ascii("")) == Ascii("")
    ensures Encode(Ascii("f")) == Ascii("Zg==")
    ensures Encode(Ascii("fo")) == Ascii("Zm8=")
    ensures Encode(Ascii("foo")) == Ascii("Zm9v")
    ensures Encode(Ascii("foob")) == Ascii("Zm9vYg==")
    ensures Encode(Ascii("fooba")) == Ascii("Zm9vYmE=")
    ensures Encode(Ascii("foobar")) == Ascii("Zm9vYmFy")
  {
    hide Encode, Quad;
    VectorQuads();
    assert Ascii("") == [];
    EncodeEmpty();
    EncodeOne(102);
    EncodeTwo(102, 111);
    EncodeThree(102, 111, 111);
    EncodeOne(98);
    EncodeTwo(98, 97);
    EncodeThree(98, 97, 114);
    var foo: seq<Byte> := [102, 111, 111];
    EncodeConcat(foo, [98]);
    EncodeConcat(foo, [98, 97]);
    EncodeConcat(foo, [98, 97, 114]);
    assert Ascii("f") == [102] && Ascii("fo") == [102, 111] && Ascii("foo") == foo;
    assert Ascii("foob") == foo + [98] && Ascii("fooba") == foo + [98, 97] && Ascii("foobar") == foo + [98, 97, 114];
  }

  lemma EncodeOne(a: Byte)
    ensures Encode([a]) == Quad(a, 0, 0)[..2] + [PAD, PAD]
  {
    hide Quad;
  }

  lemma EncodeTwo(a: Byte, b: Byte)
    ensures Encode([a, b]) == Quad(a, b, 0)[..3] + [PAD]
  {
    hide Quad;
  }

  lemma EncodeThree(a: Byte, b: Byte, c: Byte)
    ensures Encode([a, b, c]) == Quad(a, b, c)
  {
    hide Quad;
    assert [a, b, c][3..] == [];
    EncodeEmpty();
  }

  lemma VectorQuads()
    ensures Quad(102, 0, 0)[..2] == Ascii("Zg") && Quad(102, 111, 0)[..3] == Ascii("Zm8")
    ensures Quad(102, 111, 111) == Ascii("Zm9v")
    ensures Quad(98, 0, 0)[..2] == Ascii("Yg") && Quad(98, 97, 0)[..3] == Ascii("YmE")
    ensures Quad(98, 97, 114) == Ascii("YmFy")
  {
    hide Quad, Letter;
    VectorLetters();
    QuadBytes(102, 0, 0);
    QuadBytes(102, 111, 0);
    QuadBytes(102, 111, 111);
    QuadBytes(98, 0, 0);
    QuadBytes(98, 97, 0);
    QuadBytes(98, 97, 114);
  }

  lemma VectorLetters()
    ensures Letter(25) == 'Z' as int && Letter(32) == 'g' as int && Letter(38) == 'm' as int
    ensures Letter(60) == '8' as int && Letter(61) == '9' as int && Letter(47) == 'v' as int
    ensures Letter(24) == 'Y' as int && Letter(4) == 'E' as int && Letter(5) == 'F' as int && Letter(50) == 'y' as int
  {
  }

  lemma QuadBytes(b0: Byte, b1: Byte, b2: Byte)
    ensures Quad(b0, b1, b2) ==
            [Letter(b0 / 4), Letter(b0 % 4 * 16 + b1 / 16), Letter(b1 % 16 * 4 + b2 / 64), Letter(b2 % 64)]
  {
    hide Letter, Digit, Group24;
    DigitsOf(b0, b1, b2);
  }

  // ---- The encoder ----

  class Buffer {
    var data: array<Byte>
    var blocks: nat

    ghost predicate Valid()
      reads this
    {
      data.Length == blocks * BUFFER_SIZE
    }

    constructor ()
      ensures Valid() && fresh(data)
    {
      data := new Byte[BUFFER_SIZE](_ => 0);
      blocks := 1;
    }

    /** b64_buf_realloc: room for size bytes, in whole blocks, keeping what is there. */
    method Reserve(size: nat)
      requires Valid()
      modifies this
      ensures Valid() && size <= data.Length && old(data.Length) <= data.Length
      ensures data == old(data) || fresh(data)
      ensures data[..old(data.Length)] == old(data[..])
    {
      if size > blocks * BUFFER_SIZE {
        while size > blocks * BUFFER_SIZE
          invariant blocks >= old(blocks) && data == old(data)
          decreases size - blocks * BUFFER_SIZE
        {
          blocks := blocks + 1;
        }
        var old' := data;
        data := new Byte[BUFFER_SIZE * blocks](i requires 0 <= i reads old' => if i < old'.Length then old'[i] else 0);
        assert data[..old'.Length] == old'[..];
      }
    }
  }

  /** One translated symbol appended; the reservation before it is what keeps the write in bounds. */
  method Append(enc: Buffer, size: nat, c: Byte)
    requires enc.Valid() && size < enc.data.Length
    modifies enc.data
    ensures enc.data[..size + 1] == old(enc.data[..size]) + [c]
  {
    enc.data[size] := c;
  }

  /** The masks and shifts of the codec on one byte, as quotients and remainders. */
  lemma MasksHigh(b: bv8)
    ensures ((b & 0xfc) >> 2) as int == b as int / 4
    ensures ((b & 0xf0) >> 4) as int == b as int / 16
    ensures ((b & 0xc0) >> 6) as int == b as int / 64
  {
  }

  lemma MasksLow(b: bv8)
    ensures ((b & 0x03) << 4) as int == b as int % 4 * 16
    ensures ((b & 0x0f) << 2) as int == b as int % 16 * 4
    ensures (b & 0x3f) as int == b as int % 64
  {
  }

  /** The four mask and shift expressions of the encoder are the digits of the group, for any three bytes with
      their bit patterns. */
  lemma MasksAreDigits(t0: Byte, t1: Byte, t2: Byte, b0: bv8, b1: bv8, b2: bv8)
    requires b0 as int == t0 && b1 as int == t1 && b2 as int == t2
    ensures var n := Group24(t0, t1, t2);
            && ((b0 & 0xfc) >> 2) as int == Digit(n, 0)
            && ((b0 & 0x03) << 4) as int + ((b1 & 0xf0) >> 4) as int == Digit(n, 1)
            && ((b1 & 0x0f) << 2) as int + ((b2 & 0xc0) >> 6) as int == Digit(n, 2)
            && (b2 & 0x3f) as int == Digit(n, 3)
  {
    hide Digit, Group24;
    MasksHigh(b0);
    MasksLow(b0);
    MasksHigh(b1);
    MasksLow(b1);
    MasksHigh(b2);
    MasksLow(b2);
    DigitsOf(t0, t1, t2);
  }

  /** The codec on bytes as numbers, with each mask and shift as MasksHigh and MasksLow read it. */
  method Codec(t0: Byte, t1: Byte, t2: Byte) returns (buf: seq<Byte>)
    ensures |buf| == 4
    ensures forall j :: 0 <= j < 4 ==> buf[j] == Digit(Group24(t0, t1, t2), j)
  {
    DigitsOf(t0, t1, t2);
    buf := [t0 / 4, t0 % 4 * 16 + t1 / 16, t1 % 16 * 4 + t2 / 64, t2 % 64];
  }

  /** The four symbols of a full group. */
  method WriteQuad(enc: Buffer, size0: nat, buf: seq<Byte>, ghost quad: seq<Byte>) returns (size: nat)
    requires enc.Valid() && size0 <= enc.data.Length && |buf| == |quad| == 4
    requires forall j :: 0 <= j < 4 ==> buf[j] < 64 && quad[j] == Letter(buf[j])
    modifies enc, enc.data
    ensures enc.Valid() && (enc.data == old(enc.data) || fresh(enc.data)) && size <= enc.data.Length
    ensures enc.data[..size] == old(enc.data[..size0]) + quad
  {
    hide Letter;
    ghost var done := enc.data[..size0];
    enc.Reserve(size0 + 4);
    assert enc.data[..size0] == done;
    size := size0;
    var i := 0;
    while i < 4
      invariant 0 <= i <= 4 && size == size0 + i
      invariant enc.Valid() && (enc.data == old(enc.data) || fresh(enc.data)) && size0 + 4 <= enc.data.Length
      invariant enc.data[..size] == done + quad[..i]
    {
      Append(enc, size, Letter(buf[i]));
      assert quad[..i + 1] == quad[..i] + [quad[i]];
      size := size + 1;
      i := i + 1;
    }
    assert quad[..4] == quad;
  }

  method B64Encode(src: seq<Byte>) returns (result: seq<Byte>)
    ensures result == Encode(src) + [NUL]
    ensures |result| > 0 && result[|result| - 1] == 0 && ByTable(src, result[..|result| - 1])
  {
    hide Encode, Quad, Letter, Digit, ByTable;
    var enc := new Buffer();
    var size: nat := 0;
    var i: nat := 0;
    var tmp: seq<Byte> := [0, 0, 0];
    var next := 0;
    EncodeEmpty();
    while next < |src|
      invariant next <= |src| && i < 3 && |tmp| == 3
      invariant (next - i) % 3 == 0 && 0 <= next - i && tmp[..i] == src[next - i..next]
      invariant enc.Valid() && fresh(enc) && fresh(enc.data) && size <= enc.data.Length
      invariant enc.data[..size] == Encode(src[..next - i])
    {
      assert src[next - i..next + 1] == src[next - i..next] + [src[next]];
      tmp := tmp[i := src[next]];
      next := next + 1;
      i := i + 1;
      assert tmp[..i] == src[next - i..next];
      if i == 3 {
        EncodeNext(src, next, tmp);
        var buf := Codec(tmp[0], tmp[1], tmp[2]);
        QuadLetters(tmp[0], tmp[1], tmp[2]);
        size := WriteQuad(enc, size, buf, Quad(tmp[0], tmp[1], tmp[2]));
        i := 0;
      }
    }
    EncodeSplit(src, |src| - i);
    assert src[|src| - i..] == tmp[..i];
    if i > 0 {
      size := Remainder(enc, size, tmp, i);
    }
    size := Push(enc, size, NUL);
    result := enc.data[..size];
    ResultByTable(src, result);
  }

  lemma ResultByTable(src: seq<Byte>, result: seq<Byte>)
    requires result == Encode(src) + [NUL]
    ensures |result| > 0 && result[|result| - 1] == 0 && ByTable(src, result[..|result| - 1])
  {
    hide Encode, ByTable;
    EncodeByTable(src);
    assert result[..|result| - 1] == Encode(src);
  }

  lemma EncodeSplit(s: seq<Byte>, n: nat)
    requires n <= |s| && n % 3 == 0
    ensures Encode(s) == Encode(s[..n]) + Encode(s[n..])
    ensures n == |s| ==> s[..n] == s
  {
    assert s == s[..n] + s[n..];
    EncodeConcat(s[..n], s[n..]);
  }

  lemma EncodeEmpty()
    ensures Encode([]) == []
  {
  }

  lemma QuadLetters(b0: Byte, b1: Byte, b2: Byte)
    ensures forall j :: 0 <= j < 4 ==> Quad(b0, b1, b2)[j] == Letter(Digit(Group24(b0, b1, b2), j))
  {
  }

  lemma EncodeNext(src: seq<Byte>, next: nat, b: seq<Byte>)
    requires 3 <= next <= |src| && next % 3 == 0 && |b| == 3 && b[..3] == src[next - 3..next]
    ensures Encode(src[..next]) == Encode(src[..next - 3]) + Quad(b[0], b[1], b[2])
  {
    hide Quad, Last;
    assert b == b[..3] && b[3..] == [];
    assert src[..next] == src[..next - 3] + b;
    EncodeConcat(src[..next - 3], b);
    LastEmpty();
  }

  lemma LastEmpty()
    ensures Last([]) == []
  {
  }

  /** The last one or two bytes: zero fill, the digits that carry data, then padding. */
  method Remainder(enc: Buffer, size0: nat, tmp0: seq<Byte>, i0: nat) returns (size: nat)
    requires enc.Valid() && size0 <= enc.data.Length && |tmp0| == 3 && 0 < i0 < 3
    modifies enc, enc.data
    ensures enc.Valid() && (enc.data == old(enc.data) || fresh(enc.data)) && size <= enc.data.Length
    ensures enc.data[..size] == old(enc.data[..size0]) + Encode(tmp0[..i0])
  {
    hide Encode, Last, Letter, Digit;
    ghost var done := enc.data[..size0];
    ghost var q := Last(tmp0[..i0]);
    var tmp, i := tmp0, i0;
    var j := i;
    while j < 3
      invariant i <= j <= 3 && |tmp| == 3 && tmp[..i] == tmp0[..i]
      invariant forall k :: i <= k < j ==> tmp[k] == 0
    {
      tmp := tmp[j := 0];
      j := j + 1;
    }
    var buf := Codec(tmp[0], tmp[1], tmp[2]);
    LastSymbols(tmp, i0);
    assert tmp[..i0] == tmp0[..i0];
    size := size0;
    j := 0;
    while j < i + 1
      invariant 0 <= j <= i + 1 && size == size0 + j <= enc.data.Length
      invariant enc.Valid() && (enc.data == old(enc.data) || fresh(enc.data))
      invariant enc.data[..size] == done + q[..j]
    {
      size := Push(enc, size, Letter(buf[j]));
      assert q[..j + 1] == q[..j] + [q[j]];
      j := j + 1;
    }
    while i < 3
      invariant i0 <= i <= 3 && size == size0 + i + 1 <= enc.data.Length
      invariant enc.Valid() && (enc.data == old(enc.data) || fresh(enc.data))
      invariant enc.data[..size] == done + q[..i + 1]
    {
      size := Push(enc, size, PAD);
      assert q[..i + 2] == q[..i + 1] + [q[i + 1]];
      i := i + 1;
    }
    assert q[..4] == q;
  }

  /** Reserve one more byte, then append it. */
  method Push(enc: Buffer, size0: nat, c: Byte) returns (size: nat)
    requires enc.Valid() && size0 <= enc.data.Length
    modifies enc, enc.data
    ensures enc.Valid() && (enc.data == old(enc.data) || fresh(enc.data))
    ensures size == size0 + 1 <= enc.data.Length
    ensures enc.data[..size] == old(enc.data[..size0]) + [c]
  {
    ghost var done := enc.data[..size0];
    enc.Reserve(size0 + 1);
    assert enc.data[..size0] == done;
    Append(enc, size0, c);
    size := size0 + 1;
  }

  lemma LastSymbols(tmp: seq<Byte>, i: nat)
    requires |tmp| == 3 && 0 < i < 3 && forall k :: i <= k < 3 ==> tmp[k] == 0
    ensures var q := Last(tmp[..i]);
            && |q| == 4 && q == Encode(tmp[..i])
            && (forall k :: 0 <= k <= i ==> q[k] == Letter(Digit(Group24(tmp[0], tmp[1], tmp[2]), k)))
            && forall k :: i < k < 4 ==> q[k] == PAD
  {
  }
}
