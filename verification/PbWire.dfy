/** Protocol Buffers numbers on the wire (Encoding, "Base 128 Varints" and "Signed Integers"). */
module PbWire {
  import opened Machine

  const U64_MOD := 0x1_0000_0000_0000_0000
  const I64_MIN := -0x8000_0000_0000_0000
  const I64_END := 0x8000_0000_0000_0000

  type u64 = x: int | 0 <= x < U64_MOD
  type i64 = x: int | I64_MIN <= x < I64_END

  // ---------------------------------------------------------------- varints

  /** The minimal base 128 form: seven bits to a byte, the lowest first, the top bit set on all but the last. */
  function Base128(v: nat): (s: seq<u8>)
    ensures 0 < |s|
    decreases v
  {
    if v < 128 then [v] else [128 + v % 128] + Base128(v / 128)
  }

  function Pow128(n: nat): nat {
    if n == 0 then 1 else 128 * Pow128(n - 1)
  }

  /** A number below 128 to the n takes at most n bytes, and a number not below takes more. */
  lemma {:induction false} Base128Length(v: nat, n: nat)
    requires 0 < n
    ensures v < Pow128(n) <==> |Base128(v)| <= n
    decreases n
  {
    if n == 1 {
      assert Pow128(1) == 128 * Pow128(0);
    } else if v >= 128 {
      Base128Length(v / 128, n - 1);
      assert v / 128 < Pow128(n - 1) <==> v < 128 * Pow128(n - 1);
    } else {
      Pow128Grows(n);
    }
  }

  lemma {:induction false} Pow128Grows(n: nat)
    requires 0 < n
    ensures 128 <= Pow128(n)
  {
    if 1 < n {
      Pow128Grows(n - 1);
    }
  }

  // ---------------------------------------------------------------- the split encoder

  /** Weight of the high word once `i` bytes of the low one are out. */
  function Weight(i: nat): nat
    requires i <= 4
  {
    if i == 0 then 0x1_0000_0000 else if i == 1 then 0x200_0000 else if i == 2 then 0x4_0000
    else if i == 3 then 0x800 else 0x10
  }

  /** What a byte shares its place with: seven bits here, and everything above. */
  lemma PutByte(v: nat, pre: seq<u8>, byte: nat, more: nat)
    requires byte < 128 && 0 < more && pre + Base128(byte + 128 * more) == Base128(v)
    ensures pre + [128 + byte] + Base128(more) == Base128(v)
  {
    var r := byte + 128 * more;
    assert r >= 128 && r % 128 == byte && r / 128 == more;
    Assoc(pre, [128 + byte], Base128(more));
  }

  /** Bound on what is left of the high word after `i` bytes. */
  function HighLimit(i: nat): nat
    requires 4 <= i <= 9
  {
    if i == 4 then 0x2000_0000 else if i == 5 then 0x40_0000 else if i == 6 then 0x8000
    else if i == 7 then 0x100 else if i == 8 then 2 else 1
  }

  /** The encoder works on two 32-bit words, never on 64 bits; its ten-byte buffer is never overrun and
      ends up holding the minimal form. */
  method EncodeVarint32(low: u32, high: u32) returns (buffer: array<u8>, n: nat)
    ensures buffer.Length == 10 && 0 < n <= 10 && fresh(buffer)
    ensures buffer[..n] == Base128(low + 0x1_0000_0000 * high)
  {
    ghost var v := low + 0x1_0000_0000 * high;
    buffer := new u8[10];
    var i, byte := LowBytes(buffer, low, high);
    if high != 0 {
      i, byte := HighBytes(buffer, i, byte + high % 8 * 16, high / 8, v);
    }
    buffer[i] := byte;
    n := i + 1;
    assert buffer[..n] == buffer[..i] + [byte];
  }

  method LowBytes(buffer: array<u8>, low0: u32, high: u32) returns (i: nat, byte: nat)
    requires buffer.Length == 10
    modifies buffer
    ensures i <= 4 && byte < 128 && (high != 0 ==> i == 4 && byte < 16)
    ensures buffer[..i] + Base128(byte + 16 * high) == Base128(low0 + 0x1_0000_0000 * high)
  {
    ghost var v := low0 + 0x1_0000_0000 * high;
    i, byte := 0, low0 % 128;
    var low: nat := low0 / 128;
    while i < 4 && (low != 0 || high != 0)
      invariant i <= 4 && byte < 128 && 128 * low + byte < Weight(i)
      invariant buffer[..i] + Base128(byte + 128 * low + Weight(i) * high) == Base128(v)
      decreases 4 - i
    {
      LowByte(v, buffer[..i], byte, low, high, i);
      buffer[i] := 128 + byte;
      assert buffer[..i + 1] == buffer[..i] + [128 + byte];
      byte := low % 128;
      low := low / 128;
      i := i + 1;
    }
  }

  method HighBytes(buffer: array<u8>, i0: nat, byte0: nat, high0: nat, ghost v: nat) returns (i: nat, byte: nat)
    requires buffer.Length == 10 && i0 == 4 && byte0 < 128 && high0 < HighLimit(4)
    requires buffer[..i0] + Base128(byte0 + 128 * high0) == Base128(v)
    modifies buffer
    ensures 4 <= i <= 9 && byte < 128 && buffer[..i] + [byte] == Base128(v)
  {
    i, byte := i0, byte0;
    var high: nat := high0;
    while high != 0
      invariant 4 <= i <= 9 && byte < 128 && high < HighLimit(i)
      invariant buffer[..i] + Base128(byte + 128 * high) == Base128(v)
      decreases high
    {
      PutByte(v, buffer[..i], byte, high);
      buffer[i] := 128 + byte;
      assert buffer[..i + 1] == buffer[..i] + [128 + byte];
      byte := high % 128;
      high := high / 128;
      i := i + 1;
    }
  }

  lemma LowByte(v: nat, pre: seq<u8>, byte: nat, low: nat, high: nat, i: nat)
    requires i < 4 && byte < 128 && (low != 0 || high != 0)
    requires pre + Base128(byte + 128 * low + Weight(i) * high) == Base128(v)
    ensures pre + [128 + byte] + Base128(low % 128 + 128 * (low / 128) + Weight(i + 1) * high) == Base128(v)
  {
    assert Weight(i) == 128 * Weight(i + 1);
    var more := low + Weight(i + 1) * high;
    assert byte + 128 * low + Weight(i) * high == byte + 128 * more;
    PutByte(v, pre, byte, more);
  }

  // ---------------------------------------------------------------- the decoders

  /** A value parsed from the front of some bytes and the number of bytes it took. */
  datatype Parsed<+T> = Parsed(value: T, used: nat) | Bad

  function Low64(x: nat): u64 {
    if x < U64_MOD then x else x % U64_MOD
  }

  function Low32(x: nat): u32 {
    if x < U32_MOD then x else x % U32_MOD
  }

  /** The 64-bit decoder, `n` bytes into the varint. */
  function Dec64At(s: seq<u8>, n: nat, result: nat): (r: Parsed<u64>)
    ensures r.Parsed? ==> n < r.used <= |s|
    decreases |s| - n
  {
    if 7 * n >= 64 || n >= |s| then Bad
    else
      var r := Low64(result + s[n] % 128 * Pow128(n));
      if s[n] < 128 then Parsed(r, n + 1) else Dec64At(s, n + 1, r)
  }

  function Dec64(s: seq<u8>): (r: Parsed<u64>)
    ensures r.Parsed? ==> 0 < r.used <= |s|
  {
    Dec64At(s, 0, 0)
  }

  /** The 32-bit decoder, `n` bytes into a varint of several bytes. From the sixth byte on it only looks for
      the sign extension of a negative number; the fifth byte must not carry more than four bits if it is the last. */
  function Dec32At(s: seq<u8>, n: nat, result: u32): (r: Parsed<u32>)
    ensures r.Parsed? ==> n < r.used <= |s|
    decreases |s| - n
  {
    if n >= |s| then Bad
    else
      var b: nat := s[n];
      var sign := if 7 * n < 63 then 0xFF else 0x01;
      if 7 * n >= 32 && b % 128 != 0 && (result < 0x8000_0000 || b != sign) then Bad
      else
        var r := if 7 * n >= 32 then result else Low32(result + b % 128 * Pow128(n));
        if b >= 128 then Dec32At(s, n + 1, r)
        else if 7 * (n + 1) == 35 && b / 16 != 0 then Bad
        else Parsed(r, n + 1)
  }

  function Dec32(s: seq<u8>): (r: Parsed<u32>)
    ensures r.Parsed? ==> 0 < r.used <= |s|
  {
    if s == [] then Bad
    else if s[0] < 128 then Parsed(s[0], 1)
    else Dec32At(s, 1, s[0] % 128)
  }

  // ---------------------------------------------------------------- decoding inverts encoding

  /** The bytes from index `n` on are the encoding of `w` and more. */
  predicate Encodes(s: seq<u8>, n: nat, w: nat, rest: seq<u8>) {
    n <= |s| && s[n..] == Base128(w) + rest
  }

  lemma NextByte(s: seq<u8>, n: nat, w: nat, rest: seq<u8>)
    requires Encodes(s, n, w, rest)
    ensures n < |s|
    ensures w < 128 ==> s[n] == w && n + 1 + |rest| == |s|
    ensures w >= 128 ==> s[n] == 128 + w % 128 && Encodes(s, n + 1, w / 128, rest)
  {
    var t := s[n..];
    assert t[0] == s[n];
    if w >= 128 {
      assert Base128(w) == [128 + w % 128] + Base128(w / 128);
      assert t == [128 + w % 128] + (Base128(w / 128) + rest);
      assert s[n + 1..] == t[1..];
    } else {
      assert |t| == 1 + |rest|;
    }
  }

  lemma Dec64Step(s: seq<u8>, n: nat, result: nat, g: nat)
    requires n <= 9 && n < |s| && g == s[n] % 128 * Pow128(n) && result + g < U64_MOD
    ensures Dec64At(s, n, result) == if s[n] < 128 then Parsed(result + g, n + 1) else Dec64At(s, n + 1, result + g)
  {
  }

  lemma {:induction false} Dec64Decodes(s: seq<u8>, n: nat, w: nat, result: nat, v: u64, rest: seq<u8>)
    requires Encodes(s, n, w, rest) && v == result + w * Pow128(n)
    requires n <= 9 && (n == 9 ==> w < 2)
    ensures Dec64At(s, n, result) == Parsed(v, |s| - |rest|)
    decreases w
  {
    NextByte(s, n, w, rest);
    GroupSplit(w, n);
    var q, g := w / 128, w % 128 * Pow128(n);
    Dec64Step(s, n, result, g);
    if w >= 128 {
      LastGroup(v, n + 1, q, result + g);
      Dec64Decodes(s, n + 1, q, result + g, v, rest);
    }
  }

  /** The lowest group of a number split off. */
  lemma GroupSplit(w: nat, n: nat)
    ensures w * Pow128(n) == w % 128 * Pow128(n) + w / 128 * Pow128(n + 1)
    ensures 0 <= w % 128 * Pow128(n) && 0 <= w / 128 * Pow128(n + 1)
    ensures w < 128 ==> w / 128 * Pow128(n + 1) == 0
  {
    var p, q, g := Pow128(n), w / 128, w % 128;
    assert w * p == (g + 128 * q) * p == g * p + q * (128 * p);
  }

  lemma LastGroup(v: u64, n: nat, w: nat, r: nat)
    requires v == r + w * Pow128(n)
    ensures n == 9 ==> w < 2
  {
    if n == 9 {
      PowNine(n);
      assert w >= 2 ==> w * Pow128(n) >= 2 * Pow128(n);
    }
  }

  lemma PowNine(n: nat)
    requires n == 9
    ensures Pow128(n) == 0x8000_0000_0000_0000
  {
    assert Pow128(n - 1) == 0x100_0000_0000_0000 by {
      assert Pow128(n - 5) == 0x1000_0000 by {
        assert Pow128(n - 9) == 1;
        assert Pow128(n - 8) == 128 && Pow128(n - 7) == 0x4000 && Pow128(n - 6) == 0x20_0000;
      }
      assert Pow128(n - 4) == 0x8_0000_0000 && Pow128(n - 3) == 0x400_0000_0000 && Pow128(n - 2) == 0x2_0000_0000_0000;
    }
  }

  /** The 64-bit decoder gives back every number, reading exactly its bytes. */
  lemma Dec64Inverts(v: u64, rest: seq<u8>)
    ensures Dec64(Base128(v) + rest) == Parsed(v, |Base128(v)|)
    ensures |Base128(v)| <= 10
  {
    var s := Base128(v) + rest;
    assert s[0..] == s;
    assert Pow128(0) == 1;
    Dec64Decodes(s, 0, v, 0, v, rest);
    TenGroups(10);
    Base128Length(v, 10);
  }

  lemma TenGroups(n: nat)
    requires n == 10
    ensures U64_MOD <= Pow128(n)
  {
    PowNine(n - 1);
  }

  // ---------------------------------------------------------------- the 32-bit decoder, exactly

  predicate Blank(g: nat) {
    g == 0 || g == 127
  }

  /** Four groups of seven bits, each all zeros or all ones. */
  predicate BlankGroups(h: nat) {
    Blank(h % 128) && Blank(h / 128 % 128) && Blank(h / 0x4000 % 128) && Blank(h / 0x20_0000 % 128)
  }

  /** The numbers the 32-bit decoder lets through: those of 32 bits, and those from 2^63 up whose bit 31 is set
      and whose groups of bits from bit 35 up are all zeros or all ones. */
  predicate Accepts32(v: nat) {
    v < U32_MOD
    || (v >= 0x8000_0000_0000_0000 && v / 0x8000_0000 % 2 == 1 && BlankGroups(v / 0x8_0000_0000))
  }

  /** What the decoder demands of the groups from the sixth byte on. */
  predicate HighOk(w: nat, n: nat, sign: bool)
    decreases w
  {
    if w < 128 then w == 0 || (sign && n >= 9 && w == 1)
    else (w % 128 == 0 || (sign && n < 9 && w % 128 == 127)) && HighOk(w / 128, n + 1, sign)
  }

  lemma {:induction false} Dec32High(s: seq<u8>, n: nat, w: nat, result: u32, rest: seq<u8>)
    requires Encodes(s, n, w, rest) && n >= 5
    ensures Dec32At(s, n, result) == if HighOk(w, n, result >= 0x8000_0000) then Parsed(result, |s| - |rest|) else Bad
    decreases w
  {
    NextByte(s, n, w, rest);
    if w >= 128 {
      Dec32High(s, n + 1, w / 128, result, rest);
    }
  }

  /** From the ninth byte on a number below two passes if it is none, or the sign. */
  lemma HighOkUnfolded(w: nat, n: nat, sign: bool)
    requires n == 5 && 0 < w < 0x2000_0000
    ensures HighOk(w, n, sign) <==>
      sign && w >= 0x1000_0000 && BlankGroups(w)
  {
    var a := w / 128;
    var b := a / 128;
    var c := b / 128;
    var d := c / 128;
    assert b == w / 0x4000 && c == w / 0x20_0000 && d == w / 0x1000_0000 && d < 2;
    HighStep(w, n, sign);
    HighStep(a, n + 1, sign);
    HighStep(b, n + 2, sign);
    HighStep(c, n + 3, sign);
    assert HighOk(d, n + 4, sign) <==> d == 0 || sign;
  }

  lemma HighStep(w: nat, n: nat, sign: bool)
    requires 5 <= n < 9
    ensures HighOk(w, n, sign) <==>
      if w < 128 then w == 0
      else (w % 128 == 0 || (sign && w % 128 == 127)) && HighOk(w / 128, n + 1, sign)
  {
  }

  /** The fifth byte, of weight 2^28: the last one, or the start of the high part. */
  lemma Dec32Fifth(s: seq<u8>, n: nat, w: nat, result: nat, v: u64, rest: seq<u8>)
    requires Encodes(s, n, w, rest) && n == 4 && 0 < w && result < 0x1000_0000 && v == result + w * 0x1000_0000
    ensures Dec32At(s, n, result) == if Accepts32(v) then Parsed(v % U32_MOD, |s| - |rest|) else Bad
  {
    NextByte(s, n, w, rest);
    FifthValue(result, w, v);
    Dec32FifthStep(s, n, result, v % U32_MOD);
    if w >= 128 {
      var h := w / 128;
      Dec32High(s, n + 1, h, v % U32_MOD, rest);
      HighOkUnfolded(h, n + 1, v % U32_MOD >= 0x8000_0000);
    }
  }

  lemma FifthValue(result: nat, w: nat, v: u64)
    requires result < 0x1000_0000 && v == result + w * 0x1000_0000
    ensures Low32(result + w % 128 * 0x1000_0000) == v % U32_MOD
    ensures w / 128 == v / 0x8_0000_0000 < 0x2000_0000
    ensures v % U32_MOD >= 0x8000_0000 <==> v / 0x8000_0000 % 2 == 1
    ensures v >= 0x8000_0000_0000_0000 <==> w / 128 >= 0x1000_0000
    ensures w < 128 ==> (v < U32_MOD <==> w / 16 == 0)
    ensures w >= 128 ==> v >= U32_MOD
  {
    var h, a, b := w / 128, w % 128 / 16, w % 16;
    FifthParts(result, w, v, h, a, b);
    LowWord(result + b * 0x1000_0000, a, v, a + 8 * h);
  }

  lemma FifthParts(result: nat, w: nat, v: u64, h: nat, a: nat, b: nat)
    requires result < 0x1000_0000 && v == result + w * 0x1000_0000 && h == w / 128 && a == w % 128 / 16 && b == w % 16
    ensures w == 128 * h + 16 * a + b && w % 128 == 16 * a + b && a < 8 && h < 0x2000_0000
    ensures v == result + b * 0x1000_0000 + U32_MOD * (a + 8 * h)
    ensures v / 0x8_0000_0000 == h
  {
    SevenBits(w, h, a, b);
    assert v == (result + b * 0x1000_0000 + U32_MOD * a) + 0x8_0000_0000 * h;
  }

  lemma SevenBits(w: nat, h: nat, a: nat, b: nat)
    requires h == w / 128 && a == w % 128 / 16 && b == w % 16
    ensures w == 128 * h + 16 * a + b && w % 128 == 16 * a + b && a < 8 && b < 16
  {
    LowFour(h, w % 128, w);
  }

  lemma LowFour(h: nat, c: nat, w: nat)
    requires w == 128 * h + c
    ensures w % 16 == c % 16
  {
    assert w == 16 * (8 * h) + c;
  }

  lemma LowWord(low: nat, a: nat, v: nat, high: nat)
    requires low < U32_MOD && v == low + U32_MOD * high
    ensures v % U32_MOD == low && Low32(low + a * U32_MOD) == low
    ensures low >= 0x8000_0000 <==> v / 0x8000_0000 % 2 == 1
  {
    assert v / 0x8000_0000 == low / 0x8000_0000 + 2 * high;
  }

  lemma Dec32FifthStep(s: seq<u8>, n: nat, result: u32, r: u32)
    requires n == 4 < |s| && r == Low32(result + (s[n] as int) % 128 * 0x1000_0000)
    ensures Dec32At(s, n, result) ==
      if s[n] >= 128 then Dec32At(s, n + 1, r) else if s[n] / 16 != 0 then Bad else Parsed(r, n + 1)
  {
    PowFour(n);
  }

  lemma PowFour(n: nat)
    requires n == 4
    ensures Pow128(n) == 0x1000_0000
  {
    assert Pow128(n - 4) == 1;
    assert Pow128(n - 3) == 128;
    assert Pow128(n - 2) == 0x4000;
    assert Pow128(n - 1) == 0x20_0000;
  }

  /** The bytes before that only add up. */
  lemma {:induction false} Dec32Low(s: seq<u8>, n: nat, w: nat, result: nat, v: u64, rest: seq<u8>)
    requires Encodes(s, n, w, rest) && 1 <= n <= 4 && 0 < w && result < Pow128(n) <= 0x1000_0000
    requires v == result + w * Pow128(n)
    ensures Dec32At(s, n, result) == if Accepts32(v) then Parsed(v % U32_MOD, |s| - |rest|) else Bad
    decreases 4 - n
  {
    if n == 4 {
      PowFour(n);
      Dec32Fifth(s, n, w, result, v, rest);
    } else {
      NextByte(s, n, w, rest);
      GroupSplit(w, n);
      var g := w % 128 * Pow128(n);
      LowGroup(w, n, result);
      Dec32LowStep(s, n, result, g);
      if w >= 128 {
        Dec32Low(s, n + 1, w / 128, result + g, v, rest);
      }
    }
  }

  lemma LowGroup(w: nat, n: nat, result: nat)
    requires 1 <= n <= 3 && result < Pow128(n) <= 0x1000_0000
    ensures result + w % 128 * Pow128(n) < Pow128(n + 1) <= 0x1000_0000
  {
    var p := Pow128(n);
    assert Pow128(n + 1) == 128 * p;
    assert w % 128 * p <= 127 * p;
    PowFour(4);
    assert Pow128(2) == 0x4000 && Pow128(3) == 0x20_0000;
  }

  lemma Dec32LowStep(s: seq<u8>, n: nat, result: nat, g: nat)
    requires 1 <= n <= 3 && n < |s| && g == s[n] % 128 * Pow128(n) && result + g < U32_MOD
    ensures Dec32At(s, n, result) == if s[n] >= 128 then Dec32At(s, n + 1, result + g) else Parsed(result + g, n + 1)
  {
  }

  /** On every minimal encoding the 32-bit decoder either gives the low word and reads all its bytes, or fails;
      it accepts exactly the numbers of `Accepts32`. */
  lemma Dec32Exactly(v: u64, rest: seq<u8>)
    ensures Dec32(Base128(v) + rest) == if Accepts32(v) then Parsed(v % U32_MOD, |Base128(v)|) else Bad
  {
    var s := Base128(v) + rest;
    assert s[0..] == s;
    NextByte(s, 0, v, rest);
    if v >= 128 {
      assert Pow128(0) == 1 && Pow128(1) == 128;
      Dec32Low(s, 1, v / 128, v % 128, v, rest);
      Dec32First(s, v % 128);
    }
  }

  lemma Dec32First(s: seq<u8>, low: nat)
    requires s != [] && s[0] == 128 + low
    ensures Dec32(s) == Dec32At(s, 1, low)
  {
  }

  /** So it inverts the encoder on 32-bit numbers, gives the 32-bit pattern of a sign-extended negative number,
      and rejects everything else below 2^63. */
  lemma Dec32Means(v: u64, rest: seq<u8>)
    ensures v < U32_MOD ==> Dec32(Base128(v) + rest) == Parsed(v, |Base128(v)|)
    ensures v >= U64_MOD - 0x8000_0000 ==> Dec32(Base128(v) + rest) == Parsed(v - (U64_MOD - U32_MOD), |Base128(v)|)
    ensures U32_MOD <= v < 0x8000_0000_0000_0000 ==> Dec32(Base128(v) + rest) == Bad
  {
    Dec32Exactly(v, rest);
    if v >= U64_MOD - 0x8000_0000 {
      NegativeAccepted(v, U64_MOD - v);
    }
  }

  lemma NegativeAccepted(v: u64, k: nat)
    requires 0 < k <= 0x8000_0000 && v == U64_MOD - k
    ensures Accepts32(v) && v % U32_MOD == U32_MOD - k
  {
    LowWord(U32_MOD - k, 0, v, U32_MOD - 1);
    assert v / 0x8_0000_0000 == 0x1FFF_FFFF;
  }

  // ---------------------------------------------------------------- skipping

  /** Bytes of the varint at the front; 0 if it does not end. */
  function VarintLength(s: seq<u8>): (n: nat)
    ensures n <= |s|
  {
    if s == [] then 0
    else if s[0] < 128 then 1
    else
      var n := VarintLength(s[1..]);
      if n == 0 then 0 else n + 1
  }

  /** Skipping a varint takes exactly its bytes. */
  lemma {:induction false} SkipsVarint(v: nat, rest: seq<u8>)
    ensures VarintLength(Base128(v) + rest) == |Base128(v)|
    decreases v
  {
    var s := Base128(v) + rest;
    if v >= 128 {
      assert s[1..] == Base128(v / 128) + rest;
      SkipsVarint(v / 128, rest);
    }
  }

  // ---------------------------------------------------------------- signed and fixed numbers

  function ToU64(v: i64): u64 {
    if v < 0 then v + U64_MOD else v
  }

  function ToI64(u: u64): i64 {
    if u >= I64_END then u - U64_MOD else u
  }

  function Not64(u: u64): u64 {
    U64_MOD - 1 - u
  }

  /** Shift left, and complement what was negative. */
  function ZigZag(v: i64): u64 {
    var shifted := 2 * ToU64(v) % U64_MOD;
    if v < 0 then Not64(shifted) else shifted
  }

  function UnZigZag(u: u64): i64 {
    if u % 2 == 1 then ToI64(Not64(u / 2)) else ToI64(u / 2)
  }

  /** Zigzag is one-to-one onto the 64-bit numbers, and small numbers of either sign come out small. */
  lemma ZigZagRoundTrip(v: i64, u: u64)
    ensures UnZigZag(ZigZag(v)) == v && ZigZag(UnZigZag(u)) == u
    ensures ZigZag(v) == if v < 0 then -2 * v - 1 else 2 * v
  {
  }

  /** `n` bytes, the lowest first. */
  function LittleEndian(v: nat, n: nat): (s: seq<u8>)
    ensures |s| == n
  {
    if n == 0 then [] else [v % 256] + LittleEndian(v / 256, n - 1)
  }

  function FromLittleEndian(s: seq<u8>): nat {
    if s == [] then 0 else s[0] + 256 * FromLittleEndian(s[1..])
  }

  function Pow256(n: nat): nat {
    if n == 0 then 1 else 256 * Pow256(n - 1)
  }

  lemma {:induction false} FixedRoundTrip(v: nat, n: nat)
    requires v < Pow256(n)
    ensures FromLittleEndian(LittleEndian(v, n)) == v
  {
    if 0 < n {
      assert LittleEndian(v, n)[1..] == LittleEndian(v / 256, n - 1);
      FixedRoundTrip(v / 256, n - 1);
    }
  }
}
