// The two checksums of the PNG encoder: the bitwise CRC-32 of section 3.4 of RFC 2083
// and the Adler-32 of section 8.2 of RFC 1950.
module Checksums {
  import Prelude

  type octet = bv8
  type octets = seq<bv8>

  function BitAt(b: octet, mask: octet): nat {
    if b & mask == 0 then 0 else 1
  }

  // The value of a byte, from its bits.
  function Value(b: octet): (n: nat)
    ensures n < 256
  {
    BitAt(b, 1) + 2 * BitAt(b, 2) + 4 * BitAt(b, 4) + 8 * BitAt(b, 8)
      + 16 * BitAt(b, 16) + 32 * BitAt(b, 32) + 64 * BitAt(b, 64) + 128 * BitAt(b, 128)
  }

  // Counting up, the value counts along.
  lemma ValueCounts(b: octet)
    ensures Value(0) == 0
    ensures b != 255 ==> Value(b + 1) == Value(b) + 1
  {
  }

  // -- CRC-32 -----------------------------------------------------------------------

  const POLY: bv32 := 0xEDB8_8320
  const ALL_ONES: bv32 := 0xFFFF_FFFF

  // Word operations under names of their own, so that proofs can use their laws
  // without their bits.
  function Xor(a: bv32, b: bv32): bv32 { a ^ b }
  function Half(a: bv32): bv32 { a >> 1 }
  function Up(a: bv32): bv32 { a << 8 }
  function Down(a: bv32): bv32 { a >> 8 }
  function Widen(b: octet): bv32 { b as bv32 }
  function Nibble(a: bv32): bv32 { a >> 4 }
  predicate Even(a: bv32) { a & 1 == 0 }
  predicate NibbleClear(a: bv32) { a & 0xF == 0 }

  // One turn of the inner loop.
  function Bit(crc: bv32): bv32 {
    (crc >> 1) ^ (POLY & (0 - (crc & 1)))
  }

  function Bits(crc: bv32, n: nat): bv32
    decreases n
  {
    if n == 0 then crc else Bits(Bit(crc), n - 1)
  }

  function Absorb(crc: bv32, b: octet): bv32 {
    Bits(Xor(crc, Widen(b)), 8)
  }

  // The register after `data`, starting from `crc`.
  function Register(crc: bv32, data: octets): bv32
    decreases |data|
  {
    if data == [] then crc else Register(Absorb(crc, data[0]), data[1..])
  }

  function Crc32(data: octets): bv32 {
    !Register(ALL_ONES, data)
  }

  method AbsorbByte(crc: bv32, b: octet) returns (r: bv32)
    ensures r == Absorb(crc, b)
  {
    hide Half, Up, Down, Even;
    r := crc ^ (b as bv32);
    assert r == Xor(crc, Widen(b));
    hide Xor, Widen;
    for k := 0 to 8
      invariant Bits(r, 8 - k) == Absorb(crc, b)
    {
      var mask: bv32 := 0 - (r & 1);
      r := (r >> 1) ^ (POLY & mask);
    }
  }

  method ComputeCrc32(data: octets) returns (r: bv32)
    ensures r == Crc32(data)
  {
    hide Absorb;
    var crc := ALL_ONES;
    for i := 0 to |data|
      invariant Register(crc, data[i..]) == Register(ALL_ONES, data)
    {
      assert data[i..][1..] == data[i + 1..];
      crc := AbsorbByte(crc, data[i]);
    }
    r := !crc;
  }

  lemma BitValue(x: bv32)
    ensures Even(x) ==> Bit(x) == Half(x)
    ensures !Even(x) ==> Bit(x) == Xor(Half(x), POLY)
  {
  }

  lemma HalvesDecide(x: bv32, y: bv32)
    requires (Even(x) <==> Even(y)) && Half(x) == Half(y)
    ensures x == y
  {
  }

  lemma TopBitTells(x: bv32, y: bv32)
    ensures Half(x) != Xor(Half(y), POLY)
  {
    assert (x >> 1) & 0x8000_0000 == 0;
    assert ((y >> 1) ^ POLY) & 0x8000_0000 == 0x8000_0000;
  }

  lemma XorCancel(x: bv32, y: bv32, z: bv32)
    requires Xor(x, z) == Xor(y, z)
    ensures x == y
  {
  }

  lemma XorSwap(a: bv32, b: bv32, c: bv32)
    ensures Xor(Xor(a, b), c) == Xor(Xor(a, c), b) == Xor(a, Xor(b, c))
    ensures Xor(a, b) == Xor(b, a)
  {
  }

  lemma XorEven(x: bv32, w: bv32)
    requires Even(w)
    ensures Even(Xor(x, w)) <==> Even(x)
    ensures Half(Xor(x, w)) == Xor(Half(x), Half(w))
  {
    assert (x ^ w) & 1 == (x & 1) ^ (w & 1);
    assert (x ^ w) >> 1 == (x >> 1) ^ (w >> 1);
  }

  // The polynomial's top bit is set, so a step loses nothing.
  lemma BitInjective(x: bv32, y: bv32)
    requires Bit(x) == Bit(y)
    ensures x == y
  {
    hide Bit, Half, Xor, Even;
    BitValue(x);
    BitValue(y);
    TopBitTells(x, y);
    TopBitTells(y, x);
    if !Even(x) && !Even(y) {
      XorCancel(Half(x), Half(y), POLY);
    }
    HalvesDecide(x, y);
  }

  // A step shifts even words straight through.
  lemma BitLinear(x: bv32, w: bv32)
    requires Even(w)
    ensures Bit(Xor(x, w)) == Xor(Bit(x), Half(w))
  {
    hide Bit, Half, Xor, Even;
    XorEven(x, w);
    BitValue(x);
    BitValue(Xor(x, w));
    XorSwap(Half(x), Half(w), POLY);
  }

  lemma {:induction false} BitsInjective(x: bv32, y: bv32, n: nat)
    requires Bits(x, n) == Bits(y, n)
    ensures x == y
    decreases n
  {
    hide Bit;
    if n > 0 {
      BitsInjective(Bit(x), Bit(y), n - 1);
      BitInjective(x, y);
    }
  }

  lemma {:induction false} BitsCompose(x: bv32, m: nat, n: nat)
    ensures Bits(Bits(x, m), n) == Bits(x, m + n)
    decreases m
  {
    hide Bit;
    if m > 0 {
      BitsCompose(Bit(x), m - 1, n);
    }
  }

  // The n low bits of w are clear.
  predicate Clear(w: bv32, n: nat)
    decreases n
  {
    n == 0 || (Even(w) && Clear(Half(w), n - 1))
  }

  function Halved(w: bv32, n: nat): bv32
    decreases n
  {
    if n == 0 then w else Halved(Half(w), n - 1)
  }

  // n steps carry a word with n clear low bits straight down.
  lemma {:induction false} BitsLinear(x: bv32, w: bv32, n: nat)
    requires Clear(w, n)
    ensures Bits(Xor(x, w), n) == Xor(Bits(x, n), Halved(w, n))
    decreases n
  {
    hide Bit, Half, Xor, Even;
    if n > 0 {
      BitLinear(x, w);
      BitsLinear(Bit(x), Half(w), n - 1);
    }
  }

  lemma FourHalves(w: bv32)
    ensures Halved(w, 4) == Nibble(w)
    ensures NibbleClear(w) ==> Clear(w, 4)
  {
    LowBits(w);
    hide Half, Even, Nibble, NibbleClear;
    assert Halved(w, 4) == Halved(Half(Half(w)), 2);
    assert Clear(w, 4) <==> Even(w) && Even(Half(w)) && Clear(Half(Half(w)), 2);
  }

  lemma LowBits(w: bv32)
    ensures Half(Half(Half(Half(w)))) == Nibble(w)
    ensures NibbleClear(w) ==> Even(w) && Even(Half(w)) && Even(Half(Half(w))) && Even(Half(Half(Half(w))))
  {
  }

  lemma {:induction false} HalvedCompose(w: bv32, m: nat, n: nat)
    ensures Halved(Halved(w, m), n) == Halved(w, m + n)
    ensures Clear(w, m) && Clear(Halved(w, m), n) ==> Clear(w, m + n)
    decreases m
  {
    hide Half, Even;
    if m > 0 {
      HalvedCompose(Half(w), m - 1, n);
    }
  }

  lemma UpIsClear(z: bv32)
    ensures Clear(Up(z), 8)
    ensures Halved(Up(z), 8) == Down(Up(z))
  {
    hide Up, Down, Half, Even, Nibble, NibbleClear, Clear, Halved;
    var w := Up(z);
    UpNibbles(z);
    FourHalves(w);
    FourHalves(Nibble(w));
    HalvedCompose(w, 4, 4);
  }

  lemma UpNibbles(z: bv32)
    ensures NibbleClear(Up(z)) && NibbleClear(Nibble(Up(z))) && Nibble(Nibble(Up(z))) == Down(Up(z))
  {
  }

  // Words below 2^24 survive being shifted up a byte.
  predicate Small(z: bv32) { z & 0xFF00_0000 == 0 }

  lemma ShiftThrough(x: bv32, z: bv32)
    requires Small(z)
    ensures Xor(Bits(x, 8), z) == Bits(Xor(x, Up(z)), 8)
  {
    UpDown(z);
    hide Bit, Half, Xor, Even, Up, Down, Small, Bits;
    UpIsClear(z);
    BitsLinear(x, Up(z), 8);
  }

  lemma UpDown(z: bv32)
    requires Small(z)
    ensures Down(Up(z)) == z
  {
  }

  // Four bytes as the little-endian word the register sees, built from the last byte up.
  function Word(b0: octet, b1: octet, b2: octet, b3: octet): bv32 {
    Xor(Widen(b0), Up(Xor(Widen(b1), Up(Xor(Widen(b2), Up(Widen(b3)))))))
  }

  lemma WordInjective(a0: octet, a1: octet, a2: octet, a3: octet, b0: octet, b1: octet, b2: octet, b3: octet)
    requires Word(a0, a1, a2, a3) == Word(b0, b1, b2, b3)
    ensures a0 == b0 && a1 == b1 && a2 == b2 && a3 == b3
  {
  }

  lemma WordPartsSmall(b1: octet, b2: octet, b3: octet)
    ensures Small(Widen(b3)) && Small(Xor(Widen(b2), Up(Widen(b3))))
    ensures Small(Xor(Widen(b1), Up(Xor(Widen(b2), Up(Widen(b3))))))
  {
  }

  // Absorbing four bytes one by one is 32 steps on the register with their word added.
  lemma AbsorbWord(c: bv32, b0: octet, b1: octet, b2: octet, b3: octet)
    ensures Absorb(Absorb(Absorb(Absorb(c, b0), b1), b2), b3) == Bits(Xor(c, Word(b0, b1, b2, b3)), 32)
  {
    hide Bit, Bits, Half, Xor, Even, Up, Down, Widen, Small;
    WordPartsSmall(b1, b2, b3);
    var w0, w1, w2, w3 := Widen(b0), Widen(b1), Widen(b2), Widen(b3);
    var z3 := w3;
    var z2 := Xor(w2, Up(z3));
    var z1 := Xor(w1, Up(z2));
    var z0 := Xor(w0, Up(z1));
    var x1 := Bits(Xor(c, w0), 8);
    var x2 := Bits(Xor(x1, w1), 8);
    var x3 := Bits(Xor(x2, w2), 8);
    ShiftThrough(Xor(x2, w2), z3);
    XorSwap(x2, w2, Up(z3));
    ShiftThrough(Xor(x1, w1), z2);
    XorSwap(x1, w1, Up(z2));
    ShiftThrough(Xor(c, w0), z1);
    XorSwap(c, w0, Up(z1));
    BitsCompose(Xor(c, z0), 8, 8);
    BitsCompose(Xor(c, z0), 16, 8);
    BitsCompose(Xor(c, z0), 24, 8);
  }

  lemma {:induction false} RegisterAppend(c: bv32, s: octets, t: octets)
    ensures Register(c, s + t) == Register(Register(c, s), t)
    decreases |s|
  {
    hide Absorb;
    if s == [] {
      assert s + t == t;
    } else {
      RegisterAppend(Absorb(c, s[0]), s[1..], t);
      assert (s + t)[1..] == s[1..] + t;
    }
  }

  // Equal data keeps different registers different.
  lemma {:induction false} RegisterInjective(x: bv32, y: bv32, data: octets)
    requires Register(x, data) == Register(y, data)
    ensures x == y
    decreases |data|
  {
    hide Bits, Xor, Widen;
    if data != [] {
      RegisterInjective(Absorb(x, data[0]), Absorb(y, data[0]), data[1..]);
      var b := Widen(data[0]);
      BitsInjective(Xor(x, b), Xor(y, b), 8);
      XorCancel(x, y, b);
    }
  }

  function WordOf(s: octets): bv32
    requires |s| == 4
  {
    Word(s[0], s[1], s[2], s[3])
  }

  lemma RegisterWord(c: bv32, s: octets)
    requires |s| == 4
    ensures Register(c, s) == Bits(Xor(c, WordOf(s)), 32)
  {
    hide Absorb, Bits, Word, Xor;
    AbsorbWord(c, s[0], s[1], s[2], s[3]);
    var c1 := Absorb(c, s[0]);
    var c2 := Absorb(c1, s[1]);
    var c3 := Absorb(c2, s[2]);
    var s1 := s[1..];
    var s2 := s1[1..];
    assert Register(c, s) == Register(c1, s1);
    assert Register(c1, s1) == Register(c2, s2);
    assert Register(c2, s2) == Register(c3, s2[1..]);
    assert Register(c3, s2[1..]) == Register(Absorb(c3, s[3]), s2[1..][1..]);
  }

  // Different four-byte words drive equal registers apart.
  lemma WordsSeparate(c: bv32, s: octets, t: octets)
    requires |s| == |t| == 4 && Register(c, s) == Register(c, t)
    ensures s == t
  {
    hide Bits, Register, Word, Xor;
    RegisterWord(c, s);
    RegisterWord(c, t);
    BitsInjective(Xor(c, WordOf(s)), Xor(c, WordOf(t)), 32);
    XorSwap(c, WordOf(s), 0);
    XorSwap(c, WordOf(t), 0);
    XorCancel(WordOf(s), WordOf(t), c);
    WordInjective(s[0], s[1], s[2], s[3], t[0], t[1], t[2], t[3]);
  }

  predicate DifferOnlyWithin(s: octets, t: octets, i: nat, n: nat) {
    |s| == |t| && forall k :: 0 <= k < |s| && !(i <= k < i + n) ==> s[k] == t[k]
  }

  lemma FullBurst(s: octets, t: octets, i: nat)
    requires DifferOnlyWithin(s, t, i, 4) && i + 4 <= |s| && Register(ALL_ONES, s) == Register(ALL_ONES, t)
    ensures s == t
  {
    hide Register;
    var p, u, v, q := s[..i], s[i..i + 4], t[i..i + 4], s[i + 4..];
    assert s == p + u + q && t == p + v + q;
    var c := Register(ALL_ONES, p);
    RegisterAppend(ALL_ONES, p, u);
    RegisterAppend(ALL_ONES, p, v);
    RegisterAppend(ALL_ONES, p + u, q);
    RegisterAppend(ALL_ONES, p + v, q);
    RegisterInjective(Register(c, u), Register(c, v), q);
    WordsSeparate(c, u, v);
  }

  // Burst detection: inputs of equal length that differ, but only within four
  // consecutive bytes, never have the same CRC.
  lemma BurstDetected(s: octets, t: octets, i: nat)
    requires DifferOnlyWithin(s, t, i, 4) && s != t
    ensures Crc32(s) != Crc32(t)
  {
    hide Register;
    var x, y := Register(ALL_ONES, s), Register(ALL_ONES, t);
    if x == y {
      var pad: octets := [0, 0, 0, 0];
      RegisterAppend(ALL_ONES, s, pad);
      RegisterAppend(ALL_ONES, t, pad);
      var j := if i <= |s| then i else |s|;
      assert DifferOnlyWithin(s + pad, t + pad, j, 4);
      assert (s + pad)[..|s|] == s && (t + pad)[..|s|] == t;
      FullBurst(s + pad, t + pad, j);
    }
    NotInjective(x, y);
  }

  lemma NotInjective(x: bv32, y: bv32)
    requires x != y
    ensures !x != !y
  {
  }

  // -- Adler-32 ---------------------------------------------------------------------

  const ADLER_MOD: nat := 65521

  // Sum of the bytes, and of the running sums: byte i of n counts n - i times.
  function Sum(data: octets): nat {
    if data == [] then 0 else Sum(data[..|data| - 1]) + Value(data[|data| - 1])
  }

  function WeightedSum(data: octets): nat {
    if data == [] then 0 else WeightedSum(data[..|data| - 1]) + Sum(data)
  }

  function Adler32(data: octets): (r: nat)
    ensures r < 0x1_0000_0000
  {
    var a := (1 + Sum(data)) % ADLER_MOD;
    var b := (|data| + WeightedSum(data)) % ADLER_MOD;
    b * 65536 + a
  }

  // The running sum of running sums weighs each byte by its distance from the end.
  function Weighted(data: octets, i: nat): int
    requires i <= |data|
    decreases |data| - i
  {
    if i == |data| then 0 else (|data| - i) * Value(data[i]) + Weighted(data, i + 1)
  }

  lemma {:induction false} WeightedGrows(data: octets, b: octet, i: nat)
    requires i <= |data|
    ensures Weighted(data + [b], i) == Weighted(data, i) + Sum((data + [b])[i..])
    decreases |data| - i
  {
    hide Value;
    var d := data + [b];
    if i == |data| {
      assert d[i..] == [b];
      assert [b][..0] == [];
      assert Weighted(d, i + 1) == 0;
    } else {
      WeightedGrows(data, b, i + 1);
      SumFront(d[i..]);
      assert d[i..][1..] == d[i + 1..];
      var x := Value(data[i]);
      Prelude.OneMore(|data| - i, x);
    }
  }

  lemma {:induction false} SumFront(data: octets)
    requires data != []
    ensures Sum(data) == Value(data[0]) + Sum(data[1..])
  {
    hide Value;
    if |data| > 1 {
      SumFront(data[..|data| - 1]);
      assert data[..|data| - 1][1..] == data[1..][..|data| - 2];
    } else {
      assert data[1..] == [] && data[..0] == [];
    }
  }

  // Adler's second sum in closed form: byte i of n counts n - i times.
  lemma {:induction false} WeightedClosedForm(data: octets)
    ensures WeightedSum(data) == Weighted(data, 0)
  {
    hide Value;
    if data != [] {
      var front, last := data[..|data| - 1], data[|data| - 1];
      WeightedClosedForm(front);
      WeightedGrows(front, last, 0);
      assert front + [last] == data;
      assert data[0..] == data;
    }
  }

  // The low half is one more than the sum of the bytes, the high half the weighted sum and
  // the length, each modulo the largest prime below 2^16.
  lemma AdlerIs(data: octets)
    ensures Adler32(data) % 65536 == (1 + Sum(data)) % 65521
    ensures Adler32(data) / 65536 == (|data| + Weighted(data, 0)) % 65521
  {
    WeightedClosedForm(data);
    hide Sum, WeightedSum, Weighted;
    TwoHalves((1 + Sum(data)) % ADLER_MOD, (|data| + WeightedSum(data)) % ADLER_MOD);
  }

  lemma TwoHalves(a: nat, b: nat)
    requires a < 65536
    ensures (b * 65536 + a) % 65536 == a && (b * 65536 + a) / 65536 == b
  {
  }

  lemma SumsGrow(data: octets, i: nat)
    requires i < |data|
    ensures Sum(data[..i + 1]) == Sum(data[..i]) + Value(data[i])
    ensures WeightedSum(data[..i + 1]) == WeightedSum(data[..i]) + Sum(data[..i + 1])
  {
    assert data[..i + 1][..i] == data[..i];
  }

  lemma ReduceEarly(x: nat, y: nat)
    ensures (x % ADLER_MOD + y % ADLER_MOD) % ADLER_MOD == (x + y) % ADLER_MOD
    ensures (x % ADLER_MOD + y) % ADLER_MOD == (x + y) % ADLER_MOD
  {
  }

  // The loop keeps both sums reduced; no intermediate value reaches 2^32, so the
  // 32-bit arithmetic is exact for data of any length.
  method ComputeAdler32(data: octets) returns (r: nat)
    ensures r == Adler32(data)
  {
    hide Value, Sum, WeightedSum;
    var a, b := 1, 0;
    EmptySums();
    assert data[..0] == [];
    for i := 0 to |data|
      invariant a == (1 + Sum(data[..i])) % ADLER_MOD
      invariant b == (i + WeightedSum(data[..i])) % ADLER_MOD
    {
      SumsGrow(data, i);
      ReduceEarly(1 + Sum(data[..i]), Value(data[i]));
      ReduceEarly(i + WeightedSum(data[..i]), 1 + Sum(data[..i + 1]));
      assert a + Value(data[i]) < 0x1_0000_0000;
      a := (a + Value(data[i])) % ADLER_MOD;
      assert b + a < 0x1_0000_0000;
      b := (b + a) % ADLER_MOD;
    }
    assert data[..|data|] == data;
    r := b * 65536 + a;
  }

  lemma EmptySums()
    ensures Sum([]) == 0 && WeightedSum([]) == 0
  {
  }
}
