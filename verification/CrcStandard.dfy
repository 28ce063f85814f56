// The CRC as section 3.4 of RFC 2083 defines it, without a register: a remainder of
// polynomials over the field of two elements.
module CrcStandard {
  import opened Checksums

  // -- The definition ---------------------------------------------------------------

  // The powers of x in the generating polynomial.
  const EXPONENTS: set<int> := {32, 26, 23, 22, 16, 12, 11, 10, 8, 7, 5, 4, 2, 1, 0}

  // A polynomial is the sequence of its coefficients, highest power first. This is the
  // generator times `q`: a copy of it for every coefficient of q, each one lower than the last.
  function Times(q: seq<bool>): (p: seq<bool>)
    ensures |p| == |q| + 32
  {
    if q == [] then seq(32, _ => false)
    else
      var rest := Times(q[1..]);
      seq(|q| + 32, (k: int) requires 0 <= k < |q| + 32 => (q[0] && 32 - k in EXPONENTS) != (k > 0 && rest[k - 1]))
  }

  // The generator times q, and r added.
  function Sum(q: seq<bool>, r: seq<bool>): (p: seq<bool>)
    requires |r| == 32
    ensures |p| == |q| + 32
  {
    seq(|q| + 32, (k: int) requires 0 <= k < |q| + 32 => Times(q)[k] != (k >= |q| && r[k - |q|]))
  }

  // Dividing p by the generator leaves r.
  ghost predicate Leaves(p: seq<bool>, r: seq<bool>)
    requires |r| == 32
  {
    exists q :: p == Sum(q, r)
  }

  // Bit i of a byte counts 2^i.
  predicate ByteBit(b: octet, i: nat)
    requires i < 8
  {
    var masks: octets := [1, 2, 4, 8, 16, 32, 64, 128];
    b & masks[i] != 0
  }

  // The data's bits in the order they are sent, each byte's low bit first.
  function DataBits(data: octets): seq<bool> {
    seq(8 * |data|, (k: int) requires 0 <= k < 8 * |data| => ByteBit(data[k / 8], k % 8))
  }

  // What is divided: the data followed by 32 zeros, the first 32 of these bits complemented.
  function Dividend(data: octets): seq<bool> {
    seq(8 * |data| + 32, (k: int) requires 0 <= k < 8 * |data| + 32 =>
      (k < 8 * |data| && DataBits(data)[k]) != (k < 32))
  }

  // Bit i of a word counts 2^i.
  predicate WordBit(w: bv32, i: nat) {
    if i == 0 then !Even(w) else WordBit(Half(w), i - 1)
  }

  // -- Words bit by bit ---------------------------------------------------------------

  lemma XorHalves(a: bv32, b: bv32)
    ensures Even(Xor(a, b)) <==> (Even(a) <==> Even(b))
    ensures Half(Xor(a, b)) == Xor(Half(a), Half(b))
  {
    assert (a ^ b) & 1 == (a & 1) ^ (b & 1);
    assert (a ^ b) >> 1 == (a >> 1) ^ (b >> 1);
  }

  lemma {:induction false} XorBit(a: bv32, b: bv32, i: nat)
    ensures WordBit(Xor(a, b), i) == (WordBit(a, i) != WordBit(b, i))
    decreases i
  {
    hide Even, Half, Xor;
    XorHalves(a, b);
    if i > 0 {
      XorBit(Half(a), Half(b), i - 1);
    }
  }

  lemma MaskOne(w: bv32)
    ensures Even(w) <==> w & 1 == 0
  {
  }

  lemma MaskTwo(w: bv32)
    ensures Even(Half(w)) <==> w & 2 == 0
  {
  }

  lemma MaskFour(w: bv32)
    ensures Half(w) & 2 == 0 <==> w & 4 == 0
  {
  }

  lemma MaskEight(w: bv32)
    ensures Half(w) & 4 == 0 <==> w & 8 == 0
  {
  }

  lemma LowMasks(w: bv32)
    ensures Even(w) <==> w & 1 == 0
    ensures Even(Half(w)) <==> w & 2 == 0
    ensures Even(Half(Half(w))) <==> w & 4 == 0
    ensures Even(Half(Half(Half(w)))) <==> w & 8 == 0
    ensures Half(Half(Half(Half(w)))) == Nibble(w)
  {
    hide Half, Nibble, Even;
    LowBits(w);
    MaskOne(w);
    var u := Half(w);
    MaskTwo(w);
    MaskTwo(u);
    MaskTwo(Half(u));
    MaskFour(w);
    MaskFour(u);
    MaskEight(w);
  }

  lemma NibbleBits(w: bv32, i: nat)
    ensures WordBit(w, 0) <==> w & 1 != 0
    ensures WordBit(w, 1) <==> w & 2 != 0
    ensures WordBit(w, 2) <==> w & 4 != 0
    ensures WordBit(w, 3) <==> w & 8 != 0
    ensures WordBit(w, i + 4) == WordBit(Nibble(w), i)
  {
    LowMasks(w);
    hide Even, Half, Nibble;
    assert WordBit(w, 1) == WordBit(Half(w), 0);
    assert WordBit(w, 2) == WordBit(Half(w), 1) == WordBit(Half(Half(w)), 0);
    assert WordBit(w, 3) == WordBit(Half(w), 2) == WordBit(Half(Half(w)), 1) == WordBit(Half(Half(Half(w))), 0);
    assert WordBit(w, i + 4) == WordBit(Half(w), i + 3) == WordBit(Half(Half(w)), i + 2)
        == WordBit(Half(Half(Half(w))), i + 1) == WordBit(Half(Half(Half(Half(w)))), i);
  }

  lemma {:induction false} ZeroBit(i: nat)
    ensures !WordBit(0, i)
  {
    if i > 0 {
      ZeroBit(i - 1);
    }
  }

  function Nibbles(w: bv32, n: nat): bv32 {
    if n == 0 then w else Nibbles(Nibble(w), n - 1)
  }

  lemma {:induction false} BitAfterNibbles(w: bv32, n: nat, i: nat)
    ensures WordBit(w, 4 * n + i) == WordBit(Nibbles(w, n), i)
    decreases n
  {
    hide WordBit, Nibble;
    if n > 0 {
      NibbleBits(w, 4 * (n - 1) + i);
      BitAfterNibbles(Nibble(w), n - 1, i);
    }
  }

  lemma AllNibblesGone(w: bv32)
    ensures Nibbles(w, 8) == 0
  {
    hide Nibbles, Nibble;
    var w2 := Nibble(Nibble(w));
    var w4 := Nibble(Nibble(w2));
    var w6 := Nibble(Nibble(w4));
    TwoNibbles(w, 6);
    TwoNibbles(w2, 4);
    TwoNibbles(w4, 2);
    TwoNibbles(w6, 0);
    NoNibbles(Nibble(Nibble(w6)));
    EightShifts(w);
  }

  lemma TwoNibbles(w: bv32, n: nat)
    ensures Nibbles(w, n + 2) == Nibbles(Nibble(Nibble(w)), n)
  {
    hide Nibble;
  }

  lemma NoNibbles(w: bv32)
    ensures Nibbles(w, 0) == w
  {
  }

  lemma EightShifts(w: bv32)
    ensures Nibble(Nibble(Nibble(Nibble(Nibble(Nibble(Nibble(Nibble(w)))))))) == 0
  {
  }

  // A word has 32 bits.
  lemma NoHigherBit(w: bv32, i: nat)
    ensures !WordBit(w, 32 + i)
  {
    hide WordBit, Nibbles;
    BitAfterNibbles(w, 8, i);
    AllNibblesGone(w);
    ZeroBit(i);
  }

  // The constant of the program holds the generator: bit i is the coefficient of x^(31-i).
  lemma PolyBits(i: nat)
    requires i < 32
    ensures WordBit(POLY, i) <==> 31 - i in EXPONENTS
  {
    hide WordBit, Nibble;
    PolyNibbles();
    NibbleBits(POLY, 0);
    NibbleBits(0x0EDB_8832, 0);
    NibbleBits(0x00ED_B883, 0);
    NibbleBits(0x000E_DB88, 0);
    NibbleBits(0x0000_EDB8, 0);
    NibbleBits(0x0000_0EDB, 0);
    NibbleBits(0x0000_00ED, 0);
    NibbleBits(0x0000_000E, 0);
    BitAfterNibbles(POLY, i / 4, i % 4);
  }

  lemma PolyNibbles()
    ensures Nibbles(POLY, 0) == POLY
    ensures Nibbles(POLY, 1) == 0x0EDB_8832
    ensures Nibbles(POLY, 2) == 0x00ED_B883
    ensures Nibbles(POLY, 3) == 0x000E_DB88
    ensures Nibbles(POLY, 4) == 0x0000_EDB8
    ensures Nibbles(POLY, 5) == 0x0000_0EDB
    ensures Nibbles(POLY, 6) == 0x0000_00ED
    ensures Nibbles(POLY, 7) == 0x0000_000E
  {
    TwoNibbles(POLY, 0);
    TwoNibbles(POLY, 1);
    TwoNibbles(POLY, 2);
    TwoNibbles(POLY, 3);
    TwoNibbles(POLY, 4);
    TwoNibbles(POLY, 5);
    TwoNibbles(0x00ED_B883, 0);
    TwoNibbles(0x00ED_B883, 1);
    TwoNibbles(0x00ED_B883, 2);
    TwoNibbles(0x00ED_B883, 3);
    TwoNibbles(0x0000_EDB8, 0);
    TwoNibbles(0x0000_EDB8, 1);
    TwoNibbles(0x0000_0EDB, 0);
    TwoNibbles(0x0000_0EDB, 1);
  }

  lemma WidenedLow(b: octet)
    ensures ByteBit(b, 0) <==> Widen(b) & 1 != 0
    ensures ByteBit(b, 1) <==> Widen(b) & 2 != 0
    ensures ByteBit(b, 2) <==> Widen(b) & 4 != 0
    ensures ByteBit(b, 3) <==> Widen(b) & 8 != 0
  {
  }

  lemma WidenedHigh(b: octet)
    ensures ByteBit(b, 4) <==> Nibble(Widen(b)) & 1 != 0
    ensures ByteBit(b, 5) <==> Nibble(Widen(b)) & 2 != 0
    ensures ByteBit(b, 6) <==> Nibble(Widen(b)) & 4 != 0
    ensures ByteBit(b, 7) <==> Nibble(Widen(b)) & 8 != 0
    ensures Nibble(Nibble(Widen(b))) == 0
  {
  }

  lemma WidenBits(b: octet, i: nat)
    ensures WordBit(Widen(b), i) <==> i < 8 && ByteBit(b, i)
  {
    hide WordBit, Nibble, Widen, ByteBit;
    WidenedLow(b);
    WidenedHigh(b);
    NibbleBits(Widen(b), 0);
    NibbleBits(Nibble(Widen(b)), 0);
    if i >= 4 {
      NibbleBits(Widen(b), i - 4);
      if i >= 8 {
        NibbleBits(Nibble(Widen(b)), i - 8);
        ZeroBit(i - 8);
      }
    }
  }

  // -- Long division --------------------------------------------------------------------

  // While the degree is 32 or more, the generator is taken off so that the leading
  // coefficient goes away.
  function Remainder(p: seq<bool>): (r: seq<bool>)
    ensures |p| >= 32 ==> |r| == 32
    decreases |p|
  {
    if |p| <= 32 then p else Remainder(Next(p))
  }

  function Next(p: seq<bool>): (r: seq<bool>)
    requires p != []
    ensures |r| == |p| - 1
  {
    seq(|p| - 1, (k: int) requires 0 <= k < |p| - 1 => p[k + 1] != (p[0] && 31 - k in EXPONENTS))
  }

  lemma SumNext(q: seq<bool>, r: seq<bool>)
    requires q != [] && |r| == 32
    ensures Sum(q, r)[0] == q[0]
    ensures Next(Sum(q, r)) == Sum(q[1..], r)
  {
    var p, t := Sum(q, r), Sum(q[1..], r);
    assert Times(q)[0] == q[0];
    forall k | 0 <= k < |t| ensures Next(p)[k] == t[k] {
      assert Times(q)[k + 1] == ((q[0] && 31 - k in EXPONENTS) != Times(q[1..])[k]);
    }
  }

  lemma NextDecides(p: seq<bool>, s: seq<bool>)
    requires p != [] && s != [] && p[0] == s[0] && Next(p) == Next(s)
    ensures p == s
  {
    assert |p| == |s|;
    forall k | 0 < k < |p| ensures p[k] == s[k] {
      assert Next(p)[k - 1] == Next(s)[k - 1];
    }
  }

  lemma NoQuotient(r: seq<bool>)
    requires |r| == 32
    ensures Sum([], r) == r
  {
    assert forall k :: 0 <= k < 32 ==> !Times([])[k];
  }

  lemma {:induction false} RemainderOfSum(q: seq<bool>, r: seq<bool>)
    requires |r| == 32
    ensures Remainder(Sum(q, r)) == r
  {
    hide Sum, Next;
    if q == [] {
      NoQuotient(r);
    } else {
      SumNext(q, r);
      RemainderOfSum(q[1..], r);
    }
  }

  lemma {:induction false} Divide(p: seq<bool>) returns (q: seq<bool>)
    requires |p| >= 32
    ensures p == Sum(q, Remainder(p))
    decreases |p|
  {
    hide Sum, Next;
    if |p| == 32 {
      q := [];
      NoQuotient(p);
    } else {
      var t := Divide(Next(p));
      q := [p[0]] + t;
      assert q[1..] == t;
      SumNext(q, Remainder(p));
      NextDecides(p, Sum(q, Remainder(p)));
    }
  }

  // Long division finds what the division leaves, and nothing else is left by it.
  lemma RemainderExactly(p: seq<bool>, r: seq<bool>)
    requires |p| >= 32 && |r| == 32
    ensures Leaves(p, r) <==> r == Remainder(p)
  {
    hide Sum;
    var q := Divide(p);
    if s :| p == Sum(s, r) {
      RemainderOfSum(s, r);
    }
  }

  // -- Division, one step at a time ---------------------------------------------------

  // A register as coefficients: bit i is that of x^(31-i).
  function Coefficients(w: bv32): seq<bool> {
    seq(32, (i: int) requires 0 <= i < 32 => WordBit(w, i))
  }

  // The bits `d` still to come with 32 zeros behind them, and `c` added at the front.
  function Pending(c: seq<bool>, d: seq<bool>): seq<bool>
    requires |c| == 32
  {
    seq(|d| + 32, (k: int) requires 0 <= k < |d| + 32 => (k < |d| && d[k]) != (k < 32 && c[k]))
  }

  // Multiplying by x and taking the generator off if the degree reaches 32.
  function Shifted(c: seq<bool>): seq<bool>
    requires |c| == 32
  {
    seq(32, (i: int) requires 0 <= i < 32 => (i < 31 && c[i + 1]) != (c[0] && 31 - i in EXPONENTS))
  }

  lemma DivideOnce(c: seq<bool>, d: seq<bool>)
    requires |c| == 32
    ensures Remainder(Pending(c, [false] + d)) == Remainder(Pending(Shifted(c), d))
  {
    var p, q := Pending(c, [false] + d), Pending(Shifted(c), d);
    var next := Next(p);
    assert Remainder(p) == Remainder(next);
    forall k | 0 <= k < |q| ensures next[k] == q[k] {
      assert k < |d| ==> ([false] + d)[k + 1] == d[k];
      assert k >= 32 ==> 31 - k !in EXPONENTS;
    }
    assert next == q;
  }

  lemma BitShifts(w: bv32)
    ensures Coefficients(Bit(w)) == Shifted(Coefficients(w))
  {
    hide Bit, Half, Xor, Even, WordBit;
    BitValue(w);
    forall i | 0 <= i < 32 ensures Coefficients(Bit(w))[i] == Shifted(Coefficients(w))[i] {
      HalfBit(w, i);
      XorBit(Half(w), POLY, i);
      PolyBits(i);
      NoHigherBit(w, 0);
      LowestBit(w);
    }
  }

  lemma HalfBit(w: bv32, i: nat)
    ensures WordBit(Half(w), i) == WordBit(w, i + 1)
  {
  }

  lemma LowestBit(w: bv32)
    ensures WordBit(w, 0) == !Even(w)
  {
  }

  function Zeros(n: nat): seq<bool> {
    if n == 0 then [] else [false] + Zeros(n - 1)
  }

  lemma {:induction false} DivideMany(w: bv32, n: nat, d: seq<bool>)
    ensures Remainder(Pending(Coefficients(w), Zeros(n) + d)) == Remainder(Pending(Coefficients(Bits(w, n)), d))
    decreases n
  {
    hide Bit, Coefficients, Pending, Shifted, Remainder;
    if n == 0 {
      assert Zeros(0) + d == d;
    } else {
      assert Zeros(n) + d == [false] + (Zeros(n - 1) + d);
      CoefficientCount(w);
      DivideOnce(Coefficients(w), Zeros(n - 1) + d);
      BitShifts(w);
      DivideMany(Bit(w), n - 1, d);
    }
  }

  lemma CoefficientCount(w: bv32)
    ensures |Coefficients(w)| == 32
  {
  }

  function ByteBits(b: octet): seq<bool> {
    seq(8, (i: int) requires 0 <= i < 8 => ByteBit(b, i))
  }

  // Adding a byte to the register is the same as having its bits still to come.
  lemma TakeByte(w: bv32, b: octet, d: seq<bool>)
    ensures Pending(Coefficients(w), ByteBits(b) + d) == Pending(Coefficients(Xor(w, Widen(b))), Zeros(8) + d)
  {
    hide WordBit, Xor, Widen, ByteBit;
    EightZeros();
    var p, q := Pending(Coefficients(w), ByteBits(b) + d), Pending(Coefficients(Xor(w, Widen(b))), Zeros(8) + d);
    forall k | 0 <= k < |p| ensures p[k] == q[k] {
      if k < 32 {
        XorBit(w, Widen(b), k);
        WidenBits(b, k);
      }
    }
  }

  lemma EightZeros()
    ensures Zeros(8) == [false, false, false, false, false, false, false, false]
  {
    assert Zeros(4) == [false, false, false, false];
  }

  lemma FirstByte(data: octets)
    requires data != []
    ensures DataBits(data) == ByteBits(data[0]) + DataBits(data[1..])
  {
    hide ByteBit;
    var r := ByteBits(data[0]) + DataBits(data[1..]);
    forall k | 0 <= k < 8 * |data| ensures DataBits(data)[k] == r[k] {
      if k >= 8 {
        assert (k - 8) / 8 == k / 8 - 1 && (k - 8) % 8 == k % 8;
      }
    }
  }

  // The register after the data is the remainder of what was pending before it.
  lemma {:induction false} RegisterDivides(w: bv32, data: octets)
    ensures Remainder(Pending(Coefficients(w), DataBits(data))) == Coefficients(Register(w, data))
    decreases |data|
  {
    hide DataBits, ByteBits, Bits, Xor, Widen;
    if data == [] {
      NothingPending(w);
    } else {
      FirstByte(data);
      TakeByte(w, data[0], DataBits(data[1..]));
      DivideMany(Xor(w, Widen(data[0])), 8, DataBits(data[1..]));
      hide Remainder, Pending, Coefficients;
      RegisterDivides(Absorb(w, data[0]), data[1..]);
    }
  }

  lemma NothingPending(w: bv32)
    ensures Remainder(Pending(Coefficients(w), DataBits([]))) == Coefficients(w)
  {
    hide WordBit;
    assert Pending(Coefficients(w), DataBits([])) == Coefficients(w);
  }

  lemma OnesNibbles()
    ensures Nibbles(ALL_ONES, 0) == ALL_ONES
    ensures Nibbles(ALL_ONES, 1) == 0x0FFF_FFFF
    ensures Nibbles(ALL_ONES, 2) == 0x00FF_FFFF
    ensures Nibbles(ALL_ONES, 3) == 0x000F_FFFF
    ensures Nibbles(ALL_ONES, 4) == 0x0000_FFFF
    ensures Nibbles(ALL_ONES, 5) == 0x0000_0FFF
    ensures Nibbles(ALL_ONES, 6) == 0x0000_00FF
    ensures Nibbles(ALL_ONES, 7) == 0x0000_000F
  {
    TwoNibbles(ALL_ONES, 0);
    TwoNibbles(ALL_ONES, 1);
    TwoNibbles(ALL_ONES, 2);
    TwoNibbles(ALL_ONES, 3);
    TwoNibbles(ALL_ONES, 4);
    TwoNibbles(ALL_ONES, 5);
    TwoNibbles(0x00FF_FFFF, 0);
    TwoNibbles(0x00FF_FFFF, 1);
    TwoNibbles(0x00FF_FFFF, 2);
    TwoNibbles(0x00FF_FFFF, 3);
    TwoNibbles(0x0000_FFFF, 0);
    TwoNibbles(0x0000_FFFF, 1);
    TwoNibbles(0x0000_0FFF, 0);
    TwoNibbles(0x0000_0FFF, 1);
  }

  lemma OnesBit(i: nat)
    requires i < 32
    ensures WordBit(ALL_ONES, i)
  {
    hide WordBit, Nibble;
    OnesNibbles();
    NibbleBits(ALL_ONES, 0);
    NibbleBits(0x0FFF_FFFF, 0);
    NibbleBits(0x00FF_FFFF, 0);
    NibbleBits(0x000F_FFFF, 0);
    NibbleBits(0x0000_FFFF, 0);
    NibbleBits(0x0000_0FFF, 0);
    NibbleBits(0x0000_00FF, 0);
    NibbleBits(0x0000_000F, 0);
    BitAfterNibbles(ALL_ONES, i / 4, i % 4);
  }

  lemma Complement(w: bv32)
    ensures !w == Xor(w, ALL_ONES)
  {
  }

  lemma StartsWithOnes(data: octets)
    ensures Pending(Coefficients(ALL_ONES), DataBits(data)) == Dividend(data)
  {
    hide WordBit, ByteBit;
    var p, q := Pending(Coefficients(ALL_ONES), DataBits(data)), Dividend(data);
    forall k | 0 <= k < |p| ensures p[k] == q[k] {
      if k < 32 {
        OnesBit(k);
      }
    }
  }

  lemma CrcBit(data: octets, i: nat)
    requires i < 32
    ensures WordBit(Crc32(data), i) == !Remainder(Dividend(data))[i]
  {
    hide WordBit, Remainder, Pending, Dividend, DataBits, Xor, Register;
    var w := Register(ALL_ONES, data);
    RegisterDivides(ALL_ONES, data);
    StartsWithOnes(data);
    Complement(w);
    XorBit(w, ALL_ONES, i);
    OnesBit(i);
  }

  // For all data, the checksum is the complement of what the division leaves: its bit i, of
  // value 2^i, is the complement of the coefficient of x^(31-i).
  lemma CrcIsTheStandard(data: octets, r: seq<bool>)
    requires |r| == 32
    ensures Leaves(Dividend(data), r) <==> forall i :: 0 <= i < 32 ==> WordBit(Crc32(data), i) == !r[i]
  {
    hide WordBit, Remainder, Dividend, Leaves;
    DividendLength(data);
    RemainderExactly(Dividend(data), r);
    forall i | 0 <= i < 32 ensures WordBit(Crc32(data), i) == !Remainder(Dividend(data))[i] {
      CrcBit(data, i);
    }
    if forall i :: 0 <= i < 32 ==> WordBit(Crc32(data), i) == !r[i] {
      assert r == Remainder(Dividend(data));
    }
  }

  lemma DividendLength(data: octets)
    ensures |Dividend(data)| == 8 * |data| + 32
  {
  }
}
