// Read requests (RFC 1350 section 5) with options (RFC 2347, 2348, 2349, 7440):
// parsing them, and negotiating the values that drive a transfer.
module Request {
  import opened Prelude
  import opened Wire
  import opened SenderSpec
  import opened Utf8

  const U16_MAX: nat := 65535

  const DEFAULT_BLKSIZE: nat := 512
  const MAX_BLKSIZE: nat := 1432
  const DEFAULT_TIMEOUT_SECS: nat := 3
  const MIN_TIMEOUT_SECS: nat := 1
  const MAX_TIMEOUT_SECS: nat := 10
  const DEFAULT_WINDOWSIZE: nat := 1

  // "blksize", "timeout", "tsize" and "windowsize" in ASCII.
  const BLKSIZE: bytes := [98, 108, 107, 115, 105, 122, 101]
  const TIMEOUT: bytes := [116, 105, 109, 101, 111, 117, 116]
  const TSIZE: bytes := [116, 115, 105, 122, 101]
  const WINDOWSIZE: bytes := [119, 105, 110, 100, 111, 119, 115, 105, 122, 101]

  // -- Text ---------------------------------------------------------------------

  // Unicode lower-casing as far as a comparison with an ASCII word can see it: ASCII
  // capitals, and the Kelvin sign U+212A, whose lower case is the letter k.
  function Lowered(s: bytes): bytes {
    if s == [] then []
    else if |s| >= 3 && s[0] == 0xE2 && s[1] == 0x84 && s[2] == 0xAA then [107] + Lowered(s[3..])
    else if 65 <= s[0] <= 90 then [s[0] + 32] + Lowered(s[1..])
    else [s[0]] + Lowered(s[1..])
  }

  predicate AllDigits(s: bytes) {
    forall i :: 0 <= i < |s| ==> 48 <= s[i] <= 57
  }

  function DigitsValue(s: bytes): nat
    requires AllDigits(s)
  {
    if s == [] then 0 else DigitsValue(s[..|s| - 1]) * 10 + (s[|s| - 1] - 48)
  }

  // Parsing an unsigned number of limited width: an optional plus sign, at least one
  // digit, nothing else, and no overflow.
  function ParseUnsigned(s: bytes, max: nat): (r: Option<nat>)
    ensures r.Some? ==> r.value <= max
  {
    var digits := if s != [] && s[0] == 43 then s[1..] else s;
    if digits == [] || !AllDigits(digits) || DigitsValue(digits) > max then None
    else Some(DigitsValue(digits))
  }

  function Decimal(n: nat): bytes {
    if n < 10 then [48 + n] else Decimal(n / 10) + [48 + n % 10]
  }

  lemma {:induction false} DecimalDigits(n: nat)
    ensures Decimal(n) != [] && AllDigits(Decimal(n)) && NulFree(Decimal(n))
    ensures DigitsValue(Decimal(n)) == n
  {
    if n >= 10 {
      DecimalDigits(n / 10);
      assert Decimal(n)[..|Decimal(n)| - 1] == Decimal(n / 10);
    }
  }

  // Writing a number and parsing it back gives the number exactly when it fits.
  lemma DecimalRoundTrip(n: nat, max: nat)
    ensures ParseUnsigned(Decimal(n), max) == if n <= max then Some(n) else None
  {
    DecimalDigits(n);
    assert Decimal(n)[0] != 43;
  }

  function ZeroDigits(z: nat): bytes {
    if z == 0 then [] else ZeroDigits(z - 1) + [48]
  }

  // The number in decimal, with any number of zeros in front.
  ghost predicate Numeral(s: bytes, n: nat) {
    exists z :: s == ZeroDigits(z) + Decimal(n)
  }

  lemma NextDigit(z: nat, v: nat, d: nat) returns (z': nat)
    requires d < 10
    ensures ZeroDigits(z) + Decimal(v) + [48 + d] == ZeroDigits(z') + Decimal(10 * v + d)
  {
    if v == 0 {
      z' := z + 1;
    } else {
      z' := z;
      assert (10 * v + d) / 10 == v && (10 * v + d) % 10 == d;
      hide ZeroDigits;
    }
  }

  lemma {:induction false} DigitsAreNumeral(d: bytes) returns (z: nat)
    requires d != [] && AllDigits(d)
    ensures d == ZeroDigits(z) + Decimal(DigitsValue(d))
  {
    var front, last := d[..|d| - 1], d[|d| - 1];
    assert d == front + [last];
    if front == [] {
      z := 0;
      assert DigitsValue(front) == 0 && ZeroDigits(0) == [];
    } else {
      z := DigitsAreNumeral(front);
      hide ZeroDigits, Decimal;
      z := NextDigit(z, DigitsValue(front), last - 48);
    }
  }

  lemma {:induction false} ZerosCountNothing(z: nat, d: bytes)
    requires AllDigits(d)
    ensures AllDigits(ZeroDigits(z) + d) && DigitsValue(ZeroDigits(z) + d) == DigitsValue(d)
    decreases z + |d|
  {
    var s := ZeroDigits(z) + d;
    if d != [] {
      ZerosCountNothing(z, d[..|d| - 1]);
      assert s[..|s| - 1] == ZeroDigits(z) + d[..|d| - 1];
    } else if z > 0 {
      ZerosCountNothing(z - 1, []);
      assert s[..|s| - 1] == ZeroDigits(z - 1) + [];
    }
  }

  // Exactly these are numbers: a numeral, with a plus sign or without, up to the width.
  lemma NumberExactly(s: bytes, max: nat, n: nat)
    ensures ParseUnsigned(s, max) == Some(n) <==> n <= max && (Numeral(s, n) || (s != [] && s[0] == 43 && Numeral(s[1..], n)))
  {
    hide Decimal, ZeroDigits;
    if ParseUnsigned(s, max) == Some(n) {
      var z := DigitsAreNumeral(if s != [] && s[0] == 43 then s[1..] else s);
    }
    forall d | Numeral(d, n) ensures d != [] && AllDigits(d) && DigitsValue(d) == n {
      var z :| d == ZeroDigits(z) + Decimal(n);
      DecimalDigits(n);
      ZerosCountNothing(z, Decimal(n));
    }
  }

  // -- How option names are recognised ---------------------------------------------------

  predicate LowerWord(word: string) {
    forall i :: 0 <= i < |word| ==> 'a' <= word[i] <= 'z'
  }

  // The bytes spell the word in any mixture of cases; the Kelvin sign counts as a K.
  predicate Spells(k: bytes, word: string)
    decreases |word|
  {
    if word == "" then k == []
    else
      || (k != [] && (k[0] == word[0] as int || k[0] == word[0] as int - 32) && Spells(k[1..], word[1..]))
      || (word[0] == 'k' && [0xE2, 0x84, 0xAA] <= k && Spells(k[3..], word[1..]))
  }

  lemma {:induction false} LoweredSpells(k: bytes, word: string)
    requires LowerWord(word)
    ensures Lowered(k) == Ascii(word) <==> Spells(k, word)
    decreases |k|
  {
    hide Ascii;
    if k == [] || word == "" {
      AsciiFront(word);
    } else {
      AsciiFront(word);
      LoweredSpells(k[1..], word[1..]);
      if |k| >= 3 {
        LoweredSpells(k[3..], word[1..]);
      }
      LoweredFront(k);
      hide Lowered;
      assert forall c: byte, s: bytes :: ([c] + s == Ascii(word)) <==> (c == word[0] as int && s == Ascii(word[1..])) by {
        FrontDecides(word);
      }
    }
  }

  lemma FrontDecides(word: string)
    requires LowerWord(word) && word != ""
    ensures forall c: byte, s: bytes :: ([c] + s == Ascii(word)) <==> (c == word[0] as int && s == Ascii(word[1..]))
  {
    forall c: byte, s: bytes ensures ([c] + s == Ascii(word)) <==> (c == word[0] as int && s == Ascii(word[1..])) {
      AsciiFront(word);
      assert ([c] + s)[0] == c && ([c] + s)[1..] == s;
    }
  }

  lemma AsciiFront(word: string)
    requires LowerWord(word)
    ensures Ascii("") == []
    ensures word != "" ==> Ascii(word) == [word[0] as int] + Ascii(word[1..])
  {
  }

  lemma LoweredFront(k: bytes)
    requires k != []
    ensures Lowered(k) ==
      if [0xE2, 0x84, 0xAA] <= k then [107] + Lowered(k[3..])
      else [if 65 <= k[0] <= 90 then k[0] + 32 else k[0]] + Lowered(k[1..])
  {
  }

  // -- Requests -------------------------------------------------------------------

  datatype Rrq = Rrq(
    filename: bytes,
    mode: bytes,
    blksize: Option<nat>,
    timeout: Option<nat>,
    tsize: bool,
    windowsize: Option<nat>)

  // The value of the last option named `key` whose value parses.
  function LastValid(options: seq<Pair>, key: bytes, max: nat): Option<nat> {
    if options == [] then None
    else
      var (k, v) := options[|options| - 1];
      if Lowered(k) == key && ParseUnsigned(v, max).Some? then ParseUnsigned(v, max)
      else LastValid(options[..|options| - 1], key, max)
  }

  predicate Named(options: seq<Pair>, key: bytes) {
    exists i :: 0 <= i < |options| && Lowered(options[i].0) == key
  }

  predicate AllUtf8(options: seq<Pair>) {
    forall i :: 0 <= i < |options| ==> ValidUtf8(options[i].0) && ValidUtf8(options[i].1)
  }

  function RequestOf(parts: seq<bytes>): Option<Rrq> {
    if |parts| < 2 || !ValidUtf8(parts[0]) || !ValidUtf8(parts[1]) then None
    else
      var options := PairUp(parts[2..]);
      if !AllUtf8(options) then None
      else Some(Rrq(parts[0], parts[1],
        LastValid(options, BLKSIZE, U64_MAX), LastValid(options, TIMEOUT, U64_MAX),
        Named(options, TSIZE), LastValid(options, WINDOWSIZE, U16_MAX)))
  }

  function ParseRrq(packet: bytes): Option<Rrq> {
    if |packet| < 4 || Opcode(packet) != Some(OP_RRQ) then None
    else RequestOf(Fields(packet[2..]))
  }

  // The last valid occurrence wins; invalid values and other keys are skipped.
  lemma {:induction false} LastValidWins(options: seq<Pair>, key: bytes, max: nat)
    ensures var r := LastValid(options, key, max);
      if r.None? then
        forall i :: 0 <= i < |options| && Lowered(options[i].0) == key ==> ParseUnsigned(options[i].1, max).None?
      else
        exists i :: 0 <= i < |options| && Lowered(options[i].0) == key && ParseUnsigned(options[i].1, max) == r
          && forall j :: i < j < |options| && Lowered(options[j].0) == key ==> ParseUnsigned(options[j].1, max).None?
  {
    hide Lowered, ParseUnsigned;
    if options != [] {
      var front, last := options[..|options| - 1], options[|options| - 1];
      if Lowered(last.0) == key && ParseUnsigned(last.1, max).Some? {
        assert options[|options| - 1] == last;
      } else {
        LastValidWins(front, key, max);
        if LastValid(front, key, max).Some? {
          var i :| 0 <= i < |front| && Lowered(front[i].0) == key
            && ParseUnsigned(front[i].1, max) == LastValid(front, key, max)
            && forall j :: i < j < |front| && Lowered(front[j].0) == key ==> ParseUnsigned(front[j].1, max).None?;
          assert options[i] == front[i];
          forall j | i < j < |options| && Lowered(options[j].0) == key
            ensures ParseUnsigned(options[j].1, max).None? {
            if j < |front| { assert options[j] == front[j]; }
          }
        } else {
          forall j | 0 <= j < |options| && Lowered(options[j].0) == key
            ensures ParseUnsigned(options[j].1, max).None? {
            if j < |front| { assert options[j] == front[j]; }
          }
        }
      }
    }
  }

  function MakeRrqPacket(filename: bytes, mode: bytes, options: seq<Pair>): bytes {
    BigEndian16(OP_RRQ) + Terminated([filename, mode] + Flatten(options))
  }

  // For NUL-free text a request parses back to what was put in it, the last valid
  // value of each option winning; it is refused if and only if some text is not UTF-8.
  lemma RrqRoundTrip(filename: bytes, mode: bytes, options: seq<Pair>)
    requires NulFree(filename) && NulFree(mode) && NulFreeOptions(options)
    ensures ParseRrq(MakeRrqPacket(filename, mode, options)) ==
      if ValidUtf8(filename) && ValidUtf8(mode) && AllUtf8(options) then
        Some(Rrq(filename, mode,
          LastValid(options, BLKSIZE, U64_MAX), LastValid(options, TIMEOUT, U64_MAX),
          Named(options, TSIZE), LastValid(options, WINDOWSIZE, U16_MAX)))
      else None
  {
    hide ValidUtf8, LastValid, Named, PairUp, Fields;
    var fs := [filename, mode] + Flatten(options);
    var packet := MakeRrqPacket(filename, mode, options);
    PairUpFlatten(options);
    FieldsOfTerminated(fs);
    TerminatedPair(filename, mode, Flatten(options));
    assert packet[2..] == Terminated(fs);
    assert fs[2..] == Flatten(options);
  }

  // An unterminated tail, perhaps after one field too many to make a pair.
  ghost predicate Surplus(extra: bytes) {
    NulFree(extra) || exists odd, tail :: NulFree(odd) && NulFree(tail) && extra == odd + [0] + tail
  }

  lemma {:induction false} PairUpOdd(options: seq<Pair>, odd: bytes)
    ensures PairUp(Flatten(options) + [odd]) == options
  {
    if options != [] {
      PairUpOdd(options[1..], odd);
      assert (Flatten(options) + [odd])[2..] == Flatten(options[1..]) + [odd];
    }
  }

  // A surplus makes no difference, not even by not being text.
  lemma SurplusIgnored(filename: bytes, mode: bytes, options: seq<Pair>, extra: bytes)
    requires NulFree(filename) && NulFree(mode) && NulFreeOptions(options) && Surplus(extra)
    ensures ParseRrq(MakeRrqPacket(filename, mode, options) + extra) == ParseRrq(MakeRrqPacket(filename, mode, options))
  {
    hide ValidUtf8, AllUtf8, LastValid, Named, PairUp, Fields, Terminated, NulFree, Flatten;
    var fs := [filename, mode] + Flatten(options);
    PairUpFlatten(options);
    FieldsOfTerminated(fs);
    TwoTerminated(filename, mode, Flatten(options));
    var packet := MakeRrqPacket(filename, mode, options);
    assert packet[2..] == Terminated(fs);
    assert (packet + extra)[2..] == Terminated(fs) + extra;
    if NulFree(extra) {
      FieldsWithTail(fs, extra);
    } else {
      var odd, tail :| NulFree(odd) && NulFree(tail) && extra == odd + [0] + tail;
      OneTerminated(odd);
      TerminatedAppend(fs, [odd]);
      assert Terminated(fs) + extra == Terminated(fs + [odd]) + tail;
      FieldsWithTail(fs + [odd], tail);
      assert (fs + [odd])[2..] == Flatten(options) + [odd] && fs[2..] == Flatten(options);
      PairUpOdd(options, odd);
    }
  }

  lemma OneTerminated(f: bytes)
    ensures Terminated([f]) == f + [0]
  {
    assert Terminated([]) == [];
  }

  lemma TwoTerminated(f: bytes, g: bytes, rest: seq<bytes>)
    ensures |Terminated([f, g] + rest)| >= 2
  {
    TerminatedPair(f, g, rest);
  }

  lemma {:induction false} FlattenPairs(parts: seq<bytes>)
    ensures var even := |parts| / 2 * 2; Flatten(PairUp(parts)) == parts[..even]
    ensures AllNulFree(parts) ==> NulFreeOptions(PairUp(parts))
    decreases |parts|
  {
    hide NulFree;
    if |parts| >= 2 {
      FlattenPairs(parts[2..]);
      var n := |parts| / 2 * 2;
      assert parts[..n] == [parts[0], parts[1]] + parts[2..][..n - 2];
    }
  }

  // And nothing else is a request: with the round trip this settles what becomes of every
  // packet.
  lemma EveryRequest(packet: bytes) returns (filename: bytes, mode: bytes, options: seq<Pair>, extra: bytes)
    requires ParseRrq(packet).Some?
    ensures NulFree(filename) && NulFree(mode) && NulFreeOptions(options) && Surplus(extra)
    ensures packet == MakeRrqPacket(filename, mode, options) + extra
  {
    hide ValidUtf8, AllUtf8, LastValid, Named, PairUp, FieldsFrom, Terminated, NulFree, Flatten;
    NothingIsNulFree();
    var fs := Fields(packet[2..]);
    var tail := Rejoined([], packet[2..]);
    assert [] + packet[2..] == packet[2..];
    filename, mode, options := fs[0], fs[1], PairUp(fs[2..]);
    assert AllNulFree(fs[2..]);
    FlattenPairs(fs[2..]);
    var even := |fs[2..]| / 2 * 2;
    var used := [filename, mode] + Flatten(options);
    assert used == fs[..2 + even];
    if even == |fs[2..]| {
      extra := tail;
      assert used == fs;
    } else {
      var odd := fs[|fs| - 1];
      extra := odd + [0] + tail;
      assert fs == used + [odd];
      OneTerminated(odd);
      TerminatedAppend(used, [odd]);
      assert NulFree(odd);
    }
    assert packet == packet[..2] + packet[2..];
    RrqOpcode(packet);
  }

  lemma RrqOpcode(packet: bytes)
    requires |packet| >= 2 && Opcode(packet) == Some(OP_RRQ)
    ensures packet[..2] == BigEndian16(OP_RRQ)
  {
  }

  lemma {:induction false} PairUpIndex(parts: seq<bytes>, j: nat)
    ensures |PairUp(parts)| == |parts| / 2
    ensures j < |parts| / 2 ==> PairUp(parts)[j] == (parts[2 * j], parts[2 * j + 1])
    decreases |parts|
  {
    if |parts| >= 2 {
      PairUpIndex(parts[2..], if j > 0 then j - 1 else 0);
    }
  }

  lemma {:induction false} FlattenFront(filename: bytes, mode: bytes, options: seq<Pair>, k: bytes, v: bytes)
    ensures [filename, mode] + Flatten(options + [(k, v)]) == [filename, mode] + Flatten(options) + [k, v]
  {
    FlattenAppend(options, k, v);
  }

  // The bytes of a request: opcode 1, the file name, the mode, then each option's name and
  // value, each followed by a NUL.
  lemma RrqBytes(filename: bytes, mode: bytes, options: seq<Pair>, k: bytes, v: bytes)
    ensures MakeRrqPacket(filename, mode, []) == [0, 1] + filename + [0] + mode + [0]
    ensures MakeRrqPacket(filename, mode, options + [(k, v)])
         == MakeRrqPacket(filename, mode, options) + k + [0] + v + [0]
  {
    TerminatedPair(filename, mode, []);
    assert [filename, mode] + Flatten([]) == [filename, mode] + [];
    FlattenFront(filename, mode, options, k, v);
    TerminatedAppend([filename, mode] + Flatten(options), [k, v]);
    TerminatedPair(k, v, []);
    assert [k, v] + [] == [k, v];
  }

  lemma KeysAre()
    ensures BLKSIZE == Ascii("blksize") && TIMEOUT == Ascii("timeout")
    ensures TSIZE == Ascii("tsize") && WINDOWSIZE == Ascii("windowsize")
  {
  }

  // An option is taken for one of the four exactly when its name spells it.
  lemma NamesSpelt(k: bytes)
    ensures Lowered(k) == BLKSIZE <==> Spells(k, "blksize")
    ensures Lowered(k) == TIMEOUT <==> Spells(k, "timeout")
    ensures Lowered(k) == TSIZE <==> Spells(k, "tsize")
    ensures Lowered(k) == WINDOWSIZE <==> Spells(k, "windowsize")
  {
    KeysAre();
    LoweredSpells(k, "blksize");
    LoweredSpells(k, "timeout");
    LoweredSpells(k, "tsize");
    LoweredSpells(k, "windowsize");
    hide Lowered, Spells, Ascii, BLKSIZE, TIMEOUT, TSIZE, WINDOWSIZE;
  }

  // v is the value of the last option that spells `word` and whose value is a number up to
  // `max`; None if there is none.
  ghost predicate LastSpelt(options: seq<Pair>, word: string, max: nat, v: Option<nat>) {
    if v.None? then
      forall i :: 0 <= i < |options| && Spells(options[i].0, word) ==> ParseUnsigned(options[i].1, max).None?
    else
      exists i :: 0 <= i < |options| && Spells(options[i].0, word) && ParseUnsigned(options[i].1, max) == v
        && forall j :: i < j < |options| && Spells(options[j].0, word) ==> ParseUnsigned(options[j].1, max).None?
  }

  lemma LastValidIsSpelt(options: seq<Pair>, key: bytes, word: string, max: nat)
    requires forall k :: Lowered(k) == key <==> Spells(k, word)
    ensures LastSpelt(options, word, max, LastValid(options, key, max))
  {
    hide Lowered, Spells, ParseUnsigned, LastValid;
    LastValidWins(options, key, max);
    assert forall i :: 0 <= i < |options| ==> (Lowered(options[i].0) == key <==> Spells(options[i].0, word));
  }

  // What a well-formed request says: the file, the mode, the numbers last given under the
  // three names that take one, and whether the size was asked for.
  lemma RrqMeans(filename: bytes, mode: bytes, options: seq<Pair>)
    requires NulFree(filename) && NulFree(mode) && NulFreeOptions(options)
    requires ValidUtf8(filename) && ValidUtf8(mode) && AllUtf8(options)
    ensures var r := ParseRrq(MakeRrqPacket(filename, mode, options));
      && r.Some? && r.value.filename == filename && r.value.mode == mode
      && LastSpelt(options, "blksize", 0xFFFF_FFFF_FFFF_FFFF, r.value.blksize)
      && LastSpelt(options, "timeout", 0xFFFF_FFFF_FFFF_FFFF, r.value.timeout)
      && LastSpelt(options, "windowsize", 65535, r.value.windowsize)
      && (r.value.tsize <==> exists i :: 0 <= i < |options| && Spells(options[i].0, "tsize"))
  {
    hide Lowered, Spells, LastValid, LastSpelt, ParseRrq, MakeRrqPacket, BLKSIZE, TIMEOUT, TSIZE, WINDOWSIZE, ValidUtf8, AllUtf8;
    RrqRoundTrip(filename, mode, options);
    forall k: bytes
      ensures (Lowered(k) == BLKSIZE <==> Spells(k, "blksize")) && (Lowered(k) == TIMEOUT <==> Spells(k, "timeout"))
      ensures (Lowered(k) == TSIZE <==> Spells(k, "tsize")) && (Lowered(k) == WINDOWSIZE <==> Spells(k, "windowsize"))
    {
      NamesSpelt(k);
    }
    LastValidIsSpelt(options, BLKSIZE, "blksize", U64_MAX);
    LastValidIsSpelt(options, TIMEOUT, "timeout", U64_MAX);
    LastValidIsSpelt(options, WINDOWSIZE, "windowsize", U16_MAX);
    assert forall i :: 0 <= i < |options| ==> (Lowered(options[i].0) == TSIZE <==> Spells(options[i].0, "tsize"));
  }

  // Numbers are written in decimal, most significant digit first, without leading zeros.
  lemma DecimalBytes(n: nat, d: nat)
    requires d < 10
    ensures Decimal(d) == [Ascii("0123456789")[d]]
    ensures n > 0 ==> Decimal(10 * n + d) == Decimal(n) + [Ascii("0123456789")[d]]
  {
    assert (10 * n + d) / 10 == n && (10 * n + d) % 10 == d;
  }

  method ReadRrq(packet: bytes) returns (r: Option<Rrq>)
    ensures r == ParseRrq(packet)
  {
    hide Fields, Lowered, ValidUtf8, ParseUnsigned, PairUp, BLKSIZE, TIMEOUT, TSIZE, WINDOWSIZE;
    if |packet| < 4 || Opcode(packet) != Some(OP_RRQ) {
      return None;
    }
    var parts := SplitFields(packet[2..]);
    if |parts| < 2 || !ValidUtf8(parts[0]) || !ValidUtf8(parts[1]) {
      return None;
    }
    ghost var options := PairUp(parts[2..]);
    PairUpIndex(parts[2..], 0);
    var blksize: Option<nat>, timeout: Option<nat>, tsize, windowsize: Option<nat> := None, None, false, None;
    var i := 2;
    ghost var n := 0;
    while i + 1 < |parts|
      invariant i == 2 + 2 * n && n <= |options|
      invariant AllUtf8(options[..n])
      invariant blksize == LastValid(options[..n], BLKSIZE, U64_MAX)
      invariant timeout == LastValid(options[..n], TIMEOUT, U64_MAX)
      invariant tsize == Named(options[..n], TSIZE)
      invariant windowsize == LastValid(options[..n], WINDOWSIZE, U16_MAX)
    {
      PairUpIndex(parts[2..], n);
      assert options[n] == (parts[i], parts[i + 1]);
      if !ValidUtf8(parts[i]) || !ValidUtf8(parts[i + 1]) {
        return None;
      }
      var key, val := Lowered(parts[i]), parts[i + 1];
      KeysDiffer();
      OneMoreOption(options, n, U64_MAX, BLKSIZE);
      OneMoreOption(options, n, U64_MAX, TIMEOUT);
      OneMoreOption(options, n, U64_MAX, TSIZE);
      OneMoreOption(options, n, U16_MAX, WINDOWSIZE);
      if key == BLKSIZE {
        var parsed := ParseUnsigned(val, U64_MAX);
        if parsed.Some? {
          blksize := parsed;
        }
      } else if key == TIMEOUT {
        var parsed := ParseUnsigned(val, U64_MAX);
        if parsed.Some? {
          timeout := parsed;
        }
      } else if key == TSIZE {
        tsize := true;
      } else if key == WINDOWSIZE {
        var parsed := ParseUnsigned(val, U16_MAX);
        if parsed.Some? {
          windowsize := parsed;
        }
      }
      i := i + 2;
      n := n + 1;
    }
    assert options[..n] == options;
    r := Some(Rrq(parts[0], parts[1], blksize, timeout, tsize, windowsize));
  }

  lemma KeysDiffer()
    ensures BLKSIZE != TIMEOUT && BLKSIZE != TSIZE && BLKSIZE != WINDOWSIZE
    ensures TIMEOUT != TSIZE && TIMEOUT != WINDOWSIZE && TSIZE != WINDOWSIZE
  {
    assert BLKSIZE[0] == 98 && TIMEOUT[1] == 105 && TSIZE[1] == 115 && WINDOWSIZE[0] == 119;
  }

  lemma OneMoreOption(options: seq<Pair>, n: nat, max: nat, key: bytes)
    requires n < |options|
    ensures LastValid(options[..n + 1], key, max)
         == (if Lowered(options[n].0) == key && ParseUnsigned(options[n].1, max).Some?
             then ParseUnsigned(options[n].1, max) else LastValid(options[..n], key, max))
    ensures Named(options[..n + 1], key) <==> Lowered(options[n].0) == key || Named(options[..n], key)
  {
    hide Lowered, ParseUnsigned;
    var upTo := options[..n + 1];
    assert upTo[..n] == options[..n] && upTo[n] == options[n];
    if Named(options[..n], key) {
      var i :| 0 <= i < n && Lowered(options[..n][i].0) == key;
      assert upTo[i] == options[..n][i];
    }
    if Named(upTo, key) {
      var i :| 0 <= i < n + 1 && Lowered(upTo[i].0) == key;
      if i < n {
        assert upTo[i] == options[..n][i];
      }
    }
  }

  // -- Negotiation ------------------------------------------------------------------

  datatype Params = Params(blksize: nat, timeout: nat, window: nat)

  function Clamp(x: nat, lo: nat, hi: nat): nat
    requires lo <= hi
  {
    if x < lo then lo else if x > hi then hi else x
  }

  // The values that drive the transfer.
  function ParamsFor(req: Rrq): Params {
    Params(
      if req.blksize.Some? then Clamp(req.blksize.value, DEFAULT_BLKSIZE, MAX_BLKSIZE) else DEFAULT_BLKSIZE,
      if req.timeout.Some? then Clamp(req.timeout.value, MIN_TIMEOUT_SECS, MAX_TIMEOUT_SECS)
      else DEFAULT_TIMEOUT_SECS,
      if req.windowsize.Some? then Clamp(req.windowsize.value, 1, MAX_WINDOWSIZE) else DEFAULT_WINDOWSIZE)
  }

  function Maybe(present: bool, option: Pair): seq<Pair> {
    if present then [option] else []
  }

  // The options acknowledged to the client, in order.
  function OptionsFor(req: Rrq, size: nat): seq<Pair> {
    Maybe(req.blksize.Some?, (BLKSIZE, Decimal(ParamsFor(req).blksize)))
      + Maybe(req.timeout.Some?, (TIMEOUT, Decimal(ParamsFor(req).timeout)))
      + Maybe(req.tsize, (TSIZE, Decimal(size)))
      + Maybe(req.windowsize.Some?, (WINDOWSIZE, Decimal(ParamsFor(req).window)))
  }

  method Negotiate(req: Rrq, size: nat) returns (options: seq<Pair>, p: Params)
    ensures options == OptionsFor(req, size) && p == ParamsFor(req)
  {
    hide Decimal;
    options := [];
    var blksize, timeout, window := DEFAULT_BLKSIZE, DEFAULT_TIMEOUT_SECS, DEFAULT_WINDOWSIZE;
    if req.blksize.Some? {
      blksize := Clamp(req.blksize.value, DEFAULT_BLKSIZE, MAX_BLKSIZE);
      options := options + [(BLKSIZE, Decimal(blksize))];
    }
    if req.timeout.Some? {
      timeout := Clamp(req.timeout.value, MIN_TIMEOUT_SECS, MAX_TIMEOUT_SECS);
      options := options + [(TIMEOUT, Decimal(timeout))];
    }
    if req.tsize {
      options := options + [(TSIZE, Decimal(size))];
    }
    if req.windowsize.Some? {
      window := Clamp(req.windowsize.value, 1, MAX_WINDOWSIZE);
      options := options + [(WINDOWSIZE, Decimal(window))];
    }
    p := Params(blksize, timeout, window);
  }

  // How a client reads one option out of an acknowledgement.
  function Lookup(options: seq<Pair>, key: bytes): Option<bytes> {
    if options == [] then None
    else if options[0].0 == key then Some(options[0].1)
    else Lookup(options[1..], key)
  }

  function Agreed(options: seq<Pair>, key: bytes, fallback: nat): Option<nat> {
    match Lookup(options, key)
    case None => Some(fallback)
    case Some(v) => ParseUnsigned(v, U64_MAX)
  }

  lemma LookupMaybe(present: bool, k: bytes, v: bytes, rest: seq<Pair>, key: bytes)
    ensures Lookup(Maybe(present, (k, v)) + rest, key)
         == if present && k == key then Some(v) else Lookup(rest, key)
  {
    if present {
      assert ([(k, v)] + rest)[1..] == rest;
    } else {
      assert [] + rest == rest;
    }
  }

  lemma LookupOffered(req: Rrq, size: nat, key: bytes)
    ensures Lookup(OptionsFor(req, size), key) ==
      var p := ParamsFor(req);
      if req.blksize.Some? && key == BLKSIZE then Some(Decimal(p.blksize))
      else if req.timeout.Some? && key == TIMEOUT then Some(Decimal(p.timeout))
      else if req.tsize && key == TSIZE then Some(Decimal(size))
      else if req.windowsize.Some? && key == WINDOWSIZE then Some(Decimal(p.window))
      else None
  {
    hide Lookup, Maybe, Decimal, ParamsFor, BLKSIZE, TIMEOUT, TSIZE, WINDOWSIZE;
    var p := ParamsFor(req);
    var o4 := Maybe(req.windowsize.Some?, (WINDOWSIZE, Decimal(p.window)));
    var o3 := Maybe(req.tsize, (TSIZE, Decimal(size)));
    var o2 := Maybe(req.timeout.Some?, (TIMEOUT, Decimal(p.timeout)));
    var o1 := Maybe(req.blksize.Some?, (BLKSIZE, Decimal(p.blksize)));
    assert OptionsFor(req, size) == o1 + (o2 + (o3 + (o4 + [])));
    LookupMaybe(req.blksize.Some?, BLKSIZE, Decimal(p.blksize), o2 + (o3 + (o4 + [])), key);
    LookupMaybe(req.timeout.Some?, TIMEOUT, Decimal(p.timeout), o3 + (o4 + []), key);
    LookupMaybe(req.tsize, TSIZE, Decimal(size), o4 + [], key);
    LookupMaybe(req.windowsize.Some?, WINDOWSIZE, Decimal(p.window), [], key);
    LookupNothing(key);
  }

  lemma LookupNothing(key: bytes)
    ensures Lookup([], key) == None
  {
  }

  lemma MaybeNulFree(present: bool, key: bytes, n: nat, rest: seq<Pair>)
    requires NulFree(key) && NulFreeOptions(rest)
    ensures NulFreeOptions(Maybe(present, (key, Decimal(n))) + rest)
  {
    DecimalDigits(n);
    hide Decimal, NulFree;
    assert [] + rest == rest;
  }

  lemma OfferedNulFree(req: Rrq, size: nat)
    ensures NulFreeOptions(OptionsFor(req, size))
  {
    assert NulFree(BLKSIZE) && NulFree(TIMEOUT) && NulFree(TSIZE) && NulFree(WINDOWSIZE);
    hide Decimal, ParamsFor, NulFree, Maybe, BLKSIZE, TIMEOUT, TSIZE, WINDOWSIZE;
    var p := ParamsFor(req);
    var o4 := Maybe(req.windowsize.Some?, (WINDOWSIZE, Decimal(p.window))) + [];
    MaybeNulFree(req.windowsize.Some?, WINDOWSIZE, p.window, []);
    var o3 := Maybe(req.tsize, (TSIZE, Decimal(size))) + o4;
    MaybeNulFree(req.tsize, TSIZE, size, o4);
    var o2 := Maybe(req.timeout.Some?, (TIMEOUT, Decimal(p.timeout))) + o3;
    MaybeNulFree(req.timeout.Some?, TIMEOUT, p.timeout, o3);
    MaybeNulFree(req.blksize.Some?, BLKSIZE, p.blksize, o2);
    assert OptionsFor(req, size) == Maybe(req.blksize.Some?, (BLKSIZE, Decimal(p.blksize))) + o2;
  }

  // What a client that sent `req` for a file of `size` bytes concludes from `options`:
  // each value it asked for as the server uses it, and its own default for the rest.
  ghost predicate Concludes(req: Rrq, size: nat, options: seq<Pair>) {
    var p := ParamsFor(req);
    && Agreed(options, BLKSIZE, DEFAULT_BLKSIZE) == Some(p.blksize)
    && Agreed(options, TIMEOUT, DEFAULT_TIMEOUT_SECS) == Some(p.timeout)
    && Agreed(options, WINDOWSIZE, DEFAULT_WINDOWSIZE) == Some(p.window)
    && (Lookup(options, BLKSIZE).Some? <==> req.blksize.Some?)
    && (Lookup(options, TIMEOUT).Some? <==> req.timeout.Some?)
    && (Lookup(options, WINDOWSIZE).Some? <==> req.windowsize.Some?)
    && (if req.tsize then Agreed(options, TSIZE, 0) == Some(size) else Lookup(options, TSIZE).None?)
    && (forall key :: key != BLKSIZE && key != TIMEOUT && key != TSIZE && key != WINDOWSIZE
          ==> Lookup(options, key).None?)
  }

  // What the client decodes from the acknowledgement packet is what drives the loop,
  // for every request and file size; an option that was not requested is not in it, and
  // the client's default for it is the server's.
  lemma ClientAgrees(req: Rrq, size: nat)
    requires size <= U64_MAX
    ensures ParseOackPacket(MakeOackPacket(OptionsFor(req, size))) == Some(OptionsFor(req, size))
    ensures Concludes(req, size, OptionsFor(req, size))
  {
    hide Decimal, OptionsFor, ParseUnsigned, Lookup, ParseOackPacket, MakeOackPacket;
    OfferedNulFree(req, size);
    OackRoundTrip(OptionsFor(req, size));
    KeysDiffer();
    hide BLKSIZE, TIMEOUT, TSIZE, WINDOWSIZE;
    var p := ParamsFor(req);
    DecimalRoundTrip(p.blksize, U64_MAX);
    DecimalRoundTrip(p.timeout, U64_MAX);
    DecimalRoundTrip(p.window, U64_MAX);
    DecimalRoundTrip(size, U64_MAX);
    forall key: bytes {
      LookupOffered(req, size, key);
    }
  }

  // Whatever a client asks for, the transfer it gets is within bounds, so everything
  // proved of well-formed transfers holds of it.
  lemma NegotiatedWithinBounds(req: Rrq, file: bytes)
    ensures var p := ParamsFor(req);
      && 512 <= p.blksize <= 1432 && 1 <= p.timeout <= 10 && 1 <= p.window <= 32
      && WellFormed(Transfer(file, p.blksize, p.window))
  {
  }

  // What each request is granted: what it asks for if that is within the limits, the nearer
  // limit otherwise, and the standard's default if it does not ask.
  lemma GrantedAsAsked(req: Rrq)
    ensures ParamsFor(req).blksize ==
      match req.blksize
      case None => 512
      case Some(v) => if v < 512 then 512 else if v <= 1432 then v else 1432
    ensures ParamsFor(req).timeout ==
      match req.timeout
      case None => 3
      case Some(v) => if v < 1 then 1 else if v <= 10 then v else 10
    ensures ParamsFor(req).window ==
      match req.windowsize
      case None => 1
      case Some(v) => if v < 1 then 1 else if v <= 32 then v else 32
  {
  }

  // One acknowledged option on the wire.
  function Acknowledged(present: bool, name: string, n: nat): bytes {
    if present then Ascii(name) + [0] + Decimal(n) + [0] else []
  }

  // The acknowledgement of a request, byte for byte: the options asked for and no others.
  lemma OackSays(req: Rrq, size: nat)
    ensures MakeOackPacket(OptionsFor(req, size)) == [0, 6]
      + Acknowledged(req.blksize.Some?, "blksize", ParamsFor(req).blksize)
      + Acknowledged(req.timeout.Some?, "timeout", ParamsFor(req).timeout)
      + Acknowledged(req.tsize, "tsize", size)
      + Acknowledged(req.windowsize.Some?, "windowsize", ParamsFor(req).window)
  {
    hide ParamsFor, Decimal, MakeOackPacket, Ascii, BLKSIZE, TIMEOUT, TSIZE, WINDOWSIZE;
    KeysAre();
    var p := ParamsFor(req);
    var o1 := Maybe(req.blksize.Some?, (BLKSIZE, Decimal(p.blksize)));
    var o2 := o1 + Maybe(req.timeout.Some?, (TIMEOUT, Decimal(p.timeout)));
    var o3 := o2 + Maybe(req.tsize, (TSIZE, Decimal(size)));
    OackAppends([], req.blksize.Some?, BLKSIZE, "blksize", p.blksize);
    assert [] + o1 == o1;
    OackAppends(o1, req.timeout.Some?, TIMEOUT, "timeout", p.timeout);
    OackAppends(o2, req.tsize, TSIZE, "tsize", size);
    OackAppends(o3, req.windowsize.Some?, WINDOWSIZE, "windowsize", p.window);
    OackBytes([], [], []);
  }

  lemma OackAppends(options: seq<Pair>, present: bool, key: bytes, name: string, n: nat)
    requires key == Ascii(name)
    ensures MakeOackPacket(options + Maybe(present, (key, Decimal(n)))) == MakeOackPacket(options) + Acknowledged(present, name, n)
  {
    hide MakeOackPacket, Decimal, Ascii;
    OackBytes(options, key, Decimal(n));
    assert options + [] == options;
  }

  // The clamps raise a request as well as lower it: the server stays at or below what
  // was asked (as RFC 2348 and RFC 7440 require) exactly when the request was at least
  // 512 bytes, respectively one block.
  lemma RaisedExactlyBelowMinimum(req: Rrq)
    ensures req.blksize.Some? ==>
      (ParamsFor(req).blksize <= req.blksize.value <==> req.blksize.value >= 512)
    ensures req.windowsize.Some? ==>
      (ParamsFor(req).window <= req.windowsize.value <==> req.windowsize.value >= 1)
  {
  }
}
