// The few text operations names and MAC addresses go through.
module Text {
  // Characters with the Unicode White_Space property.
  predicate IsSpace(c: char) {
    var n := c as int;
    (0x09 <= n <= 0x0D) || n == 0x20 || n == 0x85 || n == 0xA0 || n == 0x1680 || (0x2000 <= n <= 0x200A)
      || n == 0x2028 || n == 0x2029 || n == 0x202F || n == 0x205F || n == 0x3000
  }

  // Nothing is left after trimming.
  predicate Blank(s: string) {
    forall i :: 0 <= i < |s| ==> IsSpace(s[i])
  }

  function LowerChar(c: char): char {
    if 'A' <= c <= 'Z' then (c as int + 32) as char else c
  }

  function AsciiLower(s: string): string {
    if s == [] then [] else [LowerChar(s[0])] + AsciiLower(s[1..])
  }

  function Trim(s: string): string {
    if s != [] && IsSpace(s[0]) then Trim(s[1..])
    else if s != [] && IsSpace(s[|s| - 1]) then Trim(s[..|s| - 1])
    else s
  }

  // Lower case, with colons for hyphens.
  function MacChar(c: char): char {
    if c == '-' then ':' else LowerChar(c)
  }

  function MacChars(s: string): string {
    seq(|s|, (i: int) requires 0 <= i < |s| => MacChar(s[i]))
  }

  function NormalizeMac(mac: string): string {
    MacChars(Trim(mac))
  }

  predicate Trimmed(s: string) {
    s == [] || (!IsSpace(s[0]) && !IsSpace(s[|s| - 1]))
  }

  lemma {:induction false} TrimTrims(s: string)
    ensures Trimmed(Trim(s))
    ensures Trimmed(s) ==> Trim(s) == s
    decreases |s|
  {
    hide IsSpace;
    if s != [] && IsSpace(s[0]) {
      TrimTrims(s[1..]);
    } else if s != [] && IsSpace(s[|s| - 1]) {
      TrimTrims(s[..|s| - 1]);
    }
  }

  // -- What these operations mean, character by character --------------------------------

  // The same letter up to case, d being lower case or no letter at all.
  predicate SameLetter(c: char, d: char) {
    c == d || ('a' <= d <= 'z' && c as int == d as int - 32)
  }

  predicate EqualsIgnoringCase(s: string, word: string) {
    |s| == |word| && forall i :: 0 <= i < |s| ==> SameLetter(s[i], word[i])
  }

  // The word occurs at position i of s, in any case.
  predicate OccursAt(s: string, word: string, i: nat) {
    i + |word| <= |s| && forall j :: 0 <= j < |word| ==> SameLetter(s[i + j], word[j])
  }

  // No ASCII capital.
  predicate Uncapitalised(word: string) {
    forall i :: 0 <= i < |word| ==> !('A' <= word[i] <= 'Z')
  }

  lemma LowerCharIs(c: char, d: char)
    requires !('A' <= d <= 'Z')
    ensures LowerChar(c) == d <==> SameLetter(c, d)
  {
  }

  lemma {:induction false} LowerAt(s: string, i: nat)
    ensures |AsciiLower(s)| == |s|
    ensures i < |s| ==> AsciiLower(s)[i] == LowerChar(s[i])
  {
    if s != [] {
      LowerAt(s[1..], if i > 0 then i - 1 else 0);
    }
  }

  lemma LowerEquals(s: string, word: string)
    requires Uncapitalised(word)
    ensures AsciiLower(s) == word <==> EqualsIgnoringCase(s, word)
  {
    hide AsciiLower, LowerChar, SameLetter;
    LowerAt(s, 0);
    forall i | 0 <= i < |s| ensures AsciiLower(s)[i] == LowerChar(s[i]) {
      LowerAt(s, i);
    }
    forall i | 0 <= i < |s| && i < |word| ensures LowerChar(s[i]) == word[i] <==> SameLetter(s[i], word[i]) {
      LowerCharIs(s[i], word[i]);
    }
    if EqualsIgnoringCase(s, word) {
      assert AsciiLower(s) == word;
    }
  }

  // White space is exactly these 25 characters.
  lemma SpacesAre(c: char)
    ensures IsSpace(c) <==> c as int in [9, 10, 11, 12, 13, 32, 133, 160, 5760, 8192, 8193, 8194, 8195, 8196, 8197,
                                         8198, 8199, 8200, 8201, 8202, 8232, 8233, 8239, 8287, 12288]
  {
  }

  // Trimming takes off exactly the white space at both ends.
  lemma {:induction false} TrimIsMiddle(s: string) returns (i: nat, j: nat)
    ensures i <= j <= |s| && Trim(s) == s[i..j] && Trimmed(s[i..j])
    ensures forall k :: 0 <= k < i || j <= k < |s| ==> IsSpace(s[k])
    decreases |s|
  {
    hide IsSpace;
    if s != [] && IsSpace(s[0]) {
      i, j := TrimIsMiddle(s[1..]);
      i, j := i + 1, j + 1;
      forall k | 0 <= k < i || j <= k < |s| ensures IsSpace(s[k]) {
        if k > 0 {
          assert s[1..][k - 1] == s[k];
        }
      }
    } else if s != [] && IsSpace(s[|s| - 1]) {
      var front := s[..|s| - 1];
      i, j := TrimIsMiddle(front);
      forall k | 0 <= k < i || j <= k < |s| ensures IsSpace(s[k]) {
        if k < |s| - 1 {
          assert front[k] == s[k];
        }
      }
    } else {
      i, j := 0, |s|;
    }
  }

  // A name is blank exactly when trimming leaves nothing of it.
  lemma BlankIsTrimmedAway(s: string)
    ensures Blank(s) <==> Trim(s) == []
  {
    hide IsSpace;
    var i, j := TrimIsMiddle(s);
    if i < j {
      assert s[i..j][0] == s[i];
    }
  }

  // Two spellings of a character in a MAC: hyphen and colon are one, and case is ignored.
  predicate SameMacChar(c: char, d: char) {
    || c == d
    || (c in {'-', ':'} && d in {'-', ':'})
    || ('A' <= c <= 'Z' && d as int == c as int + 32)
    || ('A' <= d <= 'Z' && c as int == d as int + 32)
  }

  lemma MacCharIs(c: char, d: char)
    ensures MacChar(c) == MacChar(d) <==> SameMacChar(c, d)
  {
  }

  // Two spellings normalise to the same MAC exactly when, between the white space at their
  // ends, they agree in every character but for case and hyphens standing for colons.
  lemma SameMacExactly(a: string, b: string)
    ensures NormalizeMac(a) == NormalizeMac(b)
       <==> |Trim(a)| == |Trim(b)| && forall i :: 0 <= i < |Trim(a)| ==> SameMacChar(Trim(a)[i], Trim(b)[i])
  {
    hide Trim, MacChar, SameMacChar;
    var s, t := Trim(a), Trim(b);
    forall i | 0 <= i < |s| && i < |t| ensures MacChars(s)[i] == MacChars(t)[i] <==> SameMacChar(s[i], t[i]) {
      MacCharIs(s[i], t[i]);
    }
  }

  // And the normal form has no capital and no hyphen, and no white space around it.
  lemma NormalForm(mac: string)
    ensures var n := NormalizeMac(mac);
      Trimmed(n) && forall i :: 0 <= i < |n| ==> n[i] != '-' && !('A' <= n[i] <= 'Z')
  {
    hide Trim, IsSpace;
    TrimTrims(mac);
    var t := Trim(mac);
    if t != [] {
      MacCharStable(t[0]);
      MacCharStable(t[|t| - 1]);
    }
  }

  lemma MacCharStable(c: char)
    ensures MacChar(MacChar(c)) == MacChar(c)
    ensures IsSpace(MacChar(c)) <==> IsSpace(c)
  {
  }

  // Normalising twice is normalising once.
  lemma NormalizeIdempotent(mac: string)
    ensures NormalizeMac(NormalizeMac(mac)) == NormalizeMac(mac)
  {
    hide Trim, MacChar, IsSpace;
    var t := Trim(mac);
    var n := MacChars(t);
    TrimTrims(mac);
    if t != [] {
      MacCharStable(t[0]);
      MacCharStable(t[|t| - 1]);
    }
    TrimTrims(n);
    forall i | 0 <= i < |n| ensures MacChar(n[i]) == n[i] {
      MacCharStable(t[i]);
    }
    assert MacChars(n) == n;
  }

  // -- Valid MACs ------------------------------------------------------------------------

  predicate LowerHex(c: char) {
    '0' <= c <= '9' || 'a' <= c <= 'f'
  }

  // Six colon-separated pairs of lower-case hex digits.
  predicate ValidMac(mac: string) {
    |mac| == 17 && forall i :: 0 <= i < 17 ==> if i % 3 == 2 then mac[i] == ':' else LowerHex(mac[i])
  }

  function HexDigit(n: nat): char
    requires n < 16
  {
    "0123456789abcdef"[n]
  }

  predicate SixBytes(b: seq<nat>) {
    |b| == 6 && forall i :: 0 <= i < 6 ==> b[i] < 256
  }

  // A hardware address in its canonical form.
  function FormatMac(b: seq<nat>): string
    requires SixBytes(b)
  {
    seq(17, (i: int) requires 0 <= i < 17 =>
      if i % 3 == 2 then ':' else HexDigit(if i % 3 == 0 then b[i / 3] / 16 else b[i / 3] % 16))
  }

  function DigitOf(c: char): (n: nat)
    requires LowerHex(c)
    ensures n < 16
  {
    if c <= '9' then c as int - '0' as int else c as int - 'a' as int + 10
  }

  lemma DigitsMatch(c: char, n: nat)
    ensures LowerHex(c) ==> HexDigit(DigitOf(c)) == c
    ensures n < 16 ==> LowerHex(HexDigit(n))
  {
  }

  // The byte two digits stand for; other characters stand for nothing.
  function BytePair(hi: char, lo: char): (n: nat)
    ensures n < 256
  {
    if LowerHex(hi) && LowerHex(lo) then DigitOf(hi) * 16 + DigitOf(lo) else 0
  }

  lemma PairSplits(hi: char, lo: char)
    requires LowerHex(hi) && LowerHex(lo)
    ensures BytePair(hi, lo) / 16 == DigitOf(hi) && BytePair(hi, lo) % 16 == DigitOf(lo)
  {
  }

  function BytesOf(mac: string): (b: seq<nat>)
    requires |mac| == 17
    ensures SixBytes(b)
  {
    seq(6, (k: int) requires 0 <= k < 6 => BytePair(mac[3 * k], mac[3 * k + 1]))
  }

  lemma CharOfByte(mac: string, k: nat)
    requires ValidMac(mac) && k < 6
    ensures HexDigit(BytesOf(mac)[k] / 16) == mac[3 * k] && HexDigit(BytesOf(mac)[k] % 16) == mac[3 * k + 1]
  {
    hide HexDigit, DigitOf, BytePair;
    assert LowerHex(mac[3 * k]) && LowerHex(mac[3 * k + 1]);
    hide ValidMac, LowerHex;
    PairSplits(mac[3 * k], mac[3 * k + 1]);
    DigitsMatch(mac[3 * k], 0);
    DigitsMatch(mac[3 * k + 1], 0);
  }

  lemma FormatIsValid(b: seq<nat>)
    requires SixBytes(b)
    ensures ValidMac(FormatMac(b))
  {
    hide HexDigit, LowerHex;
    forall n: nat | n < 16 ensures LowerHex(HexDigit(n)) {
      DigitsMatch('0', n);
    }
  }

  // The valid MACs are exactly the canonical forms of the six-byte hardware addresses.
  lemma ValidMacExactly(mac: string)
    ensures ValidMac(mac) <==> exists b :: SixBytes(b) && mac == FormatMac(b)
  {
    hide HexDigit, LowerHex, ValidMac, BytesOf;
    if ValidMac(mac) {
      FormatUndone(mac);
    }
    forall b | SixBytes(b) && mac == FormatMac(b) ensures ValidMac(mac) {
      FormatIsValid(b);
    }
  }

  lemma FormatUndone(mac: string)
    requires ValidMac(mac)
    ensures FormatMac(BytesOf(mac)) == mac
  {
    hide HexDigit, LowerHex, BytesOf;
    var b := BytesOf(mac);
    forall i | 0 <= i < 17 ensures FormatMac(b)[i] == mac[i] {
      if i % 3 != 2 {
        CharOfByte(mac, i / 3);
      }
    }
  }
}
