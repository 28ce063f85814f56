// The TFTP packet layout of RFC 1350 section 5, with the option acknowledgement
// of RFC 2347: encoders, decoders, and the facts that tie them together.
module Wire {
  import opened Prelude

  const OP_RRQ: u16 := 1
  const OP_DATA: u16 := 3
  const OP_ACK: u16 := 4
  const OP_ERROR: u16 := 5
  const OP_OACK: u16 := 6

  function BigEndian16(n: u16): (r: bytes)
    ensures |r| == 2
  {
    [n / 256, n % 256]
  }

  function FromBigEndian16(hi: byte, lo: byte): u16 {
    hi * 256 + lo
  }

  // Block numbers on the wire are 16 bits wide and wrap 65535 -> 0.
  function WireOf(abs: nat): u16 {
    if abs < 65536 then abs else WireOf(abs - 65536)
  }

  // That is the remainder modulo 65536.
  lemma {:induction false} WireIsRemainder(abs: nat)
    ensures WireOf(abs) == abs % 65536
  {
    if abs >= 65536 {
      WireIsRemainder(abs - 65536);
    }
  }

  function Opcode(pkt: bytes): Option<u16> {
    if |pkt| < 2 then None else Some(FromBigEndian16(pkt[0], pkt[1]))
  }

  function MakeDataPacket(block: u16, data: bytes): (pkt: bytes)
    ensures ParseDataPacket(pkt) == Some((block, data))
    ensures ParseAckPacket(pkt) == None && !IsErrorPacket(pkt)
  {
    BigEndian16(OP_DATA) + BigEndian16(block) + data
  }

  function MakeAckPacket(block: u16): (pkt: bytes)
    ensures ParseAckPacket(pkt) == Some(block)
    ensures ParseDataPacket(pkt) == None && !IsErrorPacket(pkt)
  {
    BigEndian16(OP_ACK) + BigEndian16(block)
  }

  function MakeErrorPacket(code: u16, msg: bytes): (pkt: bytes)
    ensures IsErrorPacket(pkt)
    ensures ParseAckPacket(pkt) == None && ParseDataPacket(pkt) == None
  {
    BigEndian16(OP_ERROR) + BigEndian16(code) + msg + [0]
  }

  function ParseAckPacket(pkt: bytes): Option<u16> {
    if Opcode(pkt) != Some(OP_ACK) || |pkt| < 4 then None
    else Some(FromBigEndian16(pkt[2], pkt[3]))
  }

  function ParseDataPacket(pkt: bytes): Option<(u16, bytes)> {
    if Opcode(pkt) != Some(OP_DATA) || |pkt| < 4 then None
    else Some((FromBigEndian16(pkt[2], pkt[3]), pkt[4..]))
  }

  predicate IsErrorPacket(pkt: bytes) {
    Opcode(pkt) == Some(OP_ERROR)
  }

  // The code and message of an error packet; the message ends at the first NUL, if any.
  function ParseErrorPacket(pkt: bytes): Option<(u16, bytes)> {
    if Opcode(pkt) != Some(OP_ERROR) || |pkt| < 4 then None
    else Some((FromBigEndian16(pkt[2], pkt[3]), UpToNul(pkt[4..])))
  }

  function UpToNul(s: bytes): bytes {
    if s == [] || s[0] == 0 then [] else [s[0]] + UpToNul(s[1..])
  }

  lemma {:induction false} UpToNulStops(s: bytes, rest: bytes)
    requires NulFree(s)
    ensures UpToNul(s + [0] + rest) == s
  {
    if s == [] {
      assert (s + [0] + rest)[0] == 0;
    } else {
      UpToNulStops(s[1..], rest);
      assert (s + [0] + rest)[1..] == s[1..] + [0] + rest;
    }
  }

  // An error packet decodes to its code and message.
  lemma ErrorRoundTrip(code: u16, msg: bytes)
    requires NulFree(msg)
    ensures ParseErrorPacket(MakeErrorPacket(code, msg)) == Some((code, msg))
  {
    UpToNulStops(msg, []);
    assert MakeErrorPacket(code, msg)[4..] == msg + [0] + [];
  }

  // The bytes on the wire: two of opcode and two of number, the more significant first.
  lemma PacketBytes(n: u16, data: bytes)
    ensures MakeDataPacket(n, data) == [0, 3, n / 256, n % 256] + data
    ensures MakeAckPacket(n) == [0, 4, n / 256, n % 256]
    ensures MakeErrorPacket(n, data) == [0, 5, n / 256, n % 256] + data + [0]
  {
  }

  // And how any bytes at all are read.
  lemma PacketsRead(pkt: bytes, n: u16)
    ensures ParseAckPacket(pkt) == Some(n) <==> |pkt| >= 4 && pkt[0] == 0 && pkt[1] == 4 && n == (pkt[2] as int) * 256 + pkt[3] as int
    ensures IsErrorPacket(pkt) <==> |pkt| >= 2 && pkt[0] == 0 && pkt[1] == 5
  {
  }

  // Runs of NUL-terminated fields ------------------------------------------

  predicate NulFree(s: bytes) {
    forall i :: 0 <= i < |s| ==> s[i] != 0
  }

  predicate AllNulFree(fs: seq<bytes>) {
    forall i :: 0 <= i < |fs| ==> NulFree(fs[i])
  }

  function Terminated(fs: seq<bytes>): bytes {
    if fs == [] then [] else fs[0] + [0] + Terminated(fs[1..])
  }

  // The fields of a run, front to back; bytes after the last NUL are dropped.
  // `current` is the unterminated field read so far.
  function FieldsFrom(current: bytes, rest: bytes): seq<bytes>
    decreases |rest|
  {
    if rest == [] then []
    else if rest[0] == 0 then [current] + FieldsFrom([], rest[1..])
    else FieldsFrom(current + [rest[0]], rest[1..])
  }

  function Fields(run: bytes): seq<bytes> {
    FieldsFrom([], run)
  }

  lemma {:induction false} FieldsFromTerminated(current: bytes, f: bytes, rest: bytes)
    requires NulFree(f)
    ensures FieldsFrom(current, f + [0] + rest) == [current + f] + FieldsFrom([], rest)
    decreases |f|
  {
    var run := f + [0] + rest;
    if f == [] {
      assert run[1..] == rest;
      assert current + f == current;
    } else {
      assert run[1..] == f[1..] + [0] + rest;
      FieldsFromTerminated(current + [f[0]], f[1..], rest);
      assert current + [f[0]] + f[1..] == current + f;
    }
  }

  // Splitting undoes joining, for any list of NUL-free fields.
  lemma {:induction false} FieldsOfTerminated(fs: seq<bytes>)
    requires AllNulFree(fs)
    ensures Fields(Terminated(fs)) == fs
  {
    if fs != [] {
      FieldsFromTerminated([], fs[0], Terminated(fs[1..]));
      assert [] + fs[0] == fs[0];
      FieldsOfTerminated(fs[1..]);
    }
  }

  lemma {:induction false} TailDropped(current: bytes, tail: bytes)
    requires NulFree(tail)
    ensures FieldsFrom(current, tail) == []
    decreases |tail|
  {
    if tail != [] {
      TailDropped(current + [tail[0]], tail[1..]);
    }
  }

  // What comes after the last NUL is dropped.
  lemma {:induction false} FieldsWithTail(fs: seq<bytes>, tail: bytes)
    requires AllNulFree(fs) && NulFree(tail)
    ensures Fields(Terminated(fs) + tail) == fs
  {
    if fs == [] {
      assert Terminated([]) + tail == tail;
      TailDropped([], tail);
    } else {
      FieldsFromTerminated([], fs[0], Terminated(fs[1..]) + tail);
      assert [] + fs[0] == fs[0];
      assert Terminated(fs) + tail == fs[0] + [0] + (Terminated(fs[1..]) + tail);
      FieldsWithTail(fs[1..], tail);
    }
  }

  lemma TerminatedFront(f: bytes, fs: seq<bytes>, tail: bytes)
    ensures Terminated([f] + fs) + tail == f + [0] + (Terminated(fs) + tail)
  {
    assert ([f] + fs)[1..] == fs;
  }

  lemma TakeByte(current: bytes, rest: bytes)
    requires rest != []
    ensures current + rest == current + [rest[0]] + rest[1..]
  {
  }

  lemma {:induction false} Rejoined(current: bytes, rest: bytes) returns (tail: bytes)
    requires NulFree(current)
    ensures var fs := FieldsFrom(current, rest);
      AllNulFree(fs) && NulFree(tail) && current + rest == Terminated(fs) + tail
    decreases |rest|
  {
    if rest == [] {
      tail := current;
    } else {
      TakeByte(current, rest);
      hide Terminated;
      if rest[0] == 0 {
        tail := Rejoined([], rest[1..]);
        assert [] + rest[1..] == rest[1..];
        TerminatedFront(current, FieldsFrom([], rest[1..]), tail);
      } else {
        tail := Rejoined(current + [rest[0]], rest[1..]);
      }
    }
  }

  // So splitting is decided for every run of bytes.
  lemma FieldsExactly(run: bytes, fs: seq<bytes>)
    ensures Fields(run) == fs <==> AllNulFree(fs) && exists tail :: NulFree(tail) && run == Terminated(fs) + tail
  {
    hide FieldsFrom, Terminated, NulFree, AllNulFree;
    NothingIsNulFree();
    var rest := Rejoined([], run);
    assert [] + run == run;
    forall tail | AllNulFree(fs) && NulFree(tail) && run == Terminated(fs) + tail ensures Fields(run) == fs {
      FieldsWithTail(fs, tail);
    }
  }

  lemma NothingIsNulFree()
    ensures NulFree([])
  {
  }

  // The splitting loop shared by the request and OACK parsers.
  method SplitFields(run: bytes) returns (parts: seq<bytes>)
    ensures parts == Fields(run)
  {
    parts := [];
    var current: bytes := [];
    for i := 0 to |run|
      invariant parts + FieldsFrom(current, run[i..]) == Fields(run)
    {
      var b := run[i];
      assert run[i..][1..] == run[i + 1..];
      if b == 0 {
        parts := parts + [current];
        current := [];
      } else {
        current := current + [b];
      }
    }
  }

  // Option acknowledgements -------------------------------------------------

  type Pair = (bytes, bytes)

  function Flatten(options: seq<Pair>): seq<bytes> {
    if options == [] then [] else [options[0].0, options[0].1] + Flatten(options[1..])
  }

  // Consecutive fields taken two by two; an odd field at the end is dropped.
  function PairUp(parts: seq<bytes>): seq<Pair> {
    if |parts| < 2 then [] else [(parts[0], parts[1])] + PairUp(parts[2..])
  }

  predicate NulFreeOptions(options: seq<Pair>) {
    forall i :: 0 <= i < |options| ==> NulFree(options[i].0) && NulFree(options[i].1)
  }

  lemma {:induction false} PairUpFlatten(options: seq<Pair>)
    ensures PairUp(Flatten(options)) == options
    ensures NulFreeOptions(options) ==> AllNulFree(Flatten(options))
  {
    if options != [] {
      PairUpFlatten(options[1..]);
      assert Flatten(options)[2..] == Flatten(options[1..]);
    }
  }

  function MakeOackPacket(options: seq<Pair>): bytes {
    BigEndian16(OP_OACK) + Terminated(Flatten(options))
  }

  function ParseOackPacket(pkt: bytes): Option<seq<Pair>> {
    if Opcode(pkt) != Some(OP_OACK) then None else Some(PairUp(Fields(pkt[2..])))
  }

  // An option acknowledgement decodes to exactly the options it was built from.
  lemma OackRoundTrip(options: seq<Pair>)
    requires NulFreeOptions(options)
    ensures ParseOackPacket(MakeOackPacket(options)) == Some(options)
  {
    PairUpFlatten(options);
    FieldsOfTerminated(Flatten(options));
    assert MakeOackPacket(options)[2..] == Terminated(Flatten(options));
  }

  lemma {:induction false} FlattenAppend(options: seq<Pair>, k: bytes, v: bytes)
    ensures Flatten(options + [(k, v)]) == Flatten(options) + [k, v]
  {
    if options == [] {
      assert [(k, v)][1..] == [];
    } else {
      FlattenAppend(options[1..], k, v);
      assert (options + [(k, v)])[1..] == options[1..] + [(k, v)];
    }
  }

  lemma {:induction false} TerminatedAppend(fs: seq<bytes>, gs: seq<bytes>)
    ensures Terminated(fs + gs) == Terminated(fs) + Terminated(gs)
  {
    if fs == [] {
      assert fs + gs == gs;
    } else {
      TerminatedAppend(fs[1..], gs);
      assert (fs + gs)[1..] == fs[1..] + gs;
    }
  }

  // The bytes of an option acknowledgement: opcode 6, then each name and its value, in
  // that order and each followed by a NUL.
  lemma OackBytes(options: seq<Pair>, k: bytes, v: bytes)
    ensures MakeOackPacket([]) == [0, 6]
    ensures MakeOackPacket(options + [(k, v)]) == MakeOackPacket(options) + k + [0] + v + [0]
  {
    NoOptions();
    hide Flatten, Terminated;
    FlattenAppend(options, k, v);
    TerminatedAppend(Flatten(options), [k, v]);
    TerminatedPair(k, v, []);
    assert [k, v] + [] == [k, v];
  }

  lemma NoOptions()
    ensures Flatten([]) == [] && Terminated([]) == []
  {
  }

  method BuildOackPacket(options: seq<Pair>) returns (pkt: bytes)
    ensures pkt == MakeOackPacket(options)
  {
    pkt := BigEndian16(OP_OACK);
    for i := 0 to |options|
      invariant pkt + Terminated(Flatten(options[i..])) == MakeOackPacket(options)
    {
      var (name, val) := options[i];
      TerminatedPair(name, val, Flatten(options[i + 1..]));
      assert options[i..][1..] == options[i + 1..];
      pkt := pkt + name + [0] + val + [0];
    }
  }

  lemma TerminatedPair(name: bytes, val: bytes, rest: seq<bytes>)
    ensures Terminated([name, val] + rest) == name + [0] + val + [0] + Terminated(rest)
  {
    var fs := [name, val] + rest;
    assert fs[1..] == [val] + rest;
    assert fs[1..][1..] == rest;
  }

  method ReadOackPacket(pkt: bytes) returns (r: Option<seq<Pair>>)
    ensures r == ParseOackPacket(pkt)
  {
    if Opcode(pkt) != Some(OP_OACK) {
      return None;
    }
    var parts := SplitFields(pkt[2..]);
    var options: seq<Pair> := [];
    var i := 0;
    while i + 1 < |parts|
      invariant 0 <= i <= |parts|
      invariant options + PairUp(parts[i..]) == PairUp(parts)
    {
      assert parts[i..][2..] == parts[i + 2..];
      options := options + [(parts[i], parts[i + 1])];
      i := i + 2;
    }
    assert options + [] == options;
    r := Some(options);
  }
}
