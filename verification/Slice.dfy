// A window onto one partition of a device, and the stand-alone cursor it simulates.
module Slice {
  import opened Prelude
  import opened BlockStream

  const I64_MAX: int := 0x7FFF_FFFF_FFFF_FFFF

  datatype From = Start(offset: nat) | End(delta: int) | Current(delta: int)

  datatype Failure = DeviceFault | WriteZero | InvalidInput

  // The operations a file system driver performs, with what the device grants each.
  datatype Op =
    | Read(want: nat, grant: Grant)
    | Write(data: bytes, grant: Grant)
    | Seek(from: From)

  datatype Reply = Got(data: bytes) | Wrote(n: nat) | At(pos: nat) | Failed(why: Failure)

  // -- The reference: a cursor over bytes of its own ---------------------------------------

  datatype Cursor = Cursor(data: bytes, pos: nat)

  // Where a seek leads: a position that fits a signed 64-bit integer and is not
  // negative, reached from a base that fits as well.
  function Target(c: Cursor, from: From): Option<nat> {
    var base := match from case Start(_) => 0 case End(_) => |c.data| case Current(_) => c.pos;
    var delta := match from case Start(offset) => offset case End(d) => d case Current(d) => d;
    if base <= I64_MAX && 0 <= base + delta <= I64_MAX then Some(base + delta) else None
  }

  function Overwrite(s: bytes, at: nat, d: bytes): (r: bytes)
    requires at + |d| <= |s|
    ensures |r| == |s|
  {
    s[..at] + d + s[at + |d|..]
  }

  function CursorStep(c: Cursor, op: Op): (Cursor, Reply) {
    match op
    case Read(want, grant) =>
      if c.pos >= |c.data| then (c, Got([]))
      else if grant == Fault then (c, Failed(DeviceFault))
      else
        var n := Moved(grant, Min(want, |c.data| - c.pos));
        (c.(pos := c.pos + n), Got(c.data[c.pos..c.pos + n]))
    case Write(d, grant) =>
      if c.pos >= |c.data| then (c, Failed(WriteZero))
      else if grant == Fault then (c, Failed(DeviceFault))
      else
        var n := Moved(grant, Min(|d|, |c.data| - c.pos));
        (Cursor(Overwrite(c.data, c.pos, d[..n]), c.pos + n), Wrote(n))
    case Seek(from) =>
      match Target(c, from)
      case None => (c, Failed(InvalidInput))
      case Some(p) => (c.(pos := p), At(p))
  }

  function CursorRun(c: Cursor, ops: seq<Op>): (Cursor, seq<Reply>) {
    if ops == [] then (c, [])
    else
      var (before, replies) := CursorRun(c, ops[..|ops| - 1]);
      var (after, reply) := CursorStep(before, ops[|ops| - 1]);
      (after, replies + [reply])
  }

  // Operations a caller can express: offsets have 64-bit types.
  predicate Expressible(op: Op) {
    match op
    case Seek(Start(offset)) => offset <= U64_MAX
    case Seek(End(d)) => -I64_MAX - 1 <= d <= I64_MAX
    case Seek(Current(d)) => -I64_MAX - 1 <= d <= I64_MAX
    case Read(_, _) => true
    case Write(_, _) => true
  }

  // -- The slice as it runs ------------------------------------------------------------------

  // The underlying file: a position of its own, and transfers that may be short.
  class Device {
    const bytes: array<byte>
    var pos: nat

    constructor (bytes: array<byte>)
      ensures this.bytes == bytes && pos == 0
    {
      this.bytes, pos := bytes, 0;
    }

    method SeekTo(p: nat)
      modifies this
      ensures pos == p
    {
      pos := p;
    }

    method ReadSome(want: nat, grant: Grant) returns (r: Result<bytes, Failure>)
      requires pos + want <= bytes.Length
      modifies this
      ensures r == if grant == Fault then Err(DeviceFault)
                   else Ok(bytes[old(pos)..old(pos) + Moved(grant, want)])
    {
      if grant == Fault {
        return Err(DeviceFault);
      }
      var n := Moved(grant, want);
      r := Ok(bytes[pos..pos + n]);
      pos := pos + n;
    }

    method WriteSome(d: seq<byte>, grant: Grant) returns (r: Result<nat, Failure>)
      requires pos + |d| <= bytes.Length
      modifies this, bytes
      ensures r == if grant == Fault then Err(DeviceFault) else Ok(Moved(grant, |d|))
      ensures bytes[..] == (if grant == Fault then old(bytes[..])
                            else Overwrite(old(bytes[..]), old(pos), d[..Moved(grant, |d|)]))
    {
      hide Overwrite;
      if grant == Fault {
        return Err(DeviceFault);
      }
      var n := Moved(grant, |d|);
      ghost var was := bytes[..];
      OverwriteNothing(was, pos);
      for i := 0 to n
        modifies bytes
        invariant bytes[..] == Overwrite(was, pos, d[..i])
      {
        OverwriteNext(was, pos, d, i);
        ghost var now := bytes[..];
        bytes[pos + i] := d[i];
        assert bytes[..] == now[pos + i := d[i]];
      }
      pos := pos + n;
      r := Ok(n);
    }
  }

  class PartitionSlice {
    const dev: Device
    const start: nat
    const len: nat
    var pos: nat

    constructor (dev: Device, start: nat, len: nat)
      requires start + len <= U64_MAX && start + len <= dev.bytes.Length
      ensures this.dev == dev && this.start == start && this.len == len && pos == 0
      ensures Valid()
    {
      this.dev, this.start, this.len, this.pos := dev, start, len, 0;
    }

    // The window lies inside the device and its end fits 64 bits.
    predicate Valid()
      reads this
    {
      start + len <= U64_MAX && start + len <= dev.bytes.Length && pos <= U64_MAX
    }

    function View(): Cursor
      requires Valid()
      reads this, dev.bytes
    {
      Cursor(dev.bytes[start..start + len], pos)
    }

    // Nothing outside the window has changed.
    twostate predicate Confined()
      requires Valid()
      reads this, dev.bytes
    {
      && dev.bytes[..start] == old(dev.bytes[..start])
      && dev.bytes[start + len..] == old(dev.bytes[start + len..])
    }

    method DoRead(want: nat, grant: Grant) returns (reply: Reply)
      requires Valid() && Expressible(Read(want, grant))
      modifies this`pos, dev
      ensures Valid() && Confined()
      ensures (View(), reply) == CursorStep(old(View()), Read(want, grant))
    {
      if pos >= len {
        return Got([]);
      }
      var maxRead := len - pos;
      var toRead := Min(want, maxRead);
      assert start + pos <= U64_MAX;
      dev.SeekTo(start + pos);
      var r := dev.ReadSome(toRead, grant);
      if r.Err? {
        return Failed(r.error);
      }
      ghost var all := dev.bytes[..];
      SliceOfSlice(all, start, start + len, pos, pos + |r.value|);
      assert all[start..start + len] == View().data;
      assert all[start + pos..start + pos + |r.value|] == r.value;
      pos := pos + |r.value|;
      reply := Got(r.value);
    }

    method DoWrite(data: seq<byte>, grant: Grant) returns (reply: Reply)
      requires Valid()
      modifies this`pos, dev, dev.bytes
      ensures Valid() && Confined()
      ensures (View(), reply) == CursorStep(old(View()), Write(data, grant))
    {
      hide Overwrite;
      if pos >= len {
        return Failed(WriteZero);
      }
      var maxWrite := len - pos;
      var toWrite := Min(|data|, maxWrite);
      assert start + pos <= U64_MAX;
      dev.SeekTo(start + pos);
      var r := dev.WriteSome(data[..toWrite], grant);
      if r.Err? {
        return Failed(r.error);
      }
      assert data[..toWrite][..r.value] == data[..r.value];
      ghost var was, now := old(dev.bytes[..]), dev.bytes[..];
      OverwriteWindow(was, start, len, pos, data[..r.value]);
      assert now[start..start + len] == dev.bytes[start..start + len] && now[..start] == dev.bytes[..start];
      assert was[start..start + len] == old(View()).data;
      pos := pos + r.value;
      reply := Wrote(r.value);
    }

    method DoSeek(from: From) returns (reply: Reply)
      requires Valid() && Expressible(Seek(from))
      modifies this`pos
      ensures Valid() && Confined()
      ensures (View(), reply) == CursorStep(old(View()), Seek(from))
      ensures reply.Failed? ==> pos == old(pos)
    {
      var target: int;
      match from {
        case Start(offset) =>
          if offset > I64_MAX {
            return Failed(InvalidInput);
          }
          target := offset;
        case End(delta) =>
          if len > I64_MAX {
            return Failed(InvalidInput);
          }
          if len + delta > I64_MAX {
            return Failed(InvalidInput);
          }
          target := len + delta;
        case Current(delta) =>
          if pos > I64_MAX {
            return Failed(InvalidInput);
          }
          if pos + delta > I64_MAX {
            return Failed(InvalidInput);
          }
          target := pos + delta;
      }
      if target < 0 {
        return Failed(InvalidInput);
      }
      pos := target;
      reply := At(pos);
    }

    // Any sequence of seeks, short reads and short writes gets the replies a stand-alone
    // cursor over the partition's bytes would give, leaves those bytes as the cursor's,
    // and never changes a byte outside the partition.
    method Perform(ops: seq<Op>) returns (replies: seq<Reply>)
      requires Valid() && forall i :: 0 <= i < |ops| ==> Expressible(ops[i])
      modifies this`pos, dev, dev.bytes
      ensures Valid() && Confined()
      ensures (View(), replies) == CursorRun(old(View()), ops)
    {
      hide CursorStep;
      replies := [];
      for i := 0 to |ops|
        invariant Valid() && Confined()
        invariant (View(), replies) == CursorRun(old(View()), ops[..i])
      {
        assert ops[..i + 1][..i] == ops[..i];
        var reply;
        match ops[i] {
          case Read(want, grant) => reply := DoRead(want, grant);
          case Write(data, grant) => reply := DoWrite(data, grant);
          case Seek(from) => reply := DoSeek(from);
        }
        replies := replies + [reply];
      }
      assert ops[..|ops|] == ops;
    }
  }

  lemma SliceOfSlice<T>(s: seq<T>, a: nat, b: nat, i: nat, j: nat)
    requires a <= b <= |s| && i <= j <= b - a
    ensures s[a..b][i..j] == s[a + i..a + j]
  {
    var w, v := s[a..b], s[a + i..a + j];
    forall k | 0 <= k < j - i ensures w[i..j][k] == v[k] {
      assert w[i + k] == s[a + i + k] == v[k];
    }
  }

  lemma OverwriteNext(s: bytes, at: nat, d: bytes, i: nat)
    requires at + |d| <= |s| && i < |d|
    ensures Overwrite(s, at, d[..i])[at + i := d[i]] == Overwrite(s, at, d[..i + 1])
  {
  }

  lemma OverwriteNothing(s: bytes, at: nat)
    requires at <= |s|
    ensures Overwrite(s, at, []) == s
  {
  }

  // Overwriting inside a window changes the window as its own bytes and nothing else.
  lemma OverwriteWindow(s: bytes, start: nat, len: nat, pos: nat, d: bytes)
    requires start + len <= |s| && pos + |d| <= len
    ensures var r := Overwrite(s, start + pos, d);
      && r[start..start + len] == Overwrite(s[start..start + len], pos, d)
      && r[..start] == s[..start] && r[start + len..] == s[start + len..]
  {
  }

  // The cursor itself: its data never changes length, only writes change it, and every
  // operation is answered.
  lemma {:induction false} CursorKeeps(c: Cursor, ops: seq<Op>)
    ensures |CursorRun(c, ops).0.data| == |c.data|
    ensures (forall i :: 0 <= i < |ops| ==> !ops[i].Write?) ==> CursorRun(c, ops).0.data == c.data
    ensures |CursorRun(c, ops).1| == |ops|
  {
    if ops != [] {
      CursorKeeps(c, ops[..|ops| - 1]);
    }
  }

  // A read gives the bytes at the position, as many as it moves the position by: some unless
  // none are wanted or left, and no more than wanted. A fault changes nothing.
  lemma ReadAdvances(c: Cursor, want: nat, grant: Grant)
    ensures var (c', r) := CursorStep(c, Read(want, grant));
      && c'.data == c.data
      && (r == Failed(DeviceFault) <==> c.pos < |c.data| && grant == Fault)
      && (r != Failed(DeviceFault) ==> r.Got?)
      && (!r.Got? ==> c' == c)
      && (r.Got? ==> c'.pos == c.pos + |r.data| && |r.data| <= want && (r.data == [] <==> want == 0 || c.pos >= |c.data|))
      && (r.Got? && r.data != [] ==> c'.pos <= |c.data| && r.data == c.data[c.pos..c'.pos])
  {
  }

  // A write replaces the bytes at the position, as many as it reports and moves by, and no
  // others; it is refused exactly at or past the end.
  lemma WriteReplaces(c: Cursor, d: bytes, grant: Grant)
    ensures var (c', r) := CursorStep(c, Write(d, grant));
      && (r == Failed(WriteZero) <==> c.pos >= |c.data|)
      && (r == Failed(DeviceFault) <==> c.pos < |c.data| && grant == Fault)
      && (!r.Wrote? ==> r.Failed? && c' == c)
      && (r.Wrote? ==> c'.pos == c.pos + r.n <= |c.data| == |c'.data| && r.n <= |d| && (r.n == 0 <==> d == []))
      && (r.Wrote? ==> forall k :: 0 <= k < |c.data| ==>
            c'.data[k] == if c.pos <= k < c'.pos then d[k - c.pos] else c.data[k])
  {
  }

  // A seek counts from the beginning, the end or the position, and succeeds exactly when
  // that base and the position it leads to are in the range of a signed 64-bit integer and
  // the latter is not negative. One that fails changes nothing.
  lemma SeekLands(c: Cursor, from: From)
    ensures var base := match from case Start(_) => 0 case End(_) => |c.data| case Current(_) => c.pos;
      var p: int := match from case Start(o) => o case End(d) => |c.data| + d case Current(d) => c.pos + d;
      CursorStep(c, Seek(from))
        == if base < 0x8000_0000_0000_0000 && 0 <= p < 0x8000_0000_0000_0000 then (Cursor(c.data, p), At(p))
           else (c, Failed(InvalidInput))
  {
  }

  // What a run of reads has read, in order; nothing for a reply that is no data.
  function Pieces(replies: seq<Reply>): bytes {
    if replies == [] then []
    else
      var last := replies[|replies| - 1];
      Pieces(replies[..|replies| - 1]) + (if last.Got? then last.data else [])
  }

  predicate OnlyReads(ops: seq<Op>) {
    forall i :: 0 <= i < |ops| ==> ops[i].Read?
  }

  // Whatever they are granted, and faults among them notwithstanding, consecutive reads
  // give consecutive bytes: together the stretch of the data the position moved over.
  lemma {:induction false} ReadsConcatenate(c: Cursor, ops: seq<Op>)
    requires OnlyReads(ops) && c.pos <= |c.data|
    ensures var (c', replies) := CursorRun(c, ops);
      c.pos <= c'.pos <= |c.data| && c'.data == c.data && Pieces(replies) == c.data[c.pos..c'.pos]
  {
    hide CursorStep;
    if ops != [] {
      var front, op := ops[..|ops| - 1], ops[|ops| - 1];
      ReadsConcatenate(c, front);
      var (before, replies) := CursorRun(c, front);
      var (after, reply) := CursorStep(before, op);
      ReadAdvances(before, op.want, op.grant);
      assert (replies + [reply])[..|replies|] == replies;
      assert c.data[c.pos..before.pos] + c.data[before.pos..after.pos] == c.data[c.pos..after.pos];
    }
  }

  // A read that wants bytes and gets none has come to the end, and then all of the rest of
  // the data has been read.
  lemma ReadsToTheEnd(c: Cursor, ops: seq<Op>, want: nat, grant: Grant)
    requires OnlyReads(ops) && c.pos <= |c.data| && want > 0
    requires CursorStep(CursorRun(c, ops).0, Read(want, grant)).1 == Got([])
    ensures Pieces(CursorRun(c, ops).1) == c.data[c.pos..]
  {
    hide CursorStep, CursorRun, Pieces;
    ReadsConcatenate(c, ops);
    ReadAdvances(CursorRun(c, ops).0, want, grant);
  }

  lemma WriteLeaves(c: Cursor, d: bytes, grant: Grant)
    requires c.pos < |c.data| && d != [] && grant != Fault
    ensures var (c1, r1) := CursorStep(c, Write(d, grant));
      && r1.Wrote? && 0 < r1.n <= |d| && c.pos + r1.n <= |c1.data|
      && c1.data[c.pos..c.pos + r1.n] == d[..r1.n]
  {
  }

  lemma SeekReads(c: Cursor, pos: nat, n: nat, grant: Grant)
    requires 0 < n && pos + n <= |c.data| && pos <= I64_MAX && grant != Fault
    ensures var (c2, r2) := CursorStep(c, Seek(Start(pos)));
      && r2 == At(pos)
      && var r3 := CursorStep(c2, Read(n, grant)).1;
      && r3.Got? && r3.data != [] && r3.data <= c.data[pos..pos + n]
  {
  }

  // What was written stays: after any reads and seeks in between, whatever they are
  // granted, seeking back and reading gives a non-empty prefix of what was written.
  lemma WriteThenRead(c: Cursor, d: bytes, grant: Grant, between: seq<Op>, again: Grant)
    requires c.pos <= I64_MAX && c.pos < |c.data| && d != [] && grant != Fault && again != Fault
    requires forall i :: 0 <= i < |between| ==> !between[i].Write?
    ensures var (c1, r1) := CursorStep(c, Write(d, grant));
      && r1.Wrote? && 0 < r1.n <= |d|
      && var (c2, r2) := CursorStep(CursorRun(c1, between).0, Seek(Start(c.pos)));
      && r2 == At(c.pos)
      && var r3 := CursorStep(c2, Read(r1.n, again)).1;
      && r3.Got? && r3.data != [] && r3.data <= d[..r1.n]
  {
    hide CursorStep, CursorRun;
    var (c1, r1) := CursorStep(c, Write(d, grant));
    WriteLeaves(c, d, grant);
    CursorKeeps(c1, between);
    SeekReads(CursorRun(c1, between).0, c.pos, r1.n, again);
  }
}
