// How a file is cut into TFTP blocks (RFC 1350 section 6), and the reader that
// fills one block at a time from a source that may return short reads.
module BlockStream {
  import opened Prelude

  // The terminating block is always short, so an exact multiple needs an empty one.
  function BlockCount(size: nat, blksize: nat): (n: nat)
    requires blksize > 0
    ensures n >= 1
    decreases size
  {
    if size < blksize then 1 else 1 + BlockCount(size - blksize, blksize)
  }

  // Number of file bytes in blocks 1..k.
  function EndOf(size: nat, blksize: nat, k: nat): (e: nat)
    ensures e <= size
  {
    if k == 0 then 0 else Min(EndOf(size, blksize, k - 1) + blksize, size)
  }

  function Block(file: bytes, blksize: nat, k: nat): bytes
    requires k >= 1
  {
    file[EndOf(|file|, blksize, k - 1)..EndOf(|file|, blksize, k)]
  }

  // What one block-sized read at position `pos` returns.
  function ReadAt(file: bytes, blksize: nat, pos: nat): bytes {
    if pos > |file| then [] else file[pos..Min(pos + blksize, |file|)]
  }

  // The closed forms: a file of `size` bytes has size / blksize + 1 blocks, and the first k
  // of them cover min(k * blksize, size) bytes.
  lemma {:induction false} BlockCountIs(size: nat, blksize: nat)
    requires blksize > 0
    ensures BlockCount(size, blksize) == size / blksize + 1
    decreases size
  {
    var q := size / blksize;
    assert size == q * blksize + size % blksize;
    if size < blksize {
      QuotientUnique(size, blksize, q, 0);
    } else {
      BlockCountIs(size - blksize, blksize);
      OneMore(q - 1, blksize);
      var q' := (size - blksize) / blksize;
      assert size - blksize == q' * blksize + (size - blksize) % blksize;
      QuotientUnique(size - blksize, blksize, q', q - 1);
    }
  }

  lemma {:induction false} EndOfIs(size: nat, blksize: nat, k: nat)
    ensures EndOf(size, blksize, k) == Min(k * blksize, size)
  {
    if k > 0 {
      EndOfIs(size, blksize, k - 1);
      OneMore(k - 1, blksize);
      MulMonotone(0, k - 1, blksize);
    }
  }

  lemma EndOfNone(size: nat, blksize: nat)
    ensures EndOf(size, blksize, 0) == 0
  {
  }

  // The blocks after the first are the blocks of the rest of the file.
  lemma {:induction false} EndOfRest(size: nat, blksize: nat, k: nat)
    requires k >= 1 && blksize <= size
    ensures EndOf(size, blksize, k) == blksize + EndOf(size - blksize, blksize, k - 1)
  {
    if k > 1 {
      EndOfRest(size, blksize, k - 1);
    } else {
      assert EndOf(size, blksize, 0) == 0;
    }
  }

  // Each block adds blksize bytes to what is covered, except the last, which adds fewer.
  lemma {:induction false} EndOfStep(size: nat, blksize: nat, k: nat)
    requires blksize > 0 && 1 <= k <= BlockCount(size, blksize)
    ensures EndOf(size, blksize, k) - EndOf(size, blksize, k - 1) < blksize <==> k == BlockCount(size, blksize)
    ensures k == BlockCount(size, blksize) ==> EndOf(size, blksize, k) == size
    decreases k
  {
    if k == 1 {
      assert EndOf(size, blksize, 0) == 0;
    } else {
      EndOfRest(size, blksize, k);
      EndOfRest(size, blksize, k - 1);
      EndOfStep(size - blksize, blksize, k - 1);
    }
  }

  // Before the last block is read, what has been read tells how many blocks that was.
  lemma {:induction false} CountUpTo(size: nat, blksize: nat, k: nat)
    requires blksize > 0 && k < BlockCount(size, blksize)
    ensures BlockCount(EndOf(size, blksize, k), blksize) == k + 1
    decreases k
  {
    if k > 0 {
      EndOfRest(size, blksize, k);
      CountUpTo(size - blksize, blksize, k - 1);
    }
  }

  // A stretch of w blocks covers at most w * blksize bytes.
  lemma {:induction false} SpanBounded(size: nat, blksize: nat, lo: nat, hi: nat, w: nat)
    requires lo <= hi <= lo + w
    ensures EndOf(size, blksize, lo) <= EndOf(size, blksize, hi) <= EndOf(size, blksize, lo) + w * blksize
    decreases hi
  {
    MulMonotone(0, w, blksize);
    if lo < hi {
      SpanBounded(size, blksize, lo, hi - 1, w - 1);
      OneMore(w - 1, blksize);
    }
  }

  // Reading forward from the end of block k - 1 yields block k; only the last is short.
  lemma ReadYieldsBlock(file: bytes, blksize: nat, k: nat)
    requires blksize > 0 && 1 <= k <= BlockCount(|file|, blksize)
    ensures ReadAt(file, blksize, EndOf(|file|, blksize, k - 1)) == Block(file, blksize, k)
    ensures EndOf(|file|, blksize, k - 1) + |Block(file, blksize, k)| == EndOf(|file|, blksize, k)
    ensures |Block(file, blksize, k)| < blksize <==> k == BlockCount(|file|, blksize)
    ensures |Block(file, blksize, k)| <= blksize
  {
    EndOfStep(|file|, blksize, k);
    hide EndOf, BlockCount;
  }

  // Payloads of blocks 1..k in order.
  function Payloads(file: bytes, blksize: nat, k: nat): bytes {
    if k == 0 then [] else Payloads(file, blksize, k - 1) + Block(file, blksize, k)
  }

  // The payload stream is the file: prefixes of one are prefixes of the other,
  // and all the blocks together are the whole file with its advertised size.
  lemma {:induction false} PayloadsAreTheFile(file: bytes, blksize: nat, k: nat)
    requires blksize > 0
    ensures EndOf(|file|, blksize, k) <= |file|
    ensures Payloads(file, blksize, k) == file[..EndOf(|file|, blksize, k)]
    ensures k == BlockCount(|file|, blksize) ==> Payloads(file, blksize, k) == file
  {
    hide EndOf, BlockCount;
    EndOfNone(|file|, blksize);
    if k > 0 {
      PayloadsAreTheFile(file, blksize, k - 1);
      SpanBounded(|file|, blksize, k - 1, k, 1);
      if k == BlockCount(|file|, blksize) {
        EndOfStep(|file|, blksize, k);
      }
      assert file[..EndOf(|file|, blksize, k - 1)] + Block(file, blksize, k)
          == file[..EndOf(|file|, blksize, k)];
    }
  }

  // An exact multiple (the empty file included) ends in an empty block.
  lemma LastBlockEmptyIffMultiple(file: bytes, blksize: nat)
    requires blksize > 0
    ensures Block(file, blksize, BlockCount(|file|, blksize)) == [] <==> |file| % blksize == 0
  {
    var q := |file| / blksize;
    assert |file| == q * blksize + |file| % blksize;
    BlockCountIs(|file|, blksize);
    EndOfStep(|file|, blksize, q + 1);
    EndOfIs(|file|, blksize, q);
  }

  // -- Reading -------------------------------------------------------------

  datatype IoError = ReadFault

  // What the environment grants one read call: a fault, or at most `n` bytes.
  datatype Grant = Fault | UpTo(n: nat)

  // Bytes a successful read moves when `room` could be: at least one if there is room.
  function Moved(grant: Grant, room: nat): nat
    requires grant != Fault
  {
    Min(Max(1, grant.n), room)
  }

  // A successful read is never empty while there is room, and may stop at any count.
  lemma AnyShortRead(grant: Grant, room: nat, n: nat)
    requires grant != Fault
    ensures Moved(grant, room) <= room && (Moved(grant, room) == 0 <==> room == 0)
    ensures 1 <= n <= room ==> Moved(UpTo(n), room) == n
  {
  }

  // Filling `want` bytes from position `pos` of a file of `size` bytes, having made
  // `calls` read calls before: the calls made after it, and whether none of them faulted.
  function CallsToFill(schedule: nat -> Grant, size: nat, pos: nat, want: nat, calls: nat): (r: (nat, bool))
    ensures r.0 >= calls && (!r.1 ==> r.0 > calls && schedule(r.0 - 1) == Fault)
    ensures forall k :: calls <= k < (if r.1 then r.0 else r.0 - 1) ==> schedule(k) != Fault
    decreases want
  {
    if want == 0 then (calls, true)
    else if schedule(calls) == Fault then (calls + 1, false)
    else if pos >= size then (calls + 1, true)
    else
      var n := Moved(schedule(calls), Min(want, size - pos));
      CallsToFill(schedule, size, pos + n, want - n, calls + 1)
  }

  // An open file. Each call to Read may return fewer bytes than asked for;
  // it returns 0 exactly at the end of the file or for an empty buffer.
  class FileReader {
    const content: bytes
    const schedule: nat -> Grant
    var pos: nat
    var calls: nat

    constructor (content: bytes, schedule: nat -> Grant)
      ensures this.content == content && this.schedule == schedule
      ensures pos == 0 && calls == 0
    {
      this.content, this.schedule := content, schedule;
      pos, calls := 0, 0;
    }

    method Read(buf: array<byte>, at: nat) returns (r: Result<nat, IoError>)
      requires at <= buf.Length && pos <= |content|
      modifies this, buf
      ensures calls == old(calls) + 1
      ensures r.Err? <==> schedule(old(calls)) == Fault
      ensures r.Err? ==> pos == old(pos) && buf[..] == old(buf[..])
      ensures r.Ok? ==> at + r.value <= buf.Length && pos == old(pos) + r.value <= |content|
      ensures r.Ok? ==> (r.value == 0 <==> at == buf.Length || old(pos) == |content|)
      ensures r.Ok? ==> r.value == Moved(schedule(old(calls)), Min(buf.Length - at, |content| - old(pos)))
      ensures r.Ok? ==> buf[..at] == old(buf[..at])
      ensures r.Ok? ==> buf[at..at + r.value] == content[old(pos)..pos]
      ensures r.Ok? ==> buf[at + r.value..] == old(buf[at + r.value..])
    {
      var grant := schedule(calls);
      calls := calls + 1;
      if grant == Fault {
        return Err(ReadFault);
      }
      var n := Moved(grant, Min(buf.Length - at, |content| - pos));
      for i := 0 to n
        modifies buf
        invariant buf[..at] == old(buf[..at])
        invariant buf[at..at + i] == content[pos..pos + i]
        invariant buf[at + i..] == old(buf[at + i..])
      {
        assert buf[at + i + 1..] == buf[at + i..][1..];
        buf[at + i] := content[pos + i];
      }
      pos := pos + n;
      r := Ok(n);
    }
  }

  lemma Adjacent<T>(s: seq<T>, i: nat, j: nat, k: nat)
    requires i <= j <= k <= |s|
    ensures s[i..j] + s[j..k] == s[i..k]
  {
  }

  lemma CallsUnfold(schedule: nat -> Grant, size: nat, pos: nat, want: nat, calls: nat)
    requires pos <= size
    ensures CallsToFill(schedule, size, pos, want, calls)
         == if want == 0 then (calls, true)
            else if schedule(calls) == Fault then (calls + 1, false)
            else if pos == size then (calls + 1, true)
            else
              var n := Moved(schedule(calls), Min(want, size - pos));
              CallsToFill(schedule, size, pos + n, want - n, calls + 1)
  {
  }

  lemma ReadAtIs(file: bytes, blksize: nat, pos: nat)
    requires pos <= |file|
    ensures ReadAt(file, blksize, pos) == file[pos..Min(pos + blksize, |file|)]
  {
  }

  // Fills `buf` from `file`, looping over short reads. The flag is set only when
  // a read returned 0. For every schedule of short reads the result is the same:
  // the next |buf| bytes of the file, or all that remain.
  method ReadFill(file: FileReader, buf: array<byte>) returns (r: Result<(nat, bool), IoError>)
    requires file.pos <= |file.content|
    modifies file, buf
    ensures file.pos <= |file.content|
    ensures r.Ok? ==> r.value.0 == Min(buf.Length, |file.content| - old(file.pos))
    ensures r.Ok? ==> buf[..r.value.0] == ReadAt(file.content, buf.Length, old(file.pos))
    ensures r.Ok? ==> file.pos == old(file.pos) + r.value.0
    ensures r.Ok? ==> (r.value.1 <==> r.value.0 < buf.Length)
    ensures (file.calls, r.Ok?)
         == CallsToFill(file.schedule, |file.content|, old(file.pos), buf.Length, old(file.calls))
  {
    hide Moved, CallsToFill, ReadAt;
    var total := 0;
    while total < buf.Length
      invariant total <= buf.Length
      invariant file.pos == old(file.pos) + total <= |file.content|
      invariant buf[..total] == file.content[old(file.pos)..file.pos]
      invariant CallsToFill(file.schedule, |file.content|, file.pos, buf.Length - total, file.calls)
             == CallsToFill(file.schedule, |file.content|, old(file.pos), buf.Length, old(file.calls))
    {
      var before := file.pos;
      CallsUnfold(file.schedule, |file.content|, file.pos, buf.Length - total, file.calls);
      var got := file.Read(buf, total);
      if got.Err? {
        return Err(got.error);
      }
      if got.value == 0 {
        ReadAtIs(file.content, buf.Length, old(file.pos));
        return Ok((total, true));
      }
      assert buf[..total + got.value] == buf[..total] + buf[total..total + got.value];
      Adjacent(file.content, old(file.pos), before, file.pos);
      total := total + got.value;
    }
    ReadAtIs(file.content, buf.Length, old(file.pos));
    CallsUnfold(file.schedule, |file.content|, file.pos, 0, file.calls);
    r := Ok((total, false));
  }
}
