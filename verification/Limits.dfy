// How long a file may be before 16-bit block numbers fail over channels that reorder: the
// exact limit of each safety property, with the run that breaks it just above the limit.
module Limits {
  import opened Prelude
  import opened Wire
  import opened BlockStream
  import opened SenderSpec
  import opened Network
  import opened Schedules
  import opened Driving

  // -- Leaving a datagram behind ---------------------------------------------------------

  // An acknowledgement of block a (or ACK 0) is sent and overtaken.
  lemma LeaveAck(c: Transfer, a: nat) returns (s: Sys, b: nat)
    requires WellFormed(c) && a + MAX_WINDOWSIZE < Blocks(c)
    ensures b <= a + 1 + MAX_WINDOWSIZE && At(c, AnyOrder, Initial(), s, b, 0, 0, Late([], [MakeAckPacket(WireOf(a))]))
  {
    hide Stage, Leads, MakeAckPacket, WireOf, WindowEnd, Blocks;
    var b0 := 1;
    s := FromTheStart(c, AnyOrder);
    if a > 0 {
      s, b0 := RunToBlock(c, AnyOrder, Initial(), s, 1, a, NOTHING);
    }
    WindowAdvances(c, b0);
    s := FillWindow(c, AnyOrder, Initial(), s, b0, 0, 0, NOTHING);
    var n, taken := WindowEnd(c, b0) - b0, a + 1 - b0;
    s := Deliver(c, AnyOrder, Initial(), s, b0, n, 0, taken, NOTHING);
    StageFields(c, s, b0, n, taken, NOTHING);
    AckLeaves(c, s, b0, n, taken, NOTHING);
    Onward(c, AnyOrder, Initial(), s, SendAck);
    s := Apply(c, s, SendAck);
    assert [] + [MakeAckPacket(WireOf(a))] == [MakeAckPacket(WireOf(a))];
    s := FinishWindow(c, AnyOrder, Initial(), s, b0, n, taken, Late([], [MakeAckPacket(WireOf(a))]));
    b := WindowEnd(c, b0);
  }

  lemma CopyHead(c: Transfer, s: Sys, b: nat, sent: nat, taken: nat)
    requires WellFormed(c) && Stage(c, s, b, sent, taken, NOTHING) && taken < sent
    ensures s.data != [] && s.rcv.expected >= 1
    ensures Stage(c, Apply(c, s, CopyData(0)), b, sent, taken, Late([DataFor(c, b + taken)], []))
  {
    hide Inv, ReceiverInv, DataFor, WindowEnd;
    StageFields(c, s, b, sent, taken, NOTHING);
    BatchShrinks(c, [], b + taken, sent - taken);
    hide Batch;
    var d := Batch(c, b + taken, sent - taken);
    assert [] + d == d;
    assert RepeatAt(d, 0) == [d[0]] + d;
  }

  // A copy of DATA block a is made and overtaken.
  lemma LeaveData(c: Transfer, a: nat) returns (s: Sys, b: nat)
    requires WellFormed(c) && 1 <= a && a + MAX_WINDOWSIZE <= Blocks(c)
    ensures b <= a + MAX_WINDOWSIZE && At(c, AnyOrder, Initial(), s, b, 0, 0, Late([DataFor(c, a)], []))
  {
    hide Stage, Leads, DataFor, WindowEnd, Blocks;
    s := FromTheStart(c, AnyOrder);
    var b0;
    s, b0 := RunToBlock(c, AnyOrder, Initial(), s, 1, a, NOTHING);
    WindowAdvances(c, b0);
    s := FillWindow(c, AnyOrder, Initial(), s, b0, 0, 0, NOTHING);
    var n := WindowEnd(c, b0) - b0;
    s := Deliver(c, AnyOrder, Initial(), s, b0, n, 0, a - b0, NOTHING);
    StageFields(c, s, b0, n, a - b0, NOTHING);
    CopyHead(c, s, b0, n, a - b0);
    Onward(c, AnyOrder, Initial(), s, CopyData(0));
    s := Apply(c, s, CopyData(0));
    s := FinishWindow(c, AnyOrder, Initial(), s, b0, n, a - b0, Late([DataFor(c, a)], []));
    b := WindowEnd(c, b0);
  }

  // -- Acknowledgements ------------------------------------------------------------------

  // In a full window holding block k, an acknowledgement with k's wire number moves the
  // base past k, whoever sent it and when.
  lemma AckOfNumber(c: Transfer, snd: Sender, k: nat, wire: u16)
    requires WellFormed(c) && Inv(c, snd) && snd.phase.Running? && snd.retries < MAX_RETRIES
    requires snd.base <= k < snd.next == WindowEnd(c, snd.base) && wire == WireOf(k)
    ensures Enabled(c, snd, Packet(MakeAckPacket(wire)))
    ensures TakePacket(snd, MakeAckPacket(wire)).base == k + 1
    ensures k == Blocks(c) ==> TakePacket(snd, MakeAckPacket(wire)).phase.Completed?
  {
    FullWindowStops(c, snd);
    DecodeNearby(snd.base, snd.next, k);
  }

  // For every block k past the 65535th, a run with reordering in which an old
  // acknowledgement, of the block 65536 before it, is taken for one of block k, which the
  // receiver lacks; and if k is the last block the sender counts the transfer complete.
  lemma StaleAckMisread(c: Transfer, k: nat) returns (s: Sys)
    requires WellFormed(c) && 65536 <= k <= Blocks(c)
    ensures Reachable(c, AnyOrder, s)
    ensures s.snd.base == k + 1 > s.rcv.expected && !s.rcv.done
    ensures k == Blocks(c) ==> s.snd.phase.Completed?
  {
    hide Inv, Leads, Reachable, MakeAckPacket, TakePacket, WindowEnd, Blocks, Enabled, ReceiverInv, Batch;
    var a := k - 65536;
    var late := Late([], [MakeAckPacket(WireOf(a))]);
    var b;
    s, b := LeaveAck(c, a);
    s, b := RunToBlock(c, AnyOrder, Initial(), s, b, k, late);
    s := FillWindow(c, AnyOrder, Initial(), s, b, 0, 0, late);
    AckOfNumber(c, s.snd, k, WireOf(a));
    NotYetDone(c, s.snd.base, s.rcv);
    Onward(c, AnyOrder, Initial(), s, ReceiveAck(0));
    s := Apply(c, s, ReceiveAck(0));
    LeadsFromTheStart(c, AnyOrder, s);
  }

  lemma NotYetDone(c: Transfer, base: nat, r: Receiver)
    requires WellFormed(c) && ReceiverInv(c, base, r)
    ensures r.expected <= Blocks(c) ==> !r.done
    ensures r.expected >= 1
  {
  }

  // The exact limit of acknowledgements: over every run, what the sender counts as
  // acknowledged is held by the receiver if and only if the channels keep order or the
  // file has at most 65535 blocks.
  lemma SafeExactlyWhenDecodable(c: Transfer, m: Order)
    requires WellFormed(c)
    ensures (forall s :: Reachable(c, m, s) ==> s.snd.base <= s.rcv.expected) <==> Decodable(c, m)
  {
    if Decodable(c, m) {
      forall s | Reachable(c, m, s) ensures s.snd.base <= s.rcv.expected {
        EndToEndSafety(c, m, s);
      }
    } else {
      var s := StaleAckMisread(c, 65536);
      assert Reachable(c, m, s) && s.snd.base > s.rcv.expected;
    }
  }

  // The exact limit of completion: the sender completes only when the receiver has the
  // whole file, over every run, under the same condition and no weaker one.
  lemma CompletesSafelyExactlyWhenDecodable(c: Transfer, m: Order)
    requires WellFormed(c)
    ensures (forall s :: Reachable(c, m, s) && s.snd.phase.Completed? ==> s.rcv.done && s.rcv.got == c.file) <==> Decodable(c, m)
  {
    if Decodable(c, m) {
      forall s | Reachable(c, m, s) && s.snd.phase.Completed? ensures s.rcv.done && s.rcv.got == c.file {
        EndToEndSafety(c, m, s);
      }
    } else {
      var s := StaleAckMisread(c, Blocks(c));
      assert Reachable(c, m, s) && s.snd.phase.Completed? && !s.rcv.done;
    }
  }

  // -- Data ------------------------------------------------------------------------------

  // A stale copy of block N - 65536 is taken for the last block N: the receiver ends up
  // with more bytes than the file has.
  lemma StaleDataAccepted(c: Transfer) returns (s: Sys)
    requires WellFormed(c) && Blocks(c) > 65536
    ensures Reachable(c, AnyOrder, s) && |s.rcv.got| > |c.file|
  {
    hide Inv, Leads, Reachable, DataFor, Accept, WindowEnd, Blocks, Batch, Block, Payloads, ReceiverInv;
    var k := Blocks(c);
    var a := k - 65536;
    var late := Late([DataFor(c, a)], []);
    var b;
    s, b := LeaveData(c, a);
    s, b := RunToBlock(c, AnyOrder, Initial(), s, b, k, late);
    s := FillWindow(c, AnyOrder, Initial(), s, b, 0, 0, late);
    var n := WindowEnd(c, b) - b;
    s := Deliver(c, AnyOrder, Initial(), s, b, n, 0, k - b, late);
    StaleIsTooLong(c, s.snd.base, s.rcv, a, k);
    assert s.data[0] == DataFor(c, a);
    Onward(c, AnyOrder, Initial(), s, DeliverData(0));
    s := Apply(c, s, DeliverData(0));
    LeadsFromTheStart(c, AnyOrder, s);
  }

  lemma StaleIsTooLong(c: Transfer, base: nat, r: Receiver, a: nat, k: nat)
    requires WellFormed(c) && ReceiverInv(c, base, r) && r.expected == k == Blocks(c)
    requires 1 <= a < k && WireOf(a) == WireOf(k)
    ensures |Accept(c.blksize, r, DataFor(c, a)).got| > |c.file|
  {
    hide BlockCount, WireOf, Block;
    ReadYieldsBlock(c.file, c.blksize, a);
    ReadYieldsBlock(c.file, c.blksize, k);
    PayloadsAreTheFile(c.file, c.blksize, k - 1);
    PayloadsAreTheFile(c.file, c.blksize, k);
  }

  // DATA in transit is a block of the file under its own number, and the receiver has
  // exactly the blocks before the one it expects.
  ghost predicate Genuine(c: Transfer, s: Sys)
    requires WellFormed(c)
  {
    && Inv(c, s.snd)
    && 1 <= s.rcv.expected <= Blocks(c) + 1
    && s.rcv.got == Payloads(c.file, c.blksize, s.rcv.expected - 1)
    && (s.rcv.done <==> s.rcv.expected == Blocks(c) + 1)
    && forall pkt :: pkt in s.data ==> IsBlock(c, pkt)
  }

  ghost predicate IsBlock(c: Transfer, pkt: bytes)
    requires WellFormed(c)
  {
    exists k :: 1 <= k <= Blocks(c) && pkt == DataFor(c, k)
  }

  // With at most 65536 blocks no two share a number, so a block that is accepted is the
  // one expected, whatever the acknowledgements have done to the sender.
  lemma GenuineAccept(c: Transfer, s: Sys, pkt: bytes)
    requires WellFormed(c) && Blocks(c) <= 65536 && Genuine(c, s) && pkt in s.data
    ensures var r := Accept(c.blksize, s.rcv, pkt);
      r == s.rcv || (!s.rcv.done && r == Receiver(s.rcv.expected + 1, s.rcv.got + Block(c.file, c.blksize, s.rcv.expected), s.rcv.expected == Blocks(c)))
  {
    hide Inv, BlockCount, Payloads, Block;
    assert IsBlock(c, pkt);
    var k :| 1 <= k <= Blocks(c) && pkt == DataFor(c, k);
    if !s.rcv.done && WireOf(k) == WireOf(s.rcv.expected) {
      WireDecides(k, s.rcv.expected);
      hide WireOf;
      AcceptNext(c, s.rcv, k);
    }
  }

  lemma GenuineStep(c: Transfer, m: Order, s: Sys, a: Action)
    requires WellFormed(c) && Blocks(c) <= 65536 && Genuine(c, s) && Possible(c, m, s, a)
    ensures Genuine(c, Apply(c, s, a))
  {
    hide Inv, IsBlock, Blocks, Block, Accept, Emitted, Apply, CanSend;
    SenderKeepsInv(c, m, s, a);
    ReceiverTakes(c, m, s, a);
    DataOnlyFromSender(c, m, s, a);
    if a.Transmit? {
      EmitsABlock(c, s.snd);
    }
    if a.DeliverData? {
      GenuineAccept(c, s, s.data[a.i]);
    }
  }

  lemma EmitsABlock(c: Transfer, snd: Sender)
    requires WellFormed(c) && Inv(c, snd) && CanSend(c, snd)
    ensures forall pkt :: pkt in Emitted(c, snd, Send) ==> IsBlock(c, pkt)
  {
    PayloadIsBlock(c, snd);
    hide Inv, NextPayload, MakeDataPacket, Blocks, Block;
    assert Emitted(c, snd, Send) == [DataFor(c, snd.next)];
  }

  lemma {:induction false} GenuineRun(c: Transfer, m: Order, acts: seq<Action>)
    requires WellFormed(c) && Blocks(c) <= 65536 && Run(c, m, acts).Some?
    ensures Genuine(c, Run(c, m, acts).value)
  {
    hide Genuine, Apply;
    if acts == [] {
      GenuineStart(c);
    } else {
      GenuineRun(c, m, acts[..|acts| - 1]);
      GenuineStep(c, m, Run(c, m, acts[..|acts| - 1]).value, acts[|acts| - 1]);
    }
  }

  lemma GenuineStart(c: Transfer)
    requires WellFormed(c)
    ensures Genuine(c, Initial())
  {
    StartInv(c);
  }

  // The exact limit of the data itself: over every run the receiver's bytes are a prefix
  // of the file if and only if the channels keep order or the file has at most 65536
  // blocks. It does not depend on what the file holds, because its last block is short.
  lemma PrefixExactlyWhen(c: Transfer, m: Order)
    requires WellFormed(c)
    ensures (forall s :: Reachable(c, m, s) ==> s.rcv.got <= c.file) <==> m.Fifo? || Blocks(c) <= 65536
  {
    hide Blocks, Run;
    if m.Fifo? {
      forall s | Reachable(c, m, s) ensures s.rcv.got <= c.file {
        EndToEndSafety(c, m, s);
      }
    } else if Blocks(c) <= 65536 {
      forall s | Reachable(c, m, s) ensures s.rcv.got <= c.file {
        var acts :| Run(c, m, acts) == Some(s);
        GenuineRun(c, m, acts);
        PayloadsAreTheFile(c.file, c.blksize, s.rcv.expected - 1);
      }
    } else {
      var s := StaleDataAccepted(c);
      assert Reachable(c, m, s) && !(s.rcv.got <= c.file);
    }
  }
}
