// Runs of the composed system on which nothing is lost, copied, late or abandoned: what
// they send, what they cost, and that they cannot help completing the transfer.
module Schedules {
  import opened Prelude
  import opened Wire
  import opened BlockStream
  import opened SenderSpec
  import opened Network

  function DataFor(c: Transfer, k: nat): bytes {
    MakeDataPacket(WireOf(k), if k >= 1 then Block(c.file, c.blksize, k) else [])
  }

  function Batch(c: Transfer, from: nat, n: nat): seq<bytes> {
    seq(n, (i: nat) => DataFor(c, from + i))
  }

  // The end of the window that starts at block b.
  function WindowEnd(c: Transfer, b: nat): nat
    requires WellFormed(c)
  {
    Min(b + c.window, Blocks(c) + 1)
  }

  // Datagrams left behind in the channels.
  datatype Late = Late(data: seq<bytes>, acks: seq<bytes>)

  const NOTHING := Late([], [])

  // Window b has had `sent` blocks transmitted and `taken` of them accepted, in order,
  // and what else is in transit came before all of it.
  ghost predicate Stage(c: Transfer, s: Sys, b: nat, sent: nat, taken: nat, late: Late)
    requires WellFormed(c)
  {
    && taken <= sent && b + sent <= WindowEnd(c, b)
    && Inv(c, s.snd) && s.snd.phase.Running? && s.snd.retries < MAX_RETRIES
    && s.snd.base == b && s.snd.next == b + sent
    && ReceiverInv(c, b, s.rcv) && s.rcv.expected == b + taken
    && s.data == late.data + Batch(c, b + taken, sent - taken)
    && s.acks == late.acks
  }

  // The sender has finished, so has the receiver, and only `late` is left in transit.
  ghost predicate Finished(c: Transfer, s: Sys, late: Late)
    requires WellFormed(c)
  {
    && s.snd.phase.Completed? && s.snd.next == s.rcv.expected == Blocks(c) + 1
    && s.rcv.done && s.rcv.got == c.file && s.data == late.data && s.acks == late.acks
  }

  lemma BelowEndCanSend(c: Transfer, snd: Sender)
    requires WellFormed(c) && Inv(c, snd) && snd.phase.Running? && snd.next < WindowEnd(c, snd.base)
    ensures Enabled(c, snd, Send)
  {
  }

  lemma FullWindowStops(c: Transfer, snd: Sender)
    requires WellFormed(c) && Inv(c, snd) && snd.phase.Running? && snd.next == WindowEnd(c, snd.base)
    ensures !CanSend(c, snd)
  {
  }

  lemma BatchGrows(c: Transfer, from: nat, n: nat)
    ensures Batch(c, from, n + 1) == Batch(c, from, n) + [DataFor(c, from + n)]
  {
    hide DataFor;
  }

  lemma BatchShrinks(c: Transfer, late: seq<bytes>, from: nat, n: nat)
    requires n > 0
    ensures (late + Batch(c, from, n))[|late|] == DataFor(c, from)
    ensures RemoveAt(late + Batch(c, from, n), |late|) == late + Batch(c, from + 1, n - 1)
  {
    hide DataFor;
  }

  lemma SendNext(c: Transfer, snd: Sender)
    requires WellFormed(c) && Inv(c, snd) && snd.phase.Running? && snd.next < WindowEnd(c, snd.base)
    ensures Enabled(c, snd, Send) && Emitted(c, snd, Send) == [DataFor(c, snd.next)]
    ensures var snd' := Step(c, snd, Send);
      Inv(c, snd') && snd'.phase.Running? && snd'.retries == snd.retries && snd'.base == snd.base && snd'.next == snd.next + 1
  {
    BelowEndCanSend(c, snd);
    StepKeepsInv(c, snd, Send);
    PayloadIsBlock(c, snd);
    hide Inv, CanSend, NextPayload, MakeDataPacket;
  }

  lemma TransmitNext(c: Transfer, s: Sys, b: nat, sent: nat, taken: nat, late: Late)
    requires WellFormed(c) && Stage(c, s, b, sent, taken, late) && b + sent < WindowEnd(c, b)
    ensures Enabled(c, s.snd, Send) && Emitted(c, s.snd, Send) == [DataFor(c, b + sent)]
    ensures Stage(c, Apply(c, s, Transmit), b, sent + 1, taken, late)
  {
    hide Inv, ReceiverInv, DataFor, Batch, BlockCount, Emitted, Enabled, Step, WindowEnd;
    SendNext(c, s.snd);
    BatchGrows(c, b + taken, sent - taken);
    assert s.data + [DataFor(c, b + sent)]
        == late.data + (Batch(c, b + taken, sent - taken) + [DataFor(c, b + sent)]);
  }

  // The expected block is accepted, whatever datagram carries it.
  lemma AcceptNext(c: Transfer, r: Receiver, k: nat)
    requires WellFormed(c) && 1 <= k == r.expected <= Blocks(c) && !r.done
    ensures Accept(c.blksize, r, DataFor(c, k)) == Receiver(k + 1, r.got + Block(c.file, c.blksize, k), k == Blocks(c))
  {
    hide BlockCount, WireOf, Block;
    ReadYieldsBlock(c.file, c.blksize, k);
  }

  lemma DeliverNext(c: Transfer, s: Sys, b: nat, sent: nat, taken: nat, late: Late)
    requires WellFormed(c) && Stage(c, s, b, sent, taken, late) && taken < sent
    ensures |late.data| < |s.data|
    ensures Stage(c, Apply(c, s, DeliverData(|late.data|)), b, sent, taken + 1, late)
  {
    hide Inv, Batch, BlockCount, WireOf, Accept, DataFor, MakeDataPacket, Block;
    var k := b + taken;
    BatchShrinks(c, late.data, k, sent - taken);
    AcceptNext(c, s.rcv, k);
  }

  // The acknowledgement of a full window retires all of it.
  lemma AckRetiresWindow(c: Transfer, snd: Sender, ack: bytes)
    requires WellFormed(c) && Inv(c, snd) && snd.phase.Running? && snd.retries < MAX_RETRIES && !CanSend(c, snd)
    requires ack == MakeAckPacket(WireOf(snd.next - 1))
    ensures var snd' := TakePacket(snd, ack);
      && Inv(c, snd') && snd'.base == snd'.next == snd.next && snd'.retries == 0
      && (if snd.next > Blocks(c) then snd'.phase.Completed? else snd'.phase.Running?)
  {
    WindowFull(c, snd);
    DecodeNearby(snd.base, snd.next, snd.next - 1);
    PacketKeepsInv(c, snd, ack);
  }

  lemma AckNext(c: Transfer, s: Sys, b: nat, n: nat, late: Late)
    requires WellFormed(c) && b + n == WindowEnd(c, b) && Stage(c, s, b, n, n, late)
    requires late.acks != [] && late.acks[|late.acks| - 1] == MakeAckPacket(WireOf(b + n - 1))
    ensures var i := |late.acks| - 1;
      var s', late' := Apply(c, s, ReceiveAck(i)), late.(acks := late.acks[..i]);
      && Enabled(c, s.snd, Packet(s.acks[i]))
      && if b + n <= Blocks(c) then Stage(c, s', b + n, 0, 0, late') else Finished(c, s', late')
  {
    hide Inv, CanSend, TakePacket, BlockCount, EndOf, Payloads, WireOf, MakeAckPacket;
    var i := |late.acks| - 1;
    FullWindowStops(c, s.snd);
    AckRetiresWindow(c, s.snd, s.acks[i]);
    assert RemoveAt(s.acks, i) == late.acks[..i];
    PayloadsAreTheFile(c.file, c.blksize, b + n - 1);
  }

  lemma InitialStage(c: Transfer)
    requires WellFormed(c)
    ensures Stage(c, Initial(), 1, 0, 0, NOTHING)
  {
    StartInv(c);
  }

  // -- Undisturbed runs ---------------------------------------------------------------

  // The block the receiver acknowledged last; 0 before its first acknowledgement.
  function LastAcked(c: Transfer, acts: seq<Action>): nat
    requires Run(c, Fifo, acts).Some?
  {
    if acts == [] then 0
    else
      var front := acts[..|acts| - 1];
      if acts[|acts| - 1].SendAck? then Run(c, Fifo, front).value.rcv.expected - 1 else LastAcked(c, front)
  }

  // An acknowledgement is due after a whole window of new blocks, or at the end.
  predicate Due(c: Transfer, r: Receiver, acked: nat) {
    r.expected - 1 == acked + c.window || (r.done && r.expected - 1 > acked)
  }

  // In-order channels; nothing is lost, copied, late or abandoned; and the receiver
  // acknowledges when that is due. The order of all this is otherwise free.
  predicate Undisturbed(c: Transfer, acts: seq<Action>)
    requires Run(c, Fifo, acts).Some?
  {
    acts == [] ||
    var front, a := acts[..|acts| - 1], acts[|acts| - 1];
    && Undisturbed(c, front)
    && (a.Transmit? || a.DeliverData? || a.ReceiveAck? || (a.SendAck? && Due(c, Run(c, Fifo, front).value.rcv, LastAcked(c, front))))
  }

  function Transmits(acts: seq<Action>): nat {
    if acts == [] then 0 else Transmits(acts[..|acts| - 1]) + (if acts[|acts| - 1].Transmit? then 1 else 0)
  }

  function SendAcks(acts: seq<Action>): nat {
    if acts == [] then 0 else SendAcks(acts[..|acts| - 1]) + (if acts[|acts| - 1].SendAck? then 1 else 0)
  }

  // Where such a run can be: within a window, with its acknowledgement on the way, or done.
  ghost predicate Flow(c: Transfer, s: Sys, acked: nat)
    requires WellFormed(c)
  {
    || InWindow(c, s, acked)
    || AckOnTheWay(c, s, acked)
    || (acked == Blocks(c) && Finished(c, s, NOTHING))
  }

  ghost predicate InWindow(c: Transfer, s: Sys, acked: nat)
    requires WellFormed(c)
  {
    var b := acked + 1;
    b <= s.rcv.expected <= s.snd.next && Stage(c, s, b, s.snd.next - b, s.rcv.expected - b, NOTHING)
  }

  ghost predicate AckOnTheWay(c: Transfer, s: Sys, acked: nat)
    requires WellFormed(c)
  {
    var b, n := s.snd.base, s.snd.next - s.snd.base;
    && 0 <= n && b + n == WindowEnd(c, b) == acked + 1
    && Stage(c, s, b, n, n, Late([], [MakeAckPacket(WireOf(acked))]))
  }

  // What the run has cost so far: `acks` acknowledgements for the first `acked` blocks.
  predicate Cost(c: Transfer, acked: nat, acks: nat)
    requires WellFormed(c)
  {
    && acked <= Blocks(c)
    && (if acked == 0 then acks == 0 else acks > 0 && (acks - 1) * c.window < acked <= acks * c.window)
    && (acked < Blocks(c) ==> acked == acks * c.window)
  }

  // Every step of an undisturbed run does new work: one more block sent, one more
  // accepted, one more acknowledgement sent, or one fewer in transit.
  predicate Progress(s: Sys, s': Sys, a: Action) {
    match a
    case Transmit => s'.snd.next == s.snd.next + 1 && s'.rcv.expected == s.rcv.expected && |s'.acks| == |s.acks|
    case DeliverData(_) => s'.snd.next == s.snd.next && s'.rcv.expected == s.rcv.expected + 1 && |s'.acks| == |s.acks|
    case SendAck => s'.snd.next == s.snd.next && s'.rcv.expected == s.rcv.expected && |s'.acks| == |s.acks| + 1
    case ReceiveAck(_) => s'.snd.next == s.snd.next && s'.rcv.expected == s.rcv.expected && |s'.acks| == |s.acks| - 1
    case _ => false
  }

  // What can happen inside a window.
  lemma WindowAllows(c: Transfer, s: Sys, acked: nat, a: Action)
    requires WellFormed(c) && InWindow(c, s, acked) && Possible(c, Fifo, s, a)
    ensures acked < Blocks(c)
    ensures a.Transmit? ==> s.snd.next < WindowEnd(c, acked + 1)
    ensures a.DeliverData? ==> a == DeliverData(0) && s.rcv.expected < s.snd.next
    ensures !a.ReceiveAck?
    ensures a.SendAck? && Due(c, s.rcv, acked) ==> s.rcv.expected == s.snd.next == WindowEnd(c, acked + 1)
  {
    if a.Transmit? && s.snd.next == WindowEnd(c, acked + 1) {
      FullWindowStops(c, s.snd);
    }
    hide CanSend, BlockCount, Payloads, Block;
  }

  lemma StageFields(c: Transfer, s: Sys, b: nat, sent: nat, taken: nat, late: Late)
    requires WellFormed(c) && Stage(c, s, b, sent, taken, late)
    ensures s.rcv.expected == b + taken && s.snd.next == b + sent && s.acks == late.acks && s.rcv.expected >= 1
    ensures taken <= sent && b + sent <= WindowEnd(c, b)
  {
  }

  lemma FlowTransmit(c: Transfer, s: Sys, acked: nat)
    requires WellFormed(c) && InWindow(c, s, acked) && s.snd.next < WindowEnd(c, acked + 1)
    ensures var s' := Apply(c, s, Transmit);
      InWindow(c, s', acked) && Progress(s, s', Transmit) && Emitted(c, s.snd, Send) == [DataFor(c, s.snd.next)]
  {
    hide Stage, Step, Emitted, DataFor, WindowEnd;
    var b := acked + 1;
    StageFields(c, s, b, s.snd.next - b, s.rcv.expected - b, NOTHING);
    TransmitNext(c, s, b, s.snd.next - b, s.rcv.expected - b, NOTHING);
    StageFields(c, Apply(c, s, Transmit), b, s.snd.next + 1 - b, s.rcv.expected - b, NOTHING);
  }

  lemma FlowDeliver(c: Transfer, s: Sys, acked: nat)
    requires WellFormed(c) && InWindow(c, s, acked) && s.rcv.expected < s.snd.next && s.data != []
    ensures var s' := Apply(c, s, DeliverData(0));
      InWindow(c, s', acked) && Progress(s, s', DeliverData(0))
  {
    hide Stage, Accept, WindowEnd, RemoveAt;
    var b := acked + 1;
    StageFields(c, s, b, s.snd.next - b, s.rcv.expected - b, NOTHING);
    DeliverNext(c, s, b, s.snd.next - b, s.rcv.expected - b, NOTHING);
    StageFields(c, Apply(c, s, DeliverData(0)), b, s.snd.next - b, s.rcv.expected + 1 - b, NOTHING);
  }

  lemma FlowSendAck(c: Transfer, s: Sys, acked: nat)
    requires WellFormed(c) && InWindow(c, s, acked) && s.rcv.expected == s.snd.next == WindowEnd(c, acked + 1)
    ensures var s' := Apply(c, s, SendAck);
      AckOnTheWay(c, s', s.rcv.expected - 1) && Progress(s, s', SendAck)
  {
    hide Inv, ReceiverInv, Batch, MakeAckPacket, WindowEnd;
    var b := acked + 1;
    var n := s.snd.next - b;
    StageFields(c, s, b, n, n, NOTHING);
    AckLeaves(c, s, b, n, n, NOTHING);
    assert NOTHING.acks + [MakeAckPacket(WireOf(b + n - 1))] == [MakeAckPacket(WireOf(b + n - 1))];
  }

  lemma FlowInWindow(c: Transfer, s: Sys, acked: nat, a: Action)
    requires WellFormed(c) && InWindow(c, s, acked) && Possible(c, Fifo, s, a)
    requires a.Transmit? || a.DeliverData? || a.ReceiveAck? || (a.SendAck? && Due(c, s.rcv, acked))
    ensures Progress(s, Apply(c, s, a), a)
    ensures a.SendAck? ==> s.rcv.expected == WindowEnd(c, acked + 1)
    ensures Flow(c, Apply(c, s, a), if a.SendAck? then s.rcv.expected - 1 else acked)
    ensures a.Transmit? ==> Emitted(c, s.snd, Send) == [DataFor(c, s.snd.next)]
  {
    WindowAllows(c, s, acked, a);
    assert Possible(c, Fifo, s, a) && a.DeliverData? ==> s.data != [];
    hide InWindow, AckOnTheWay, Progress, WindowEnd, Apply, Emitted, Due, Possible, DataFor;
    match a
    case Transmit => FlowTransmit(c, s, acked);
    case DeliverData(_) => FlowDeliver(c, s, acked);
    case SendAck => FlowSendAck(c, s, acked);
    case ReceiveAck(_) =>
  }

  // The acknowledgement of what has been taken joins those already in the channel.
  lemma AckLeaves(c: Transfer, s: Sys, b: nat, sent: nat, taken: nat, late: Late)
    requires WellFormed(c) && Stage(c, s, b, sent, taken, late)
    ensures Stage(c, Apply(c, s, SendAck), b, sent, taken, late.(acks := late.acks + [MakeAckPacket(WireOf(b + taken - 1))]))
  {
    hide Inv, Batch, MakeAckPacket, WindowEnd;
  }

  lemma FlowAckOnTheWay(c: Transfer, s: Sys, acked: nat, a: Action)
    requires WellFormed(c) && AckOnTheWay(c, s, acked) && Possible(c, Fifo, s, a)
    requires a.Transmit? || a.DeliverData? || a.ReceiveAck? || (a.SendAck? && Due(c, s.rcv, acked))
    ensures a.ReceiveAck? && Progress(s, Apply(c, s, a), a)
    ensures Flow(c, Apply(c, s, a), acked)
  {
    OnlyTheAck(c, s, acked, a);
    hide Inv, ReceiverInv, Batch, MakeAckPacket, TakePacket, Enabled, WindowEnd, BlockCount, RemoveAt;
    AckNext(c, s, s.snd.base, s.snd.next - s.snd.base, Late([], s.acks));
    assert s.acks[..0] == [];
  }

  lemma OnlyTheAck(c: Transfer, s: Sys, acked: nat, a: Action)
    requires WellFormed(c) && AckOnTheWay(c, s, acked) && Possible(c, Fifo, s, a)
    requires a.Transmit? || a.DeliverData? || a.ReceiveAck? || (a.SendAck? && Due(c, s.rcv, acked))
    ensures a == ReceiveAck(0) && s.data == []
  {
    FullWindowStops(c, s.snd);
    assert |s.data| == 0;
    hide Inv, Batch, DataFor, MakeAckPacket, CanSend, WindowEnd;
  }

  lemma FlowStep(c: Transfer, s: Sys, acked: nat, a: Action)
    requires WellFormed(c) && Flow(c, s, acked) && Possible(c, Fifo, s, a)
    requires a.Transmit? || a.DeliverData? || a.ReceiveAck? || (a.SendAck? && Due(c, s.rcv, acked))
    ensures Progress(s, Apply(c, s, a), a)
    ensures a.SendAck? ==> acked < Blocks(c) && s.rcv.expected == WindowEnd(c, acked + 1)
    ensures Flow(c, Apply(c, s, a), if a.SendAck? then s.rcv.expected - 1 else acked)
    ensures a.Transmit? ==> Emitted(c, s.snd, Send) == [DataFor(c, s.snd.next)]
  {
    hide InWindow, AckOnTheWay, Batch, DataFor, Accept, MakeAckPacket, SendOne, TakePacket, Emitted, CanSend;
    if InWindow(c, s, acked) {
      WindowAllows(c, s, acked, a);
      FlowInWindow(c, s, acked, a);
    } else if AckOnTheWay(c, s, acked) {
      FlowAckOnTheWay(c, s, acked, a);
    }
  }

  lemma CostStep(c: Transfer, acked: nat, acks: nat)
    requires WellFormed(c) && Cost(c, acked, acks) && acked < Blocks(c)
    ensures Cost(c, WindowEnd(c, acked + 1) - 1, acks + 1)
  {
    hide BlockCount;
    OneMore(acks, c.window);
  }

  // Every undisturbed run, whatever its order: the flow invariant, what it has sent, and
  // its length to the action.
  lemma {:induction false} UndisturbedRun(c: Transfer, acts: seq<Action>)
    requires WellFormed(c) && Run(c, Fifo, acts).Some? && Undisturbed(c, acts)
    ensures var s := Run(c, Fifo, acts).value;
      && Flow(c, s, LastAcked(c, acts)) && Cost(c, LastAcked(c, acts), SendAcks(acts))
      && s.snd.next == 1 + Transmits(acts)
      && |acts| + |s.acks| == Transmits(acts) + (s.rcv.expected - 1) + 2 * SendAcks(acts)
  {
    hide Flow, Cost, Apply, Possible, Due;
    if acts == [] {
      InitialFlow(c);
    } else {
      var front, a := acts[..|acts| - 1], acts[|acts| - 1];
      UndisturbedRun(c, front);
      var s := Run(c, Fifo, front).value;
      FlowStep(c, s, LastAcked(c, front), a);
      if a.SendAck? {
        CostStep(c, LastAcked(c, front), SendAcks(front));
      }
    }
  }

  lemma InitialFlow(c: Transfer)
    requires WellFormed(c)
    ensures Flow(c, Initial(), 0) && Cost(c, 0, 0)
  {
    InitialStage(c);
  }

  // It sends blocks 1, 2, 3, ... in order, each once: never a block it has sent before.
  lemma {:induction false} EachBlockOnce(c: Transfer, acts: seq<Action>)
    requires WellFormed(c) && Run(c, Fifo, acts).Some? && Undisturbed(c, acts)
    ensures SentBy(c, SenderSteps(c, Fifo, acts)) == Batch(c, 1, Transmits(acts))
  {
    hide Flow, Apply, Possible, Due, DataFor, Emitted, SentBy, Batch;
    if acts == [] {
      NothingSent(c);
    } else {
      var front := acts[..|acts| - 1];
      SentGrows(c, Fifo, acts);
      hide Run, RunFrom, SenderSteps;
      EachBlockOnce(c, front);
      UndisturbedRun(c, front);
      FlowStep(c, Run(c, Fifo, front).value, LastAcked(c, front), acts[|acts| - 1]);
      BatchGrows(c, 1, Transmits(front));
    }
  }

  lemma {:induction false} UndisturbedNeverGivesUp(c: Transfer, acts: seq<Action>)
    requires Run(c, Fifo, acts).Some? && Undisturbed(c, acts)
    ensures forall i :: 0 <= i < |SenderSteps(c, Fifo, acts)| ==> !SenderSteps(c, Fifo, acts)[i].GiveUp?
  {
    hide Apply, Possible, Due, RunFrom;
    if acts != [] {
      SomeBefore(c, acts);
      UndisturbedNeverGivesUp(c, acts[..|acts| - 1]);
    }
  }

  lemma SomeBefore(c: Transfer, acts: seq<Action>)
    requires acts != [] && Run(c, Fifo, acts).Some?
    ensures Run(c, Fifo, acts[..|acts| - 1]).Some?
  {
  }

  lemma NothingSent(c: Transfer)
    ensures SentBy(c, []) == Batch(c, 1, 0)
  {
  }

  function CeilDiv(a: nat, b: nat): nat
    requires b > 0
  {
    (a + b - 1) / b
  }

  lemma CeilDivIs(a: nat, w: nat, q: nat)
    requires w > 0 && q > 0 && (q - 1) * w < a <= q * w
    ensures CeilDiv(a, w) == q
  {
    assert (q - 1) * w == q * w - w;
    var p := a + w - 1;
    assert p == p / w * w + p % w;
    hide *;
    QuotientUnique(p, w, p / w, q);
  }

  // The cost of a loss-free transfer, on every run: when it completes, each block has been
  // sent exactly once, the receiver holds the file, it has sent exactly ceil(n / window)
  // acknowledgements, and nothing is left in transit.
  lemma LosslessCost(c: Transfer, acts: seq<Action>)
    requires WellFormed(c) && Run(c, Fifo, acts).Some? && Undisturbed(c, acts)
    ensures var s := Run(c, Fifo, acts).value;
      s.snd.phase.Completed? ==>
        && Transmits(acts) == Blocks(c) && SendAcks(acts) == CeilDiv(Blocks(c), c.window)
        && SentBy(c, SenderSteps(c, Fifo, acts)) == Batch(c, 1, Blocks(c))
        && Finished(c, s, NOTHING)
        && |acts| == 2 * Blocks(c) + 2 * CeilDiv(Blocks(c), c.window)
  {
    hide Flow, Finished, Batch, Undisturbed, Run, SentBy, SenderSteps, CeilDiv, Blocks;
    UndisturbedRun(c, acts);
    EachBlockOnce(c, acts);
    AtLeastOneBlock(c);
    if Run(c, Fifo, acts).value.snd.phase.Completed? {
      FlowDone(c, Run(c, Fifo, acts).value, LastAcked(c, acts));
      CeilDivIs(Blocks(c), c.window, SendAcks(acts));
    }
  }

  lemma FlowDone(c: Transfer, s: Sys, acked: nat)
    requires WellFormed(c) && Flow(c, s, acked) && s.snd.phase.Completed?
    ensures acked == Blocks(c) && Finished(c, s, NOTHING) && s.snd.next == s.rcv.expected == Blocks(c) + 1 && s.acks == []
  {
  }

  lemma AtLeastOneBlock(c: Transfer)
    requires WellFormed(c)
    ensures Blocks(c) >= 1
  {
  }

  // Until it completes, an undisturbed run always has a next step ...
  lemma NeverStuck(c: Transfer, acts: seq<Action>) returns (a: Action)
    requires WellFormed(c) && Run(c, Fifo, acts).Some? && Undisturbed(c, acts)
    requires !Run(c, Fifo, acts).value.snd.phase.Completed?
    ensures Run(c, Fifo, acts + [a]).Some? && Undisturbed(c, acts + [a])
  {
    UndisturbedRun(c, acts);
    var s, acked := Run(c, Fifo, acts).value, LastAcked(c, acts);
    a := NextWork(c, s, acked);
    assert (acts + [a])[..|acts + [a]| - 1] == acts;
    hide Flow, Cost, Possible, Apply, Due;
  }

  lemma NextWork(c: Transfer, s: Sys, acked: nat) returns (a: Action)
    requires WellFormed(c) && Flow(c, s, acked) && !s.snd.phase.Completed?
    ensures Possible(c, Fifo, s, a)
    ensures a.Transmit? || a.DeliverData? || a.ReceiveAck? || (a.SendAck? && Due(c, s.rcv, acked))
  {
    var b, e := s.snd.base, WindowEnd(c, s.snd.base);
    if s.snd.next < e {
      BelowEndCanSend(c, s.snd);
      a := Transmit;
    } else if s.data != [] {
      a := DeliverData(0);
    } else if s.acks != [] {
      FullWindowStops(c, s.snd);
      a := ReceiveAck(0);
    } else {
      a := SendAck;
    }
    hide Inv, Batch, CanSend;
  }

  // ... and its length is bounded, so every undisturbed run, however it has begun,
  // completes the transfer.
  lemma {:induction false} LosslessTransfer(c: Transfer, acts: seq<Action>) returns (full: seq<Action>)
    requires WellFormed(c) && Run(c, Fifo, acts).Some? && Undisturbed(c, acts)
    ensures acts <= full && Run(c, Fifo, full).Some? && Undisturbed(c, full)
    ensures Run(c, Fifo, full).value.snd.phase.Completed?
    ensures |acts| <= |full| == 2 * Blocks(c) + 2 * CeilDiv(Blocks(c), c.window)
    decreases 4 * Blocks(c) - |acts|
  {
    LengthBounded(c, acts);
    LosslessCost(c, acts);
    hide Run, Undisturbed, Transmits, SendAcks, SentBy, SenderSteps, Finished, CeilDiv, BlockCount;
    if Run(c, Fifo, acts).value.snd.phase.Completed? {
      full := acts;
    } else {
      var a := NeverStuck(c, acts);
      LengthBounded(c, acts + [a]);
      full := LosslessTransfer(c, acts + [a]);
    }
  }

  lemma LengthBounded(c: Transfer, acts: seq<Action>)
    requires WellFormed(c) && Run(c, Fifo, acts).Some? && Undisturbed(c, acts)
    ensures |acts| <= 4 * Blocks(c)
  {
    UndisturbedRun(c, acts);
    FlowReach(c, Run(c, Fifo, acts).value, LastAcked(c, acts));
    AcksBelow(c, LastAcked(c, acts), SendAcks(acts));
    hide Run, Undisturbed, Flow, Cost, BlockCount;
  }

  lemma FlowReach(c: Transfer, s: Sys, acked: nat)
    requires WellFormed(c) && Flow(c, s, acked)
    ensures s.snd.next <= Blocks(c) + 1 && s.rcv.expected <= Blocks(c) + 1
  {
  }

  lemma AcksBelow(c: Transfer, acked: nat, acks: nat)
    requires WellFormed(c) && Cost(c, acked, acks)
    ensures acks <= Blocks(c)
  {
    if acks > 0 {
      MulMonotone(1, c.window, acks - 1);
    }
    hide BlockCount;
  }
}
