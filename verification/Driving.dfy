// Driving the composed system: runs that fill a window, deliver it, have it acknowledged
// and go on, from any state and over either kind of channel.
module Driving {
  import opened Wire
  import opened SenderSpec
  import opened Network
  import opened Schedules

  // A state that s0 leads to.
  ghost predicate At(c: Transfer, m: Order, s0: Sys, s: Sys, b: nat, sent: nat, taken: nat, late: Late)
    requires WellFormed(c)
  {
    Leads(c, m, s0, s) && Stage(c, s, b, sent, taken, late)
  }

  // What has been left behind can be passed only where channels reorder.
  predicate Passable(m: Order, late: Late) {
    m.AnyOrder? || late == NOTHING
  }

  lemma FromTheStart(c: Transfer, m: Order) returns (s: Sys)
    requires WellFormed(c)
    ensures At(c, m, Initial(), s, 1, 0, 0, NOTHING)
  {
    s := Initial();
    InitialStage(c);
    Stay(c, m, s);
  }

  // Transmits what is left of the window.
  lemma {:induction false} FillWindow(c: Transfer, m: Order, s0: Sys, s: Sys, b: nat, sent: nat, taken: nat, late: Late) returns (s': Sys)
    requires WellFormed(c) && At(c, m, s0, s, b, sent, taken, late)
    ensures At(c, m, s0, s', b, WindowEnd(c, b) - b, taken, late)
    decreases WindowEnd(c, b) - sent
  {
    hide Stage, Leads, Step, Emitted, Enabled;
    StageFields(c, s, b, sent, taken, late);
    if b + sent < WindowEnd(c, b) {
      TransmitNext(c, s, b, sent, taken, late);
      Onward(c, m, s0, s, Transmit);
      s' := FillWindow(c, m, s0, Apply(c, s, Transmit), b, sent + 1, taken, late);
    } else {
      s' := s;
    }
  }

  // Delivers in order until `upTo` blocks of the window have been taken.
  lemma {:induction false} Deliver(c: Transfer, m: Order, s0: Sys, s: Sys, b: nat, sent: nat, taken: nat, upTo: nat, late: Late) returns (s': Sys)
    requires WellFormed(c) && At(c, m, s0, s, b, sent, taken, late) && taken <= upTo <= sent && Passable(m, late)
    ensures At(c, m, s0, s', b, sent, upTo, late)
    decreases upTo - taken
  {
    hide Stage, Leads, Accept, WindowEnd;
    StageFields(c, s, b, sent, taken, late);
    if taken < upTo {
      DeliverNext(c, s, b, sent, taken, late);
      Onward(c, m, s0, s, DeliverData(|late.data|));
      s' := Deliver(c, m, s0, Apply(c, s, DeliverData(|late.data|)), b, sent, taken + 1, upTo, late);
    } else {
      s' := s;
    }
  }

  // Finishes a window, whatever has been left behind so far.
  lemma FinishWindow(c: Transfer, m: Order, s0: Sys, s: Sys, b: nat, sent: nat, taken: nat, late: Late) returns (s': Sys)
    requires WellFormed(c) && At(c, m, s0, s, b, sent, taken, late) && Passable(m, late)
    ensures if WindowEnd(c, b) <= Blocks(c) then At(c, m, s0, s', WindowEnd(c, b), 0, 0, late)
            else Leads(c, m, s0, s') && Finished(c, s', late)
  {
    hide Stage, Leads, Finished, MakeAckPacket, WindowEnd, TakePacket, Blocks, Enabled;
    StageFields(c, s, b, sent, taken, late);
    var n := WindowEnd(c, b) - b;
    s' := FillWindow(c, m, s0, s, b, sent, taken, late);
    StageFields(c, s', b, n, taken, late);
    s' := Deliver(c, m, s0, s', b, n, taken, n, late);
    StageFields(c, s', b, n, n, late);
    AckLeaves(c, s', b, n, n, late);
    Onward(c, m, s0, s', SendAck);
    s' := Apply(c, s', SendAck);
    var late' := late.(acks := late.acks + [MakeAckPacket(WireOf(b + n - 1))]);
    StageFields(c, s', b, n, n, late');
    AckNext(c, s', b, n, late');
    var i := |late.acks|;
    Onward(c, m, s0, s', ReceiveAck(i));
    s' := Apply(c, s', ReceiveAck(i));
    assert late'.acks[..i] == late.acks;
  }

  lemma WindowAdvances(c: Transfer, b: nat)
    requires WellFormed(c) && b <= Blocks(c)
    ensures b < WindowEnd(c, b) <= b + MAX_WINDOWSIZE
  {
  }

  // Runs whole windows until the current one holds block k.
  lemma {:induction false} RunToBlock(c: Transfer, m: Order, s0: Sys, s: Sys, b: nat, k: nat, late: Late) returns (s': Sys, b': nat)
    requires WellFormed(c) && At(c, m, s0, s, b, 0, 0, late) && b <= k <= Blocks(c) && Passable(m, late)
    ensures b <= b' <= k < WindowEnd(c, b')
    ensures At(c, m, s0, s', b', 0, 0, late)
    decreases k - b
  {
    hide At, WindowEnd;
    WindowAdvances(c, b);
    if k < WindowEnd(c, b) {
      s', b' := s, b;
    } else {
      s' := FinishWindow(c, m, s0, s, b, 0, 0, late);
      s', b' := RunToBlock(c, m, s0, s', WindowEnd(c, b), k, late);
    }
  }

  // Runs whole windows until the transfer is complete.
  lemma RunToTheEnd(c: Transfer, m: Order, s0: Sys, s: Sys, b: nat) returns (s': Sys)
    requires WellFormed(c) && At(c, m, s0, s, b, 0, 0, NOTHING) && b <= Blocks(c)
    ensures Leads(c, m, s0, s') && Finished(c, s', NOTHING)
  {
    hide Stage, Leads, Finished, WindowEnd;
    var b';
    s', b' := RunToBlock(c, m, s0, s, b, Blocks(c), NOTHING);
    s' := FinishWindow(c, m, s0, s', b', 0, 0, NOTHING);
  }
}
