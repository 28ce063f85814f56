// What a transfer can still recover from. Go-back-N survives any loss as long as one more
// timeout is left to spend; with the last one gone, exactly some states can go on.
module Recovery {
  import opened Prelude
  import opened Wire
  import opened BlockStream
  import opened SenderSpec
  import opened Network
  import opened Schedules
  import opened Driving

  // A timeout can still be spent; or one wait is left and block `base` has been received,
  // is about to be sent again, or is on its way.
  predicate Recoverable(c: Transfer, s: Sys) {
    || s.snd.retries < 4
    || (s.snd.retries == 4 &&
        (s.rcv.expected > s.snd.base || s.snd.next == s.snd.base || DataFor(c, s.snd.base) in s.data))
  }

  // -- Past recovery -----------------------------------------------------------------------

  predicate Doomed(c: Transfer, s: Sys) {
    s.snd.phase.Failed? || (s.snd.phase.Running? && !Recoverable(c, s))
  }

  // Blocks in one window have different packets.
  lemma NextIsNotBase(c: Transfer, snd: Sender)
    requires WellFormed(c) && Inv(c, snd) && snd.base < snd.next
    ensures DataFor(c, snd.next) != DataFor(c, snd.base)
  {
    hide Block, MakeDataPacket, WireOf, BlockCount;
    if WireOf(snd.next) == WireOf(snd.base) {
      WireDecides(snd.next, snd.base);
    }
    assert ParseDataPacket(DataFor(c, snd.next)).value.0 == WireOf(snd.next);
    assert ParseDataPacket(DataFor(c, snd.base)).value.0 == WireOf(snd.base);
  }

  lemma CanSendBelowEnd(c: Transfer, snd: Sender)
    requires WellFormed(c) && Inv(c, snd) && CanSend(c, snd)
    ensures snd.next < WindowEnd(c, snd.base)
  {
    PayloadIsBlock(c, snd);
  }

  // A delivered packet that is not block `base` changes nothing for a receiver waiting for it.
  lemma NotTheBase(c: Transfer, m: Order, s: Sys, dt: seq<Tag>, at: seq<nat>, i: nat)
    requires WellFormed(c) && Decodable(c, m) && SysInv(c, m, s, dt, at) && Possible(c, m, s, DeliverData(i))
    requires DataFor(c, s.rcv.expected) !in s.data
    ensures Accept(c.blksize, s.rcv, s.data[i]) == s.rcv
  {
    hide Inv, Accept, MakeDataPacket, BlockCount, Block;
    DataDecodesExactly(c, m, s, dt, at, i);
    assert DataTagged(c, s.snd.base, s.data[i], dt[i]);
    assert s.data[i] == DataFor(c, dt[i].abs);
  }

  lemma StaleAckCosts(c: Transfer, m: Order, s: Sys, dt: seq<Tag>, at: seq<nat>, i: nat)
    requires WellFormed(c) && Decodable(c, m) && SysInv(c, m, s, dt, at) && Possible(c, m, s, ReceiveAck(i))
    requires s.rcv.expected == s.snd.base
    ensures TakePacket(s.snd, s.acks[i]) == s.snd.(retries := s.snd.retries + 1)
  {
    AckDecodesExactly(c, m, s, dt, at, i);
    hide FindInFlight, Inv;
  }

  lemma DoomedStep(c: Transfer, m: Order, s: Sys, a: Action, dt: seq<Tag>, at: seq<nat>)
    requires WellFormed(c) && Decodable(c, m) && SysInv(c, m, s, dt, at)
    requires Doomed(c, s) && Possible(c, m, s, a)
    ensures Doomed(c, Apply(c, s, a))
  {
    assert 1 <= s.snd.base <= s.rcv.expected && s.snd.base <= s.snd.next && s.snd.retries <= MAX_RETRIES;
    SenderTakes(c, m, s, a);
    ReceiverTakes(c, m, s, a);
    DataOnlyFromSender(c, m, s, a);
    if s.snd.phase.Running? && s.snd.retries < MAX_RETRIES {
      if a.Transmit? {
        CanSendBelowEnd(c, s.snd);
        SendNext(c, s.snd);
        NextIsNotBase(c, s.snd);
      }
      if a.ReceiveAck? {
        StaleAckCosts(c, m, s, dt, at, a.i);
      }
      if a.DeliverData? {
        NotTheBase(c, m, s, dt, at, a.i);
      }
    }
    hide Inv, AckInv, DataInv, ReceiverInv, Accept, TakePacket, SendOne, Emitted, Apply, DataFor, CanSend;
  }

  lemma {:induction false} DoomedStays(c: Transfer, m: Order, s0: Sys, acts: seq<Action>, dt0: seq<Tag>, at0: seq<nat>)
      returns (dt: seq<Tag>, at: seq<nat>)
    requires WellFormed(c) && Decodable(c, m) && SysInv(c, m, s0, dt0, at0) && Doomed(c, s0)
    requires s0.rcv.expected >= 1 && RunFrom(c, m, s0, acts).Some?
    ensures var s := RunFrom(c, m, s0, acts).value;
      SysInv(c, m, s, dt, at) && Doomed(c, s)
  {
    hide SysInv, Doomed, Apply, Possible;
    dt, at := dt0, at0;
    if acts != [] {
      var front := acts[..|acts| - 1];
      dt, at := DoomedStays(c, m, s0, front, dt0, at0);
      var s, a := RunFrom(c, m, s0, front).value, acts[|acts| - 1];
      DoomedStep(c, m, s, a, dt, at);
      dt, at := ActionKeeps(c, m, s, a, dt, at);
    }
  }

  // -- Recovering ----------------------------------------------------------------------------

  // A running state some actions of s0 lead to, with all that recovery needs to know of it.
  ghost predicate Alive(c: Transfer, m: Order, s0: Sys, s: Sys)
    requires WellFormed(c)
  {
    && Leads(c, m, s0, s) && Inv(c, s.snd) && s.snd.phase.Running? && s.snd.retries < MAX_RETRIES
    && ReceiverInv(c, s.snd.base, s.rcv) && s.rcv.expected >= 1
  }

  // Everything in transit is lost.
  lemma {:induction false} LoseAll(c: Transfer, m: Order, s0: Sys, s: Sys) returns (s': Sys)
    requires Leads(c, m, s0, s) && s.rcv.expected >= 1
    ensures Leads(c, m, s0, s') && s' == s.(data := [], acks := [])
    decreases |s.data| + |s.acks|
  {
    hide Leads;
    if s.data != [] {
      Onward(c, m, s0, s, LoseData(0));
      s' := LoseAll(c, m, s0, Apply(c, s, LoseData(0)));
    } else if s.acks != [] {
      Onward(c, m, s0, s, LoseAck(0));
      s' := LoseAll(c, m, s0, Apply(c, s, LoseAck(0)));
    } else {
      s' := s;
    }
  }

  lemma NextWithinEnd(c: Transfer, snd: Sender)
    requires WellFormed(c) && Inv(c, snd) && snd.phase.Running?
    ensures snd.base <= snd.next <= WindowEnd(c, snd.base)
  {
  }

  // Transmits until the window is full.
  lemma {:induction false} FillUp(c: Transfer, m: Order, s0: Sys, s: Sys) returns (s': Sys)
    requires WellFormed(c) && Alive(c, m, s0, s)
    ensures Alive(c, m, s0, s') && s'.snd.next == WindowEnd(c, s'.snd.base)
    ensures s'.snd.base == s.snd.base && s'.snd.retries == s.snd.retries && s'.rcv == s.rcv
    decreases WindowEnd(c, s.snd.base) - s.snd.next
  {
    hide Leads, Inv, ReceiverInv, WindowEnd, Step, Emitted, Enabled;
    NextWithinEnd(c, s.snd);
    if s.snd.next < WindowEnd(c, s.snd.base) {
      SendNext(c, s.snd);
      Onward(c, m, s0, s, Transmit);
      s' := FillUp(c, m, s0, Apply(c, s, Transmit));
    } else {
      s' := s;
    }
  }

  // Spends a timeout: the window starts over.
  lemma SpendTimeout(c: Transfer, m: Order, s0: Sys, s: Sys) returns (s': Sys)
    requires WellFormed(c) && Alive(c, m, s0, s) && s.snd.retries + 1 < MAX_RETRIES
    ensures Alive(c, m, s0, s') && s'.snd.next == s'.snd.base && s'.rcv == s.rcv
  {
    hide Leads, Inv, ReceiverInv, WindowEnd, CanSend;
    s' := FillUp(c, m, s0, s);
    FullWindowStops(c, s'.snd);
    Onward(c, m, s0, s', Expire);
    StepKeepsInv(c, s'.snd, Timeout);
    s' := Apply(c, s', Expire);
  }

  // Block `base`, on its way, is delivered after all that is before it has been lost.
  lemma {:induction false} FetchBase(c: Transfer, m: Order, s0: Sys, s: Sys, i: nat) returns (s': Sys)
    requires WellFormed(c) && Alive(c, m, s0, s) && s.rcv.expected == s.snd.base
    requires i < |s.data| && s.data[i] == DataFor(c, s.snd.base)
    ensures Alive(c, m, s0, s') && s'.rcv.expected > s'.snd.base
    decreases i
  {
    hide Leads, Inv, DataFor, Accept, Block, Payloads, BlockCount;
    if i > 0 {
      Onward(c, m, s0, s, LoseData(0));
      s' := FetchBase(c, m, s0, Apply(c, s, LoseData(0)), i - 1);
    } else {
      RunningBelowEnd(c, s.snd);
      AcceptNext(c, s.rcv, s.snd.base);
      AcceptKeepsReceiver(c, s.snd.base, s.rcv, s.snd.base);
      Onward(c, m, s0, s, DeliverData(0));
      s' := Apply(c, s, DeliverData(0));
    }
  }

  lemma RunningBelowEnd(c: Transfer, snd: Sender)
    requires WellFormed(c) && Inv(c, snd) && snd.phase.Running?
    ensures 1 <= snd.base <= Blocks(c)
  {
  }

  // In a full window the acknowledgement of what the receiver has moves the base there.
  lemma AckMovesTo(c: Transfer, snd: Sender, k: nat)
    requires WellFormed(c) && Inv(c, snd) && snd.phase.Running? && snd.retries < MAX_RETRIES
    requires snd.base < k <= snd.next == WindowEnd(c, snd.base)
    ensures Enabled(c, snd, Packet(MakeAckPacket(WireOf(k - 1))))
    ensures var snd' := TakePacket(snd, MakeAckPacket(WireOf(k - 1)));
      && Inv(c, snd') && snd'.base == k && snd'.retries == 0
      && (if k <= Blocks(c) then snd'.phase.Running? && snd'.next == k else snd'.phase.Completed?)
  {
    FullWindowStops(c, snd);
    DecodeNearby(snd.base, snd.next, k - 1);
    PacketKeepsInv(c, snd, MakeAckPacket(WireOf(k - 1)));
  }

  // Once the receiver is ahead of the base, one acknowledgement gets the transfer going.
  lemma AckNow(c: Transfer, m: Order, s0: Sys, s: Sys) returns (s': Sys)
    requires WellFormed(c) && Alive(c, m, s0, s) && s.rcv.expected > s.snd.base
    ensures Leads(c, m, s0, s')
    ensures if s.rcv.expected <= Blocks(c) then At(c, m, s0, s', s.rcv.expected, 0, 0, NOTHING) else s'.snd.phase.Completed?
  {
    hide Leads, Inv, MakeAckPacket, WireOf, TakePacket, Payloads, BlockCount, Enabled, DataFor;
    var k := s.rcv.expected;
    s' := FillUp(c, m, s0, s);
    s' := LoseAll(c, m, s0, s');
    AckMovesTo(c, s'.snd, k);
    Onward(c, m, s0, s', SendAck);
    s' := Apply(c, s', SendAck);
    Onward(c, m, s0, s', ReceiveAck(0));
    s' := Apply(c, s', ReceiveAck(0));
    assert s'.data == NOTHING.data + Batch(c, k, 0);
  }

  lemma Recovers(c: Transfer, m: Order, s0: Sys) returns (s: Sys)
    requires WellFormed(c) && Alive(c, m, s0, s0) && Recoverable(c, s0)
    ensures Leads(c, m, s0, s) && s.snd.phase.Completed?
  {
    hide Leads, Inv, ReceiverInv, DataFor, Stage;
    s := s0;
    if s.snd.retries + 1 < MAX_RETRIES {
      s := SpendTimeout(c, m, s0, s);
    }
    AliveBounds(c, m, s0, s);
    if s.rcv.expected == s.snd.base && s.snd.next != s.snd.base {
      var i :| 0 <= i < |s.data| && s.data[i] == DataFor(c, s.snd.base);
      s := FetchBase(c, m, s0, s, i);
      AliveBounds(c, m, s0, s);
    }
    var b := s.rcv.expected;
    if b > s.snd.base {
      s := AckNow(c, m, s0, s);
    } else {
      s := LoseAll(c, m, s0, s);
      StartOver(c, m, s0, s);
    }
    if !s.snd.phase.Completed? {
      s := RunToTheEnd(c, m, s0, s, b);
    }
  }

  lemma AliveBounds(c: Transfer, m: Order, s0: Sys, s: Sys)
    requires WellFormed(c) && Alive(c, m, s0, s)
    ensures s.snd.base <= s.rcv.expected && s.snd.base <= Blocks(c)
  {
  }

  lemma StartOver(c: Transfer, m: Order, s0: Sys, s: Sys)
    requires WellFormed(c) && Alive(c, m, s0, s) && s.data == [] && s.acks == []
    requires s.rcv.expected == s.snd.base == s.snd.next
    ensures At(c, m, s0, s, s.snd.base, 0, 0, NOTHING)
  {
    hide Leads, DataFor;
    assert s.data == NOTHING.data + Batch(c, s.snd.base, 0);
  }

  // A transfer that still runs can be continued to completion, the receiver then holding
  // the whole file, if and only if it is recoverable: whatever has been lost, duplicated or
  // delayed before.
  lemma RecoversExactly(c: Transfer, m: Order, s: Sys)
    requires WellFormed(c) && Decodable(c, m) && Reachable(c, m, s) && s.snd.phase.Running?
    ensures (exists s' :: Leads(c, m, s, s') && s'.snd.phase.Completed?) <==> Recoverable(c, s)
  {
    var dt, at := ReachableInv(c, m, s);
    assert Inv(c, s.snd) && ReceiverInv(c, s.snd.base, s.rcv);
    hide Inv, ReceiverInv, DataInv, AckInv, Recoverable, RunFrom, Reachable, Run;
    if Recoverable(c, s) {
      RetriesLeft(c, s);
      Stay(c, m, s);
      hide Leads;
      var s' := Recovers(c, m, s);
    } else {
      forall s' | Leads(c, m, s, s') ensures !s'.snd.phase.Completed? {
        var acts :| RunFrom(c, m, s, acts) == Some(s');
        var dt', at' := DoomedStays(c, m, s, acts, dt, at);
      }
    }
  }

  lemma RetriesLeft(c: Transfer, s: Sys)
    requires Recoverable(c, s)
    ensures s.snd.retries < MAX_RETRIES
  {
  }

  // In particular no loss at all is beyond recovery as long as fewer than four waits in a
  // row were in vain: the transfer can still end, with the whole file delivered.
  lemma AnyLossIsSurvived(c: Transfer, m: Order, s: Sys)
    requires WellFormed(c) && Decodable(c, m) && Reachable(c, m, s) && s.snd.phase.Running?
    requires s.snd.retries < 4
    ensures exists s' :: Leads(c, m, s, s') && s'.snd.phase.Completed? && s'.rcv.got == c.file
  {
    hide Leads, Reachable, Decodable;
    RecoversExactly(c, m, s);
    var s' :| Leads(c, m, s, s') && s'.snd.phase.Completed?;
    StillReachable(c, m, s, s');
    EndToEndSafety(c, m, s');
  }

  lemma StillReachable(c: Transfer, m: Order, s: Sys, s': Sys)
    requires Reachable(c, m, s) && Leads(c, m, s, s')
    ensures Reachable(c, m, s')
  {
    hide RunFrom;
    var before :| Run(c, m, before) == Some(s);
    var acts :| RunFrom(c, m, s, acts) == Some(s');
    RunsJoin(c, m, Initial(), before, s, acts);
    assert Run(c, m, before + acts) == Some(s');
  }

  lemma {:induction false} RunsJoin(c: Transfer, m: Order, s0: Sys, before: seq<Action>, s: Sys, acts: seq<Action>)
    requires s0.rcv.expected >= 1 && RunFrom(c, m, s0, before) == Some(s) && s.rcv.expected >= 1
    ensures RunFrom(c, m, s0, before + acts) == RunFrom(c, m, s, acts)
  {
    hide Possible, Apply;
    if acts == [] {
      assert before + acts == before;
    } else {
      RunsJoin(c, m, s0, before, s, acts[..|acts| - 1]);
      assert (before + acts)[..|before + acts| - 1] == before + acts[..|acts| - 1];
    }
  }
}
