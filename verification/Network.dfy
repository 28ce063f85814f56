// The sender composed with a receiver over channels that lose and duplicate
// datagrams, and that deliver them in order or in any order.
module Network {
  import opened Prelude
  import opened Wire
  import opened BlockStream
  import opened SenderSpec

  // An RFC 7440 receiver. It knows block numbers only through their 16 wire bits.
  datatype Receiver = Receiver(expected: nat, got: bytes, done: bool)

  // Accepts the next block in order, discards everything else; a short block ends it.
  function Accept(blksize: nat, r: Receiver, pkt: bytes): Receiver {
    match ParseDataPacket(pkt)
    case None => r
    case Some((wire, data)) =>
      if r.done || wire != WireOf(r.expected) then r
      else Receiver(r.expected + 1, r.got + data, |data| < blksize)
  }

  // The acknowledgement of the last in-order block; before any DATA this is ACK 0,
  // the answer to an option acknowledgement.
  function Acknowledgement(r: Receiver): bytes
    requires r.expected >= 1
  {
    MakeAckPacket(WireOf(r.expected - 1))
  }

  datatype Sys = Sys(snd: Sender, rcv: Receiver, data: seq<bytes>, acks: seq<bytes>)

  // Fifo channels deliver the oldest datagram first; AnyOrder channels any of them.
  datatype Order = Fifo | AnyOrder

  datatype Action =
    | Transmit
    | ReceiveAck(i: nat)
    | Expire
    | Abandon(reason: Reason)
    | DeliverData(i: nat)
    | SendAck
    | LoseData(i: nat)
    | LoseAck(i: nat)
    | CopyData(i: nat)
    | CopyAck(i: nat)

  function RemoveAt<T>(s: seq<T>, i: nat): (r: seq<T>)
    requires i < |s|
    ensures |r| == |s| - 1
    ensures forall j :: 0 <= j < |r| ==> r[j] == s[if j < i then j else j + 1]
  {
    s[..i] + s[i + 1..]
  }

  function RepeatAt<T>(s: seq<T>, i: nat): (r: seq<T>)
    requires i < |s|
    ensures |r| == |s| + 1
    ensures forall j :: 0 <= j < |r| ==> r[j] == s[if j <= i then j else j - 1]
  {
    s[..i + 1] + s[i..]
  }

  function SenderEvent(s: Sys, a: Action): Event
    requires a.Transmit? || a.Expire? || a.Abandon? || (a.ReceiveAck? && a.i < |s.acks|)
  {
    match a
    case Transmit => Send
    case ReceiveAck(i) => Packet(s.acks[i])
    case Expire => Timeout
    case Abandon(reason) => GiveUp(reason)
  }

  predicate Possible(c: Transfer, m: Order, s: Sys, a: Action) {
    match a
    case Transmit => Enabled(c, s.snd, Send)
    case ReceiveAck(i) => i < |s.acks| && (m.Fifo? ==> i == 0) && Enabled(c, s.snd, Packet(s.acks[i]))
    case Expire => Enabled(c, s.snd, Timeout)
    case Abandon(reason) => Enabled(c, s.snd, GiveUp(reason))
    case DeliverData(i) => i < |s.data| && (m.Fifo? ==> i == 0)
    case SendAck => true
    case LoseData(i) => i < |s.data|
    case LoseAck(i) => i < |s.acks|
    case CopyData(i) => i < |s.data|
    case CopyAck(i) => i < |s.acks|
  }

  function Apply(c: Transfer, s: Sys, a: Action): Sys
    requires s.rcv.expected >= 1
    requires a.ReceiveAck? || a.LoseAck? || a.CopyAck? ==> a.i < |s.acks|
    requires a.DeliverData? || a.LoseData? || a.CopyData? ==> a.i < |s.data|
  {
    match a
    case Transmit => s.(snd := Step(c, s.snd, Send), data := s.data + Emitted(c, s.snd, Send))
    case ReceiveAck(i) => s.(snd := Step(c, s.snd, Packet(s.acks[i])), acks := RemoveAt(s.acks, i))
    case Expire => s.(snd := Step(c, s.snd, Timeout))
    case Abandon(reason) => s.(snd := Step(c, s.snd, GiveUp(reason)))
    case DeliverData(i) => s.(rcv := Accept(c.blksize, s.rcv, s.data[i]), data := RemoveAt(s.data, i))
    case SendAck => s.(acks := s.acks + [Acknowledgement(s.rcv)])
    case LoseData(i) => s.(data := RemoveAt(s.data, i))
    case LoseAck(i) => s.(acks := RemoveAt(s.acks, i))
    case CopyData(i) => s.(data := RepeatAt(s.data, i))
    case CopyAck(i) => s.(acks := RepeatAt(s.acks, i))
  }

  function Initial(): Sys {
    Sys(Start(), Receiver(1, [], false), [], [])
  }

  // Sequences of actions taken from a state; None means some action was not possible.
  function RunFrom(c: Transfer, m: Order, s0: Sys, acts: seq<Action>): (s: Option<Sys>)
    requires s0.rcv.expected >= 1
    ensures s.Some? ==> s.value.rcv.expected >= 1
  {
    if acts == [] then Some(s0)
    else
      var before := RunFrom(c, m, s0, acts[..|acts| - 1]);
      var a := acts[|acts| - 1];
      if before.Some? && Possible(c, m, before.value, a) then Some(Apply(c, before.value, a)) else None
  }

  function Run(c: Transfer, m: Order, acts: seq<Action>): (s: Option<Sys>)
    ensures s.Some? ==> s.value.rcv.expected >= 1
  {
    RunFrom(c, m, Initial(), acts)
  }

  // One state can be followed by the other.
  ghost predicate Leads(c: Transfer, m: Order, s0: Sys, s: Sys) {
    s0.rcv.expected >= 1 && exists acts :: RunFrom(c, m, s0, acts) == Some(s)
  }

  ghost predicate Reachable(c: Transfer, m: Order, s: Sys) {
    exists acts :: Run(c, m, acts) == Some(s)
  }

  lemma Stay(c: Transfer, m: Order, s: Sys)
    requires s.rcv.expected >= 1
    ensures Leads(c, m, s, s)
  {
    assert RunFrom(c, m, s, []) == Some(s);
  }

  lemma Onward(c: Transfer, m: Order, s0: Sys, s: Sys, a: Action)
    requires Leads(c, m, s0, s) && s.rcv.expected >= 1 && Possible(c, m, s, a)
    ensures Leads(c, m, s0, Apply(c, s, a))
  {
    hide Apply, Enabled;
    var acts :| RunFrom(c, m, s0, acts) == Some(s);
    assert (acts + [a])[..|acts + [a]| - 1] == acts;
    assert RunFrom(c, m, s0, acts + [a]) == Some(Apply(c, s, a));
  }

  lemma LeadsFromTheStart(c: Transfer, m: Order, s: Sys)
    ensures Leads(c, m, Initial(), s) <==> Reachable(c, m, s)
  {
    hide RunFrom;
    if Leads(c, m, Initial(), s) {
      var acts :| RunFrom(c, m, Initial(), acts) == Some(s);
      assert Run(c, m, acts) == Some(s);
    }
    if Reachable(c, m, s) {
      var acts :| Run(c, m, acts) == Some(s);
      assert RunFrom(c, m, Initial(), acts) == Some(s);
    }
  }

  // -- The joint invariant -----------------------------------------------------

  // What a DATA packet in transit remembers: its absolute block number and the
  // sender's base when it was sent. The packets themselves carry neither.
  datatype Tag = Tag(abs: nat, base: nat)

  ghost predicate ReceiverInv(c: Transfer, base: nat, r: Receiver)
    requires WellFormed(c)
  {
    && 1 <= base <= r.expected <= Min(base + c.window, Blocks(c) + 1)
    && r.got == Payloads(c.file, c.blksize, r.expected - 1)
    && (r.done <==> r.expected == Blocks(c) + 1)
  }

  ghost predicate DataTagged(c: Transfer, base: nat, pkt: bytes, t: Tag)
    requires WellFormed(c)
  {
    && 1 <= t.base <= base
    && t.base <= t.abs < t.base + c.window
    && t.abs <= Blocks(c)
    && pkt == MakeDataPacket(WireOf(t.abs), Block(c.file, c.blksize, t.abs))
  }

  ghost predicate AckTagged(expected: nat, pkt: bytes, a: nat) {
    a < expected && pkt == MakeAckPacket(WireOf(a))
  }

  // In-order channels: tags never decrease from the head on, and the receiver is at
  // most a window past the base under which any DATA in transit was sent.
  ghost predicate DataInv(c: Transfer, m: Order, base: nat, expected: nat, data: seq<bytes>, dt: seq<Tag>)
    requires WellFormed(c)
  {
    && |dt| == |data|
    && (forall i :: 0 <= i < |dt| ==> DataTagged(c, base, data[i], dt[i]))
    && (m.Fifo? ==> forall i, j :: 0 <= i < j < |dt| ==> dt[i].base <= dt[j].base)
    && (m.Fifo? ==> forall i :: 0 <= i < |dt| ==> expected <= dt[i].base + c.window)
  }

  // In-order channels: acknowledgements never decrease from the head on, and none in
  // transit is older than base - 1.
  ghost predicate AckInv(m: Order, base: nat, expected: nat, acks: seq<bytes>, at: seq<nat>) {
    && |at| == |acks|
    && (forall i :: 0 <= i < |at| ==> AckTagged(expected, acks[i], at[i]))
    && (m.Fifo? ==> forall i, j :: 0 <= i < j < |at| ==> at[i] <= at[j])
    && (m.Fifo? ==> forall i :: 0 <= i < |at| ==> base <= at[i] + 1)
  }

  // Either channels keep order, or the file is short enough that no number repeats.
  predicate Decodable(c: Transfer, m: Order)
    requires WellFormed(c)
  {
    m.Fifo? || Blocks(c) <= 65535
  }

  ghost predicate SysInv(c: Transfer, m: Order, s: Sys, dt: seq<Tag>, at: seq<nat>)
    requires WellFormed(c)
  {
    && Inv(c, s.snd)
    && ReceiverInv(c, s.snd.base, s.rcv)
    && DataInv(c, m, s.snd.base, s.rcv.expected, s.data, dt)
    && AckInv(m, s.snd.base, s.rcv.expected, s.acks, at)
  }

  // -- Each action keeps the invariant -------------------------------------------

  lemma DataSent(c: Transfer, m: Order, base: nat, expected: nat, data: seq<bytes>, dt: seq<Tag>, pkt: bytes, t: Tag)
    requires WellFormed(c) && DataInv(c, m, base, expected, data, dt)
    requires DataTagged(c, base, pkt, t) && t.base == base && expected <= base + c.window
    ensures DataInv(c, m, base, expected, data + [pkt], dt + [t])
  {
    forall i | 0 <= i < |dt| ensures dt[i].base <= base {
      assert DataTagged(c, base, data[i], dt[i]);
    }
    hide DataTagged;
    forall i | 0 <= i < |dt + [t]| ensures DataTagged(c, base, (data + [pkt])[i], (dt + [t])[i]) {
      if i < |dt| {
        assert DataTagged(c, base, data[i], dt[i]);
      }
    }
  }

  lemma TransmitKeeps(c: Transfer, m: Order, s: Sys, dt: seq<Tag>, at: seq<nat>) returns (dt': seq<Tag>)
    requires WellFormed(c) && SysInv(c, m, s, dt, at) && Possible(c, m, s, Transmit)
    ensures SysInv(c, m, Apply(c, s, Transmit), dt', at)
  {
    StepKeepsInv(c, s.snd, Send);
    PayloadIsBlock(c, s.snd);
    BaseBelowNext(c, s.snd);
    var t := Tag(s.snd.next, s.snd.base);
    dt' := dt + [t];
    DataSent(c, m, s.snd.base, s.rcv.expected, s.data, dt, Emitted(c, s.snd, Send)[0], t);
    hide Inv, DataInv, AckInv, ReceiverInv;
  }

  lemma BaseBelowNext(c: Transfer, snd: Sender)
    requires WellFormed(c) && Inv(c, snd)
    ensures 1 <= snd.base <= snd.next
  {
  }

  lemma SendAckKeeps(m: Order, base: nat, r: Receiver, acks: seq<bytes>, at: seq<nat>)
    requires 1 <= base <= r.expected && AckInv(m, base, r.expected, acks, at)
    ensures AckInv(m, base, r.expected, acks + [Acknowledgement(r)], at + [r.expected - 1])
  {
    hide MakeAckPacket;
    var acks', at' := acks + [Acknowledgement(r)], at + [r.expected - 1];
    forall i | 0 <= i < |at'| ensures AckTagged(r.expected, acks'[i], at'[i]) {
      if i < |at| {
        assert AckTagged(r.expected, acks[i], at[i]);
      }
    }
  }

  // The search decodes every acknowledgement that can arrive to exactly the block the
  // receiver meant, or to nothing when that block is already acknowledged.
  lemma AckDecodesExactly(c: Transfer, m: Order, s: Sys, dt: seq<Tag>, at: seq<nat>, i: nat)
    requires WellFormed(c) && Decodable(c, m) && SysInv(c, m, s, dt, at)
    requires Possible(c, m, s, ReceiveAck(i))
    ensures s.acks[i] == MakeAckPacket(WireOf(at[i]))
    ensures at[i] < s.snd.next && at[i] < s.rcv.expected
    ensures FindInFlight(s.snd.base, s.snd.next, WireOf(at[i]))
         == if s.snd.base <= at[i] then Some(at[i]) else None
  {
    WindowFull(c, s.snd);
    assert AckTagged(s.rcv.expected, s.acks[i], at[i]);
    DecodeNearby(s.snd.base, s.snd.next, at[i]);
  }

  // So an acknowledgement either changes nothing but the retry count, or moves base to
  // just past the block the receiver acknowledged.
  lemma AckMovesBase(c: Transfer, m: Order, s: Sys, dt: seq<Tag>, at: seq<nat>, i: nat)
    requires WellFormed(c) && Decodable(c, m) && SysInv(c, m, s, dt, at)
    requires Possible(c, m, s, ReceiveAck(i))
    ensures Inv(c, TakePacket(s.snd, s.acks[i]))
    ensures TakePacket(s.snd, s.acks[i]).base == Max(s.snd.base, at[i] + 1) <= s.rcv.expected
  {
    AckDecodesExactly(c, m, s, dt, at, i);
    PacketKeepsInv(c, s.snd, s.acks[i]);
  }

  lemma ReceiveAckKeeps(c: Transfer, m: Order, s: Sys, dt: seq<Tag>, at: seq<nat>, i: nat)
    requires WellFormed(c) && Decodable(c, m) && SysInv(c, m, s, dt, at)
    requires Possible(c, m, s, ReceiveAck(i))
    ensures SysInv(c, m, Apply(c, s, ReceiveAck(i)), dt, RemoveAt(at, i))
  {
    hide Inv, BlockCount, TakePacket, AckTagged, DataTagged, MakeAckPacket, Payloads, RemoveAt;
    AckMovesBase(c, m, s, dt, at, i);
    var base' := TakePacket(s.snd, s.acks[i]).base;
    DataOutlivesBase(c, m, s.snd.base, base', s.rcv.expected, s.data, dt);
    AckRemoved(m, s.snd.base, base', s.rcv.expected, s.acks, at, i);
  }

  lemma DataOutlivesBase(c: Transfer, m: Order, base: nat, base': nat, expected: nat, data: seq<bytes>, dt: seq<Tag>)
    requires WellFormed(c) && DataInv(c, m, base, expected, data, dt) && base <= base'
    ensures DataInv(c, m, base', expected, data, dt)
  {
    forall i | 0 <= i < |dt| ensures DataTagged(c, base', data[i], dt[i]) {
      assert DataTagged(c, base, data[i], dt[i]);
    }
  }

  lemma AckRemoved(m: Order, base: nat, base': nat, expected: nat, acks: seq<bytes>, at: seq<nat>, i: nat)
    requires AckInv(m, base, expected, acks, at) && i < |acks|
    requires base' == base || (base' == Max(base, at[i] + 1) && (m.Fifo? ==> i == 0))
    ensures AckInv(m, base', expected, RemoveAt(acks, i), RemoveAt(at, i))
  {
    hide AckTagged;
    var at' := RemoveAt(at, i);
    forall j | 0 <= j < |at'| ensures AckTagged(expected, RemoveAt(acks, i)[j], at'[j]) {
      assert AckTagged(expected, acks[if j < i then j else j + 1], at'[j]);
    }
  }

  lemma AckRepeated(m: Order, base: nat, expected: nat, acks: seq<bytes>, at: seq<nat>, i: nat)
    requires AckInv(m, base, expected, acks, at) && i < |acks|
    ensures AckInv(m, base, expected, RepeatAt(acks, i), RepeatAt(at, i))
  {
    hide AckTagged;
    var at' := RepeatAt(at, i);
    forall j | 0 <= j < |at'| ensures AckTagged(expected, RepeatAt(acks, i)[j], at'[j]) {
      assert AckTagged(expected, acks[if j <= i then j else j - 1], at'[j]);
    }
  }

  // A DATA packet is accepted only if it is the very block the receiver expects.
  lemma DataDecodesExactly(c: Transfer, m: Order, s: Sys, dt: seq<Tag>, at: seq<nat>, i: nat)
    requires WellFormed(c) && Decodable(c, m) && SysInv(c, m, s, dt, at)
    requires Possible(c, m, s, DeliverData(i))
    ensures var r, r' := s.rcv, Accept(c.blksize, s.rcv, s.data[i]);
      var n := r.expected;
      if dt[i].abs == n
      then r' == Receiver(n + 1, r.got + Block(c.file, c.blksize, n), n == Blocks(c))
      else r' == r
    ensures dt[i].abs <= Blocks(c)
  {
    assert DataTagged(c, s.snd.base, s.data[i], dt[i]);
    ReadYieldsBlock(c.file, c.blksize, dt[i].abs);
    if WireOf(dt[i].abs) == WireOf(s.rcv.expected) {
      WireDecides(dt[i].abs, s.rcv.expected);
    }
  }

  lemma AcceptKeepsReceiver(c: Transfer, base: nat, r: Receiver, abs: nat)
    requires WellFormed(c) && ReceiverInv(c, base, r)
    requires r.expected == abs <= Blocks(c) && abs < base + c.window
    ensures ReceiverInv(c, base, Receiver(abs + 1, r.got + Block(c.file, c.blksize, abs), abs == Blocks(c)))
  {
    hide Block;
  }

  lemma AckOutlivesExpected(m: Order, base: nat, expected: nat, expected': nat, acks: seq<bytes>, at: seq<nat>)
    requires AckInv(m, base, expected, acks, at) && expected <= expected'
    ensures AckInv(m, base, expected', acks, at)
  {
    forall j | 0 <= j < |at| ensures AckTagged(expected', acks[j], at[j]) {
      assert AckTagged(expected, acks[j], at[j]);
    }
  }

  lemma DeliverDataKeeps(c: Transfer, m: Order, s: Sys, dt: seq<Tag>, at: seq<nat>, i: nat)
    requires WellFormed(c) && Decodable(c, m) && SysInv(c, m, s, dt, at)
    requires Possible(c, m, s, DeliverData(i))
    ensures SysInv(c, m, Apply(c, s, DeliverData(i)), RemoveAt(dt, i), at)
  {
    hide Inv, ReceiverInv, AckInv, Block, Accept, BlockCount, RemoveAt;
    DataDecodesExactly(c, m, s, dt, at, i);
    assert DataTagged(c, s.snd.base, s.data[i], dt[i]);
    var r' := Accept(c.blksize, s.rcv, s.data[i]);
    DataRemoved(c, m, s.snd.base, s.rcv.expected, r'.expected, s.data, dt, i);
    hide DataInv, DataTagged;
    if dt[i].abs == s.rcv.expected {
      AcceptKeepsReceiver(c, s.snd.base, s.rcv, dt[i].abs);
    }
    AckOutlivesExpected(m, s.snd.base, s.rcv.expected, r'.expected, s.acks, at);
  }

  lemma DataRemoved(c: Transfer, m: Order, base: nat, expected: nat, expected': nat,
                    data: seq<bytes>, dt: seq<Tag>, i: nat)
    requires WellFormed(c) && DataInv(c, m, base, expected, data, dt) && i < |data|
    requires expected' == expected || (expected' == dt[i].abs + 1 && (m.Fifo? ==> i == 0))
    ensures DataInv(c, m, base, expected', RemoveAt(data, i), RemoveAt(dt, i))
  {
    var dt' := RemoveAt(dt, i);
    assert DataTagged(c, base, data[i], dt[i]);
    hide DataTagged;
    forall j | 0 <= j < |dt'| ensures DataTagged(c, base, RemoveAt(data, i)[j], dt'[j]) {
      assert DataTagged(c, base, data[if j < i then j else j + 1], dt'[j]);
    }
  }

  lemma DataRepeated(c: Transfer, m: Order, base: nat, expected: nat, data: seq<bytes>, dt: seq<Tag>, i: nat)
    requires WellFormed(c) && DataInv(c, m, base, expected, data, dt) && i < |data|
    ensures DataInv(c, m, base, expected, RepeatAt(data, i), RepeatAt(dt, i))
  {
    hide DataTagged;
    var dt' := RepeatAt(dt, i);
    forall j | 0 <= j < |dt'| ensures DataTagged(c, base, RepeatAt(data, i)[j], dt'[j]) {
      assert DataTagged(c, base, data[if j <= i then j else j - 1], dt'[j]);
    }
  }

  lemma ActionKeeps(c: Transfer, m: Order, s: Sys, a: Action, dt: seq<Tag>, at: seq<nat>)
      returns (dt': seq<Tag>, at': seq<nat>)
    requires WellFormed(c) && Decodable(c, m) && SysInv(c, m, s, dt, at) && Possible(c, m, s, a)
    ensures SysInv(c, m, Apply(c, s, a), dt', at')
  {
    assert 1 <= s.snd.base <= s.rcv.expected && |dt| == |s.data| && |at| == |s.acks|;
    hide Inv, AckInv, DataInv, ReceiverInv, RemoveAt, RepeatAt, TakePacket, Accept, SendOne, Emitted, Acknowledgement, CanSend;
    dt', at' := dt, at;
    var base, expected := s.snd.base, s.rcv.expected;
    match a
    case Transmit =>
      dt' := TransmitKeeps(c, m, s, dt, at);
    case ReceiveAck(i) =>
      ReceiveAckKeeps(c, m, s, dt, at, i);
      at' := RemoveAt(at, i);
    case Expire =>
      StepKeepsInv(c, s.snd, Timeout);
    case Abandon(reason) =>
      StepKeepsInv(c, s.snd, GiveUp(reason));
    case DeliverData(i) =>
      DeliverDataKeeps(c, m, s, dt, at, i);
      dt' := RemoveAt(dt, i);
    case SendAck =>
      SendAckKeeps(m, base, s.rcv, s.acks, at);
      at' := at + [expected - 1];
    case LoseData(i) =>
      DataRemoved(c, m, base, expected, expected, s.data, dt, i);
      dt' := RemoveAt(dt, i);
    case LoseAck(i) =>
      AckRemoved(m, base, base, expected, s.acks, at, i);
      at' := RemoveAt(at, i);
    case CopyData(i) =>
      DataRepeated(c, m, base, expected, s.data, dt, i);
      dt' := RepeatAt(dt, i);
    case CopyAck(i) =>
      AckRepeated(m, base, expected, s.acks, at, i);
      at' := RepeatAt(at, i);
  }

  lemma {:induction false} RunKeepsSysInv(c: Transfer, m: Order, acts: seq<Action>)
      returns (dt: seq<Tag>, at: seq<nat>)
    requires WellFormed(c) && Decodable(c, m) && Run(c, m, acts).Some?
    ensures SysInv(c, m, Run(c, m, acts).value, dt, at)
  {
    if acts == [] {
      dt, at := [], [];
      StartInv(c);
    } else {
      var front := acts[..|acts| - 1];
      dt, at := RunKeepsSysInv(c, m, front);
      dt, at := ActionKeeps(c, m, Run(c, m, front).value, acts[|acts| - 1], dt, at);
    }
  }

  // -- End-to-end safety ----------------------------------------------------------

  lemma InvImpliesSafety(c: Transfer, snd: Sender, rcv: Receiver)
    requires WellFormed(c) && Inv(c, snd) && ReceiverInv(c, snd.base, rcv)
    ensures rcv.got <= c.file && (rcv.done <==> rcv.got == c.file && rcv.expected == Blocks(c) + 1)
    ensures snd.phase.Completed? ==> rcv.done
  {
    PayloadsAreTheFile(c.file, c.blksize, rcv.expected - 1);
  }

  // At every reachable state the receiver holds a prefix of the file, all of it once
  // it considers itself done; everything the sender counts as acknowledged is held by
  // the receiver; and the sender completes only when the receiver has the whole file.
  lemma EndToEndSafety(c: Transfer, m: Order, s: Sys)
    requires WellFormed(c) && Decodable(c, m) && Reachable(c, m, s)
    ensures s.rcv.got <= c.file
    ensures s.rcv.done ==> s.rcv.got == c.file
    ensures s.snd.base <= s.rcv.expected
    ensures s.rcv.got == Payloads(c.file, c.blksize, s.rcv.expected - 1)
    ensures s.snd.phase.Completed? ==> s.rcv.done && s.rcv.got == c.file
  {
    ReachableCore(c, m, s);
    InvImpliesSafety(c, s.snd, s.rcv);
  }

  lemma ReachableCore(c: Transfer, m: Order, s: Sys)
    requires WellFormed(c) && Decodable(c, m) && Reachable(c, m, s)
    ensures Inv(c, s.snd) && ReceiverInv(c, s.snd.base, s.rcv) && s.rcv.expected >= 1
  {
    var dt, at := ReachableInv(c, m, s);
  }

  lemma ReachableInv(c: Transfer, m: Order, s: Sys) returns (dt: seq<Tag>, at: seq<nat>)
    requires WellFormed(c) && Decodable(c, m) && Reachable(c, m, s)
    ensures SysInv(c, m, s, dt, at) && s.rcv.expected >= 1
  {
    var acts :| Run(c, m, acts) == Some(s);
    dt, at := RunKeepsSysInv(c, m, acts);
  }

  // Over FIFO channels every acknowledgement in transit lies in [base - 1, next - 1]
  // whenever the sender is ready to read one.
  lemma AcksInTransit(c: Transfer, s: Sys, i: nat)
    requires WellFormed(c) && Reachable(c, Fifo, s) && i < |s.acks|
    requires s.snd.phase.Running? && !CanSend(c, s.snd)
    ensures exists a: nat :: s.snd.base - 1 <= a < s.snd.next && s.acks[i] == MakeAckPacket(WireOf(a))
  {
    var dt, at := ReachableInv(c, Fifo, s);
    WindowFull(c, s.snd);
    assert AckTagged(s.rcv.expected, s.acks[i], at[i]);
  }

  // The steps the sender takes in a run of the composed system, with the very datagrams
  // that came out of the acknowledgement channel.
  function SenderSteps(c: Transfer, m: Order, acts: seq<Action>): seq<Event>
    requires Run(c, m, acts).Some?
  {
    if acts == [] then []
    else
      var front, a := acts[..|acts| - 1], acts[|acts| - 1];
      SenderSteps(c, m, front)
        + (if a.Transmit? || a.ReceiveAck? || a.Expire? || a.Abandon? then [SenderEvent(Run(c, m, front).value, a)] else [])
  }

  // They are a legal run of the sender alone, so everything proved of such runs holds of
  // them ...
  lemma {:induction false} SenderProjection(c: Transfer, m: Order, acts: seq<Action>)
    requires Run(c, m, acts).Some?
    ensures Legal(c, SenderSteps(c, m, acts))
    ensures Replay(c, SenderSteps(c, m, acts)) == Run(c, m, acts).value.snd
  {
    hide Step, Emitted, Accept, Enabled, RemoveAt, RepeatAt, Legal, Replay, Acknowledgement;
    if acts == [] {
      NoSteps(c);
    } else {
      var front, a := acts[..|acts| - 1], acts[|acts| - 1];
      SenderProjection(c, m, front);
      var s, es := Run(c, m, front).value, SenderSteps(c, m, front);
      if a.Transmit? || a.ReceiveAck? || a.Expire? || a.Abandon? {
        var e := SenderEvent(s, a);
        assert SenderSteps(c, m, acts) == es + [e];
        Extend(c, es, e);
      } else {
        assert SenderSteps(c, m, acts) == es;
      }
    }
  }

  lemma NoSteps(c: Transfer)
    ensures Legal(c, []) && Replay(c, []) == Start()
  {
  }

  // ... each action adds to what has been sent only what a transmission emits ...
  lemma SentGrows(c: Transfer, m: Order, acts: seq<Action>)
    requires acts != [] && Run(c, m, acts).Some?
    ensures var front, a := acts[..|acts| - 1], acts[|acts| - 1];
      Run(c, m, front).Some? &&
      var s := Run(c, m, front).value;
      && Possible(c, m, s, a) && Run(c, m, acts) == Some(Apply(c, s, a))
      && SentBy(c, SenderSteps(c, m, acts))
         == SentBy(c, SenderSteps(c, m, front)) + (if a.Transmit? then Emitted(c, s.snd, Send) else [])
  {
    hide Step, Emitted, Accept, Enabled, RemoveAt, RepeatAt, Replay, SentBy, Apply;
    var front, a := acts[..|acts| - 1], acts[|acts| - 1];
    var s, es := Run(c, m, front).value, SenderSteps(c, m, front);
    if a.Transmit? || a.ReceiveAck? || a.Expire? || a.Abandon? {
      var e := SenderEvent(s, a);
      assert SenderSteps(c, m, acts) == es + [e];
      SenderProjection(c, m, front);
      Extend(c, es, e);
      EmitsOnSend(c, s.snd, e);
    } else {
      assert SenderSteps(c, m, acts) == es;
    }
  }

  lemma EmitsOnSend(c: Transfer, snd: Sender, e: Event)
    ensures !e.Send? ==> Emitted(c, snd, e) == []
  {
  }

  // ... and the data channel carries nothing but what that run has sent.
  lemma {:induction false} DataWasSent(c: Transfer, m: Order, acts: seq<Action>)
    requires Run(c, m, acts).Some?
    ensures forall pkt :: pkt in Run(c, m, acts).value.data ==> pkt in SentBy(c, SenderSteps(c, m, acts))
  {
    if acts == [] {
    } else {
      hide RunFrom, Run, SenderSteps, SentBy, Emitted, Apply, Possible;
      SentGrows(c, m, acts);
      var front := acts[..|acts| - 1];
      DataWasSent(c, m, front);
      DataOnlyFromSender(c, m, Run(c, m, front).value, acts[|acts| - 1]);
    }
  }

  // No action but a transmission puts a new datagram into the data channel.
  lemma DataOnlyFromSender(c: Transfer, m: Order, s: Sys, a: Action)
    requires s.rcv.expected >= 1 && Possible(c, m, s, a)
    ensures forall pkt :: pkt in Apply(c, s, a).data ==>
      pkt in s.data || (a.Transmit? && pkt in Emitted(c, s.snd, Send))
  {
    hide Accept, Step, Emitted, Enabled;
  }

  lemma SenderKeepsInv(c: Transfer, m: Order, s: Sys, a: Action)
    requires WellFormed(c) && Inv(c, s.snd) && s.rcv.expected >= 1 && Possible(c, m, s, a)
    ensures Inv(c, Apply(c, s, a).snd)
  {
    hide Inv, Accept, Step, Emitted, Acknowledgement;
    if a.Transmit? || a.ReceiveAck? || a.Expire? || a.Abandon? {
      StepKeepsInv(c, s.snd, SenderEvent(s, a));
    }
  }

  // The sender changes only by its own steps ...
  lemma SenderTakes(c: Transfer, m: Order, s: Sys, a: Action)
    requires s.rcv.expected >= 1 && Possible(c, m, s, a)
    ensures if a.Transmit? || a.ReceiveAck? || a.Expire? || a.Abandon?
            then Enabled(c, s.snd, SenderEvent(s, a)) && Apply(c, s, a).snd == Step(c, s.snd, SenderEvent(s, a))
            else Apply(c, s, a).snd == s.snd
  {
    hide Accept, Step, Emitted, Enabled;
  }

  // ... and the receiver only when it is given a datagram from the channel.
  lemma ReceiverTakes(c: Transfer, m: Order, s: Sys, a: Action)
    requires s.rcv.expected >= 1 && Possible(c, m, s, a)
    ensures if a.DeliverData? then a.i < |s.data| && Apply(c, s, a).rcv == Accept(c.blksize, s.rcv, s.data[a.i])
            else Apply(c, s, a).rcv == s.rcv
  {
    hide Accept, Step, Emitted, Enabled;
  }

  // The i-th acknowledgement in transit is one the receiver sent for block a, which it
  // holds, and the search reads it as exactly that block, or as nothing if a is already
  // acknowledged.
  predicate ReadAs(s: Sys, i: nat, a: nat)
    requires i < |s.acks|
  {
    && a < s.rcv.expected && s.acks[i] == MakeAckPacket(WireOf(a))
    && FindInFlight(s.snd.base, s.snd.next, WireOf(a)) == (if s.snd.base <= a then Some(a) else None)
    && TakePacket(s.snd, s.acks[i]).base == Max(s.snd.base, a + 1)
  }

  // Whenever the sender takes an acknowledgement out of the channel it is read exactly,
  // with at most 32 blocks in flight; so one block at most can match, and a stale
  // acknowledgement never does.
  lemma AcksDecodeExactly(c: Transfer, m: Order, s: Sys, i: nat)
    requires WellFormed(c) && Decodable(c, m) && Reachable(c, m, s) && Possible(c, m, s, ReceiveAck(i))
    ensures exists a: nat :: ReadAs(s, i, a)
    ensures s.snd.next - s.snd.base <= 32
  {
    hide TakePacket, FindInFlight, MakeAckPacket, BlockCount, Run;
    var dt, at := ReachableInv(c, m, s);
    AckDecodesExactly(c, m, s, dt, at, i);
    AckMovesBase(c, m, s, dt, at, i);
    assert ReadAs(s, i, at[i]);
  }
}
