// The windowed DATA sender (section 4 of RFC 7440, go-back-N) as a state machine
// over its individual steps: send one block, take one packet, time out, give up.
module SenderSpec {
  import opened Prelude
  import opened Wire
  import opened BlockStream

  const MAX_RETRIES: nat := 5
  const MAX_WINDOWSIZE: nat := 32

  datatype Transfer = Transfer(file: bytes, blksize: nat, window: nat)

  // What option negotiation guarantees about a transfer.
  predicate WellFormed(c: Transfer) {
    c.blksize >= 1 && 1 <= c.window <= MAX_WINDOWSIZE
  }

  function Blocks(c: Transfer): nat
    requires WellFormed(c)
  {
    BlockCount(|c.file|, c.blksize)
  }

  function Ends(c: Transfer, k: nat): nat {
    EndOf(|c.file|, c.blksize, k)
  }

  datatype Reason = ClientAborted | TimedOut | IoFailed | ReadFailed

  datatype Phase = Running | Completed | Failed(reason: Reason)

  datatype Sender = Sender(
    base: nat,                   // first unacknowledged block
    next: nat,                   // next block to transmit
    buffered: map<nat, bytes>,   // window blocks by absolute number
    last: Option<nat>,           // the final short block, once read
    retries: nat,
    pos: nat,                    // read position in the file
    phase: Phase)

  function Start(): Sender {
    Sender(1, 1, map[], None, 0, 0, Running)
  }

  // The guard of the fill loop.
  predicate CanSend(c: Transfer, s: Sender) {
    && s.next < s.base + c.window
    && !(s.last.Some? && s.next > s.last.value)
  }

  // The payload the fill loop sends next: buffered, or freshly read.
  function NextPayload(c: Transfer, s: Sender): bytes {
    if s.next in s.buffered then s.buffered[s.next] else ReadAt(c.file, c.blksize, s.pos)
  }

  function SendOne(c: Transfer, s: Sender): Sender {
    if s.next in s.buffered then
      s.(next := s.next + 1)
    else
      var d := NextPayload(c, s);
      s.(buffered := s.buffered[s.next := d],
         last := if |d| < c.blksize then Some(s.next) else s.last,
         pos := s.pos + |d|,
         next := s.next + 1)
  }

  // The first in-flight block whose wire number is `wire`.
  function FindInFlight(base: nat, next: nat, wire: u16): (r: Option<nat>)
    ensures r.Some? ==> base <= r.value < next && WireOf(r.value) == wire
    ensures forall abs :: base <= abs < (if r.Some? then r.value else next) ==> WireOf(abs) != wire
    decreases next - base
  {
    if base >= next then None
    else if WireOf(base) == wire then Some(base)
    else FindInFlight(base + 1, next, wire)
  }

  function DropBelow(buffered: map<nat, bytes>, base: nat): map<nat, bytes> {
    map k | k in buffered && k >= base :: buffered[k]
  }

  function Acknowledge(s: Sender, abs: nat): Sender {
    var s' := s.(base := abs + 1, buffered := DropBelow(s.buffered, abs + 1), retries := 0);
    if s.last.Some? && abs + 1 > s.last.value then s'.(phase := Completed)
    else if abs + 1 < s.next then s'.(next := abs + 1)
    else s'
  }

  function TakePacket(s: Sender, pkt: bytes): Sender {
    if IsErrorPacket(pkt) then s.(phase := Failed(ClientAborted))
    else match ParseAckPacket(pkt)
      case None => s.(retries := s.retries + 1)
      case Some(wire) =>
        match FindInFlight(s.base, s.next, wire)
        case None => s.(retries := s.retries + 1)
        case Some(abs) => Acknowledge(s, abs)
  }

  function TakeTimeout(s: Sender): Sender {
    s.(retries := s.retries + 1, next := s.base)
  }

  // One step of the transfer loop.
  datatype Event = Send | Packet(pkt: bytes) | Timeout | GiveUp(reason: Reason)

  // A receive happens only after the fill loop has stopped and while retries remain;
  // the deadline and I/O errors may end a running transfer at any point.
  predicate Enabled(c: Transfer, s: Sender, e: Event) {
    s.phase.Running? &&
    match e
    case Send => CanSend(c, s)
    case Packet(_) => !CanSend(c, s) && s.retries < MAX_RETRIES
    case Timeout => !CanSend(c, s) && s.retries < MAX_RETRIES
    case GiveUp(_) => true
  }

  function Step(c: Transfer, s: Sender, e: Event): Sender {
    match e
    case Send => SendOne(c, s)
    case Packet(pkt) => TakePacket(s, pkt)
    case Timeout => TakeTimeout(s)
    case GiveUp(reason) => s.(phase := Failed(reason))
  }

  // The datagrams a step puts on the wire.
  function Emitted(c: Transfer, s: Sender, e: Event): seq<bytes> {
    if e.Send? then [MakeDataPacket(WireOf(s.next), NextPayload(c, s))] else []
  }

  // -- Runs ------------------------------------------------------------------

  function Replay(c: Transfer, es: seq<Event>): Sender {
    if es == [] then Start()
    else Step(c, Replay(c, es[..|es| - 1]), es[|es| - 1])
  }

  predicate Legal(c: Transfer, es: seq<Event>) {
    es == [] ||
    (Legal(c, es[..|es| - 1]) && Enabled(c, Replay(c, es[..|es| - 1]), es[|es| - 1]))
  }

  function SentBy(c: Transfer, es: seq<Event>): seq<bytes> {
    if es == [] then []
    else SentBy(c, es[..|es| - 1]) + Emitted(c, Replay(c, es[..|es| - 1]), es[|es| - 1])
  }

  lemma Extend(c: Transfer, es: seq<Event>, e: Event)
    ensures Replay(c, es + [e]) == Step(c, Replay(c, es), e)
    ensures Legal(c, es + [e]) <==> Legal(c, es) && Enabled(c, Replay(c, es), e)
    ensures SentBy(c, es + [e]) == SentBy(c, es) + Emitted(c, Replay(c, es), e)
  {
    assert (es + [e])[..|es + [e]| - 1] == es;
  }

  // -- The invariant -----------------------------------------------------------

  // One past the highest block read from the file so far.
  function NextUnread(c: Transfer, s: Sender): nat
    requires WellFormed(c)
  {
    if s.last.Some? then s.last.value + 1 else BlockCount(s.pos, c.blksize)
  }

  // The buffer holds exactly the blocks read but not yet acknowledged, each with
  // the bytes of the file, and the read position is where the next one starts.
  ghost predicate Inv(c: Transfer, s: Sender)
    requires WellFormed(c)
  {
    var unread := NextUnread(c, s);
    && 1 <= s.base <= s.next <= unread <= s.base + c.window
    && s.pos == Ends(c, unread - 1)
    && (s.last.Some? ==> s.last.value == Blocks(c))
    && (s.last.None? ==> unread <= Blocks(c))
    && (forall k :: k in s.buffered <==> s.base <= k < unread)
    && (forall k :: k in s.buffered ==> s.buffered[k] == Block(c.file, c.blksize, k))
    && s.retries <= MAX_RETRIES
    && (s.phase.Completed? ==> s.base == Blocks(c) + 1)
    && (!s.phase.Completed? ==> s.base <= Blocks(c))
  }

  lemma StartInv(c: Transfer)
    requires WellFormed(c)
    ensures Inv(c, Start())
  {
    assert Ends(c, 0) == 0 && BlockCount(0, c.blksize) == 1;
  }

  // The payload sent under number k is always block k of the file.
  lemma PayloadIsBlock(c: Transfer, s: Sender)
    requires WellFormed(c) && Inv(c, s) && CanSend(c, s)
    ensures 1 <= s.next <= Blocks(c)
    ensures NextPayload(c, s) == Block(c.file, c.blksize, s.next)
  {
    if s.next !in s.buffered {
      ReadYieldsBlock(c.file, c.blksize, s.next);
    }
  }

  lemma FreshRead(c: Transfer, k: nat)
    requires WellFormed(c) && 1 <= k <= Blocks(c)
    ensures var d := ReadAt(c.file, c.blksize, Ends(c, k - 1));
      && d == Block(c.file, c.blksize, k)
      && Ends(c, k - 1) + |d| == Ends(c, k)
      && (|d| < c.blksize <==> k == Blocks(c))
  {
    ReadYieldsBlock(c.file, c.blksize, k);
  }

  // Sending a block not read before moves the first unread one on by one.
  lemma UnreadAfter(c: Transfer, s: Sender)
    requires WellFormed(c) && Inv(c, s) && CanSend(c, s) && s.next !in s.buffered
    ensures NextUnread(c, s) == s.next && NextUnread(c, SendOne(c, s)) == s.next + 1
    ensures SendOne(c, s).pos == Ends(c, s.next)
  {
    PayloadIsBlock(c, s);
    FreshRead(c, s.next);
    hide Block, ReadAt;
    if s.next < Blocks(c) {
      CountUpTo(|c.file|, c.blksize, s.next);
    }
  }

  lemma SendKeepsInv(c: Transfer, s: Sender)
    requires WellFormed(c) && Inv(c, s) && s.phase.Running? && CanSend(c, s)
    ensures Inv(c, SendOne(c, s))
  {
    if s.next !in s.buffered {
      PayloadIsBlock(c, s);
      FreshRead(c, s.next);
      UnreadAfter(c, s);
    }
    hide Block, ReadAt, BlockCount, Ends;
  }

  lemma PacketKeepsInv(c: Transfer, s: Sender, pkt: bytes)
    requires WellFormed(c) && Inv(c, s) && s.phase.Running? && s.retries < MAX_RETRIES
    ensures Inv(c, TakePacket(s, pkt))
  {
  }

  lemma StepKeepsInv(c: Transfer, s: Sender, e: Event)
    requires WellFormed(c) && Inv(c, s) && Enabled(c, s, e)
    ensures Inv(c, Step(c, s, e))
  {
    match e
    case Send => SendKeepsInv(c, s);
    case Packet(pkt) => PacketKeepsInv(c, s, pkt);
    case Timeout =>
    case GiveUp(_) =>
  }

  // The invariant holds after every legal sequence of steps, whatever the client
  // and the network do.
  lemma {:induction false} RunKeepsInv(c: Transfer, es: seq<Event>)
    requires WellFormed(c) && Legal(c, es)
    ensures Inv(c, Replay(c, es))
  {
    if es == [] {
      StartInv(c);
    } else {
      RunKeepsInv(c, es[..|es| - 1]);
      StepKeepsInv(c, Replay(c, es[..|es| - 1]), es[|es| - 1]);
    }
  }

  // When the fill loop stops, the window is full or ends at the last block, and the
  // buffered keys are exactly the blocks in flight.
  lemma WindowFull(c: Transfer, s: Sender)
    requires WellFormed(c) && Inv(c, s) && s.phase.Running? && !CanSend(c, s)
    ensures s.next == Min(s.base + c.window, Blocks(c) + 1) == NextUnread(c, s)
    ensures forall k :: k in s.buffered <==> s.base <= k < s.next
    ensures s.base < s.next
  {
  }

  // -- Decoding acknowledgements -----------------------------------------------

  // Wire numbers decide absolute numbers whenever fewer than 65536 are in question.
  lemma WireDecides(a: nat, b: nat)
    requires WireOf(a) == WireOf(b) && -65536 < a - b < 65536
    ensures a == b
  {
    WireIsRemainder(a);
    WireIsRemainder(b);
  }

  // At most one in-flight block carries a given wire number.
  lemma AtMostOneMatch(c: Transfer, s: Sender, x: nat, y: nat)
    requires WellFormed(c) && Inv(c, s)
    requires s.base <= x < s.next && s.base <= y < s.next && WireOf(x) == WireOf(y)
    ensures x == y
  {
    WireDecides(x, y);
  }

  // Looking up the wire number of block `a` gives `a` itself exactly when it is in
  // flight, for every `a` within 65536 of the window on either side.
  lemma DecodeNearby(base: nat, next: nat, a: nat)
    requires base <= next <= a + 65536 && a < base + 65536
    ensures FindInFlight(base, next, WireOf(a)) == if base <= a < next then Some(a) else None
  {
    var r := FindInFlight(base, next, WireOf(a));
    if r.Some? {
      WireDecides(r.value, a);
    }
  }

  lemma WrapsAway(base: nat, a: nat)
    ensures (base + (a - base) % 65536) % 65536 == a % 65536
  {
    var laps := (a - base) / 65536;
    assert base + (a - base) % 65536 == a - 65536 * laps;
  }

  // What the search computes, for any block `a` at all: the first number at or after
  // `base` that is a whole number of wraps away from `a`, if it is still in flight.
  lemma DecodeClosedForm(base: nat, next: nat, a: nat)
    requires base <= next
    ensures FindInFlight(base, next, WireOf(a))
         == var x := base + (a - base) % 65536; if x < next then Some(x) else None
  {
    var x := base + (a - base) % 65536;
    var r := FindInFlight(base, next, WireOf(a));
    WrapsAway(base, a);
    WireIsRemainder(a);
    WireIsRemainder(x);
    if r.Some? {
      WireDecides(r.value, x);
    }
  }

  // Hence the exact condition for a stale or future acknowledgement to be ignored.
  lemma DecodeExact(base: nat, next: nat, a: nat)
    requires base <= next <= base + 65536
    ensures FindInFlight(base, next, WireOf(a)) == (if base <= a < next then Some(a) else None)
       <==> (base <= a < next || (a - base) % 65536 >= next - base)
  {
    DecodeClosedForm(base, next, a);
  }

  // -- Termination and the cost of a transfer ------------------------------------

  function Sends(es: seq<Event>): nat {
    if es == [] then 0 else Sends(es[..|es| - 1]) + (if es[|es| - 1].Send? then 1 else 0)
  }

  function Timeouts(es: seq<Event>): nat {
    if es == [] then 0 else Timeouts(es[..|es| - 1]) + (if es[|es| - 1].Timeout? then 1 else 0)
  }

  function Packets(es: seq<Event>): nat {
    if es == [] then 0 else Packets(es[..|es| - 1]) + (if es[|es| - 1].Packet? then 1 else 0)
  }

  // Waits on the socket: each ends in a packet or in a timeout.
  function Receives(es: seq<Event>): nat {
    Packets(es) + Timeouts(es)
  }

  // Received packets that moved `base` forward.
  function Advances(c: Transfer, es: seq<Event>): nat {
    if es == [] then 0
    else
      var s := Replay(c, es[..|es| - 1]);
      Advances(c, es[..|es| - 1]) + (if Step(c, s, es[|es| - 1]).base > s.base then 1 else 0)
  }

  // Only a packet can move `base`, and when it does the window restarts there: unless the
  // transfer is over, the next block to send is the new base. A packet that does not move
  // it (a stale or duplicate ACK, or garbage) leads to no transmission at all.
  lemma AdvanceRestartsWindow(c: Transfer, s: Sender, e: Event)
    requires WellFormed(c) && Inv(c, s) && Enabled(c, s, e)
    ensures Step(c, s, e).base >= s.base
    ensures Step(c, s, e).base > s.base ==>
      e.Packet? && Step(c, s, e).retries == 0 && (Step(c, s, e).phase.Running? ==> Step(c, s, e).next == Step(c, s, e).base)
    ensures e.Packet? && Step(c, s, e).base == s.base ==> !Enabled(c, Step(c, s, e), Send)
  {
  }

  // Receives paid for when the transfer is at `s`: five per acknowledged block, and the
  // retries spent since.
  function Paid(s: Sender): int {
    5 * (s.base - 1) + (if s.phase.Failed? then 5 else s.retries)
  }

  lemma ReceivePays(c: Transfer, s: Sender, e: Event)
    requires WellFormed(c) && Inv(c, s) && Enabled(c, s, e)
    ensures Paid(Step(c, s, e)) >= Paid(s) + (if e.Packet? || e.Timeout? then 1 else 0)
  {
    hide NextUnread, Blocks, NextPayload;
  }

  // Every receive is paid for.
  lemma {:induction false} ReceivesBounded(c: Transfer, es: seq<Event>)
    requires WellFormed(c) && Legal(c, es)
    ensures Receives(es) <= Paid(Replay(c, es))
  {
    hide Inv, Step, Enabled, Paid;
    if es == [] {
      NothingPaid();
    } else {
      var front := es[..|es| - 1];
      ReceivesBounded(c, front);
      RunKeepsInv(c, front);
      ReceivePays(c, Replay(c, front), es[|es| - 1]);
    }
  }

  lemma NothingPaid()
    ensures Paid(Start()) == 0
  {
  }

  // Blocks the fill loop may still send before it must wait again.
  function Room(c: Transfer, s: Sender): int {
    if s.phase.Running? then s.base + c.window - s.next else 0
  }

  lemma RoomNonNegative(c: Transfer, s: Sender)
    requires WellFormed(c) && Inv(c, s)
    ensures Room(c, s) >= 0
  {
  }

  lemma RoomAfterStep(c: Transfer, s: Sender, e: Event)
    requires WellFormed(c) && Inv(c, s) && Enabled(c, s, e)
    ensures var s' := Step(c, s, e);
      (if e.Send? then 1 else 0) + Room(c, s')
        <= (if e.Timeout? || s'.base > s.base then c.window else Room(c, s))
    ensures Room(c, s) >= 0
    ensures e.Timeout? ==> Step(c, s, e).base == s.base
  {
    AdvanceRestartsWindow(c, s, e);
  }

  // Windows granted so far: one at the start, one per advancing ACK or timeout.
  function Refills(c: Transfer, es: seq<Event>): nat {
    1 + Advances(c, es) + Timeouts(es)
  }

  function Bought(c: Transfer, es: seq<Event>): int {
    Refills(c, es) * c.window
  }

  lemma RefillsStep(c: Transfer, es: seq<Event>)
    requires WellFormed(c) && Legal(c, es) && es != []
    ensures var front, e := es[..|es| - 1], es[|es| - 1];
      var s := Replay(c, front);
      Refills(c, es) == Refills(c, front) + (if e.Timeout? || Step(c, s, e).base > s.base then 1 else 0)
  {
    var front := es[..|es| - 1];
    RunKeepsInv(c, front);
    RoomAfterStep(c, Replay(c, front), es[|es| - 1]);
  }

  lemma BoughtStep(c: Transfer, es: seq<Event>)
    requires WellFormed(c) && Legal(c, es) && es != []
    ensures var front, e := es[..|es| - 1], es[|es| - 1];
      var s := Replay(c, front);
      Bought(c, es) == Bought(c, front) + (if e.Timeout? || Step(c, s, e).base > s.base then c.window else 0)
  {
    RefillsStep(c, es);
    hide Refills, Step, Legal, Replay;
    OneMore(Refills(c, es[..|es| - 1]), c.window);
  }

  // Every send is paid for: a window's worth at the start, and another for each
  // advancing acknowledgement or timeout. Duplicate and stale packets buy nothing.
  lemma {:induction false} SendsBounded(c: Transfer, es: seq<Event>)
    requires WellFormed(c) && Legal(c, es)
    ensures Sends(es) + Room(c, Replay(c, es)) <= Bought(c, es)
  {
    if es != [] {
      var front, e := es[..|es| - 1], es[|es| - 1];
      SendsBounded(c, front);
      RunKeepsInv(c, front);
      RoomAfterStep(c, Replay(c, front), e);
      BoughtStep(c, es);
    }
    hide Inv, Step, Enabled, Room, Bought;
  }

  // Advancing acknowledgements are packets, and each moves `base` by at least one.
  lemma {:induction false} AdvancesBounded(c: Transfer, es: seq<Event>)
    requires WellFormed(c) && Legal(c, es)
    ensures Advances(c, es) <= Replay(c, es).base - 1
    ensures Advances(c, es) <= Packets(es)
  {
    if es != [] {
      var front := es[..|es| - 1];
      AdvancesBounded(c, front);
      RunKeepsInv(c, front);
      AdvanceRestartsWindow(c, Replay(c, front), es[|es| - 1]);
    }
  }

  lemma ReceivesWithinBudget(c: Transfer, es: seq<Event>)
    requires WellFormed(c) && Legal(c, es)
    ensures Receives(es) <= 5 * Blocks(c)
  {
    ReceivesBounded(c, es);
    RunKeepsInv(c, es);
  }

  // Termination against any client: whatever packets, timeouts and errors arrive, a
  // transfer of n blocks waits at most 5n times and sends at most window * (5n + 1)
  // DATA packets.
  lemma TransferIsBounded(c: Transfer, es: seq<Event>)
    requires WellFormed(c) && Legal(c, es)
    ensures Receives(es) <= 5 * Blocks(c)
    ensures Sends(es) <= (1 + Advances(c, es) + Timeouts(es)) * c.window
    ensures Sends(es) <= (5 * Blocks(c) + 1) * c.window
  {
    hide Replay, Legal, Inv, Room, Sends, Advances, Timeouts, Packets, Bought, Blocks;
    ReceivesWithinBudget(c, es);
    SendsBounded(c, es);
    RunKeepsInv(c, es);
    RoomNonNegative(c, Replay(c, es));
    RefillsWithinBudget(c, es);
    BoughtIs(c, es);
    hide *;
    MulMonotone(1 + Advances(c, es) + Timeouts(es), 5 * Blocks(c) + 1, c.window);
  }

  lemma BoughtIs(c: Transfer, es: seq<Event>)
    ensures Bought(c, es) == (1 + Advances(c, es) + Timeouts(es)) * c.window
  {
    hide Advances, Timeouts;
  }

  lemma RefillsWithinBudget(c: Transfer, es: seq<Event>)
    requires WellFormed(c) && Legal(c, es)
    ensures Advances(c, es) + Timeouts(es) <= 5 * Blocks(c)
  {
    ReceivesWithinBudget(c, es);
    AdvancesBounded(c, es);
    hide Advances, Timeouts, Packets, Blocks, Legal, Replay;
  }

  // No transfer can be cheaper: completing n blocks takes at least n sends ...
  lemma {:induction false} SendsAtLeast(c: Transfer, es: seq<Event>)
    requires WellFormed(c) && Legal(c, es)
    ensures NextUnread(c, Replay(c, es)) - 1 <= Sends(es)
    ensures Replay(c, es).phase.Completed? ==> Blocks(c) <= Sends(es)
  {
    RunKeepsInv(c, es);
    assert Replay(c, es).phase.Completed? ==> NextUnread(c, Replay(c, es)) == Blocks(c) + 1;
    if es == [] {
      assert NextUnread(c, Start()) == 1 by { assert BlockCount(0, c.blksize) == 1; }
    } else {
      var front, e := es[..|es| - 1], es[|es| - 1];
      SendsAtLeast(c, front);
      RunKeepsInv(c, front);
      StepGain(c, Replay(c, front), e);
    }
    hide Inv, Step, NextUnread, Enabled, Blocks;
  }

  // ... and packets that between them advance by n blocks, at most a window each.
  lemma {:induction false} PacketsAtLeast(c: Transfer, es: seq<Event>)
    requires WellFormed(c) && Legal(c, es)
    ensures Replay(c, es).base - 1 <= Packets(es) * c.window
    ensures Replay(c, es).phase.Completed? ==> Blocks(c) <= Packets(es) * c.window
  {
    hide Inv, Step, NextUnread, Enabled, Blocks;
    RunKeepsInv(c, es);
    CompletedBase(c, Replay(c, es));
    if es != [] {
      var front, e := es[..|es| - 1], es[|es| - 1];
      PacketsAtLeast(c, front);
      RunKeepsInv(c, front);
      StepGain(c, Replay(c, front), e);
      OneMore(Packets(front), c.window);
      PacketsStep(es);
      assert Replay(c, es).base - 1 <= Packets(es) * c.window by {
        hide *;
      }
    }
  }

  lemma CompletedBase(c: Transfer, s: Sender)
    requires WellFormed(c) && Inv(c, s)
    ensures s.phase.Completed? ==> s.base == Blocks(c) + 1
  {
  }

  lemma PacketsStep(es: seq<Event>)
    requires es != []
    ensures Packets(es) == Packets(es[..|es| - 1]) + (if es[|es| - 1].Packet? then 1 else 0)
  {
  }

  lemma StepGain(c: Transfer, s: Sender, e: Event)
    requires WellFormed(c) && Inv(c, s) && Enabled(c, s, e)
    ensures Step(c, s, e).base <= s.base + (if e.Packet? then c.window else 0)
    ensures NextUnread(c, Step(c, s, e)) <= NextUnread(c, s) + (if e.Send? then 1 else 0)
  {
    if e.Send? && s.next !in s.buffered {
      PayloadIsBlock(c, s);
      FreshRead(c, s.next);
      UnreadAfter(c, s);
    }
  }

  // The file is read strictly forward, one whole block at a time and each block once:
  // a step moves the read position only by sending the first block not yet read.
  lemma ReadsForward(c: Transfer, s: Sender, e: Event)
    requires WellFormed(c) && Inv(c, s) && Enabled(c, s, e)
    ensures Step(c, s, e).pos >= s.pos
    ensures NextUnread(c, Step(c, s, e)) > NextUnread(c, s) ==>
      e.Send? && s.next == NextUnread(c, s) && s.pos == Ends(c, s.next - 1) && Step(c, s, e).pos == Ends(c, s.next)
    ensures NextUnread(c, Step(c, s, e)) == NextUnread(c, s) ==> Step(c, s, e).pos == s.pos
  {
    if e.Send? && s.next !in s.buffered {
      PayloadIsBlock(c, s);
      FreshRead(c, s.next);
      UnreadAfter(c, s);
    }
  }

  // Total payload held for blocks lo..hi-1.
  function Held(buffered: map<nat, bytes>, lo: nat, hi: nat): nat
    decreases hi - lo
  {
    if lo >= hi then 0
    else (if lo in buffered then |buffered[lo]| else 0) + Held(buffered, lo + 1, hi)
  }

  lemma {:induction false} HeldIsASpan(c: Transfer, buffered: map<nat, bytes>, lo: nat, hi: nat)
    requires WellFormed(c) && 1 <= lo <= hi <= Blocks(c) + 1
    requires forall k :: lo <= k < hi ==> k in buffered && buffered[k] == Block(c.file, c.blksize, k)
    ensures Held(buffered, lo, hi) == Ends(c, hi - 1) - Ends(c, lo - 1)
    decreases hi - lo
  {
    hide Ends, Block, ReadAt, BlockCount;
    if lo < hi {
      FreshRead(c, lo);
      HeldIsASpan(c, buffered, lo + 1, hi);
    }
  }

  // The window never holds more than window * blksize bytes, and what it holds is
  // exactly the unacknowledged stretch of the file read so far.
  lemma BufferBounded(c: Transfer, s: Sender)
    requires WellFormed(c) && Inv(c, s)
    ensures Held(s.buffered, s.base, NextUnread(c, s)) == s.pos - Ends(c, s.base - 1)
    ensures Held(s.buffered, s.base, NextUnread(c, s)) <= c.window * c.blksize
  {
    hide Held, Ends, BlockCount;
    HeldIsASpan(c, s.buffered, s.base, NextUnread(c, s));
    EndsSpan(c, s.base - 1, NextUnread(c, s) - 1);
  }

  lemma EndsSpan(c: Transfer, lo: nat, hi: nat)
    requires lo <= hi <= lo + c.window
    ensures Ends(c, hi) - Ends(c, lo) <= c.window * c.blksize
  {
    hide EndOf;
    SpanBounded(|c.file|, c.blksize, lo, hi, c.window);
  }
}
