// The transfer loop as the server runs it: fields updated in place against a socket
// and a file whose behaviour the environment chooses. Each method is proved against
// the step functions of SenderSpec, and the whole loop against the one course that the
// environment forces.
module Server {
  import opened Prelude
  import opened Wire
  import opened BlockStream
  import opened SenderSpec
  import opened Course

  // A connected UDP socket and the clock. What each receive yields, which sends fail,
  // and when the overall deadline has passed are all up to the environment.
  class Socket {
    const script: nat -> Received
    const sendFails: nat -> bool
    const expired: nat -> bool
    var sent: seq<bytes>
    var received: nat

    constructor (script: nat -> Received, sendFails: nat -> bool, expired: nat -> bool)
      ensures this.script == script && this.sendFails == sendFails && this.expired == expired
      ensures sent == [] && received == 0
    {
      this.script, this.sendFails, this.expired := script, sendFails, expired;
      sent, received := [], 0;
    }

    method Transmit(pkt: bytes) returns (ok: bool)
      modifies this`sent
      ensures ok <==> !sendFails(|old(sent)|)
      ensures sent == if ok then old(sent) + [pkt] else old(sent)
    {
      ok := !sendFails(|sent|);
      if ok {
        sent := sent + [pkt];
      }
    }

    method Receive() returns (r: Received)
      modifies this`received
      ensures r == script(old(received)) && received == old(received) + 1
    {
      r := script(received);
      received := received + 1;
    }

    // The deadline test made before waiting for the next datagram.
    method DeadlinePassed() returns (r: bool)
      ensures r == expired(received)
    {
      r := expired(received);
    }
  }

  class WindowedTransfer {
    const c: Transfer
    const file: FileReader
    const sock: Socket
    const readBuf: array<byte>
    ghost const before: seq<bytes>  // what the socket had sent before the transfer
    ghost const u0: Used            // how often the environment had been asked by then
    var base: nat
    var nextToSend: nat
    var buffered: map<nat, bytes>
    var lastBlock: Option<nat>
    var retries: nat
    ghost var trace: seq<Event>

    constructor (c: Transfer, file: FileReader, sock: Socket)
      requires WellFormed(c) && file.content == c.file && file.pos == 0
      ensures this.c == c && this.file == file && this.sock == sock && fresh(readBuf)
      ensures Coupled() && trace == []
      ensures before == sock.sent && u0 == Used(sock.received, |sock.sent|, file.calls)
    {
      this.before := sock.sent;
      this.u0 := Used(sock.received, |sock.sent|, file.calls);
      this.c, this.file, this.sock := c, file, sock;
      readBuf := new byte[c.blksize];
      base, nextToSend, buffered, lastBlock, retries := 1, 1, map[], None, 0;
      trace := [];
    }

    function Environment(): Env {
      Env(sock.script, sock.sendFails, sock.expired, file.schedule)
    }

    function State(): Sender
      reads this, file
    {
      Sender(base, nextToSend, buffered, lastBlock, retries, file.pos, Running)
    }

    function UsedSoFar(): Used
      reads sock, file
    {
      Used(sock.received, |sock.sent|, file.calls)
    }

    // What was done so far is the course the environment forces, and what was sent and
    // asked of the environment is what that course sends and asks.
    ghost predicate Traced()
      reads this, sock, file
    {
      && WellFormed(c) && file.content == c.file && readBuf.Length == c.blksize
      && Follows(c, Environment(), u0, trace)
      && UsedBy(c, Environment(), u0, trace) == UsedSoFar()
      && sock.sent == before + SentBy(c, trace)
    }

    // The fields are the running state that course has reached.
    ghost predicate Coupled()
      reads this, sock, file
    {
      Traced() && State() == Replay(c, trace) && file.pos <= |file.content|
    }

    ghost predicate EndedAs(outcome: Phase)
      reads this, sock, file
    {
      Traced() && outcome == Replay(c, trace).phase && !outcome.Running?
    }

    // The event the environment forces next has happened.
    ghost method Note(e: Event)
      requires Follows(c, Environment(), u0, trace) && Replay(c, trace).phase.Running?
      requires e == NextEvent(c, Environment(), Replay(c, trace), UsedBy(c, Environment(), u0, trace))
      modifies this`trace
      ensures trace == old(trace) + [e] && Follows(c, Environment(), u0, trace)
      ensures UsedBy(c, Environment(), u0, trace)
           == UsedNext(c, Environment(), old(Replay(c, trace)), old(UsedBy(c, Environment(), u0, trace)))
      ensures Replay(c, trace) == Step(c, old(Replay(c, trace)), e)
      ensures SentBy(c, trace) == old(SentBy(c, trace)) + Emitted(c, old(Replay(c, trace)), e)
    {
      FollowsExtend(c, Environment(), u0, trace, e);
      trace := trace + [e];
    }

    // The payload of the next block: from the window buffer, or read from the file and
    // buffered. None is a read fault.
    method FetchBlock() returns (data: Option<bytes>)
      requires WellFormed(c) && file.content == c.file && readBuf.Length == c.blksize
      requires file.pos <= |file.content|
      modifies this`buffered, this`lastBlock, file, readBuf
      ensures file.pos <= |file.content|
      ensures (file.calls, data.Some?) == ReadNext(c, Environment(), old(State()), old(UsedSoFar()))
      ensures data.Some? ==> data.value == NextPayload(c, old(State()))
      ensures data.Some? ==> State().(next := nextToSend + 1) == SendOne(c, old(State()))
    {
      if nextToSend in buffered {
        return Some(buffered[nextToSend]);
      }
      var filled := ReadFill(file, readBuf);
      if filled.Err? {
        return None;
      }
      var (n, hitEof) := filled.value;
      var d := readBuf[..n];
      if hitEof || n < c.blksize {
        lastBlock := Some(nextToSend);
      }
      buffered := buffered[nextToSend := d];
      data := Some(d);
    }

    // Fetches and transmits the next block, unless the read or the send fails.
    method SendBlock() returns (failure: Option<Reason>)
      requires Coupled() && CanSend(c, State())
      modifies this`nextToSend, this`buffered, this`lastBlock, this`trace, file, readBuf, sock`sent
      ensures failure.None? ==> Coupled() && nextToSend == old(nextToSend) + 1
      ensures failure.Some? ==> EndedAs(Failed(failure.value))
    {
      hide Replay, Follows, UsedBy, SentBy, NextPayload, MakeDataPacket, ReadNext, CanSend;
      var data := FetchBlock();
      if data.None? {
        Note(GiveUp(ReadFailed));
        return Some(ReadFailed);
      }
      var ok := sock.Transmit(MakeDataPacket(WireOf(nextToSend), data.value));
      if !ok {
        Note(GiveUp(IoFailed));
        return Some(IoFailed);
      }
      nextToSend := nextToSend + 1;
      Note(Send);
      failure := None;
    }

    // Transmits every block of the window not yet sent, unless a read or a send fails.
    method Fill() returns (failure: Option<Reason>)
      requires Coupled()
      modifies this`nextToSend, this`buffered, this`lastBlock, this`trace, file, readBuf, sock`sent
      ensures failure.None? ==> Coupled() && !CanSend(c, State())
      ensures failure.Some? ==> EndedAs(Failed(failure.value))
    {
      hide Replay, Follows, UsedBy, SentBy;
      while nextToSend < base + c.window
        invariant Coupled()
      {
        if lastBlock.Some? && nextToSend > lastBlock.value {
          break;
        }
        failure := SendBlock();
        if failure.Some? {
          return;
        }
      }
      failure := None;
    }

    // Handles one datagram from the client; `ended` is the phase if the transfer is over.
    method OnPacket(rec: bytes) returns (ended: Option<Phase>)
      modifies this`base, this`nextToSend, this`buffered, this`retries
      ensures ended.None? ==> State() == TakePacket(old(State()), rec)
      ensures ended.Some? ==> ended.value == TakePacket(old(State()), rec).phase && !ended.value.Running?
      ensures ended == Some(Failed(ClientAborted)) <==> IsErrorPacket(rec)
    {
      if IsErrorPacket(rec) {
        return Some(Failed(ClientAborted));
      }
      var ack := ParseAckPacket(rec);
      if ack.Some? {
        var acked := FindInFlight(base, nextToSend, ack.value);
        if acked.Some? {
          var wasPartial := acked.value + 1 < nextToSend;
          base := acked.value + 1;
          buffered := DropBelow(buffered, base);
          retries := 0;
          if lastBlock.Some? && base > lastBlock.value {
            return Some(Completed);
          }
          if wasPartial {
            nextToSend := base;
          }
        } else {
          retries := retries + 1;
        }
      } else {
        retries := retries + 1;
      }
      ended := None;
    }

    method OnTimeout()
      modifies this`nextToSend, this`retries
      ensures State() == TakeTimeout(old(State()))
    {
      retries := retries + 1;
      nextToSend := base;
    }

    // The whole loop. Whatever the environment does it ends, at the end of the one course
    // that this environment forces on the transfer: what it sent, how often it asked for
    // datagrams, time and file contents, and its outcome are all those of that course.
    method Run() returns (outcome: Phase)
      requires Coupled() && trace == []
      modifies this, file, readBuf, sock
      ensures EndedAs(outcome) && Finishes(c, Environment(), u0, trace)
      ensures sock.received - u0.received <= 5 * Blocks(c)
      ensures |sock.sent| - |before| <= (1 + Advances(c, trace) + Timeouts(trace)) * c.window
      ensures |sock.sent| - |before| <= (5 * Blocks(c) + 1) * c.window
      ensures outcome == Failed(TimedOut) ==> SinceAdvance(c, trace) == 5 || sock.expired(sock.received)
    {
      hide Replay, Follows, UsedBy, SentBy, Advances, Timeouts, Blocks, SinceAdvance;
      outcome := Loop();
      if outcome == Failed(TimedOut) {
        TimesOutAfterFive(c, Environment(), u0, trace);
      }
      CourseIsBounded(c, Environment(), u0, trace);
      SendsAreCounted(c, Environment(), u0, trace);
    }

    // One turn of the loop: fill the window, check the budget, take one receive.
    method Turn() returns (ended: Option<Phase>)
      requires Coupled() && 1 <= base <= Blocks(c) && retries <= MAX_RETRIES
      modifies this, file, readBuf, sock
      ensures ended.None? ==> Coupled() && 1 <= base <= Blocks(c) && retries <= MAX_RETRIES
      ensures ended.None? ==> base > old(base) || (base == old(base) && retries > old(retries))
      ensures ended.Some? ==> EndedAs(ended.value)
    {
      hide Replay, Follows, UsedBy, SentBy, CanSend, TakePacket, ReadNext;
      var failure := Fill();
      if failure.Some? {
        return Some(Failed(failure.value));
      }
      var late := sock.DeadlinePassed();
      if retries >= MAX_RETRIES || late {
        Note(GiveUp(TimedOut));
        return Some(Failed(TimedOut));
      }
      ended := TakeReceive();
    }

    method TakeReceive() returns (ended: Option<Phase>)
      requires Coupled() && 1 <= base && !CanSend(c, State())
      requires retries < MAX_RETRIES && !sock.expired(sock.received)
      modifies this, file, readBuf, sock
      ensures ended.None? ==> Coupled() && 1 <= base <= Blocks(c) && retries <= MAX_RETRIES
      ensures ended.None? ==> base > old(base) || (base == old(base) && retries > old(retries))
      ensures ended.Some? ==> EndedAs(ended.value)
    {
      hide Replay, Follows, UsedBy, SentBy, CanSend, TakePacket, BlockCount;
      StillRunning(c, Environment(), u0, trace);
      var got := sock.Receive();
      match got {
        case Datagram(rec) =>
          PacketProgress(c, Environment(), u0, trace, rec);
          ended := OnPacket(rec);
          Note(Packet(rec));
        case NothingInTime =>
          OnTimeout();
          Note(Timeout);
          ended := None;
        case RecvFault =>
          Note(GiveUp(IoFailed));
          ended := Some(Failed(IoFailed));
      }
    }

    method Loop() returns (outcome: Phase)
      requires Coupled() && trace == []
      modifies this, file, readBuf, sock
      ensures EndedAs(outcome)
    {
      StartInv(c);
      hide Replay, Follows, UsedBy, SentBy, BlockCount, CanSend;
      while true
        invariant Coupled()
        invariant 1 <= base <= Blocks(c) && retries <= MAX_RETRIES
        decreases Blocks(c) - base, MAX_RETRIES - retries
      {
        var ended := Turn();
        if ended.Some? {
          return ended.value;
        }
      }
    }
  }

  lemma StillRunning(c: Transfer, env: Env, u0: Used, es: seq<Event>)
    requires WellFormed(c) && Follows(c, env, u0, es) && Replay(c, es).phase.Running?
    ensures 1 <= Replay(c, es).base <= Blocks(c) && Replay(c, es).retries <= MAX_RETRIES
  {
    FollowsLegal(c, env, u0, es);
    RunKeepsInv(c, es);
    hide Replay, Follows, Legal, BlockCount;
  }

  // A packet that leaves the transfer running either moves the base or costs a retry.
  lemma PacketProgress(c: Transfer, env: Env, u0: Used, es: seq<Event>, pkt: bytes)
    requires WellFormed(c) && Follows(c, env, u0, es)
    requires Replay(c, es).phase.Running? && Replay(c, es).retries < MAX_RETRIES
    ensures var s, s' := Replay(c, es), TakePacket(Replay(c, es), pkt);
      s'.phase.Running? ==>
        && 1 <= s'.base <= Blocks(c) && s'.retries <= MAX_RETRIES
        && (s'.base > s.base || (s'.base == s.base && s'.retries == s.retries + 1))
  {
    FollowsLegal(c, env, u0, es);
    RunKeepsInv(c, es);
    PacketKeepsInv(c, Replay(c, es), pkt);
    hide Replay, Follows, Legal, BlockCount, IsErrorPacket, ParseAckPacket;
  }

  // -- Sending one packet and waiting for its acknowledgement ----------------------

  datatype AckOutcome = Acked | ClientError | GaveUp | IoError

  predicate IsAckOf(r: Received, block: u16) {
    r.Datagram? && !IsErrorPacket(r.pkt) && ParseAckPacket(r.pkt) == Some(block)
  }

  // A timeout or a datagram that is neither the awaited ACK nor an error: one retry.
  predicate IsNoise(r: Received, block: u16) {
    !IsAckOf(r, block) && !IsClientError(r) && !r.RecvFault?
  }

  // Waiting ended after `tries` copies went out, each followed by one receive. Until then
  // nothing but noise came, no send failed and the deadline had not passed; each outcome
  // has its own cause.
  ghost predicate Awaited(env: Env, block: u16, u: Used, tries: nat, outcome: AckOutcome) {
    var end := u.received + tries;
    && tries <= MAX_RETRIES
    && (forall i :: u.received <= i < end - 1 ==> IsNoise(env.script(i), block))
    && (forall i :: u.received <= i < end ==> !env.expired(i))
    && (forall i :: u.sent <= i < u.sent + tries ==> !env.sendFails(i))
    && match outcome
       case Acked => tries > 0 && IsAckOf(env.script(end - 1), block)
       case ClientError => tries > 0 && IsClientError(env.script(end - 1))
       case GaveUp => (tries > 0 ==> IsNoise(env.script(end - 1), block)) && (tries == MAX_RETRIES || env.expired(end))
       case IoError =>
         || (tries > 0 && env.script(end - 1).RecvFault?)
         || ((tries > 0 ==> IsNoise(env.script(end - 1), block))
             && tries < MAX_RETRIES && !env.expired(end) && env.sendFails(u.sent + tries))
  }

  // The environment decides the outcome and the number of tries.
  lemma OneOutcome(env: Env, block: u16, u: Used, m: nat, x: AckOutcome, n: nat, y: AckOutcome)
    requires Awaited(env, block, u, m, x) && Awaited(env, block, u, n, y)
    ensures m == n && x == y
  {
    hide IsErrorPacket, ParseAckPacket;
    if m < n {
      OneTryMore(env, block, u, m, x, n, y);
    } else if n < m {
      OneTryMore(env, block, u, n, y, m, x);
    }
  }

  lemma OneTryMore(env: Env, block: u16, u: Used, m: nat, x: AckOutcome, n: nat, y: AckOutcome)
    requires Awaited(env, block, u, m, x) && Awaited(env, block, u, n, y)
    ensures m >= n
  {
    hide IsErrorPacket, ParseAckPacket;
  }

  // At most five copies go out. The wait ends in vain after all five exactly when nothing but
  // noise answered them, and with fewer only because the deadline passed.
  lemma GivesUpAfterFive(env: Env, block: u16, u: Used, tries: nat, outcome: AckOutcome)
    requires Awaited(env, block, u, tries, outcome)
    ensures tries <= 5
    ensures tries == 5 && outcome == GaveUp <==> FiveInVain(env, block, u)
    ensures outcome == GaveUp && tries < 5 ==> env.expired(u.received + tries)
  {
    hide IsErrorPacket, ParseAckPacket;
    if FiveInVain(env, block, u) {
      assert Awaited(env, block, u, 5, GaveUp);
      OneOutcome(env, block, u, tries, outcome, 5, GaveUp);
    }
  }

  // Five copies could be sent in time, and none was answered.
  ghost predicate FiveInVain(env: Env, block: u16, u: Used) {
    && (forall i :: u.received <= i < u.received + 5 ==> IsNoise(env.script(i), block))
    && (forall i :: u.received <= i < u.received + 5 ==> !env.expired(i))
    && (forall i :: u.sent <= i < u.sent + 5 ==> !env.sendFails(i))
  }

  function Copies(packet: bytes, n: nat): (r: seq<bytes>)
    ensures |r| == n
  {
    seq(n, _ => packet)
  }

  lemma NoCopies(packet: bytes)
    ensures Copies(packet, 0) == []
  {
  }

  lemma OneMoreCopy(packet: bytes, n: nat)
    ensures Copies(packet, n + 1) == Copies(packet, n) + [packet]
  {
  }

  // Used for the option acknowledgement.
  method SendAndAwaitAck(sock: Socket, packet: bytes, block: u16, ghost env: Env)
      returns (outcome: AckOutcome, ghost tries: nat)
    requires env.script == sock.script && env.sendFails == sock.sendFails && env.expired == sock.expired
    modifies sock
    ensures Awaited(env, block, Used(old(sock.received), |old(sock.sent)|, 0), tries, outcome)
    ensures sock.received == old(sock.received) + tries
    ensures sock.sent == old(sock.sent) + Copies(packet, tries)
  {
    hide IsErrorPacket, ParseAckPacket, Copies;
    NoCopies(packet);
    var retries := 0;
    tries := 0;
    while retries < MAX_RETRIES
      invariant tries == retries <= MAX_RETRIES && sock.received == old(sock.received) + tries
      invariant forall i :: old(sock.received) <= i < sock.received ==> IsNoise(sock.script(i), block)
      invariant forall i :: old(sock.received) <= i < sock.received ==> !sock.expired(i)
      invariant forall i :: |old(sock.sent)| <= i < |old(sock.sent)| + tries ==> !sock.sendFails(i)
      invariant sock.sent == old(sock.sent) + Copies(packet, tries)
    {
      var late := sock.DeadlinePassed();
      if late {
        return GaveUp, tries;
      }
      var ok := sock.Transmit(packet);
      if !ok {
        return IoError, tries;
      }
      OneMoreCopy(packet, tries);
      var got := sock.Receive();
      tries := tries + 1;
      match got {
        case Datagram(rec) =>
          if IsErrorPacket(rec) {
            return ClientError, tries;
          }
          if ParseAckPacket(rec) == Some(block) {
            return Acked, tries;
          }
          retries := retries + 1;
        case RecvFault =>
          return IoError, tries;
        case NothingInTime =>
          retries := retries + 1;
      }
    }
    outcome := GaveUp;
  }
}
