// One whole request, from its RRQ packet to the mark left on the host.
module Handler {
  import opened Prelude
  import opened Text
  import opened Wire
  import opened BlockStream
  import opened SenderSpec
  import opened Request
  import opened Course
  import opened Server
  import opened Network
  import opened Schedules

  datatype OpenError = NotFound | PermissionDenied | OtherError

  // What opening the requested file and asking for its size yields.
  datatype Source = NotOpened(why: OpenError) | NoSize | Opened(content: bytes)

  // How a request can end.
  datatype Ending =
    | RejectedMode
    | NoFile(e: OpenError)
    | SizeUnknown
    | NotNegotiated(why: AckOutcome)
    | Over(phase: Phase)

  datatype Mark = Unmarked | MarkedFailed | MarkedCompleted

  // A failed read of the file is the one failure during a transfer that leaves the host
  // unmarked; requests that end before it starts are not marked either.
  function MarkFor(e: Ending): Mark {
    match e
    case RejectedMode => Unmarked
    case NoFile(_) => Unmarked
    case SizeUnknown => Unmarked
    case NotNegotiated(_) => MarkedFailed
    case Over(Completed) => MarkedCompleted
    case Over(Running) => Unmarked
    case Over(Failed(reason)) => if reason == ReadFailed then Unmarked else MarkedFailed
  }

  predicate IsOctet(mode: bytes) {
    |mode| == 5 && forall i :: 0 <= i < 5 ==>
      (if 65 <= mode[i] <= 90 then mode[i] + 32 else mode[i]) == [111, 99, 116, 101, 116][i]
  }

  function ModeError(): bytes {
    MakeErrorPacket(4, Ascii("Illegal TFTP operation (only octet mode supported)"))
  }

  function OpenErrorPacket(e: OpenError): bytes {
    match e
    case NotFound => MakeErrorPacket(1, Ascii("File not found"))
    case PermissionDenied => MakeErrorPacket(2, Ascii("Access violation"))
    case OtherError => MakeErrorPacket(0, Ascii("File open failed"))
  }

  // The one mode served is octet, in any mixture of cases.
  lemma IsOctetExactly(mode: bytes)
    ensures IsOctet(mode) <==> |mode| == |"octet"| && forall i :: 0 <= i < 5 ==> SameLetter(mode[i] as char, "octet"[i])
  {
  }

  // Printable ASCII.
  predicate Plain(text: string) {
    forall i :: 0 <= i < |text| ==> ' ' <= text[i] <= '~'
  }

  lemma PlainIsNulFree(text: string)
    requires Plain(text)
    ensures NulFree(Ascii(text))
  {
  }

  lemma PlainPieces(a: string, b: string)
    requires Plain(a) && Plain(b)
    ensures Plain(a + b)
  {
  }

  lemma ModeTextIsPlain()
    ensures Plain("Illegal TFTP operation (only octet mode supported)")
  {
    hide Plain;
    var a, b := "Illegal TFTP operation ", "(only octet mode supported)";
    FirstHalf();
    SecondHalf();
    PlainPieces(a, b);
    assert a + b == "Illegal TFTP operation (only octet mode supported)";
  }

  lemma FirstHalf()
    ensures Plain("Illegal TFTP operation ")
  {
  }

  lemma SecondHalf()
    ensures Plain("(only octet mode supported)")
  {
  }

  // What a client reads out of each refusal.
  lemma RefusalsSay()
    ensures ParseErrorPacket(ModeError()) == Some((4, Ascii("Illegal TFTP operation (only octet mode supported)")))
    ensures ParseErrorPacket(OpenErrorPacket(NotFound)) == Some((1, Ascii("File not found")))
    ensures ParseErrorPacket(OpenErrorPacket(PermissionDenied)) == Some((2, Ascii("Access violation")))
    ensures ParseErrorPacket(OpenErrorPacket(OtherError)) == Some((0, Ascii("File open failed")))
  {
    hide ParseErrorPacket, MakeErrorPacket, Ascii, NulFree;
    ModeTextIsPlain();
    PlainIsNulFree("Illegal TFTP operation (only octet mode supported)");
    PlainIsNulFree("File not found");
    PlainIsNulFree("Access violation");
    PlainIsNulFree("File open failed");
    ErrorRoundTrip(4, Ascii("Illegal TFTP operation (only octet mode supported)"));
    ErrorRoundTrip(1, Ascii("File not found"));
    ErrorRoundTrip(2, Ascii("Access violation"));
    ErrorRoundTrip(0, Ascii("File open failed"));
  }

  function TransferFor(req: Rrq, file: bytes): Transfer {
    Transfer(file, ParamsFor(req).blksize, ParamsFor(req).window)
  }

  function OackFor(req: Rrq, file: bytes): bytes {
    MakeOackPacket(OptionsFor(req, |file|))
  }

  // What one request amounts to in a given environment. A refusal sends its one error
  // packet, if the socket lets it. Otherwise the options, if any were asked for, are
  // acknowledged, and only once the client confirms them does the transfer run: `tries`
  // copies of the option acknowledgement go out, and then the datagrams of the course.
  datatype Account = Account(ending: Ending, tries: nat, es: seq<Event>, sent: seq<bytes>, used: Used)

  ghost predicate Served(req: Rrq, source: Source, env: Env, a: Account) {
    if !IsOctet(req.mode) then
      Refused(env, RejectedMode, ModeError(), a)
    else if source.NotOpened? then
      Refused(env, NoFile(source.why), OpenErrorPacket(source.why), a)
    else if source.NoSize? then
      a == Account(SizeUnknown, 0, [], [], Used(0, 0, 0))
    else
      var file := source.content;
      var oacks := Copies(OackFor(req, file), a.tries);
      if a.ending.NotNegotiated? then
        && Asked(req, file) && a.ending.why != Acked && a.es == []
        && Awaited(env, 0, Used(0, 0, 0), a.tries, a.ending.why)
        && a.sent == oacks && a.used == Used(a.tries, a.tries, 0)
      else
        var c, u := TransferFor(req, file), Used(a.tries, a.tries, 0);
        && (if Asked(req, file) then Awaited(env, 0, Used(0, 0, 0), a.tries, Acked) else a.tries == 0)
        && Finishes(c, env, u, a.es) && a.ending == Over(Replay(c, a.es).phase)
        && a.sent == oacks + SentBy(c, a.es) && a.used == UsedBy(c, env, u, a.es)
  }

  predicate Asked(req: Rrq, file: bytes) {
    OptionsFor(req, |file|) != []
  }

  ghost predicate Refused(env: Env, ending: Ending, packet: bytes, a: Account) {
    && a.ending == ending && a.tries == 0 && a.es == []
    && a.sent == (if env.sendFails(0) then [] else [packet]) && a.used == Used(0, |a.sent|, 0)
  }

  // Serves one parsed request on a fresh socket.
  method HandleTransfer(req: Rrq, source: Source, schedule: nat -> Grant, sock: Socket)
      returns (ending: Ending, mark: Mark, ghost a: Account)
    requires sock.sent == [] && sock.received == 0
    modifies sock
    ensures Served(req, source, Env(sock.script, sock.sendFails, sock.expired, schedule), a)
    ensures a.ending == ending && a.sent == sock.sent && a.used.received == sock.received
    ensures mark == MarkFor(ending)
  {
    hide IsOctet, ModeError, OpenErrorPacket, OptionsFor, MakeOackPacket, ParamsFor, SentBy, Replay, UsedBy, Follows, BlockCount, Awaited, Copies, Advances, Timeouts;
    ghost var env := Env(sock.script, sock.sendFails, sock.expired, schedule);
    if !IsOctet(req.mode) {
      var _ := sock.Transmit(ModeError());
      a := Account(RejectedMode, 0, [], sock.sent, Used(0, |sock.sent|, 0));
      return RejectedMode, Unmarked, a;
    }
    if source.NotOpened? {
      var _ := sock.Transmit(OpenErrorPacket(source.why));
      a := Account(NoFile(source.why), 0, [], sock.sent, Used(0, |sock.sent|, 0));
      return NoFile(source.why), Unmarked, a;
    }
    if source.NoSize? {
      a := Account(SizeUnknown, 0, [], [], Used(0, 0, 0));
      return SizeUnknown, Unmarked, a;
    }
    var content := source.content;
    NegotiatedWithinBounds(req, content);
    var options, params := Negotiate(req, |content|);
    ghost var tries: nat := 0;
    NoCopies(OackFor(req, content));
    if options != [] {
      var oack := BuildOackPacket(options);
      var outcome;
      outcome, tries := SendAndAwaitAck(sock, oack, 0, env);
      if outcome != Acked {
        a := Account(NotNegotiated(outcome), tries, [], sock.sent, Used(tries, tries, 0));
        return NotNegotiated(outcome), MarkedFailed, a;
      }
    }
    var file := new FileReader(content, schedule);
    var c := Transfer(content, params.blksize, params.window);
    var transfer := new WindowedTransfer(c, file, sock);
    var phase := transfer.Run();
    ending := Over(phase);
    mark := if phase.Completed? then MarkedCompleted
            else if phase == Failed(ReadFailed) then Unmarked else MarkedFailed;
    a := Account(ending, tries, transfer.trace, sock.sent, transfer.UsedSoFar());
  }

  // Which requests are refused, and what the client is then told; a request that is not
  // refused runs with the sizes negotiated for it.
  lemma RefusedRequests(req: Rrq, source: Source, env: Env, a: Account)
    requires Served(req, source, env, a)
    ensures !IsOctet(req.mode) ==> a.ending == RejectedMode && SaysOnly(env, a.sent, 4, "Illegal TFTP operation (only octet mode supported)")
    ensures IsOctet(req.mode) && source == NotOpened(NotFound) ==> a.ending == NoFile(NotFound) && SaysOnly(env, a.sent, 1, "File not found")
    ensures IsOctet(req.mode) && source == NotOpened(PermissionDenied) ==>
      a.ending == NoFile(PermissionDenied) && SaysOnly(env, a.sent, 2, "Access violation")
    ensures IsOctet(req.mode) && source == NotOpened(OtherError) ==> a.ending == NoFile(OtherError) && SaysOnly(env, a.sent, 0, "File open failed")
    ensures IsOctet(req.mode) && source == NoSize ==> a.ending == SizeUnknown && a.sent == []
    ensures IsOctet(req.mode) && source.Opened? ==> a.ending.NotNegotiated? || a.ending.Over?
  {
    RefusalsSay();
    hide IsOctet, ModeError, OpenErrorPacket, ParseErrorPacket, Ascii;
  }

  // Options are acknowledged exactly when one was asked for and understood.
  lemma AskedExactly(req: Rrq, file: bytes)
    ensures Asked(req, file) <==> req.blksize.Some? || req.timeout.Some? || req.tsize || req.windowsize.Some?
  {
    hide Decimal;
  }

  // A transfer starts only once the client has confirmed the options with an acknowledgement
  // of block 0, if there were any to confirm, and it runs on the file with the very sizes the
  // client reads out of the option packet.
  lemma RunsAsAgreed(req: Rrq, file: bytes, env: Env, a: Account)
    requires Served(req, Opened(file), env, a) && a.ending.Over? && |file| <= U64_MAX
    ensures Asked(req, file) ==>
      && 1 <= a.tries <= 5 && a.sent[..a.tries] == Copies(OackFor(req, file), a.tries)
      && env.script(a.tries - 1).Datagram? && ParseAckPacket(env.script(a.tries - 1).pkt) == Some(0)
    ensures !Asked(req, file) ==> a.tries == 0
    ensures var c, options := TransferFor(req, file), ParseOackPacket(OackFor(req, file));
      && c.file == file && options.Some?
      && Agreed(options.value, Ascii("blksize"), 512) == Some(c.blksize)
      && Agreed(options.value, Ascii("windowsize"), 1) == Some(c.window)
  {
    hide IsOctet, ModeError, OpenErrorPacket, OptionsFor, MakeOackPacket, ParseOackPacket, ParamsFor, Agreed, Lookup, SentBy, Replay, UsedBy,
      Follows, Ascii, BLKSIZE, TIMEOUT, TSIZE, WINDOWSIZE, Copies, IsErrorPacket, ParseAckPacket;
    ClientAgrees(req, |file|);
    KeysAre();
  }

  // At most one packet is sent, if the socket lets it, and it is an error with this code
  // and text.
  ghost predicate SaysOnly(env: Env, sent: seq<bytes>, code: u16, text: string) {
    if env.sendFails(0) then sent == [] else |sent| == 1 && ParseErrorPacket(sent[0]) == Some((code, Ascii(text)))
  }

  // The environment decides everything about a request: how it ends, what is sent, and how
  // often datagrams, the clock and the file were consulted.
  lemma OneAccount(req: Rrq, source: Source, env: Env, a: Account, b: Account)
    requires Served(req, source, env, a) && Served(req, source, env, b)
    ensures a == b
  {
    hide IsOctet, ModeError, OpenErrorPacket, OptionsFor, MakeOackPacket, ParamsFor, Awaited, Finishes, SentBy, Replay, UsedBy, Copies;
    if IsOctet(req.mode) && source.Opened? {
      if Asked(req, source.content) {
        OneOutcome(env, 0, Used(0, 0, 0), a.tries, if a.ending.NotNegotiated? then a.ending.why else Acked,
                   b.tries, if b.ending.NotNegotiated? then b.ending.why else Acked);
      }
      if !a.ending.NotNegotiated? {
        OneEnding(TransferFor(req, source.content), env, Used(a.tries, a.tries, 0), a.es, b.es);
      }
    }
  }

  // What the mark on the host tells: completed means every block was acknowledged; no mark
  // means the request ended before any negotiation, or a read of the file failed; and any
  // failure has met the cause its reason names.
  lemma MarkTells(req: Rrq, source: Source, env: Env, a: Account)
    requires Served(req, source, env, a)
    ensures MarkFor(a.ending) == MarkedCompleted ==>
      source.Opened? && Replay(TransferFor(req, source.content), a.es).base == Blocks(TransferFor(req, source.content)) + 1
    ensures MarkFor(a.ending) == Unmarked
       <==> !IsOctet(req.mode) || !source.Opened? || (a.used.calls > 0 && env.schedule(a.used.calls - 1) == Fault)
    ensures a.ending.Over? ==>
      var c, u := TransferFor(req, source.content), Used(a.tries, a.tries, 0);
      NoFaultBefore(env, u, a.used) && CausedBy(c, env, u, a.used, Replay(c, a.es))
  {
    hide IsOctet, ModeError, OpenErrorPacket, OptionsFor, MakeOackPacket, ParamsFor, Awaited, SentBy, Replay, UsedBy, Follows, Copies, BlockCount;
    if a.ending.Over? {
      var c, u := TransferFor(req, source.content), Used(a.tries, a.tries, 0);
      NegotiatedWithinBounds(req, source.content);
      FailsForCause(c, env, u, a.es);
      FollowsLegal(c, env, u, a.es);
      RunKeepsInv(c, a.es);
    }
  }

  // Whatever the environment, a request waits for at most five datagrams and five more
  // for every block of the file.
  lemma RequestIsBounded(req: Rrq, file: bytes, env: Env, a: Account)
    requires Served(req, Opened(file), env, a)
    ensures WellFormed(TransferFor(req, file))
    ensures a.used.received <= 5 + 5 * Blocks(TransferFor(req, file))
  {
    hide IsOctet, ModeError, OpenErrorPacket, OptionsFor, MakeOackPacket, ParamsFor, SentBy, Replay, UsedBy, Follows, Copies, Blocks, Advances, Timeouts;
    NegotiatedWithinBounds(req, file);
    if a.ending.Over? {
      CourseIsBounded(TransferFor(req, file), env, Used(a.tries, a.tries, 0), a.es);
    }
  }

  // The transfer's part of a request travelled over the channels of a composed run: the
  // sender there took the same steps, with the datagrams those channels delivered.
  ghost predicate Carried(c: Transfer, m: Order, acts: seq<Action>, es: seq<Event>) {
    Run(c, m, acts).Some? && SenderSteps(c, m, acts) == es
  }

  // When the client is reached over in-order channels, or the file has at most 65535
  // blocks, a request that ends as completed has left the whole file with the client.
  lemma CompletedMeansDelivered(req: Rrq, file: bytes, env: Env, a: Account, m: Order, acts: seq<Action>)
    requires Served(req, Opened(file), env, a) && a.ending == Over(Completed)
    requires WellFormed(TransferFor(req, file)) ==> Decodable(TransferFor(req, file), m)
    requires Carried(TransferFor(req, file), m, acts, a.es)
    ensures Run(TransferFor(req, file), m, acts).value.rcv.got == file
    ensures MarkFor(a.ending) == MarkedCompleted
  {
    hide IsOctet, ModeError, OpenErrorPacket, OptionsFor, MakeOackPacket, ParamsFor, Awaited, SentBy, Replay, UsedBy, Follows, Copies, Run, SenderSteps, Decodable;
    var c := TransferFor(req, file);
    NegotiatedWithinBounds(req, file);
    SenderProjection(c, m, acts);
    EndToEndSafety(c, m, Run(c, m, acts).value);
  }

  // Every octet request for every file can be served: there is an environment, and a
  // loss-free run of the composed system that carries the transfer, in which the client
  // confirms the options it asked for, the transfer completes and the file is delivered.
  lemma EveryRequestCanSucceed(req: Rrq, file: bytes) returns (env: Env, a: Account, acts: seq<Action>)
    requires IsOctet(req.mode)
    ensures Served(req, Opened(file), env, a) && a.ending == Over(Completed)
    ensures Carried(TransferFor(req, file), Fifo, acts, a.es)
    ensures Run(TransferFor(req, file), Fifo, acts).value.rcv.got == file
  {
    var c := TransferFor(req, file);
    NegotiatedWithinBounds(req, file);
    assert WellFormed(c) && Decodable(c, Fifo);
    NothingDone(c);
    hide *;
    acts := LosslessTransfer(c, []);
    var es := SenderSteps(c, Fifo, acts);
    SenderProjection(c, Fifo, acts);
    UndisturbedNeverGivesUp(c, acts);
    env, a := Succeed(req, file, es);
    CarriedIs(c, acts, es);
    CompletedMeansDelivered(req, file, env, a, Fifo, acts);
  }

  lemma CarriedIs(c: Transfer, acts: seq<Action>, es: seq<Event>)
    requires Run(c, Fifo, acts).Some? && SenderSteps(c, Fifo, acts) == es
    ensures Carried(c, Fifo, acts, es)
  {
  }

  lemma Succeed(req: Rrq, file: bytes, es: seq<Event>) returns (env: Env, a: Account)
    requires IsOctet(req.mode) && Legal(TransferFor(req, file), es) && forall i :: 0 <= i < |es| ==> !es[i].GiveUp?
    requires Replay(TransferFor(req, file), es).phase.Completed?
    ensures Served(req, Opened(file), env, a) && a.ending == Over(Completed) && a.es == es
  {
    hide IsOctet, OptionsFor, MakeOackPacket, ParamsFor, SentBy, Replay, UsedBy, Follows, Legal, Heard, Awaited, Copies,
      ModeError, OpenErrorPacket, MakeAckPacket, Scripted, Untroubled;
    var c := TransferFor(req, file);
    var confirmed := if Asked(req, file) then [Datagram(MakeAckPacket(0))] else [];
    env := Scripted(confirmed + Heard(es));
    var u := Used(|confirmed|, |confirmed|, 0);
    LegalAfter(c, confirmed, es);
    if Asked(req, file) {
      assert (confirmed + Heard(es))[0] == Datagram(MakeAckPacket(0));
      Confirmed(env);
    }
    a := Account(Over(Completed), |confirmed|, es, Copies(OackFor(req, file), |confirmed|) + SentBy(c, es), UsedBy(c, env, u, es));
  }

  lemma NothingDone(c: Transfer)
    ensures Run(c, Fifo, []).Some? && Undisturbed(c, [])
  {
  }

  lemma Confirmed(env: Env)
    requires env.script(0) == Datagram(MakeAckPacket(0)) && Untroubled(env)
    ensures Awaited(env, 0, Used(0, 0, 0), 1, Acked)
  {
    hide MakeAckPacket;
  }

  // From the request packet to the last byte: over in-order channels, or in any order
  // when the negotiated block size cuts the file into at most 65535 blocks, the client
  // always holds a prefix of the file, and when the server counts the transfer complete
  // it holds all of it, as many bytes as the size it was told.
  lemma RequestIsServedSafely(packet: bytes, req: Rrq, file: bytes, m: Order, s: Sys)
    requires ParseRrq(packet) == Some(req) && |file| <= U64_MAX
    requires WellFormed(TransferFor(req, file)) ==> Decodable(TransferFor(req, file), m)
    requires Reachable(TransferFor(req, file), m, s)
    ensures s.rcv.got <= file
    ensures s.snd.phase.Completed? ==> s.rcv.got == file
    ensures s.snd.phase.Completed? && req.tsize ==>
      var options := ParseOackPacket(OackFor(req, file));
      options.Some? && Agreed(options.value, TSIZE, 0) == Some(|s.rcv.got|)
  {
    hide Reachable, Decodable, ParseRrq, ParamsFor, OptionsFor, Agreed, MakeOackPacket, ParseOackPacket;
    NegotiatedWithinBounds(req, file);
    EndToEndSafety(TransferFor(req, file), m, s);
    ClientAgrees(req, |file|);
  }
}
