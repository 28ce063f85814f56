// The course a transfer takes once everything outside the server is fixed: what each
// receive yields, which sends fail, when the deadline passes and what each read of the
// file is granted. It is unique, so it says which of its endings a transfer reaches.
module Course {
  import opened Prelude
  import opened Wire
  import opened BlockStream
  import opened SenderSpec

  datatype Received = Datagram(pkt: bytes) | NothingInTime | RecvFault

  // The environment, indexed by how often it has been asked: receives, successful sends,
  // receives again for the clock, and read calls.
  datatype Env = Env(script: nat -> Received, sendFails: nat -> bool, expired: nat -> bool, schedule: nat -> Grant)

  datatype Used = Used(received: nat, sent: nat, calls: nat)

  predicate IsClientError(r: Received) {
    r.Datagram? && IsErrorPacket(r.pkt)
  }

  // Reading the next block: the calls made after it, and whether none of them faulted.
  function ReadNext(c: Transfer, env: Env, s: Sender, u: Used): (nat, bool) {
    if s.next in s.buffered then (u.calls, true)
    else CallsToFill(env.schedule, |c.file|, s.pos, c.blksize, u.calls)
  }

  // What a running transfer does next.
  function NextEvent(c: Transfer, env: Env, s: Sender, u: Used): Event {
    if CanSend(c, s) then
      if !ReadNext(c, env, s, u).1 then GiveUp(ReadFailed)
      else if env.sendFails(u.sent) then GiveUp(IoFailed)
      else Send
    else if s.retries >= MAX_RETRIES || env.expired(u.received) then GiveUp(TimedOut)
    else
      match env.script(u.received)
      case Datagram(pkt) => Packet(pkt)
      case NothingInTime => Timeout
      case RecvFault => GiveUp(IoFailed)
  }

  function UsedNext(c: Transfer, env: Env, s: Sender, u: Used): Used {
    if CanSend(c, s) then
      u.(calls := ReadNext(c, env, s, u).0, sent := if NextEvent(c, env, s, u).Send? then u.sent + 1 else u.sent)
    else if s.retries >= MAX_RETRIES || env.expired(u.received) then u
    else u.(received := u.received + 1)
  }

  function UsedBy(c: Transfer, env: Env, u0: Used, es: seq<Event>): Used {
    if es == [] then u0
    else UsedNext(c, env, Replay(c, es[..|es| - 1]), UsedBy(c, env, u0, es[..|es| - 1]))
  }

  // Each event is the one the environment forces on the transfer at that point.
  predicate Follows(c: Transfer, env: Env, u0: Used, es: seq<Event>) {
    es == [] ||
    var front := es[..|es| - 1];
    && Follows(c, env, u0, front)
    && Replay(c, front).phase.Running?
    && es[|es| - 1] == NextEvent(c, env, Replay(c, front), UsedBy(c, env, u0, front))
  }

  predicate Finishes(c: Transfer, env: Env, u0: Used, es: seq<Event>) {
    Follows(c, env, u0, es) && !Replay(c, es).phase.Running?
  }

  lemma FollowsExtend(c: Transfer, env: Env, u0: Used, es: seq<Event>, e: Event)
    requires Follows(c, env, u0, es) && Replay(c, es).phase.Running?
    requires e == NextEvent(c, env, Replay(c, es), UsedBy(c, env, u0, es))
    ensures Follows(c, env, u0, es + [e])
    ensures UsedBy(c, env, u0, es + [e]) == UsedNext(c, env, Replay(c, es), UsedBy(c, env, u0, es))
    ensures Replay(c, es + [e]) == Step(c, Replay(c, es), e)
    ensures SentBy(c, es + [e]) == SentBy(c, es) + Emitted(c, Replay(c, es), e)
  {
    Extend(c, es, e);
    assert (es + [e])[..|es + [e]| - 1] == es;
  }

  // -- What every course is like ------------------------------------------------------

  // It is a legal run of the state machine, so all that is proved of those holds of it.
  lemma {:induction false} FollowsLegal(c: Transfer, env: Env, u0: Used, es: seq<Event>)
    requires Follows(c, env, u0, es)
    ensures Legal(c, es)
  {
    if es != [] {
      FollowsLegal(c, env, u0, es[..|es| - 1]);
    }
  }

  // There is one course only: of two, the shorter is a prefix of the longer.
  lemma {:induction false} OneCourse(c: Transfer, env: Env, u0: Used, es: seq<Event>, fs: seq<Event>)
    requires Follows(c, env, u0, es) && Follows(c, env, u0, fs) && |es| <= |fs|
    ensures es == fs[..|es|]
    decreases |fs|
  {
    hide NextEvent, UsedBy, Replay;
    if es != [] {
      var ef, ff := es[..|es| - 1], fs[..|fs| - 1];
      if |es| < |fs| {
        OneCourse(c, env, u0, es, ff);
        assert fs[..|es|] == ff[..|es|];
      } else {
        OneCourse(c, env, u0, ef, ff);
        assert ef == ff;
        assert es == ef + [es[|es| - 1]] && fs == ff + [fs[|fs| - 1]];
      }
    }
  }

  // A prefix of a course that still runs is no end, so two ended courses are the same.
  lemma OneEnding(c: Transfer, env: Env, u0: Used, es: seq<Event>, fs: seq<Event>)
    requires Finishes(c, env, u0, es) && Finishes(c, env, u0, fs)
    ensures es == fs
  {
    hide NextEvent, UsedBy, Replay;
    if |es| < |fs| {
      OneCourse(c, env, u0, es, fs);
      PrefixRuns(c, env, u0, fs, |es|);
    } else if |fs| < |es| {
      OneCourse(c, env, u0, fs, es);
      PrefixRuns(c, env, u0, es, |fs|);
    } else {
      OneCourse(c, env, u0, es, fs);
    }
  }

  lemma {:induction false} PrefixRuns(c: Transfer, env: Env, u0: Used, es: seq<Event>, n: nat)
    requires Follows(c, env, u0, es) && n < |es|
    ensures Replay(c, es[..n]).phase.Running?
  {
    hide NextEvent, UsedBy, Replay;
    var front := es[..|es| - 1];
    if n < |front| {
      PrefixRuns(c, env, u0, front, n);
      assert front[..n] == es[..n];
    } else {
      assert front == es[..n];
    }
  }

  // What a run received, in order.
  function HeardIn(e: Event): seq<Received> {
    match e
    case Packet(pkt) => [Datagram(pkt)]
    case Timeout => [NothingInTime]
    case Send => []
    case GiveUp(_) => []
  }

  function Heard(es: seq<Event>): seq<Received> {
    if es == [] then [] else Heard(es[..|es| - 1]) + HeardIn(es[|es| - 1])
  }

  // What one step takes from the environment, and what it makes of it.
  lemma NextTakes(c: Transfer, env: Env, s: Sender, u: Used)
    requires s.phase.Running?
    ensures var e, u' := NextEvent(c, env, s, u), UsedNext(c, env, s, u);
      var heard := HeardIn(e);
      && u'.sent == u.sent + (if e.Send? then 1 else 0)
      && (e.Send? ==> !env.sendFails(u.sent))
      && u.calls <= u'.calls && (forall k :: u.calls <= k < u'.calls - 1 ==> env.schedule(k) != Fault)
      && (e == GiveUp(ReadFailed) <==> u.calls < u'.calls && env.schedule(u'.calls - 1) == Fault)
      && (u'.received == u.received || (u'.received == u.received + 1 && !env.expired(u.received)))
      && (heard == [] || heard == [env.script(u.received)])
      && (u'.received == u.received + |heard| ||
          (u'.received == u.received + 1 && heard == [] && env.script(u.received).RecvFault? && e == GiveUp(IoFailed)))
      && (e.GiveUp? ==> Step(c, s, e).phase == Failed(e.reason))
      && (!e.GiveUp? ==> Step(c, s, e).phase in {Running, Completed, Failed(ClientAborted)})
  {
    hide CanSend, CallsToFill, FindInFlight;
  }

  // A course hears exactly what the socket yields, in order and without gaps; only a
  // receive that faults, which ends it, is not among what it heard.
  lemma {:induction false} HeardIsScript(c: Transfer, env: Env, u0: Used, es: seq<Event>)
    requires Follows(c, env, u0, es)
    ensures var u := UsedBy(c, env, u0, es);
      && u0.received + |Heard(es)| <= u.received
      && (u.received == u0.received + |Heard(es)| ||
          (u.received == u0.received + |Heard(es)| + 1 && env.script(u.received - 1).RecvFault? && !Replay(c, es).phase.Running?))
    ensures forall i :: 0 <= i < |Heard(es)| ==> Heard(es)[i] == env.script(u0.received + i)
  {
    hide NextEvent, UsedNext, HeardIn, Step;
    if es != [] {
      var front := es[..|es| - 1];
      HeardIsScript(c, env, u0, front);
      NextTakes(c, env, Replay(c, front), UsedBy(c, env, u0, front));
    }
  }

  // -- Every run is some course --------------------------------------------------------------

  // An environment that makes no trouble of its own.
  ghost predicate Untroubled(env: Env) {
    forall n: nat :: !env.sendFails(n) && !env.expired(n) && env.schedule(n) != Fault
  }

  // One in which just these receives come, and after them only timeouts.
  function Scripted(rs: seq<Received>): (env: Env)
    ensures Untroubled(env)
    ensures forall i :: 0 <= i < |rs| ==> env.script(i) == rs[i]
  {
    Env((i: nat) => if i < |rs| then rs[i] else NothingInTime, (n: nat) => false, (n: nat) => false, (n: nat) => UpTo(1))
  }

  // From receive `from` on, these come.
  ghost predicate Yields(env: Env, from: nat, heard: seq<Received>) {
    forall i :: 0 <= i < |heard| ==> env.script(from + i) == heard[i]
  }

  lemma ScriptYields(before: seq<Received>, heard: seq<Received>)
    ensures Untroubled(Scripted(before + heard)) && Yields(Scripted(before + heard), |before|, heard)
  {
    forall i | 0 <= i < |heard| ensures Scripted(before + heard).script(|before| + i) == heard[i] {
      assert (before + heard)[|before| + i] == heard[i];
    }
  }

  predicate NeverGivesUp(es: seq<Event>) {
    forall i :: 0 <= i < |es| ==> !es[i].GiveUp?
  }

  lemma ForcedByScript(c: Transfer, env: Env, s: Sender, u: Used, e: Event)
    requires Enabled(c, s, e) && !e.GiveUp? && Untroubled(env)
    requires HeardIn(e) == [] || HeardIn(e) == [env.script(u.received)]
    ensures NextEvent(c, env, s, u) == e
  {
    hide CanSend;
  }

  // Any legal run that does not give up is forced by any environment that makes no trouble
  // and yields what the run hears.
  lemma {:induction false} LegalIsForced(c: Transfer, env: Env, u0: Used, es: seq<Event>)
    requires Legal(c, es) && NeverGivesUp(es) && Untroubled(env)
    requires Yields(env, u0.received, Heard(es))
    ensures Follows(c, env, u0, es)
  {
    hide NextEvent, UsedNext, HeardIn, Step, CanSend, Untroubled;
    if es != [] {
      var front, e := es[..|es| - 1], es[|es| - 1];
      assert Heard(es) == Heard(front) + HeardIn(e);
      assert forall i :: 0 <= i < |Heard(front)| ==> Heard(es)[i] == Heard(front)[i];
      LegalIsForced(c, env, u0, front);
      HeardIsScript(c, env, u0, front);
      HeardOnce(e);
      if HeardIn(e) != [] {
        assert Heard(es)[|Heard(front)|] == HeardIn(e)[0];
      }
      ForcedByScript(c, env, Replay(c, front), UsedBy(c, env, u0, front), e);
    }
  }

  lemma HeardOnce(e: Event)
    ensures |HeardIn(e)| <= 1
    ensures |HeardIn(e)| == 1 ==> HeardIn(e) == [HeardIn(e)[0]]
  {
  }

  // After some receives `before` it, what it hears is all that has to come.
  lemma LegalAfter(c: Transfer, before: seq<Received>, es: seq<Event>)
    requires Legal(c, es) && NeverGivesUp(es)
    ensures Follows(c, Scripted(before + Heard(es)), Used(|before|, |before|, 0), es)
  {
    hide Legal, Follows, Heard, Untroubled, Scripted, Yields, NeverGivesUp;
    ScriptYields(before, Heard(es));
    LegalIsForced(c, Scripted(before + Heard(es)), Used(|before|, |before|, 0), es);
  }

  // So the courses that do not give up are exactly the legal runs that do not.
  lemma CoursesAreLegalRuns(c: Transfer, es: seq<Event>)
    requires NeverGivesUp(es)
    ensures (exists env :: Follows(c, env, Used(0, 0, 0), es)) <==> Legal(c, es)
  {
    hide Follows, Legal;
    if Legal(c, es) {
      LegalAfter(c, [], es);
    }
    forall env | Follows(c, env, Used(0, 0, 0), es) ensures Legal(c, es) {
      FollowsLegal(c, env, Used(0, 0, 0), es);
    }
  }

  // What ends a transfer, as far as its last step shows.
  lemma NextCause(c: Transfer, env: Env, s: Sender, u: Used)
    requires s.phase.Running?
    ensures var e, u' := NextEvent(c, env, s, u), UsedNext(c, env, s, u);
      var s', last := Step(c, s, e), env.script(u.received);
      if u'.received > u.received then
        && (s'.phase == Failed(ClientAborted) <==> IsClientError(last))
        && (s'.phase == Failed(IoFailed) <==> last.RecvFault?) && s'.phase != Failed(TimedOut)
      else
        && s'.phase != Failed(ClientAborted) && (s'.phase == Failed(IoFailed) ==> CanSend(c, s') && env.sendFails(u'.sent))
        && (s'.phase == Failed(TimedOut) ==> !CanSend(c, s') && (s'.retries >= MAX_RETRIES || env.expired(u'.received)))
  {
    hide CallsToFill, FindInFlight;
  }

  // Until the last thing it does a course meets no fault: no failed send, no failed read,
  // no expired deadline, no error packet and no failed receive.
  ghost predicate NoFaultBefore(env: Env, u0: Used, u: Used) {
    && u0.received <= u.received && u0.sent <= u.sent && u0.calls <= u.calls
    && (forall k :: u0.received <= k < u.received ==> !env.expired(k))
    && (forall k :: u0.sent <= k < u.sent ==> !env.sendFails(k))
    && (forall k :: u0.calls <= k < u.calls - 1 ==> env.schedule(k) != Fault)
    && (forall k :: u0.received <= k < u.received - 1 ==> !IsClientError(env.script(k)) && !env.script(k).RecvFault?)
  }

  // The cause of each way of failing. An error packet, a failed receive or a failed read
  // is always the last thing met, and each decides the reason.
  ghost predicate CausedBy(c: Transfer, env: Env, u0: Used, u: Used, s: Sender) {
    && (s.phase == Failed(ReadFailed) <==> u0.calls < u.calls && env.schedule(u.calls - 1) == Fault)
    && (s.phase == Failed(ClientAborted) <==> u0.received < u.received && IsClientError(env.script(u.received - 1)))
    && (u0.received < u.received && env.script(u.received - 1).RecvFault? ==> s.phase == Failed(IoFailed))
    && (s.phase == Failed(IoFailed) ==>
          (u0.received < u.received && env.script(u.received - 1).RecvFault?) || (CanSend(c, s) && env.sendFails(u.sent)))
    && (s.phase == Failed(TimedOut) ==> !CanSend(c, s) && (s.retries >= MAX_RETRIES || env.expired(u.received)))
  }

  lemma {:induction false} FailsForCause(c: Transfer, env: Env, u0: Used, es: seq<Event>)
    requires Follows(c, env, u0, es)
    ensures NoFaultBefore(env, u0, UsedBy(c, env, u0, es))
    ensures CausedBy(c, env, u0, UsedBy(c, env, u0, es), Replay(c, es))
  {
    hide NextEvent, UsedNext, HeardIn, Step, CanSend, IsClientError;
    if es != [] {
      var front := es[..|es| - 1];
      FailsForCause(c, env, u0, front);
      NextTakes(c, env, Replay(c, front), UsedBy(c, env, u0, front));
      NextCause(c, env, Replay(c, front), UsedBy(c, env, u0, front));
    }
  }

  lemma {:induction false} SendsAreCounted(c: Transfer, env: Env, u0: Used, es: seq<Event>)
    requires Follows(c, env, u0, es)
    ensures UsedBy(c, env, u0, es).sent == u0.sent + Sends(es) == u0.sent + |SentBy(c, es)|
  {
    hide NextEvent, UsedNext, Step;
    if es != [] {
      var front := es[..|es| - 1];
      SendsAreCounted(c, env, u0, front);
      NextTakes(c, env, Replay(c, front), UsedBy(c, env, u0, front));
    }
  }

  lemma {:induction false} HeardIsReceived(es: seq<Event>)
    ensures |Heard(es)| == Receives(es)
  {
    if es != [] {
      HeardIsReceived(es[..|es| - 1]);
    }
  }

  // Whatever the environment, a transfer of n blocks takes at most 5n receives, a failing
  // one included, and sends at most a window for each advancing ACK or timeout and one more.
  lemma CourseIsBounded(c: Transfer, env: Env, u0: Used, es: seq<Event>)
    requires WellFormed(c) && Follows(c, env, u0, es)
    ensures var u := UsedBy(c, env, u0, es);
      && u.received - u0.received <= 5 * Blocks(c)
      && u.sent - u0.sent <= (1 + Advances(c, es) + Timeouts(es)) * c.window
      && u.sent - u0.sent <= (5 * Blocks(c) + 1) * c.window
  {
    FollowsLegal(c, env, u0, es);
    TransferIsBounded(c, es);
    SendsAreCounted(c, env, u0, es);
    hide Sends, Advances, Timeouts, Blocks, SentBy, Legal;
    if es != [] {
      var front := es[..|es| - 1];
      FollowsLegal(c, env, u0, front);
      ReceivesBounded(c, front);
      RunKeepsInv(c, front);
      HeardIsReceived(front);
      HeardIsScript(c, env, u0, front);
      NextTakes(c, env, Replay(c, front), UsedBy(c, env, u0, front));
      AtMostOneReceive(c, env, Replay(c, front), UsedBy(c, env, u0, front));
    }
  }

  // -- The retry budget ----------------------------------------------------------------------

  // Receives since `base` last moved, or since the start.
  function SinceAdvance(c: Transfer, es: seq<Event>): nat {
    if es == [] then 0
    else
      var s, e := Replay(c, es[..|es| - 1]), es[|es| - 1];
      if Step(c, s, e).base > s.base then 0
      else SinceAdvance(c, es[..|es| - 1]) + (if e.Packet? || e.Timeout? then 1 else 0)
  }

  lemma RetriesStep(c: Transfer, s: Sender, e: Event)
    ensures var s' := Step(c, s, e);
      if s'.base > s.base then s'.retries == 0
      else if e.Packet? || e.Timeout? then s'.retries == s.retries + 1 || s'.phase == Failed(ClientAborted)
      else s'.retries == s.retries
  {
  }

  // Unless the client has aborted, that is what the retry counter says.
  lemma {:induction false} RetriesAre(c: Transfer, es: seq<Event>)
    requires Legal(c, es) && Replay(c, es).phase != Failed(ClientAborted)
    ensures Replay(c, es).retries == SinceAdvance(c, es)
  {
    hide Step;
    if es != [] {
      var front, e := es[..|es| - 1], es[|es| - 1];
      RetriesAre(c, front);
      RetriesStep(c, Replay(c, front), e);
    }
  }

  // A full window that still waits gives up for time exactly when five receives have come
  // since `base` last moved, or the deadline has passed.
  lemma BudgetIsFive(c: Transfer, env: Env, u0: Used, es: seq<Event>)
    requires WellFormed(c) && Follows(c, env, u0, es) && Replay(c, es).phase.Running? && !CanSend(c, Replay(c, es))
    ensures SinceAdvance(c, es) <= 5
    ensures NextEvent(c, env, Replay(c, es), UsedBy(c, env, u0, es)) == GiveUp(TimedOut)
       <==> SinceAdvance(c, es) == 5 || env.expired(UsedBy(c, env, u0, es).received)
  {
    hide Replay, UsedBy, Follows, Legal, CanSend, Step;
    FollowsLegal(c, env, u0, es);
    RetriesAre(c, es);
    RunKeepsInv(c, es);
  }

  // So a transfer that has timed out before its deadline has had exactly five receives in a
  // row that did not move `base`.
  lemma TimesOutAfterFive(c: Transfer, env: Env, u0: Used, es: seq<Event>)
    requires WellFormed(c) && Follows(c, env, u0, es) && Replay(c, es).phase == Failed(TimedOut)
    ensures SinceAdvance(c, es) == 5 || env.expired(UsedBy(c, env, u0, es).received)
  {
    hide Replay, UsedBy, Follows, Legal, CanSend, Step;
    FollowsLegal(c, env, u0, es);
    RetriesAre(c, es);
    RunKeepsInv(c, es);
    FailsForCause(c, env, u0, es);
  }

  lemma AtMostOneReceive(c: Transfer, env: Env, s: Sender, u: Used)
    ensures UsedNext(c, env, s, u).received <= u.received + (if s.retries < MAX_RETRIES then 1 else 0)
  {
  }
}
