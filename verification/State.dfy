// The shared state store: a bounded map of hosts and a bounded ring of log events.
module State {
  import opened Prelude
  import opened Text

  const MAX_TRACKED_HOSTS: nat := 4096
  const MAX_LOGS: nat := 200

  datatype HostStatus = Polling | Booting | Completed | Failed

  // Times are nanoseconds on the system clock, which may step backwards.
  datatype HostState = HostState(
    mac: string,
    name: Option<string>,
    status: HostStatus,
    target: Option<string>,
    lastSeen: int,
    clientIp: Option<string>,
    architecture: Option<string>)

  datatype LogEvent = LogEvent(timestamp: int, level: string, mac: Option<string>, message: string)

  datatype Op =
    | Update(mac: string, status: HostStatus, name: Option<string>, target: Option<string>,
             ip: Option<string>, arch: Option<string>, now: int)
    | Clean(maxIdleSecs: nat, now: int)
    | Log(level: string, logMac: Option<string>, message: string, now: int)

  datatype Store = Store(hosts: map<string, HostState>, logs: seq<LogEvent>)

  function OrKeep<T>(given: Option<T>, held: Option<T>): Option<T> {
    if given.Some? then given else held
  }

  function Entry(hosts: map<string, HostState>, key: string, op: Op): HostState
    requires op.Update?
  {
    var h := if key in hosts then hosts[key] else HostState(key, None, op.status, None, op.now, None, None);
    HostState(h.mac, OrKeep(op.name, h.name), op.status, OrKeep(op.target, h.target), op.now,
      OrKeep(op.ip, h.clientIp), OrKeep(op.arch, h.architecture))
  }

  function UpdateHosts(hosts: map<string, HostState>, op: Op): map<string, HostState>
    requires op.Update?
  {
    var key := NormalizeMac(op.mac);
    if key !in hosts && |hosts| >= MAX_TRACKED_HOSTS then hosts
    else hosts[key := Entry(hosts, key, op)]
  }

  // A host is kept while it has been seen recently, or if the clock has stepped back.
  predicate Recent(h: HostState, maxIdleSecs: nat, now: int) {
    now < h.lastSeen || (now - h.lastSeen) / NANOS < maxIdleSecs
  }

  function CleanHosts(hosts: map<string, HostState>, maxIdleSecs: nat, now: int): map<string, HostState> {
    map key | key in hosts && Recent(hosts[key], maxIdleSecs, now) :: hosts[key]
  }

  function EventOf(op: Op): LogEvent
    requires op.Log?
  {
    LogEvent(op.now, op.level, if op.logMac.Some? then Some(NormalizeMac(op.logMac.value)) else None, op.message)
  }

  // The newest `n` elements, oldest first.
  function Newest<T>(s: seq<T>, n: nat): seq<T> {
    if |s| <= n then s else s[|s| - n..]
  }

  function ApplyOp(s: Store, op: Op): Store {
    match op
    case Update(_, _, _, _, _, _, _) => s.(hosts := UpdateHosts(s.hosts, op))
    case Clean(maxIdleSecs, now) => s.(hosts := CleanHosts(s.hosts, maxIdleSecs, now))
    case Log(_, _, _, _) => s.(logs := Newest(s.logs + [EventOf(op)], MAX_LOGS))
  }

  function After(ops: seq<Op>): Store {
    if ops == [] then Store(map[], []) else ApplyOp(After(ops[..|ops| - 1]), ops[|ops| - 1])
  }

  // -- The store as it runs ---------------------------------------------------------------

  class StateStore {
    var hosts: map<string, HostState>
    var logs: seq<LogEvent>

    constructor ()
      ensures State() == After([])
    {
      hosts, logs := map[], [];
    }

    function State(): Store
      reads this
    {
      Store(hosts, logs)
    }

    method UpdateHostStatus(mac: string, status: HostStatus, name: Option<string>, target: Option<string>,
                            ip: Option<string>, arch: Option<string>, now: int)
      modifies this`hosts
      ensures State() == ApplyOp(old(State()), Update(mac, status, name, target, ip, arch, now))
    {
      hide NormalizeMac;
      var normalized := NormalizeMac(mac);
      if normalized !in hosts && |hosts| >= MAX_TRACKED_HOSTS {
        return;
      }
      if normalized !in hosts {
        hosts := hosts[normalized := HostState(normalized, None, status, None, now, None, None)];
      }
      var entry := hosts[normalized];
      entry := entry.(status := status);
      entry := entry.(lastSeen := now);
      if name.Some? {
        entry := entry.(name := name);
      }
      if target.Some? {
        entry := entry.(target := target);
      }
      if ip.Some? {
        entry := entry.(clientIp := ip);
      }
      if arch.Some? {
        entry := entry.(architecture := arch);
      }
      hosts := hosts[normalized := entry];
    }

    // However a MAC is spelt, the entry found is the one for its normalised form.
    method GetHost(mac: string) returns (h: Option<HostState>)
      ensures h.Some? <==> NormalizeMac(mac) in hosts
      ensures h.Some? ==> h.value == hosts[NormalizeMac(mac)]
      ensures h.Some? && HostsInv(hosts) ==> h.value.mac == NormalizeMac(mac)
    {
      var normalized := NormalizeMac(mac);
      h := if normalized in hosts then Some(hosts[normalized]) else None;
    }

    // Appends, then evicts from the front until back within the cap.
    method Record(level: string, mac: Option<string>, message: string, now: int)
      modifies this`logs
      ensures |logs| <= MAX_LOGS
      ensures State() == ApplyOp(old(State()), Log(level, mac, message, now))
    {
      var normalized := if mac.Some? then Some(NormalizeMac(mac.value)) else None;
      logs := logs + [LogEvent(now, level, normalized, message)];
      ghost var all := logs;
      while |logs| > MAX_LOGS
        invariant |logs| <= |all| && logs == all[|all| - |logs|..]
        invariant |logs| == |all| || |logs| >= MAX_LOGS
      {
        logs := logs[1..];
      }
    }

    method CleanStaleHosts(maxIdleSecs: nat, now: int)
      modifies this`hosts
      ensures State() == ApplyOp(old(State()), Clean(maxIdleSecs, now))
    {
      hosts := map key | key in hosts && Recent(hosts[key], maxIdleSecs, now) :: hosts[key];
    }

    // Any interleaving of the operations reaches the state the specification gives.
    method Perform(ops: seq<Op>)
      requires State() == After([])
      modifies this
      ensures State() == After(ops)
    {
      hide ApplyOp;
      for i := 0 to |ops|
        invariant State() == After(ops[..i])
      {
        assert ops[..i + 1][..i] == ops[..i];
        match ops[i] {
          case Update(mac, status, name, target, ip, arch, now) =>
            UpdateHostStatus(mac, status, name, target, ip, arch, now);
          case Clean(maxIdleSecs, now) => CleanStaleHosts(maxIdleSecs, now);
          case Log(level, mac, message, now) => Record(level, mac, message, now);
        }
      }
      assert ops[..|ops|] == ops;
    }
  }

  // -- Over all runs -------------------------------------------------------------------------

  // Keys are normalised and name their own entries, and the map stays bounded.
  ghost predicate HostsInv(hosts: map<string, HostState>) {
    && |hosts| <= 4096
    && forall key :: key in hosts ==> NormalizeMac(key) == key && hosts[key].mac == key
  }

  lemma CleanShrinks(hosts: map<string, HostState>, maxIdleSecs: nat, now: int)
    ensures |CleanHosts(hosts, maxIdleSecs, now)| <= |hosts|
  {
    var kept := CleanHosts(hosts, maxIdleSecs, now);
    SubsetSize(kept.Keys, hosts.Keys);
  }

  lemma {:induction false} SubsetSize(a: set<string>, b: set<string>)
    requires a <= b
    ensures |a| <= |b|
  {
    if a != {} {
      var x :| x in a;
      SubsetSize(a - {x}, b - {x});
    }
  }

  lemma {:induction false} HostsStayBounded(ops: seq<Op>)
    ensures HostsInv(After(ops).hosts)
  {
    hide NormalizeMac, Recent;
    if ops != [] {
      var front, op := ops[..|ops| - 1], ops[|ops| - 1];
      HostsStayBounded(front);
      if op.Update? {
        NormalizeIdempotent(op.mac);
      } else if op.Clean? {
        CleanShrinks(After(front).hosts, op.maxIdleSecs, op.now);
      }
    }
  }

  // A host is kept by a clean exactly when less than the idle time, counted in nanoseconds,
  // has passed since it was last seen.
  lemma RecentExactly(h: HostState, maxIdleSecs: nat, now: int)
    ensures Recent(h, maxIdleSecs, now) <==> now - h.lastSeen < maxIdleSecs * 1_000_000_000
  {
  }

  // Which hosts are held: an update takes a new one in while fewer than 4096 are held, and
  // only a clean lets any go, those not seen in time.
  lemma HeldExactly(ops: seq<Op>, op: Op, key: string)
    ensures var before, after := After(ops).hosts, After(ops + [op]).hosts;
      key in after <==>
        || (key in before && (op.Clean? ==> op.now - before[key].lastSeen < op.maxIdleSecs * 1_000_000_000))
        || (op.Update? && NormalizeMac(op.mac) == key && |before| < 4096)
  {
    hide NormalizeMac, Recent, Entry;
    assert (ops + [op])[..|ops + [op]| - 1] == ops;
    if op.Clean? && key in After(ops).hosts {
      RecentExactly(After(ops).hosts[key], op.maxIdleSecs, op.now);
    }
  }

  lemma UntilLastUpdate(s: Store, op: Op, key: string)
    requires key in ApplyOp(s, op).hosts
    ensures var h := ApplyOp(s, op).hosts[key];
      if Concerns(op, key) then h.status == op.status && h.lastSeen == op.now
      else key in s.hosts && h == s.hosts[key]
  {
    hide NormalizeMac, Recent;
  }

  // Over every run: a host held has the status and the time of the last update for its MAC.
  lemma {:induction false} LastUpdateRules(ops: seq<Op>, key: string) returns (j: nat)
    requires key in After(ops).hosts
    ensures j < |ops| && Concerns(ops[j], key) && forall i :: j < i < |ops| ==> !Concerns(ops[i], key)
    ensures After(ops).hosts[key].status == ops[j].status && After(ops).hosts[key].lastSeen == ops[j].now
  {
    hide ApplyOp, Concerns;
    assert ops != [];
    var front, op := ops[..|ops| - 1], ops[|ops| - 1];
    UntilLastUpdate(After(front), op, key);
    if Concerns(op, key) {
      j := |ops| - 1;
      ConcernsIs(op, key);
    } else {
      j := LastUpdateRules(front, key);
      ConcernsIs(ops[j], key);
    }
  }

  lemma ConcernsIs(op: Op, key: string)
    ensures Concerns(op, key) ==> op.Update?
  {
  }

  function LoggedBy(op: Op): seq<LogEvent> {
    match op
    case Log(level, None, message, now) => [LogEvent(now, level, None, message)]
    case Log(level, Some(mac), message, now) => [LogEvent(now, level, Some(NormalizeMac(mac)), message)]
    case Update(_, _, _, _, _, _, _) => []
    case Clean(_, _) => []
  }

  // Every event ever logged, in order: with its time, level and message, and its MAC normalised.
  function Logged(ops: seq<Op>): seq<LogEvent> {
    if ops == [] then [] else Logged(ops[..|ops| - 1]) + LoggedBy(ops[|ops| - 1])
  }

  lemma LogsStep(s: Store, op: Op)
    ensures ApplyOp(s, op).logs == if op.Log? then Newest(s.logs + LoggedBy(op), 200) else s.logs
    ensures |LoggedBy(op)| == if op.Log? then 1 else 0
  {
    hide NormalizeMac, Newest;
  }

  lemma NewestOfMore<T>(s: seq<T>, more: seq<T>, n: nat)
    ensures Newest(Newest(s, n) + more, n) == Newest(s + more, n)
  {
  }

  // The ring holds exactly the newest 200 events, oldest first.
  lemma {:induction false} RingHoldsNewest(ops: seq<Op>)
    ensures |After(ops).logs| == Min(|Logged(ops)|, 200)
    ensures After(ops).logs == Logged(ops)[|Logged(ops)| - |After(ops).logs|..]
  {
    RingIsNewest(ops);
    hide After, Logged;
  }

  lemma {:induction false} RingIsNewest(ops: seq<Op>)
    ensures After(ops).logs == Newest(Logged(ops), 200)
  {
    hide ApplyOp, LoggedBy, Newest;
    if ops == [] {
      NothingNew();
    } else {
      var front, op := ops[..|ops| - 1], ops[|ops| - 1];
      RingIsNewest(front);
      LogsStep(After(front), op);
      NewestOfMore(Logged(front), LoggedBy(op), 200);
      assert !op.Log? ==> Logged(ops) == Logged(front);
    }
  }

  lemma NothingNew()
    ensures Newest<LogEvent>([], 200) == []
  {
  }

  datatype Field = Name | Target | Ip | Arch

  function Get(h: HostState, f: Field): Option<string> {
    match f case Name => h.name case Target => h.target case Ip => h.clientIp case Arch => h.architecture
  }

  predicate Concerns(op: Op, key: string) {
    op.Update? && NormalizeMac(op.mac) == key
  }

  // What an operation says about one field of one host.
  function Gives(op: Op, key: string, f: Field): Option<string> {
    if !Concerns(op, key) then None
    else match f case Name => op.name case Target => op.target case Ip => op.ip case Arch => op.arch
  }

  // Host `key` was created by operation c and has been held ever since.
  ghost predicate CreatedAt(ops: seq<Op>, key: string, c: nat) {
    && c < |ops| && Concerns(ops[c], key) && key !in After(ops[..c]).hosts
    && forall t :: c < t <= |ops| ==> key in After(ops[..t]).hosts
  }

  // v is the last value given for the field from operation c on; None if there was none.
  ghost predicate LastGiven(ops: seq<Op>, key: string, f: Field, c: nat, v: Option<string>) {
    match v
    case None => forall i :: c <= i < |ops| ==> Gives(ops[i], key, f).None?
    case Some(_) =>
      exists j :: c <= j < |ops| && Gives(ops[j], key, f) == v && forall i :: j < i < |ops| ==> Gives(ops[i], key, f).None?
  }

  lemma LastGivenExtends(ops: seq<Op>, op: Op, key: string, f: Field, c: nat, v: Option<string>)
    requires c <= |ops| && LastGiven(ops, key, f, c, v)
    ensures LastGiven(ops + [op], key, f, c, OrKeep(Gives(op, key, f), v))
  {
    hide Gives;
    var all := ops + [op];
    assert forall i :: 0 <= i < |ops| ==> all[i] == ops[i];
    assert all[|ops|] == op;
    if Gives(op, key, f).None? && v.Some? {
      var j :| c <= j < |ops| && Gives(ops[j], key, f) == v && forall i :: j < i < |ops| ==> Gives(ops[i], key, f).None?;
      assert Gives(all[j], key, f) == v;
    }
  }

  lemma CreatedExtends(ops: seq<Op>, op: Op, key: string, c: nat)
    requires CreatedAt(ops, key, c) && key in After(ops + [op]).hosts
    ensures CreatedAt(ops + [op], key, c)
  {
    hide After;
    var all := ops + [op];
    forall t | c < t <= |all| ensures key in After(all[..t]).hosts {
      if t == |all| {
        assert all[..t] == all;
      } else {
        assert all[..t] == ops[..t];
      }
    }
    assert all[..c] == ops[..c];
  }

  lemma StepFields(s: Store, op: Op, key: string, f: Field)
    requires key in ApplyOp(s, op).hosts
    ensures key in s.hosts ==>
      Get(ApplyOp(s, op).hosts[key], f) == OrKeep(Gives(op, key, f), Get(s.hosts[key], f))
    ensures key !in s.hosts ==>
      Concerns(op, key) && Get(ApplyOp(s, op).hosts[key], f) == Gives(op, key, f)
  {
    hide NormalizeMac, Recent;
  }

  // Over every run: an entry's optional field is the last value an update gave it since
  // the entry was created, and empty if none did.
  lemma {:induction false} FieldIsLastGiven(ops: seq<Op>, key: string, f: Field) returns (c: nat)
    requires key in After(ops).hosts
    ensures CreatedAt(ops, key, c)
    ensures LastGiven(ops, key, f, c, Get(After(ops).hosts[key], f))
  {
    hide ApplyOp, Gives, Concerns, Get;
    assert ops != [];
    var front, op := ops[..|ops| - 1], ops[|ops| - 1];
    assert front + [op] == ops;
    StepFields(After(front), op, key, f);
    if key in After(front).hosts {
      c := FieldIsLastGiven(front, key, f);
      CreatedExtends(front, op, key, c);
      LastGivenExtends(front, op, key, f, c, Get(After(front).hosts[key], f));
    } else {
      c := |front|;
      assert ops[..|ops|] == ops;
      NothingBefore(front, key, f);
      LastGivenExtends(front, op, key, f, c, None);
      GivesOrNone(op, key, f);
    }
  }

  lemma NothingBefore(ops: seq<Op>, key: string, f: Field)
    ensures LastGiven(ops, key, f, |ops|, None)
  {
  }

  lemma GivesOrNone(op: Op, key: string, f: Field)
    ensures OrKeep(Gives(op, key, f), None) == Gives(op, key, f)
  {
  }
}
