/** ping.go of libping: the library-wide constants, the per-family choices of the
    ICMP probers (listen address, echo message type, the echo request record), the
    single-attempt IcmpPing and TcpPing.

    Each socket call, clock read, write and read is an input: an environment value
    says how each of them turns out, and each prober returns its latency, its error
    and the trace of effects it performed. Durations and clock readings are integer
    nanoseconds (time.Duration). */
module Ping {
  import opened PingTypes
  import PingStub

  const Millisecond: int := 1_000_000

  /** The largest time a single probe may take. */
  const MaxTimeout: int := 5000 * Millisecond

  /** The identifier every echo request carries. */
  const EchoId: nat := 0xDBB

  /** ipv4.ICMPTypeEcho: the Echo message of RFC 792. */
  const IcmpV4Echo: nat := 8

  /** ipv6.ICMPTypeEchoRequest: the Echo Request of section 4.1 of RFC 4443. */
  const IcmpV6EchoRequest: nat := 128

  /** The wildcard address the ICMP listener binds to. */
  function ListenAddress(f: Family): string
  {
    if f.V6? then "::" else "0.0.0.0"
  }

  /** The family a textual address belongs to: IPv6 addresses are written with ':'. */
  function AddressFamily(address: string): Family
  {
    if ':' in address then V6 else V4
  }

  /** The echo message type the prober sends for a family. */
  function EchoType(f: Family): nat
  {
    if f.V6? then IcmpV6EchoRequest else IcmpV4Echo
  }

  /** The echo request type of an ICMP flavour, by its IANA protocol number. */
  function EchoRequestTypeOf(protocol: nat): Option<nat>
  {
    if protocol == 1 then Some(8) else if protocol == 58 then Some(128) else None
  }

  /** The echo request the probers build: fixed identifier, the given sequence
      number, the caller's payload as the body. */
  function EchoRequest(f: Family, sequence: nat, payload: seq<bv8>): EchoMessage
  {
    EchoMessage(EchoType(f), 0, EchoId, sequence, payload)
  }

  /** The listener binds the wildcard address of the same family as its network
      name, and that address is all zeros. */
  lemma ListenAddressMatchesNetwork(f: Family)
    ensures PingStub.NetworkFamily(PingStub.IcmpNetwork(f)) == Some(f)
    ensures AddressFamily(ListenAddress(f)) == f
    ensures forall c :: c in ListenAddress(f) ==> c in "0.:"
  {
    PingStub.NetworkRoundTrip(f);
    assert ':' !in "0.0.0.0";
  }

  /** The message type is the echo request of the ICMP flavour the family's
      network name and socket use: 8 for IPv4, 128 for IPv6. */
  lemma EchoTypeMatchesProtocol(f: Family)
    ensures EchoRequestTypeOf(PingStub.ProtocolNumber(f)) == Some(EchoType(f))
    ensures EchoType(f) == 8 <==> f == V4
    ensures EchoType(f) == 128 <==> f == V6
  {
  }

  /** How the effects of the single-attempt IcmpPing turn out: whether listening
      and SyscallConn succeed, whether rawConn.Control runs its callback and on which
      descriptor, the clock reading taken before the message is built, whether
      marshalling and the write succeed, and what the read returns. */
  datatype ListenEnv = ListenEnv(
    listenOk: bool, syscallOk: bool, controlRuns: bool, fd: int,
    start: int, marshalOk: bool, writeOk: bool, read: ReadOutcome)

  /** The connection is ready once listening, and on unix SyscallConn, succeeded. */
  predicate ConnReady(isUnix: bool, env: ListenEnv)
  {
    env.listenOk && (!isUnix || env.syscallOk)
  }

  /** The effects between listening and the clock read: on unix SyscallConn, and
      the hook when Control runs its callback and FdControl is set. */
  function ConnSetup(isUnix: bool, hookSet: bool, env: ListenEnv): seq<Event>
  {
    if isUnix then [RawConn] + (if env.controlRuns && hookSet then [Hook(env.fd)] else []) else []
  }

  /** The effects before the message is built: the listen, the connection setup,
      then the clock read that starts the latency measurement. */
  function SetupTrace(target: Family, isUnix: bool, hookSet: bool, env: ListenEnv): seq<Event>
  {
    [ListenOn(PingStub.IcmpNetwork(target), ListenAddress(target))] + ConnSetup(isUnix, hookSet, env) + [ClockStart]
  }

  /** The part of IcmpPing of ping.go after the clock starts: marshal, write,
      read. */
  function Exchange(target: Family, payload: seq<bv8>, env: ListenEnv): Outcome
  {
    var msg := EchoRequest(target, 0, payload);
    if !env.marshalOk then Outcome(-1, Some(MakeMessage), [])
    else if !env.writeOk then Outcome(-1, Some(WriteHead), [Send(msg)])
    else match env.read
      case ReadErr(_) => Outcome(-1, Some(ReadFrom), [Send(msg)] + [Receive])
      case ReadOk(at) => Outcome(at - env.start, None, [Send(msg)] + [Receive])
  }

  /** What IcmpPing of ping.go does, as a function of how its effects turn out.
      hookSet says whether FdControl is non-nil. */
  function SingleShot(target: Family, payload: seq<bv8>, isUnix: bool, hookSet: bool, env: ListenEnv): Outcome
  {
    var listen := ListenOn(PingStub.IcmpNetwork(target), ListenAddress(target));
    if !env.listenOk then Outcome(-1, Some(Listen), [listen])
    else if isUnix && !env.syscallOk then Outcome(-1, Some(GetSyscallConn), [listen, RawConn, Release])
    else Released(Prepend(SetupTrace(target, isUnix, hookSet, env), Exchange(target, payload, env)))
  }

  /** IcmpPing of ping.go: one listen, at most one hook call, one message, one
      write, one read, no retry, each failure returned at once. */
  method IcmpPing(target: Family, payload: seq<bv8>, isUnix: bool, hookSet: bool, env: ListenEnv)
    returns (latency: int, err: Option<PingError>, trace: seq<Event>)
    ensures Outcome(latency, err, trace) == SingleShot(target, payload, isUnix, hookSet, env)
  {
    trace := [ListenOn(PingStub.IcmpNetwork(target), ListenAddress(target))];
    if !env.listenOk {
      return -1, Some(Listen), trace;
    }
    if isUnix {
      trace := trace + [RawConn];
      if !env.syscallOk {
        return -1, Some(GetSyscallConn), trace + [Release];
      }
      if env.controlRuns && hookSet {
        trace := trace + [Hook(env.fd)];
      }
    }
    trace := trace + [ClockStart];
    assert trace == SetupTrace(target, isUnix, hookSet, env);
    var start := env.start;
    var msg := EchoRequest(target, 0, payload);
    if !env.marshalOk {
      return -1, Some(MakeMessage), trace + [Release];
    }
    var exchange := [Send(msg)];
    if !env.writeOk {
      return -1, Some(WriteHead), trace + exchange + [Release];
    }
    exchange := exchange + [Receive];
    match env.read {
      case ReadErr(_) =>
        return -1, Some(ReadFrom), trace + exchange + [Release];
      case ReadOk(at) =>
        return at - start, None, trace + exchange + [Release];
    }
  }

  /** time.Since reads Go's monotonic clock: a read that returns does so no
      earlier than the clock reading that starts the measurement. */
  predicate ReadAfterStart(env: ListenEnv)
  {
    env.read.ReadOk? ==> env.read.at >= env.start
  }

  /** The checks fail in the source's order: listen, SyscallConn (unix only),
      marshal, write, read; success needs all of them to pass. */
  lemma SingleShotErrorOrder(target: Family, payload: seq<bv8>, isUnix: bool, hookSet: bool, env: ListenEnv)
    ensures var o := SingleShot(target, payload, isUnix, hookSet, env);
      && (o.err == Some(Listen) <==> !env.listenOk)
      && (o.err == Some(GetSyscallConn) <==> env.listenOk && isUnix && !env.syscallOk)
      && (o.err == Some(MakeMessage) <==> ConnReady(isUnix, env) && !env.marshalOk)
      && (o.err == Some(WriteHead) <==> ConnReady(isUnix, env) && env.marshalOk && !env.writeOk)
      && (o.err == Some(ReadFrom) <==>
            ConnReady(isUnix, env) && env.marshalOk && env.writeOk && env.read.ReadErr?)
      && (o.err.None? <==> ConnReady(isUnix, env) && env.marshalOk && env.writeOk && env.read.ReadOk?)
  {
  }

  /** Every failure returns latency -1; success returns the time elapsed since
      the clock read that follows the socket setup. */
  lemma SingleShotLatency(target: Family, payload: seq<bv8>, isUnix: bool, hookSet: bool, env: ListenEnv)
    ensures var o := SingleShot(target, payload, isUnix, hookSet, env);
      && (o.err.Some? ==> o.latency == -1)
      && (o.err.None? ==> o.latency == env.read.at - env.start)
      && (ReadAfterStart(env) ==> (o.err.None? ==> o.latency >= 0) && (o.latency == -1 <==> o.err.Some?))
  {
  }

  /** The connection setup writes nothing and calls the hook once on the
      socket's descriptor exactly when it is on unix, Control runs its callback and
      FdControl is set. */
  lemma ConnSetupFilters(isUnix: bool, hookSet: bool, env: ListenEnv)
    ensures Sends(ConnSetup(isUnix, hookSet, env)) == []
    ensures Hooks(ConnSetup(isUnix, hookSet, env)) == (if isUnix && env.controlRuns && hookSet then [env.fd] else [])
  {
    var t := ConnSetup(isUnix, hookSet, env);
    if !isUnix {
      assert t == [];
    } else if env.controlRuns && hookSet {
      assert t == [RawConn] + [Hook(env.fd)];
      SingleFilters(RawConn);
      SingleFilters(Hook(env.fd));
      FiltersAppend([RawConn], [Hook(env.fd)]);
    } else {
      assert t == [RawConn];
      SingleFilters(RawConn);
    }
  }

  /** The connection setup, counted by kind: SyscallConn on unix, and the hook
      under the same conditions as above. */
  lemma ConnSetupCount(isUnix: bool, hookSet: bool, env: ListenEnv, k: Kind)
    ensures Count(ConnSetup(isUnix, hookSet, env), k) ==
      if k == RawConnKind && isUnix then 1
      else if k == HookKind && isUnix && env.controlRuns && hookSet then 1
      else 0
  {
    var t := ConnSetup(isUnix, hookSet, env);
    if !isUnix {
      assert t == [];
    } else if env.controlRuns && hookSet {
      assert t == [RawConn] + [Hook(env.fd)];
      SingleCount(RawConn, k);
      SingleCount(Hook(env.fd), k);
      CountAppend([RawConn], [Hook(env.fd)], k);
    } else {
      assert t == [RawConn];
      SingleCount(RawConn, k);
    }
  }

  /** A listen, a connection setup that writes nothing, and the clock start,
      seen through the filters. */
  lemma SetupShape(l: Event, mid: seq<Event>)
    requires l.ListenOn? && Sends(mid) == []
    ensures Sends([l] + mid + [ClockStart]) == []
    ensures Hooks([l] + mid + [ClockStart]) == Hooks(mid)
  {
    SingleFilters(l);
    SingleFilters(ClockStart);
    FiltersAppend([l], mid);
    FiltersAppend([l] + mid, [ClockStart]);
  }

  /** The setup writes nothing, calls the hook as the connection setup does, and
      starts the clock as its last effect. */
  lemma SetupFilters(target: Family, isUnix: bool, hookSet: bool, env: ListenEnv)
    ensures var t := SetupTrace(target, isUnix, hookSet, env);
      && Sends(t) == [] && Hooks(t) == (if isUnix && env.controlRuns && hookSet then [env.fd] else [])
      && t[|t| - 1] == ClockStart
  {
    var l := ListenOn(PingStub.IcmpNetwork(target), ListenAddress(target));
    var mid := ConnSetup(isUnix, hookSet, env);
    ConnSetupFilters(isUnix, hookSet, env);
    SetupShape(l, mid);
  }

  /** The setup, counted by kind: one listen, one clock start, and the
      connection setup. */
  lemma SetupCount(target: Family, isUnix: bool, hookSet: bool, env: ListenEnv, k: Kind)
    ensures Count(SetupTrace(target, isUnix, hookSet, env), k) ==
      if k == ListenKind || k == ClockKind then 1
      else if k == RawConnKind && isUnix then 1
      else if k == HookKind && isUnix && env.controlRuns && hookSet then 1
      else 0
  {
    var l := ListenOn(PingStub.IcmpNetwork(target), ListenAddress(target));
    var mid := ConnSetup(isUnix, hookSet, env);
    var t := SetupTrace(target, isUnix, hookSet, env);
    assert t == ([l] + mid) + [ClockStart];
    ConnSetupCount(isUnix, hookSet, env, k);
    SingleCount(l, k);
    SingleCount(ClockStart, k);
    CountAppend([l], mid, k);
    CountAppend([l] + mid, [ClockStart], k);
  }

  /** The exchange writes the request once marshalling succeeded and calls no
      hook. */
  lemma ExchangeFilters(target: Family, payload: seq<bv8>, env: ListenEnv)
    ensures Sends(Exchange(target, payload, env).trace) == (if env.marshalOk then [EchoRequest(target, 0, payload)] else [])
    ensures Hooks(Exchange(target, payload, env).trace) == []
  {
    var t := Exchange(target, payload, env).trace;
    var msg := EchoRequest(target, 0, payload);
    if !env.marshalOk {
      assert t == [];
    } else if !env.writeOk {
      assert t == [Send(msg)];
      SingleFilters(Send(msg));
    } else {
      assert t == [Send(msg)] + [Receive];
      SingleFilters(Send(msg));
      SingleFilters(Receive);
      FiltersAppend([Send(msg)], [Receive]);
    }
  }

  /** The exchange writes once marshalling succeeded, reads once the write
      succeeded, and does nothing else. */
  lemma ExchangeCount(target: Family, payload: seq<bv8>, env: ListenEnv, k: Kind)
    ensures Count(Exchange(target, payload, env).trace, k) ==
      if k == SendKind && env.marshalOk then 1
      else if k == ReceiveKind && env.marshalOk && env.writeOk then 1
      else 0
  {
    var t := Exchange(target, payload, env).trace;
    var msg := EchoRequest(target, 0, payload);
    if !env.marshalOk {
      assert t == [];
    } else if !env.writeOk {
      assert t == [Send(msg)];
      SingleCount(Send(msg), k);
    } else {
      assert t == [Send(msg)] + [Receive];
      SingleCount(Send(msg), k);
      SingleCount(Receive, k);
      CountAppend([Send(msg)], [Receive], k);
    }
  }

  /** Once the socket is ready, the trace is the setup, the exchange and the
      close. */
  lemma SingleShotSplit(target: Family, payload: seq<bv8>, isUnix: bool, hookSet: bool, env: ListenEnv)
    requires ConnReady(isUnix, env)
    ensures SingleShot(target, payload, isUnix, hookSet, env).trace
         == SetupTrace(target, isUnix, hookSet, env) + Exchange(target, payload, env).trace + [Release]
  {
  }

  /** The requests and hook calls of a ready probe: the request of the exchange
      and the hook call of the setup. */
  lemma ReadyFilters(target: Family, payload: seq<bv8>, isUnix: bool, hookSet: bool, env: ListenEnv)
    requires ConnReady(isUnix, env)
    ensures var t := SingleShot(target, payload, isUnix, hookSet, env).trace;
      && Sends(t) == (if env.marshalOk then [EchoRequest(target, 0, payload)] else [])
      && Hooks(t) == (if isUnix && env.controlRuns && hookSet then [env.fd] else [])
  {
    var t := SingleShot(target, payload, isUnix, hookSet, env).trace;
    var setup := SetupTrace(target, isUnix, hookSet, env);
    var x := Exchange(target, payload, env).trace;
    assert t == setup + x + [Release] by {
      SingleShotSplit(target, payload, isUnix, hookSet, env);
    }
    assert Sends(t) == Sends(setup) + Sends(x) && Hooks(t) == Hooks(setup) + Hooks(x) by {
      SingleFilters(Release);
      FiltersAppend(setup, x);
      FiltersAppend(setup + x, [Release]);
    }
    SetupFilters(target, isUnix, hookSet, env);
    ExchangeFilters(target, payload, env);
  }

  /** The effects of a ready probe, counted by kind, are those of the setup,
      those of the exchange and one close. */
  lemma ReadyCount(target: Family, payload: seq<bv8>, isUnix: bool, hookSet: bool, env: ListenEnv, k: Kind)
    requires ConnReady(isUnix, env)
    ensures Count(SingleShot(target, payload, isUnix, hookSet, env).trace, k)
         == Count(SetupTrace(target, isUnix, hookSet, env), k) + Count(Exchange(target, payload, env).trace, k)
            + (if k == ReleaseKind then 1 else 0)
  {
    var t := SingleShot(target, payload, isUnix, hookSet, env).trace;
    var setup := SetupTrace(target, isUnix, hookSet, env);
    var x := Exchange(target, payload, env).trace;
    assert t == setup + x + [Release] by {
      SingleShotSplit(target, payload, isUnix, hookSet, env);
    }
    SingleCount(Release, k);
    CountAppend(setup, x, k);
    CountAppend(setup + x, [Release], k);
  }

  /** Before the socket is ready the probe writes and hooks nothing. */
  lemma EarlyFilters(target: Family, payload: seq<bv8>, isUnix: bool, hookSet: bool, env: ListenEnv)
    requires !ConnReady(isUnix, env)
    ensures Sends(SingleShot(target, payload, isUnix, hookSet, env).trace) == []
    ensures Hooks(SingleShot(target, payload, isUnix, hookSet, env).trace) == []
  {
    var t := SingleShot(target, payload, isUnix, hookSet, env).trace;
    var l := ListenOn(PingStub.IcmpNetwork(target), ListenAddress(target));
    SingleFilters(l);
    if env.listenOk {
      assert t == [l] + [RawConn] + [Release];
      SingleFilters(RawConn);
      SingleFilters(Release);
      FiltersAppend([l], [RawConn]);
      FiltersAppend([l] + [RawConn], [Release]);
    } else {
      assert t == [l];
    }
  }

  /** Before the socket is ready the probe listens, calls SyscallConn and closes
      the connection when it has one, and does nothing else: in particular it
      does not start the clock. */
  lemma EarlyCount(target: Family, payload: seq<bv8>, isUnix: bool, hookSet: bool, env: ListenEnv, k: Kind)
    requires !ConnReady(isUnix, env)
    ensures Count(SingleShot(target, payload, isUnix, hookSet, env).trace, k) ==
      if k == ListenKind then 1
      else if (k == RawConnKind || k == ReleaseKind) && env.listenOk then 1
      else 0
  {
    var t := SingleShot(target, payload, isUnix, hookSet, env).trace;
    var l := ListenOn(PingStub.IcmpNetwork(target), ListenAddress(target));
    SingleCount(l, k);
    if env.listenOk {
      assert t == [l] + [RawConn] + [Release];
      SingleCount(RawConn, k);
      SingleCount(Release, k);
      CountAppend([l], [RawConn], k);
      CountAppend([l] + [RawConn], [Release], k);
    } else {
      assert t == [l];
    }
  }

  /** Exactly one request is written once the socket is ready and marshalling
      succeeded, none otherwise; it carries the family's echo type, identifier
      0xDBB, sequence number 0 and the payload unchanged. */
  lemma SingleShotRequest(target: Family, payload: seq<bv8>, isUnix: bool, hookSet: bool, env: ListenEnv)
    ensures var t := SingleShot(target, payload, isUnix, hookSet, env).trace;
      && Sends(t) == (if ConnReady(isUnix, env) && env.marshalOk then [EchoRequest(target, 0, payload)] else [])
      && (forall m :: m in Sends(t) ==>
            m.msgType == EchoType(target) && m.id == 0xDBB && m.sequence == 0 && m.data == payload)
  {
    if ConnReady(isUnix, env) {
      ReadyFilters(target, payload, isUnix, hookSet, env);
    } else {
      EarlyFilters(target, payload, isUnix, hookSet, env);
    }
  }

  /** A read happens at most once, and only after a successful write. */
  lemma SingleShotReceive(target: Family, payload: seq<bv8>, isUnix: bool, hookSet: bool, env: ListenEnv)
    ensures Count(SingleShot(target, payload, isUnix, hookSet, env).trace, ReceiveKind) ==
              (if ConnReady(isUnix, env) && env.marshalOk && env.writeOk then 1 else 0)
  {
    if ConnReady(isUnix, env) {
      ReadyCount(target, payload, isUnix, hookSet, env, ReceiveKind);
      SetupCount(target, isUnix, hookSet, env, ReceiveKind);
      ExchangeCount(target, payload, env, ReceiveKind);
    } else {
      EarlyCount(target, payload, isUnix, hookSet, env, ReceiveKind);
    }
  }

  /** FdControl runs at most once, on the socket's descriptor: only on unix,
      only when it is set and Control runs its callback. */
  lemma SingleShotHookOnce(target: Family, payload: seq<bv8>, isUnix: bool, hookSet: bool, env: ListenEnv)
    ensures Hooks(SingleShot(target, payload, isUnix, hookSet, env).trace) ==
              (if env.listenOk && isUnix && env.syscallOk && env.controlRuns && hookSet then [env.fd] else [])
  {
    if ConnReady(isUnix, env) {
      ReadyFilters(target, payload, isUnix, hookSet, env);
    } else {
      EarlyFilters(target, payload, isUnix, hookSet, env);
    }
  }

  /** In the trace of a ready probe, events of kind p in the setup come before
      events of kind q, when the setup has no q and the rest has no p. */
  lemma SingleShotOrder(target: Family, payload: seq<bv8>, isUnix: bool, hookSet: bool, env: ListenEnv, p: Kind, q: Kind)
    requires ConnReady(isUnix, env)
    requires Count(SetupTrace(target, isUnix, hookSet, env), q) == 0
    requires Count(Exchange(target, payload, env).trace, p) == 0 && p != ReleaseKind
    ensures Before(SingleShot(target, payload, isUnix, hookSet, env).trace, p, q)
  {
    var setup := SetupTrace(target, isUnix, hookSet, env);
    var x := Exchange(target, payload, env).trace;
    SingleShotSplit(target, payload, isUnix, hookSet, env);
    BeforeRelease(setup, x, p, q);
  }

  /** A trace without events of kind q orders kind p before q trivially. */
  lemma BeforeVacuous(t: seq<Event>, p: Kind, q: Kind)
    requires Count(t, q) == 0
    ensures Before(t, p, q)
  {
    CountZero(t, q);
  }

  /** The hook, when it runs, runs before the write. */
  lemma SingleShotHookFirst(target: Family, payload: seq<bv8>, isUnix: bool, hookSet: bool, env: ListenEnv)
    ensures Before(SingleShot(target, payload, isUnix, hookSet, env).trace, HookKind, SendKind)
  {
    if ConnReady(isUnix, env) {
      SetupCount(target, isUnix, hookSet, env, SendKind);
      ExchangeCount(target, payload, env, HookKind);
      SingleShotOrder(target, payload, isUnix, hookSet, env, HookKind, SendKind);
    } else {
      EarlyCount(target, payload, isUnix, hookSet, env, SendKind);
      BeforeVacuous(SingleShot(target, payload, isUnix, hookSet, env).trace, HookKind, SendKind);
    }
  }

  /** The latency clock starts once, and only once the socket is set up. */
  lemma SingleShotClockOnce(target: Family, payload: seq<bv8>, isUnix: bool, hookSet: bool, env: ListenEnv)
    ensures Count(SingleShot(target, payload, isUnix, hookSet, env).trace, ClockKind) ==
              (if ConnReady(isUnix, env) then 1 else 0)
  {
    if ConnReady(isUnix, env) {
      ReadyCount(target, payload, isUnix, hookSet, env, ClockKind);
      SetupCount(target, isUnix, hookSet, env, ClockKind);
      ExchangeCount(target, payload, env, ClockKind);
    } else {
      EarlyCount(target, payload, isUnix, hookSet, env, ClockKind);
    }
  }

  /** The latency clock starts before the write. */
  lemma SingleShotClockBeforeSend(target: Family, payload: seq<bv8>, isUnix: bool, hookSet: bool, env: ListenEnv)
    ensures Before(SingleShot(target, payload, isUnix, hookSet, env).trace, ClockKind, SendKind)
  {
    if ConnReady(isUnix, env) {
      SetupCount(target, isUnix, hookSet, env, SendKind);
      ExchangeCount(target, payload, env, ClockKind);
      SingleShotOrder(target, payload, isUnix, hookSet, env, ClockKind, SendKind);
    } else {
      EarlyCount(target, payload, isUnix, hookSet, env, SendKind);
      BeforeVacuous(SingleShot(target, payload, isUnix, hookSet, env).trace, ClockKind, SendKind);
    }
  }

  /** The connection, once it exists, is closed on every path, once, as the last
      effect. */
  lemma SingleShotRelease(target: Family, payload: seq<bv8>, isUnix: bool, hookSet: bool, env: ListenEnv)
    ensures var t := SingleShot(target, payload, isUnix, hookSet, env).trace;
      && |t| >= 1 && (t[|t| - 1] == Release <==> env.listenOk)
      && Count(t, ReleaseKind) == (if env.listenOk then 1 else 0)
  {
    if ConnReady(isUnix, env) {
      SingleShotSplit(target, payload, isUnix, hookSet, env);
      ReadyCount(target, payload, isUnix, hookSet, env, ReleaseKind);
      SetupCount(target, isUnix, hookSet, env, ReleaseKind);
      ExchangeCount(target, payload, env, ReleaseKind);
    } else {
      EarlyCount(target, payload, isUnix, hookSet, env, ReleaseKind);
    }
  }

  /** How the effects of TcpPing turn out: the clock reading before dialing,
      whether the dialer's control callback runs and on which descriptor, and
      whether the connection is established (at a clock reading) or fails. */
  datatype DialOutcome = Connected(at: int) | DialErr
  datatype TcpEnv = TcpEnv(start: int, controlRuns: bool, fd: int, dial: DialOutcome)

  /** On the monotonic clock the connection is established no earlier than the
      clock reading taken before dialing. */
  predicate ConnectAfterStart(env: TcpEnv)
  {
    env.dial.Connected? ==> env.dial.at >= env.start
  }

  /** The effects of TcpPing before it dials: the clock read, then the hook when
      the dialer's control callback runs on unix and FdControl is set. */
  function DialStart(isUnix: bool, hookSet: bool, env: TcpEnv): seq<Event>
  {
    [ClockStart] + (if isUnix && env.controlRuns && hookSet then [Hook(env.fd)] else [])
  }

  /** What TcpPing does, as a function of how its effects turn out: the clock is
      read, the hook may run, the dial is made; on failure -1 and the error,
      otherwise the time since the clock read, and the connection is closed. */
  function TcpRun(isUnix: bool, hookSet: bool, env: TcpEnv): Outcome
  {
    var dialing := DialStart(isUnix, hookSet, env) + [Connect];
    match env.dial
    case DialErr => Outcome(-1, Some(Dial), dialing)
    case Connected(at) => Outcome(at - env.start, None, dialing + [Release])
  }

  /** TcpPing of ping.go. */
  method TcpPing(isUnix: bool, hookSet: bool, env: TcpEnv)
    returns (latency: int, err: Option<PingError>, trace: seq<Event>)
    ensures Outcome(latency, err, trace) == TcpRun(isUnix, hookSet, env)
  {
    trace := [ClockStart];
    var start := env.start;
    if isUnix && env.controlRuns && hookSet {
      trace := trace + [Hook(env.fd)];
    }
    trace := trace + [Connect];
    match env.dial {
      case DialErr =>
        return -1, Some(Dial), trace;
      case Connected(at) =>
        return at - start, None, trace + [Release];
    }
  }

  /** Dialing fails exactly when the dial does, with latency -1; otherwise the
      latency is the time from just before dialing to the established connection. */
  lemma TcpResult(isUnix: bool, hookSet: bool, env: TcpEnv)
    ensures var o := TcpRun(isUnix, hookSet, env);
      && (o.err == Some(Dial) <==> env.dial.DialErr?)
      && (o.err.Some? ==> o.err == Some(Dial) && o.latency == -1)
      && (o.err.None? <==> env.dial.Connected?)
      && (o.err.None? ==> o.latency == env.dial.at - env.start)
      && (ConnectAfterStart(env) ==> (o.err.None? ==> o.latency >= 0) && (o.latency == -1 <==> o.err.Some?))
  {
  }

  /** Before dialing, the clock is read first, the hook runs as the control
      callback decides, and nothing else happens. */
  lemma DialStartFacts(isUnix: bool, hookSet: bool, env: TcpEnv, k: Kind)
    ensures var t := DialStart(isUnix, hookSet, env);
      && |t| >= 1 && t[0] == ClockStart
      && Hooks(t) == (if isUnix && env.controlRuns && hookSet then [env.fd] else [])
      && Count(t, k) == (if k == ClockKind then 1
                         else if k == HookKind && isUnix && env.controlRuns && hookSet then 1
                         else 0)
  {
    var t := DialStart(isUnix, hookSet, env);
    SingleFilters(ClockStart);
    SingleCount(ClockStart, k);
    if isUnix && env.controlRuns && hookSet {
      assert t == [ClockStart] + [Hook(env.fd)];
      SingleFilters(Hook(env.fd));
      SingleCount(Hook(env.fd), k);
      FiltersAppend([ClockStart], [Hook(env.fd)]);
      CountAppend([ClockStart], [Hook(env.fd)], k);
    } else {
      assert t == [ClockStart];
    }
  }

  /** The events of TcpPing from the dial on: the dial, then the close when the
      connection was established. */
  function DialEnd(env: TcpEnv): seq<Event>
  {
    if env.dial.Connected? then [Connect] + [Release] else [Connect]
  }

  lemma DialEndFacts(env: TcpEnv, k: Kind)
    ensures var t := DialEnd(env);
      && Hooks(t) == []
      && t[|t| - 1] == (if env.dial.Connected? then Release else Connect)
      && Count(t, k) == (if k == ConnectKind then 1
                         else if k == ReleaseKind && env.dial.Connected? then 1
                         else 0)
  {
    SingleFilters(Connect);
    SingleCount(Connect, k);
    if env.dial.Connected? {
      SingleFilters(Release);
      SingleCount(Release, k);
      FiltersAppend([Connect], [Release]);
      CountAppend([Connect], [Release], k);
    }
  }

  /** The trace of TcpPing is its start and its end. */
  lemma TcpSplit(isUnix: bool, hookSet: bool, env: TcpEnv, k: Kind)
    ensures var t := TcpRun(isUnix, hookSet, env).trace;
      && t == DialStart(isUnix, hookSet, env) + DialEnd(env)
      && Hooks(t) == Hooks(DialStart(isUnix, hookSet, env)) + Hooks(DialEnd(env))
      && Count(t, k) == Count(DialStart(isUnix, hookSet, env), k) + Count(DialEnd(env), k)
  {
    var start := DialStart(isUnix, hookSet, env);
    assert start + [Connect] + [Release] == start + ([Connect] + [Release]);
    FiltersAppend(start, DialEnd(env));
    CountAppend(start, DialEnd(env), k);
  }

  /** The clock is read first, one dial is made, and the connection is closed
      exactly when it was established, as the last effect. */
  lemma TcpEffects(isUnix: bool, hookSet: bool, env: TcpEnv)
    ensures var t := TcpRun(isUnix, hookSet, env).trace;
      && |t| >= 2 && t[0] == ClockStart
      && Count(t, ConnectKind) == 1
      && Count(t, ReleaseKind) == (if env.dial.Connected? then 1 else 0)
      && (t[|t| - 1] == Release <==> env.dial.Connected?)
  {
    DialStartFacts(isUnix, hookSet, env, ConnectKind);
    DialEndFacts(env, ConnectKind);
    TcpSplit(isUnix, hookSet, env, ConnectKind);
    DialStartFacts(isUnix, hookSet, env, ReleaseKind);
    DialEndFacts(env, ReleaseKind);
    TcpSplit(isUnix, hookSet, env, ReleaseKind);
  }

  /** The hook runs at most once, on the dialing socket's descriptor, only on unix
      when FdControl is set and the control callback runs, and before the dial. */
  lemma TcpHook(isUnix: bool, hookSet: bool, env: TcpEnv)
    ensures var t := TcpRun(isUnix, hookSet, env).trace;
      && Hooks(t) == (if isUnix && env.controlRuns && hookSet then [env.fd] else [])
      && Before(t, HookKind, ConnectKind)
  {
    var start := DialStart(isUnix, hookSet, env);
    DialStartFacts(isUnix, hookSet, env, ConnectKind);
    DialEndFacts(env, HookKind);
    TcpSplit(isUnix, hookSet, env, HookKind);
    CountZero(start, ConnectKind);
    CountZero(DialEnd(env), HookKind);
    BeforeAppend(start, DialEnd(env), HookKind, ConnectKind);
  }

  /** On the build that compiles ping_stub.go isUnix is false: IcmpPing never
      calls SyscallConn and neither prober ever calls the hook, whether or not
      FdControl is set. */
  lemma StubBuildNoHook(target: Family, payload: seq<bv8>, hookSet: bool, env: ListenEnv, tcp: TcpEnv)
    ensures Hooks(SingleShot(target, payload, PingStub.IsUnix, hookSet, env).trace) == []
    ensures Count(SingleShot(target, payload, PingStub.IsUnix, hookSet, env).trace, RawConnKind) == 0
    ensures Hooks(TcpRun(PingStub.IsUnix, hookSet, tcp).trace) == []
  {
    SingleShotHookOnce(target, payload, PingStub.IsUnix, hookSet, env);
    TcpHook(PingStub.IsUnix, hookSet, tcp);
    if ConnReady(PingStub.IsUnix, env) {
      ReadyCount(target, payload, PingStub.IsUnix, hookSet, env, RawConnKind);
      SetupCount(target, PingStub.IsUnix, hookSet, env, RawConnKind);
      ExchangeCount(target, payload, env, RawConnKind);
    } else {
      EarlyCount(target, payload, PingStub.IsUnix, hookSet, env, RawConnKind);
    }
  }

}
