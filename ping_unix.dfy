/** The unix build of libping (ping_unix.go): IcmpPing over an unprivileged ICMP
    datagram socket, with a retry loop that spends a time budget one attempt at a
    time.

    The budget starts at MaxTimeout and each attempt's read deadline is the smaller
    of the remaining budget and MaxTimeout, so the first attempt takes the whole
    budget and the loop body runs at most once (UnixSingleAttempt). The loop is
    modelled as written, for any budget, by LoopRun; its lemmas state what the loop
    keeps for every budget, and the UnixPing lemmas what follows for the budget the
    source starts with. */
module PingUnix {
  import opened PingTypes
  import PingStub
  import opened Ping

  /** isUnix on the unix build. */
  const IsUnix: bool := true

  /** The socket system call IcmpPing makes for a family: a datagram socket of the
      family's domain and ICMP flavour (IPPROTO_ICMPV6 is 58, IPPROTO_ICMP is 1). */
  function SocketFor(f: Family): (e: Event)
    ensures e.Open? && e.sockType == SOCK_DGRAM
    ensures e.domain == AF_INET6 <==> f == V6
    ensures e.domain == AF_INET <==> f == V4
    ensures e.protocol == (if f == V6 then 58 else 1)
  {
    if f.V6? then Open(AF_INET6, SOCK_DGRAM, 58) else Open(AF_INET, SOCK_DGRAM, 1)
  }

  /** The socket uses the same ICMP flavour as the network name the listener of the
      other build would use, and the IPv6 domain exactly for an "ip6" name. */
  lemma SocketMatchesNetwork(f: Family)
    ensures PingStub.ParseNetwork(PingStub.IcmpNetwork(f)).Some?
    ensures SocketFor(f).protocol == PingStub.ParseNetwork(PingStub.IcmpNetwork(f)).value.protocol
    ensures SocketFor(f).domain == AF_INET6 <==> PingStub.ParseNetwork(PingStub.IcmpNetwork(f)).value.version == '6'
  {
    PingStub.NetworkRoundTrip(f);
  }

  /** The read deadline of an attempt: the remaining budget, capped at MaxTimeout. */
  function AttemptDeadline(remaining: int): (d: int)
    ensures d <= MaxTimeout && d <= remaining
    ensures d == MaxTimeout || d == remaining
    ensures remaining > 0 ==> d > 0
  {
    if remaining > MaxTimeout then MaxTimeout else remaining
  }

  // strings.Contains, by which a read error is told to be a timeout.

  /** pat occurs in s at position i. */
  predicate MatchesAt(s: string, pat: string, i: nat)
  {
    i + |pat| <= |s| && s[i..i + |pat|] == pat
  }

  /** pat occurs somewhere in s, scanning from the front. */
  predicate Contains(s: string, pat: string)
    decreases |s|
  {
    (|pat| <= |s| && s[..|pat|] == pat) || (s != [] && Contains(s[1..], pat))
  }

  /** The scan finds pat exactly when pat occurs at some position of s. */
  lemma {:induction false} ContainsIff(s: string, pat: string)
    ensures Contains(s, pat) <==> exists i: nat :: MatchesAt(s, pat, i)
    decreases |s|
  {
    if |pat| <= |s| && s[..|pat|] == pat {
      assert MatchesAt(s, pat, 0);
    }
    if s != [] {
      ContainsIff(s[1..], pat);
      if Contains(s[1..], pat) {
        var i: nat :| MatchesAt(s[1..], pat, i);
        assert s[i + 1..i + 1 + |pat|] == s[1..][i..i + |pat|];
        assert MatchesAt(s, pat, i + 1);
      }
      if exists i: nat :: MatchesAt(s, pat, i) {
        var i: nat :| MatchesAt(s, pat, i);
        if i > 0 {
          assert s[1..][i - 1..i - 1 + |pat|] == s[i..i + |pat|];
          assert MatchesAt(s[1..], pat, i - 1);
        } else {
          assert s[..|pat|] == s[i..i + |pat|];
        }
      }
    } else if exists i: nat :: MatchesAt(s, pat, i) {
      var i: nat :| MatchesAt(s, pat, i);
      assert s[..|pat|] == s[i..i + |pat|];
    }
  }

  /** A read error counts as a timeout when its text contains "timeout". */
  predicate IsTimeoutError(text: string)
  {
    Contains(text, "timeout")
  }

  /** The error text of a read that hits its deadline ends in "i/o timeout", so
      such a read lets the loop go on. */
  lemma DeadlineErrorIsTimeout(prefix: string)
    ensures IsTimeoutError(prefix + "i/o timeout")
  {
    var s := prefix + "i/o timeout";
    assert s[|prefix| + 4..|prefix| + 4 + 7] == "timeout";
    assert MatchesAt(s, "timeout", |prefix| + 4);
    ContainsIff(s, "timeout");
  }

  /** How one pass of the loop body turns out: whether the context is done when it
      is checked, whether setting the read deadline, marshalling and the write
      succeed, and what the read returns. */
  datatype Attempt = Attempt(cancelled: bool, deadlineOk: bool, marshalOk: bool, writeOk: bool, read: ReadOutcome)

  /** How the effects of IcmpPing turn out: the socket call and its descriptor,
      net.FilePacketConn, the clock reading taken before the loop, and each pass of
      the loop, by sequence number. */
  datatype UnixEnv = UnixEnv(socketOk: bool, fd: int, connOk: bool, start: int, attempts: nat -> Attempt)

  /** The events of an attempt whose read returned. */
  function Exchanged(d: int, msg: EchoMessage): seq<Event>
  {
    [Deadline(d)] + [Send(msg)] + [Receive]
  }

  /** The loop of IcmpPing from a remaining budget and a sequence number on. An
      exhausted budget is the "IcmpPing timeout" error; otherwise a pass runs
      with a deadline of the remaining budget capped at MaxTimeout. A pass whose
      read fails with an error mentioning "timeout" goes on with the next
      sequence number and what is left of the budget; every other pass ends the
      loop as LastPass says. */
  function LoopRun(target: Family, payload: seq<bv8>, env: UnixEnv, remaining: int, s: nat): Outcome
    decreases remaining
  {
    if remaining <= 0 then Outcome(-1, Some(PingTimeout), [])
    else
      var a := env.attempts(s);
      var d := AttemptDeadline(remaining);
      if Continues(a) then Prepend(Exchanged(d, EchoRequest(target, s, payload)), LoopRun(target, payload, env, remaining - d, s + 1))
      else LastPass(target, payload, env, a, d, s)
  }

  /** The effects before the loop: the socket call and, when FdControl is set, the
      hook on its descriptor. */
  function SocketSetup(target: Family, hookSet: bool, env: UnixEnv): seq<Event>
  {
    [SocketFor(target)] + (if hookSet then [Hook(env.fd)] else [])
  }

  /** The connection exists once the socket call and net.FilePacketConn succeeded. */
  predicate SocketReady(env: UnixEnv)
  {
    env.socketOk && env.connOk
  }

  /** What IcmpPing of ping_unix.go does, as a function of how its effects turn
      out. hookSet says whether FdControl is non-nil. */
  function UnixPing(target: Family, payload: seq<bv8>, hookSet: bool, env: UnixEnv): Outcome
  {
    if !env.socketOk then Outcome(-1, Some(CreateFile), [SocketFor(target)])
    else if !env.connOk then Outcome(-1, Some(CreateConn), SocketSetup(target, hookSet, env))
    else Released(Prepend(SocketSetup(target, hookSet, env) + [ClockStart],
                          LoopRun(target, payload, env, MaxTimeout, 1)))
  }

  /** IcmpPing of ping_unix.go. The loop keeps, besides what UnixPing says, that
      either no pass has run and the whole budget is left, or one pass has run and
      nothing is left: the loop condition fails before a second pass. */
  method IcmpPing(target: Family, payload: seq<bv8>, hookSet: bool, env: UnixEnv)
    returns (latency: int, err: Option<PingError>, trace: seq<Event>)
    ensures Outcome(latency, err, trace) == UnixPing(target, payload, hookSet, env)
  {
    trace := [SocketFor(target)];
    if !env.socketOk {
      return -1, Some(CreateFile), trace;
    }
    if hookSet {
      trace := trace + [Hook(env.fd)];
    }
    if !env.connOk {
      return -1, Some(CreateConn), trace;
    }
    trace := trace + [ClockStart];
    var start := env.start;

    ghost var goal := UnixPing(target, payload, hookSet, env);
    var timeout := MaxTimeout;
    var s: nat := 1;
    while timeout > 0
      invariant 0 <= timeout <= MaxTimeout && s >= 1
      invariant Released(Prepend(trace, LoopRun(target, payload, env, timeout, s))) == goal
      invariant (s == 1 && timeout == MaxTimeout) || (s == 2 && timeout == 0)

      decreases timeout
    {
      var a := env.attempts(s);
      LoopWithinOnePass(target, payload, env, timeout, s);
      if a.cancelled {
        return -1, Some(ContextDone), trace + [Release];
      }
      var sockTo: int;
      if timeout > MaxTimeout {
        sockTo := MaxTimeout;
      } else {
        sockTo := timeout;
      }
      timeout := timeout - sockTo;
      var pass := [Deadline(sockTo)];
      if !a.deadlineOk {
        return -1, Some(SetReadTimeout), trace + pass + [Release];
      }
      var msg := EchoRequest(target, s, payload);
      if !a.marshalOk {
        return -1, Some(MakeMessage), trace + pass + [Release];
      }
      pass := pass + [Send(msg)];
      if !a.writeOk {
        return -1, Some(WriteMessage), trace + pass + [Release];
      }
      pass := pass + [Receive];
      if a.read.ReadOk? {
        return a.read.at - start, None, trace + pass + [Release];
      }
      if IsTimeoutError(a.read.text) {
        PrependAssoc(trace, pass, LoopRun(target, payload, env, timeout, s + 1));
        trace := trace + pass;
        s := s + 1;
        continue;
      }
      return -1, Some(ReadMessage), trace + pass + [Release];
    }
    return -1, Some(PingTimeout), trace + [Release];
  }

  /** A pass that ends in a read timeout, which is the only way the loop goes on. */
  predicate Continues(a: Attempt)
  {
    !a.cancelled && a.deadlineOk && a.marshalOk && a.writeOk && a.read.ReadErr? && IsTimeoutError(a.read.text)
  }

  /** The events of one pass of the loop with deadline d and request msg. */
  function PassTrace(a: Attempt, d: int, msg: EchoMessage): seq<Event>
  {
    if a.cancelled then []
    else if !a.deadlineOk || !a.marshalOk then [Deadline(d)]
    else if !a.writeOk then [Deadline(d)] + [Send(msg)]
    else Exchanged(d, msg)
  }

  /** What one pass of the loop returns when the loop ends with it. A read that
      timed out gives the "IcmpPing timeout" error, as the loop does once nothing
      is left of its budget. */
  function LastPass(target: Family, payload: seq<bv8>, env: UnixEnv, a: Attempt, d: int, s: nat): Outcome
  {
    var t := PassTrace(a, d, EchoRequest(target, s, payload));
    if a.cancelled then Outcome(-1, Some(ContextDone), t)
    else if !a.deadlineOk then Outcome(-1, Some(SetReadTimeout), t)
    else if !a.marshalOk then Outcome(-1, Some(MakeMessage), t)
    else if !a.writeOk then Outcome(-1, Some(WriteMessage), t)
    else match a.read
      case ReadOk(at) => Outcome(at - env.start, None, t)
      case ReadErr(text) => Outcome(-1, Some(if IsTimeoutError(text) then PingTimeout else ReadMessage), t)
  }

  /** A pass sets its deadline unless the context is done, writes its request
      once the deadline is set and the message built, and calls no hook. */
  lemma PassFilters(a: Attempt, d: int, msg: EchoMessage)
    ensures Deadlines(PassTrace(a, d, msg)) == (if a.cancelled then [] else [d])
    ensures Sends(PassTrace(a, d, msg)) == (if !a.cancelled && a.deadlineOk && a.marshalOk then [msg] else [])
    ensures Hooks(PassTrace(a, d, msg)) == []
  {
    var t := PassTrace(a, d, msg);
    SingleFilters(Deadline(d));
    SingleFilters(Send(msg));
    if a.cancelled {
      assert t == [];
    } else if !a.deadlineOk || !a.marshalOk {
      assert t == [Deadline(d)];
    } else if !a.writeOk {
      assert t == [Deadline(d)] + [Send(msg)];
      FiltersAppend([Deadline(d)], [Send(msg)]);
    } else {
      ExchangedFilters(d, msg);
    }
  }

  /** A pass only sets deadlines, writes and reads. */
  lemma PassKinds(a: Attempt, d: int, msg: EchoMessage, k: Kind)
    requires k != DeadlineKind && k != SendKind && k != ReceiveKind
    ensures Count(PassTrace(a, d, msg), k) == 0
  {
    var t := PassTrace(a, d, msg);
    SingleCount(Deadline(d), k);
    SingleCount(Send(msg), k);
    SingleCount(Receive, k);
    if a.cancelled {
      assert t == [];
    } else if !a.deadlineOk || !a.marshalOk {
      assert t == [Deadline(d)];
    } else if !a.writeOk {
      assert t == [Deadline(d)] + [Send(msg)];
      CountAppend([Deadline(d)], [Send(msg)], k);
    } else {
      assert t == [Deadline(d)] + [Send(msg)] + [Receive];
      CountAppend([Deadline(d)], [Send(msg)], k);
      CountAppend([Deadline(d)] + [Send(msg)], [Receive], k);
    }
  }

  /** What the filters keep of an attempt whose read returned. */
  lemma ExchangedFilters(d: int, msg: EchoMessage)
    ensures Deadlines(Exchanged(d, msg)) == [d] && Sum([d]) == d
    ensures Sends(Exchanged(d, msg)) == [msg]
    ensures Hooks(Exchanged(d, msg)) == []
  {
    FiltersAppend([Deadline(d)], [Send(msg)]);
    FiltersAppend([Deadline(d)] + [Send(msg)], [Receive]);
    SingleFilters(Deadline(d));
    SingleFilters(Send(msg));
    SingleFilters(Receive);
    assert Sum([d]) == Sum([d][..0]) + d;
  }

  /** An attempt whose read returned only sets a deadline, writes and reads. */
  lemma ExchangedKinds(d: int, msg: EchoMessage, k: Kind)
    requires k != DeadlineKind && k != SendKind && k != ReceiveKind
    ensures Count(Exchanged(d, msg), k) == 0
  {
    SingleCount(Deadline(d), k);
    SingleCount(Send(msg), k);
    SingleCount(Receive, k);
    CountAppend([Deadline(d)], [Send(msg)], k);
    CountAppend([Deadline(d)] + [Send(msg)], [Receive], k);
  }

  /** With its budget spent the loop returns "IcmpPing timeout" and does nothing. */
  lemma LoopSpent(target: Family, payload: seq<bv8>, env: UnixEnv, remaining: int, s: nat)
    requires remaining <= 0
    ensures LoopRun(target, payload, env, remaining, s) == Outcome(-1, Some(PingTimeout), [])
  {
  }

  /** One pass of the loop that ends in a read timeout: its events come first,
      then the loop goes on with the rest of the budget and the next sequence
      number. */
  lemma LoopTimeoutStep(target: Family, payload: seq<bv8>, env: UnixEnv, remaining: int, s: nat)
    requires remaining > 0
    requires Continues(env.attempts(s))
    ensures var d := AttemptDeadline(remaining);
      LoopRun(target, payload, env, remaining, s)
        == Prepend(Exchanged(d, EchoRequest(target, s, payload)), LoopRun(target, payload, env, remaining - d, s + 1))
  {
  }

  /** A pass that does not end in a read timeout ends the loop, whatever budget is
      left. */
  lemma LoopStop(target: Family, payload: seq<bv8>, env: UnixEnv, remaining: int, s: nat)
    requires remaining > 0
    requires !Continues(env.attempts(s))
    ensures LoopRun(target, payload, env, remaining, s)
         == LastPass(target, payload, env, env.attempts(s), AttemptDeadline(remaining), s)
  {
  }

  /** With a budget of at most MaxTimeout the loop is a single pass: its only
      deadline is the whole budget, and a timed-out read ends it with the
      "IcmpPing timeout" error. */
  lemma LoopWithinOnePass(target: Family, payload: seq<bv8>, env: UnixEnv, remaining: int, s: nat)
    requires 0 < remaining <= MaxTimeout
    ensures LoopRun(target, payload, env, remaining, s) == LastPass(target, payload, env, env.attempts(s), remaining, s)
  {
    var a := env.attempts(s);
    if Continues(a) {
      var msg := EchoRequest(target, s, payload);
      LoopTimeoutStep(target, payload, env, remaining, s);
      LoopSpent(target, payload, env, 0, s + 1);
      assert Exchanged(remaining, msg) + [] == Exchanged(remaining, msg);
    } else {
      LoopStop(target, payload, env, remaining, s);
    }
  }

  /** A pass whose context check, deadline, marshalling, write and read all
      succeeded. */
  predicate Succeeds(a: Attempt)
  {
    !a.cancelled && a.deadlineOk && a.marshalOk && a.writeOk && a.read.ReadOk?
  }

  /** Pass n ended the loop with a reply: every pass from s up to it timed out,
      and it succeeded. */
  predicate EndsAt(env: UnixEnv, s: nat, n: nat)
  {
    s <= n && (forall k :: s <= k < n ==> Continues(env.attempts(k))) && Succeeds(env.attempts(n))
  }

  lemma EndsAtCons(env: UnixEnv, s: nat, n: nat)
    requires Continues(env.attempts(s)) && EndsAt(env, s + 1, n)
    ensures EndsAt(env, s, n)
  {
    forall k | s <= k < n ensures Continues(env.attempts(k)) {
      if k > s {
        assert s + 1 <= k < n;
      }
    }
  }

  /** time.Since reads Go's monotonic clock: every read that returns does so no
      earlier than the clock reading taken before the loop. */
  ghost predicate ReadsAfterStart(env: UnixEnv)
  {
    forall n :: env.attempts(n).read.ReadOk? ==> env.attempts(n).read.at >= env.start
  }

  /** What the loop returns from sequence number s on, as a probe's latency: -1
      on every failure; on success the time from the clock reading before the
      loop to the read of the pass that ended it, which is the pass whose
      request was written last, all passes before it having timed out; and on
      the monotonic clock a success is never negative, so -1 means failure. */
  ghost predicate LatencyFrom(env: UnixEnv, s: nat, o: Outcome)
  {
    && (o.err.Some? ==> o.latency == -1)
    && (o.err.None? ==>
          && |Sends(o.trace)| >= 1
          && EndsAt(env, s, s + |Sends(o.trace)| - 1)
          && o.latency == env.attempts(s + |Sends(o.trace)| - 1).read.at - env.start)
    && (ReadsAfterStart(env) ==> (o.err.None? ==> o.latency >= 0) && (o.latency == -1 <==> o.err.Some?))
  }

  /** A pass that timed out leaves the error and latency to the rest of the loop
      and adds one request in front of its requests. */
  lemma LatencyStep(target: Family, payload: seq<bv8>, env: UnixEnv, remaining: int, s: nat)
    requires remaining > 0 && Continues(env.attempts(s))
    requires LatencyFrom(env, s + 1, LoopRun(target, payload, env, remaining - AttemptDeadline(remaining), s + 1))
    ensures LatencyFrom(env, s, LoopRun(target, payload, env, remaining, s))
  {
    var o := LoopRun(target, payload, env, remaining, s);
    var r := LoopRun(target, payload, env, remaining - AttemptDeadline(remaining), s + 1);
    assert o.err == r.err && o.latency == r.latency && |Sends(o.trace)| == 1 + |Sends(r.trace)| by {
      LoopTimeoutStep(target, payload, env, remaining, s);
      TimeoutFilters(target, payload, env, remaining, s);
    }
    if o.err.None? {
      EndsAtCons(env, s, s + |Sends(o.trace)| - 1);
    }
  }

  /** The latency of a loop that ends with its first pass, or at once when the
      budget is spent. */
  lemma LatencyLast(target: Family, payload: seq<bv8>, env: UnixEnv, remaining: int, s: nat)
    requires remaining <= 0 || !Continues(env.attempts(s))
    ensures LatencyFrom(env, s, LoopRun(target, payload, env, remaining, s))
  {
    if remaining > 0 {
      LoopStop(target, payload, env, remaining, s);
      StopFilters(target, payload, env, remaining, s);
    } else {
      LoopSpent(target, payload, env, remaining, s);
    }
  }

  /** The latency the loop returns, for any budget and first sequence number. */
  lemma {:induction false} LoopLatency(target: Family, payload: seq<bv8>, env: UnixEnv, remaining: int, s: nat)
    ensures LatencyFrom(env, s, LoopRun(target, payload, env, remaining, s))
    decreases remaining
  {
    if remaining > 0 && Continues(env.attempts(s)) {
      LoopLatency(target, payload, env, remaining - AttemptDeadline(remaining), s + 1);
      LatencyStep(target, payload, env, remaining, s);
    } else {
      LatencyLast(target, payload, env, remaining, s);
    }
  }



  /** The k-th message of ms is the echo request with sequence number s + k. */
  predicate NumberedFrom(ms: seq<EchoMessage>, target: Family, s: nat, payload: seq<bv8>)
  {
    forall k :: 0 <= k < |ms| ==> ms[k] == EchoRequest(target, s + k, payload)
  }

  lemma NumberedCons(ms: seq<EchoMessage>, target: Family, s: nat, payload: seq<bv8>)
    requires NumberedFrom(ms, target, s + 1, payload)
    ensures NumberedFrom([EchoRequest(target, s, payload)] + ms, target, s, payload)
  {
    var all := [EchoRequest(target, s, payload)] + ms;
    forall k | 0 <= k < |all| ensures all[k] == EchoRequest(target, s + k, payload) {
      if k > 0 {
        assert all[k] == ms[k - 1];
      }
    }
  }

  /** The deadline and request of an attempt whose read returned, followed by
      those of what comes after it. */
  lemma ExchangedPrefix(d: int, msg: EchoMessage, rest: seq<Event>)
    ensures Deadlines(Exchanged(d, msg) + rest) == [d] + Deadlines(rest)
    ensures Sends(Exchanged(d, msg) + rest) == [msg] + Sends(rest)
  {
    ExchangedFilters(d, msg);
    FiltersAppend(Exchanged(d, msg), rest);
  }

  /** The deadlines, requests and hook calls of a pass that timed out, followed
      by those of the rest of the loop. */
  lemma TimeoutFilters(target: Family, payload: seq<bv8>, env: UnixEnv, remaining: int, s: nat)
    requires remaining > 0
    requires Continues(env.attempts(s))
    ensures var d := AttemptDeadline(remaining);
      var t := LoopRun(target, payload, env, remaining, s).trace;
      var rest := LoopRun(target, payload, env, remaining - d, s + 1).trace;
      && Deadlines(t) == [d] + Deadlines(rest)
      && Sends(t) == [EchoRequest(target, s, payload)] + Sends(rest)
  {
    var d := AttemptDeadline(remaining);
    var msg := EchoRequest(target, s, payload);
    var rest := LoopRun(target, payload, env, remaining - d, s + 1).trace;
    assert LoopRun(target, payload, env, remaining, s).trace == Exchanged(d, msg) + rest by {
      LoopTimeoutStep(target, payload, env, remaining, s);
    }
    ExchangedPrefix(d, msg, rest);
  }

  /** The deadlines and requests of a pass that ended the loop. */
  lemma StopFilters(target: Family, payload: seq<bv8>, env: UnixEnv, remaining: int, s: nat)
    requires remaining > 0
    requires !Continues(env.attempts(s))
    ensures var a := env.attempts(s);
      var t := LoopRun(target, payload, env, remaining, s).trace;
      && Deadlines(t) == (if a.cancelled then [] else [AttemptDeadline(remaining)])
      && Sends(t) == (if !a.cancelled && a.deadlineOk && a.marshalOk then [EchoRequest(target, s, payload)] else [])
  {
    LoopStop(target, payload, env, remaining, s);
    PassFilters(env.attempts(s), AttemptDeadline(remaining), EchoRequest(target, s, payload));
  }

  /** A pass that timed out writes request s ahead of the numbered requests of
      the rest of the loop. */
  lemma SendsStep(target: Family, payload: seq<bv8>, env: UnixEnv, remaining: int, s: nat)
    requires remaining > 0 && Continues(env.attempts(s))
    requires NumberedFrom(Sends(LoopRun(target, payload, env, remaining - AttemptDeadline(remaining), s + 1).trace), target, s + 1, payload)
    ensures NumberedFrom(Sends(LoopRun(target, payload, env, remaining, s).trace), target, s, payload)
  {
    var rest := Sends(LoopRun(target, payload, env, remaining - AttemptDeadline(remaining), s + 1).trace);
    TimeoutFilters(target, payload, env, remaining, s);
    NumberedCons(rest, target, s, payload);
  }

  /** A loop that ends at once writes at most request s. */
  lemma SendsLast(target: Family, payload: seq<bv8>, env: UnixEnv, remaining: int, s: nat)
    requires remaining <= 0 || !Continues(env.attempts(s))
    ensures NumberedFrom(Sends(LoopRun(target, payload, env, remaining, s).trace), target, s, payload)
  {
    if remaining > 0 {
      StopFilters(target, payload, env, remaining, s);
    } else {
      LoopSpent(target, payload, env, remaining, s);
    }
  }

  /** The requests the loop writes carry consecutive sequence numbers from s on,
      the identifier 0xDBB, the family's echo type and the payload unchanged. */
  lemma {:induction false} LoopSends(target: Family, payload: seq<bv8>, env: UnixEnv, remaining: int, s: nat)
    ensures NumberedFrom(Sends(LoopRun(target, payload, env, remaining, s).trace), target, s, payload)
    decreases remaining
  {
    if remaining > 0 && Continues(env.attempts(s)) {
      LoopSends(target, payload, env, remaining - AttemptDeadline(remaining), s + 1);
      SendsStep(target, payload, env, remaining, s);
    } else {
      SendsLast(target, payload, env, remaining, s);
    }
  }

  /** Every deadline is positive and at most MaxTimeout. */
  predicate WithinMax(ds: seq<int>)
  {
    forall k :: 0 <= k < |ds| ==> 0 < ds[k] <= MaxTimeout
  }

  /** Every deadline but the last is a full MaxTimeout. */
  predicate FullButLast(ds: seq<int>)
  {
    forall k :: 0 <= k < |ds| - 1 ==> ds[k] == MaxTimeout
  }

  lemma DeadlinesCons(d: int, ds: seq<int>)
    requires 0 < d <= MaxTimeout && WithinMax(ds) && FullButLast(ds)
    requires ds != [] ==> d == MaxTimeout
    ensures WithinMax([d] + ds) && FullButLast([d] + ds)
  {
    var all := [d] + ds;
    forall k | 0 < k < |all| ensures all[k] == ds[k - 1] {
    }
  }

  lemma SumCons(d: int, ds: seq<int>)
    ensures Sum([d] + ds) == d + Sum(ds)
  {
    SumAppend([d], ds);
    assert Sum([d]) == Sum([d][..0]) + d;
  }

  /** The deadlines and error of a loop that goes on after its first pass: the
      first deadline comes before those of the rest, the error is the rest's, and
      the rest sets a deadline only when the first one was a full MaxTimeout. */
  lemma DeadlineStep(target: Family, payload: seq<bv8>, env: UnixEnv, remaining: int, s: nat)
    requires remaining > 0 && Continues(env.attempts(s))
    ensures var d := AttemptDeadline(remaining);
      var rest := LoopRun(target, payload, env, remaining - d, s + 1);
      && Deadlines(LoopRun(target, payload, env, remaining, s).trace) == [d] + Deadlines(rest.trace)
      && LoopRun(target, payload, env, remaining, s).err == rest.err
      && (Deadlines(rest.trace) != [] ==> remaining - d > 0 && d == MaxTimeout)
  {
    var d := AttemptDeadline(remaining);
    TimeoutFilters(target, payload, env, remaining, s);
    LoopTimeoutStep(target, payload, env, remaining, s);
    if remaining - d <= 0 {
      LoopSpent(target, payload, env, remaining - d, s + 1);
    }
  }

  /** The deadlines and error of a loop that ends with its first pass, or at
      once when the budget is spent. */
  lemma DeadlineLast(target: Family, payload: seq<bv8>, env: UnixEnv, remaining: int, s: nat)
    requires remaining <= 0 || !Continues(env.attempts(s))
    ensures Deadlines(LoopRun(target, payload, env, remaining, s).trace)
         == (if remaining > 0 && !env.attempts(s).cancelled then [AttemptDeadline(remaining)] else [])
    ensures remaining > 0 ==> LoopRun(target, payload, env, remaining, s).err != Some(PingTimeout)
  {
    if remaining > 0 {
      StopFilters(target, payload, env, remaining, s);
      LoopStop(target, payload, env, remaining, s);
    } else {
      LoopSpent(target, payload, env, remaining, s);
    }
  }

  /** Deadlines of the loop: each is positive and at most MaxTimeout, and all
      but the last are exactly MaxTimeout. */
  lemma {:induction false} LoopDeadlineSizes(target: Family, payload: seq<bv8>, env: UnixEnv, remaining: int, s: nat)
    ensures WithinMax(Deadlines(LoopRun(target, payload, env, remaining, s).trace))
    ensures FullButLast(Deadlines(LoopRun(target, payload, env, remaining, s).trace))
    decreases remaining
  {
    if remaining > 0 && Continues(env.attempts(s)) {
      var d := AttemptDeadline(remaining);
      LoopDeadlineSizes(target, payload, env, remaining - d, s + 1);
      DeadlineStep(target, payload, env, remaining, s);
      DeadlinesCons(d, Deadlines(LoopRun(target, payload, env, remaining - d, s + 1).trace));
    } else {
      DeadlineLast(target, payload, env, remaining, s);
      if remaining > 0 {
        DeadlinesCons(AttemptDeadline(remaining), []);
      }
    }
  }

  /** The deadlines of the loop together never exceed its budget, and use it up
      exactly when the loop ends in the "IcmpPing timeout" error. */
  lemma {:induction false} LoopDeadlineSum(target: Family, payload: seq<bv8>, env: UnixEnv, remaining: int, s: nat)
    requires remaining >= 0
    ensures Sum(Deadlines(LoopRun(target, payload, env, remaining, s).trace)) <= remaining
    ensures LoopRun(target, payload, env, remaining, s).err == Some(PingTimeout)
        ==> Sum(Deadlines(LoopRun(target, payload, env, remaining, s).trace)) == remaining
    decreases remaining
  {
    if remaining > 0 && Continues(env.attempts(s)) {
      var d := AttemptDeadline(remaining);
      LoopDeadlineSum(target, payload, env, remaining - d, s + 1);
      DeadlineStep(target, payload, env, remaining, s);
      SumCons(d, Deadlines(LoopRun(target, payload, env, remaining - d, s + 1).trace));
    } else {
      DeadlineLast(target, payload, env, remaining, s);
      if remaining > 0 {
        SumCons(AttemptDeadline(remaining), []);
      }
    }
  }

  /** The events of a pass that timed out, followed by those of the rest of the
      loop, counted by kind. */
  lemma TimeoutCount(target: Family, payload: seq<bv8>, env: UnixEnv, remaining: int, s: nat, k: Kind)
    requires remaining > 0
    requires Continues(env.attempts(s))
    requires k != DeadlineKind && k != SendKind && k != ReceiveKind
    ensures var d := AttemptDeadline(remaining);
      Count(LoopRun(target, payload, env, remaining, s).trace, k)
        == Count(LoopRun(target, payload, env, remaining - d, s + 1).trace, k)
  {
    var d := AttemptDeadline(remaining);
    var msg := EchoRequest(target, s, payload);
    var rest := LoopRun(target, payload, env, remaining - d, s + 1).trace;
    assert LoopRun(target, payload, env, remaining, s).trace == Exchanged(d, msg) + rest by {
      LoopTimeoutStep(target, payload, env, remaining, s);
    }
    ExchangedKinds(d, msg, k);
    CountAppend(Exchanged(d, msg), rest, k);
  }

  /** A pass that ended the loop holds no event of a kind other than deadlines,
      writes and reads. */
  lemma StopCount(target: Family, payload: seq<bv8>, env: UnixEnv, remaining: int, s: nat, k: Kind)
    requires remaining > 0
    requires !Continues(env.attempts(s))
    requires k != DeadlineKind && k != SendKind && k != ReceiveKind
    ensures Count(LoopRun(target, payload, env, remaining, s).trace, k) == 0
  {
    LoopStop(target, payload, env, remaining, s);
    PassKinds(env.attempts(s), AttemptDeadline(remaining), EchoRequest(target, s, payload), k);
  }

  /** The loop only sets deadlines, writes and reads: it never opens a socket,
      calls the hook, reads the clock or closes the connection. */
  lemma {:induction false} LoopOnlyExchanges(target: Family, payload: seq<bv8>, env: UnixEnv, remaining: int, s: nat, k: Kind)
    requires k != DeadlineKind && k != SendKind && k != ReceiveKind
    ensures Count(LoopRun(target, payload, env, remaining, s).trace, k) == 0
    decreases remaining
  {
    if remaining > 0 && Continues(env.attempts(s)) {
      LoopOnlyExchanges(target, payload, env, remaining - AttemptDeadline(remaining), s + 1, k);
      TimeoutCount(target, payload, env, remaining, s, k);
    } else if remaining > 0 {
      StopCount(target, payload, env, remaining, s, k);
    } else {
      LoopSpent(target, payload, env, remaining, s);
    }
  }


  /** The context is checked first: a done context ends the loop with no effect,
      whatever the rest of the pass would have done. */
  lemma LoopCancelled(target: Family, payload: seq<bv8>, env: UnixEnv, remaining: int, s: nat)
    requires remaining > 0 && env.attempts(s).cancelled
    ensures LoopRun(target, payload, env, remaining, s) == Outcome(-1, Some(ContextDone), [])
  {
  }

  /** A second pass happens only after a first pass whose read timed out, and
      only when the budget was above MaxTimeout. */
  lemma LoopSecondPass(target: Family, payload: seq<bv8>, env: UnixEnv, remaining: int, s: nat)
    ensures |Deadlines(LoopRun(target, payload, env, remaining, s).trace)| >= 2
        ==> Continues(env.attempts(s)) && remaining > MaxTimeout
  {
    if remaining > 0 && Continues(env.attempts(s)) {
      DeadlineStep(target, payload, env, remaining, s);
    } else {
      DeadlineLast(target, payload, env, remaining, s);
    }
  }

  // IcmpPing as a whole, with the budget it starts with.

  /** A pass counted by kind: a deadline unless the context is done, a write once
      the deadline is set and the message built, a read once the write
      succeeded, and nothing else. */
  lemma PassCount(a: Attempt, d: int, msg: EchoMessage, k: Kind)
    ensures Count(PassTrace(a, d, msg), k) ==
      if k == DeadlineKind then (if !a.cancelled then 1 else 0)
      else if k == SendKind then (if !a.cancelled && a.deadlineOk && a.marshalOk then 1 else 0)
      else if k == ReceiveKind then (if !a.cancelled && a.deadlineOk && a.marshalOk && a.writeOk then 1 else 0)
      else 0
  {
    var t := PassTrace(a, d, msg);
    SingleCount(Deadline(d), k);
    SingleCount(Send(msg), k);
    SingleCount(Receive, k);
    if a.cancelled {
      assert t == [];
    } else if !a.deadlineOk || !a.marshalOk {
      assert t == [Deadline(d)];
    } else if !a.writeOk {
      assert t == [Deadline(d)] + [Send(msg)];
      CountAppend([Deadline(d)], [Send(msg)], k);
    } else {
      assert t == [Deadline(d)] + [Send(msg)] + [Receive];
      CountAppend([Deadline(d)], [Send(msg)], k);
      CountAppend([Deadline(d)] + [Send(msg)], [Receive], k);
    }
  }

  /** The socket call and the hook, by kind and through the filters. */
  lemma SocketSetupFacts(target: Family, hookSet: bool, env: UnixEnv, k: Kind)
    ensures Count(SocketSetup(target, hookSet, env), k) ==
      if k == OpenKind then 1 else if k == HookKind then (if hookSet then 1 else 0) else 0
    ensures Hooks(SocketSetup(target, hookSet, env)) == (if hookSet then [env.fd] else [])
    ensures Sends(SocketSetup(target, hookSet, env)) == []
    ensures Deadlines(SocketSetup(target, hookSet, env)) == []
  {
    var t := SocketSetup(target, hookSet, env);
    SingleCount(SocketFor(target), k);
    SingleFilters(SocketFor(target));
    if hookSet {
      assert t == [SocketFor(target)] + [Hook(env.fd)];
      SingleCount(Hook(env.fd), k);
      SingleFilters(Hook(env.fd));
      CountAppend([SocketFor(target)], [Hook(env.fd)], k);
      FiltersAppend([SocketFor(target)], [Hook(env.fd)]);
    } else {
      assert t == [SocketFor(target)];
    }
  }

  /** Everything before the loop, once the connection exists: the socket call,
      the hook and the clock reading. */
  lemma HeadFacts(target: Family, hookSet: bool, env: UnixEnv, k: Kind)
    ensures Count(SocketSetup(target, hookSet, env) + [ClockStart], k) ==
      if k == OpenKind || k == ClockKind then 1 else if k == HookKind then (if hookSet then 1 else 0) else 0
    ensures Hooks(SocketSetup(target, hookSet, env) + [ClockStart]) == (if hookSet then [env.fd] else [])
    ensures Sends(SocketSetup(target, hookSet, env) + [ClockStart]) == []
    ensures Deadlines(SocketSetup(target, hookSet, env) + [ClockStart]) == []
  {
    SocketSetupFacts(target, hookSet, env, k);
    AppendEvent(SocketSetup(target, hookSet, env), ClockStart, k);
  }

  /** With the budget IcmpPing starts with, the loop makes a single pass with
      sequence number 1 and a deadline of MaxTimeout; a read that times out ends
      the probe with the "IcmpPing timeout" error instead of a retry. */
  lemma UnixIsSinglePass(target: Family, payload: seq<bv8>, hookSet: bool, env: UnixEnv)
    requires SocketReady(env)
    ensures UnixPing(target, payload, hookSet, env)
         == Released(Prepend(SocketSetup(target, hookSet, env) + [ClockStart],
                             LastPass(target, payload, env, env.attempts(1), MaxTimeout, 1)))
  {
    LoopWithinOnePass(target, payload, env, MaxTimeout, 1);
  }

  /** Once the connection exists the trace is the setup, the clock reading, the
      one pass, and the close of the connection. */
  lemma UnixSplit(target: Family, payload: seq<bv8>, hookSet: bool, env: UnixEnv)
    requires SocketReady(env)
    ensures UnixPing(target, payload, hookSet, env).trace
         == (SocketSetup(target, hookSet, env) + [ClockStart])
            + PassTrace(env.attempts(1), MaxTimeout, EchoRequest(target, 1, payload)) + [Release]
  {
    UnixIsSinglePass(target, payload, hookSet, env);
  }

  /** The first pass wrote its request and then read. */
  predicate ReadAttempted(env: UnixEnv)
  {
    var a := env.attempts(1);
    SocketReady(env) && !a.cancelled && a.deadlineOk && a.marshalOk && a.writeOk
  }

  /** Which error IcmpPing returns, as a function of the first failing step:
      socket, connection, context, deadline, marshalling, write, read. A read that
      times out is reported as "IcmpPing timeout" and any other read error as
      "read icmp message"; no error means the first read succeeded. */
  lemma UnixErrorOrder(target: Family, payload: seq<bv8>, hookSet: bool, env: UnixEnv)
    ensures var a := env.attempts(1);
      var e := UnixPing(target, payload, hookSet, env).err;
      && (e == Some(CreateFile) <==> !env.socketOk)
      && (e == Some(CreateConn) <==> env.socketOk && !env.connOk)
      && (e == Some(ContextDone) <==> SocketReady(env) && a.cancelled)
      && (e == Some(SetReadTimeout) <==> SocketReady(env) && !a.cancelled && !a.deadlineOk)
      && (e == Some(MakeMessage) <==> SocketReady(env) && !a.cancelled && a.deadlineOk && !a.marshalOk)
      && (e == Some(WriteMessage) <==> SocketReady(env) && !a.cancelled && a.deadlineOk && a.marshalOk && !a.writeOk)
      && (e == Some(ReadMessage) <==> ReadAttempted(env) && a.read.ReadErr? && !IsTimeoutError(a.read.text))
      && (e == Some(PingTimeout) <==> ReadAttempted(env) && a.read.ReadErr? && IsTimeoutError(a.read.text))
      && (e == None <==> ReadAttempted(env) && a.read.ReadOk?)
  {
    if SocketReady(env) {
      UnixIsSinglePass(target, payload, hookSet, env);
    }
  }

  /** Every failure returns -1, and a success returns the time from the clock
      reading before the loop to the first read. */
  lemma UnixLatency(target: Family, payload: seq<bv8>, hookSet: bool, env: UnixEnv)
    ensures var o := UnixPing(target, payload, hookSet, env);
      && (o.err.Some? ==> o.latency == -1)
      && (o.err.None? ==> env.attempts(1).read.ReadOk? && o.latency == env.attempts(1).read.at - env.start)
      && (ReadsAfterStart(env) ==> (o.err.None? ==> o.latency >= 0) && (o.latency == -1 <==> o.err.Some?))
  {
    if SocketReady(env) {
      UnixIsSinglePass(target, payload, hookSet, env);
    }
  }

  /** Only the first pass matters: two runs that agree on everything up to it
      return the same outcome, whatever later passes would have done. */
  lemma UnixLaterAttemptsIgnored(target: Family, payload: seq<bv8>, hookSet: bool, env: UnixEnv, other: UnixEnv)
    requires other.socketOk == env.socketOk && other.fd == env.fd && other.connOk == env.connOk
    requires other.start == env.start && other.attempts(1) == env.attempts(1)
    ensures UnixPing(target, payload, hookSet, other) == UnixPing(target, payload, hookSet, env)
  {
    if SocketReady(env) {
      UnixIsSinglePass(target, payload, hookSet, env);
      UnixIsSinglePass(target, payload, hookSet, other);
    }
  }

  /** Once the connection exists, the effects are those of the setup, the clock
      reading, the one pass and the close. */
  lemma ReadyCount(target: Family, payload: seq<bv8>, hookSet: bool, env: UnixEnv, k: Kind)
    requires SocketReady(env)
    ensures Count(UnixPing(target, payload, hookSet, env).trace, k)
         == Count(SocketSetup(target, hookSet, env) + [ClockStart], k)
            + Count(PassTrace(env.attempts(1), MaxTimeout, EchoRequest(target, 1, payload)), k)
            + (if k == ReleaseKind then 1 else 0)
  {
    var head := SocketSetup(target, hookSet, env) + [ClockStart];
    var pass := PassTrace(env.attempts(1), MaxTimeout, EchoRequest(target, 1, payload));
    UnixSplit(target, payload, hookSet, env);
    CountAppend(head, pass, k);
    AppendEvent(head + pass, Release, k);
  }

  /** The effects of IcmpPing counted by kind: one socket call, the hook when it
      is set and the socket exists, and, once the connection exists, one clock
      reading, the effects of the one pass and one close. The listener, the raw
      connection and the dialler of the other probers never occur. */
  lemma UnixCount(target: Family, payload: seq<bv8>, hookSet: bool, env: UnixEnv, k: Kind)
    ensures var a := env.attempts(1);
      var ready := SocketReady(env);
      Count(UnixPing(target, payload, hookSet, env).trace, k) ==
        if k == OpenKind then 1
        else if k == HookKind then (if env.socketOk && hookSet then 1 else 0)
        else if k == ClockKind || k == ReleaseKind then (if ready then 1 else 0)
        else if k == DeadlineKind then (if ready && !a.cancelled then 1 else 0)
        else if k == SendKind then (if ready && !a.cancelled && a.deadlineOk && a.marshalOk then 1 else 0)
        else if k == ReceiveKind then (if ReadAttempted(env) then 1 else 0)
        else 0
  {
    var t := UnixPing(target, payload, hookSet, env).trace;
    if !env.socketOk {
      assert t == [SocketFor(target)];
      SingleCount(SocketFor(target), k);
    } else if !env.connOk {
      assert t == SocketSetup(target, hookSet, env);
      SocketSetupFacts(target, hookSet, env, k);
    } else {
      ReadyCount(target, payload, hookSet, env, k);
      HeadFacts(target, hookSet, env, k);
      PassCount(env.attempts(1), MaxTimeout, EchoRequest(target, 1, payload), k);
    }
  }

  /** Once the connection exists, the deadlines and requests are those of the
      one pass and the hook calls those before the loop. */
  lemma ReadyFilters(target: Family, payload: seq<bv8>, hookSet: bool, env: UnixEnv)
    requires SocketReady(env)
    ensures var t := UnixPing(target, payload, hookSet, env).trace;
      var pass := PassTrace(env.attempts(1), MaxTimeout, EchoRequest(target, 1, payload));
      Deadlines(t) == Deadlines(pass) && Sends(t) == Sends(pass)
      && Hooks(t) == Hooks(SocketSetup(target, hookSet, env) + [ClockStart])
  {
    var t := UnixPing(target, payload, hookSet, env).trace;
    var head := SocketSetup(target, hookSet, env) + [ClockStart];
    var pass := PassTrace(env.attempts(1), MaxTimeout, EchoRequest(target, 1, payload));
    assert t == head + pass + [Release] by {
      UnixSplit(target, payload, hookSet, env);
    }
    assert Deadlines(head) == [] && Sends(head) == [] by {
      HeadFacts(target, hookSet, env, HookKind);
    }
    assert Hooks(pass) == [] by {
      PassFilters(env.attempts(1), MaxTimeout, EchoRequest(target, 1, payload));
    }
    SingleFilters(Release);
    FiltersAppend(head, pass);
    FiltersAppend(head + pass, [Release]);
  }

  /** The deadlines, requests and hook calls of IcmpPing: at most one deadline,
      of MaxTimeout, at most one request, with sequence number 1, and the hook on
      the socket's descriptor when it is set and the socket exists. */
  lemma UnixSingleAttempt(target: Family, payload: seq<bv8>, hookSet: bool, env: UnixEnv)
    ensures var a := env.attempts(1);
      var t := UnixPing(target, payload, hookSet, env).trace;
      && Deadlines(t) == (if SocketReady(env) && !a.cancelled then [MaxTimeout] else [])
      && Sends(t) == (if SocketReady(env) && !a.cancelled && a.deadlineOk && a.marshalOk
                      then [EchoRequest(target, 1, payload)] else [])
      && Hooks(t) == (if env.socketOk && hookSet then [env.fd] else [])
  {
    var t := UnixPing(target, payload, hookSet, env).trace;
    if !env.socketOk {
      assert t == [SocketFor(target)];
      SingleFilters(SocketFor(target));
      assert Sends(t) == [] && Deadlines(t) == [] && Hooks(t) == [];
    } else if !env.connOk {
      assert t == SocketSetup(target, hookSet, env);
      SocketSetupFacts(target, hookSet, env, HookKind);
      assert Sends(t) == [] && Deadlines(t) == [];
    } else {
      var a := env.attempts(1);
      ReadyFilters(target, payload, hookSet, env);
      HeadFacts(target, hookSet, env, HookKind);
      PassFilters(a, MaxTimeout, EchoRequest(target, 1, payload));
      assert Sends(t) == (if !a.cancelled && a.deadlineOk && a.marshalOk then [EchoRequest(target, 1, payload)] else []);
      assert Deadlines(t) == (if !a.cancelled then [MaxTimeout] else []);
    }
  }

  /** The "IcmpPing timeout" error comes after deadlines that spent the whole
      budget. */
  lemma UnixBudgetSpent(target: Family, payload: seq<bv8>, hookSet: bool, env: UnixEnv)
    ensures var o := UnixPing(target, payload, hookSet, env);
      o.err == Some(PingTimeout) ==> Sum(Deadlines(o.trace)) == MaxTimeout
  {
    var o := UnixPing(target, payload, hookSet, env);
    if o.err == Some(PingTimeout) {
      UnixErrorOrder(target, payload, hookSet, env);
      UnixSingleAttempt(target, payload, hookSet, env);
      SumCons(MaxTimeout, []);
    }
  }

  /** The trace starts with the socket call, the hook follows it directly, and
      once the connection exists the trace ends with its close. */
  lemma UnixBoundaries(target: Family, payload: seq<bv8>, hookSet: bool, env: UnixEnv)
    ensures var t := UnixPing(target, payload, hookSet, env).trace;
      && |t| >= 1 && t[0] == SocketFor(target)
      && (env.socketOk && hookSet ==> |t| >= 2 && t[1] == Hook(env.fd))
      && (!env.socketOk ==> t == [SocketFor(target)])
      && (t[|t| - 1] == Release <==> SocketReady(env))
  {
    var t := UnixPing(target, payload, hookSet, env).trace;
    if SocketReady(env) {
      UnixSplit(target, payload, hookSet, env);
    }
  }

  /** Once the connection exists, the setup and the clock reading hold no write,
      and the pass and the close hold no hook call and no clock reading. */
  lemma ReadyOrder(target: Family, payload: seq<bv8>, hookSet: bool, env: UnixEnv, p: Kind)
    requires SocketReady(env)
    requires p == HookKind || p == ClockKind
    ensures Before(UnixPing(target, payload, hookSet, env).trace, p, SendKind)
  {
    var head := SocketSetup(target, hookSet, env) + [ClockStart];
    var a := env.attempts(1);
    var msg := EchoRequest(target, 1, payload);
    var pass := PassTrace(a, MaxTimeout, msg);
    UnixSplit(target, payload, hookSet, env);
    HeadFacts(target, hookSet, env, SendKind);
    PassKinds(a, MaxTimeout, msg, p);
    BeforeRelease(head, pass, p, SendKind);
  }

  /** The hook and the clock reading come before the write. */
  lemma UnixOrder(target: Family, payload: seq<bv8>, hookSet: bool, env: UnixEnv)
    ensures Before(UnixPing(target, payload, hookSet, env).trace, HookKind, SendKind)
    ensures Before(UnixPing(target, payload, hookSet, env).trace, ClockKind, SendKind)
  {
    var t := UnixPing(target, payload, hookSet, env).trace;
    if SocketReady(env) {
      ReadyOrder(target, payload, hookSet, env, HookKind);
      ReadyOrder(target, payload, hookSet, env, ClockKind);
    } else {
      UnixCount(target, payload, hookSet, env, SendKind);
      BeforeVacuous(t, HookKind, SendKind);
      BeforeVacuous(t, ClockKind, SendKind);
    }
  }

  /** On the unix build TcpPing installs the control callback, so the hook runs
      on the dialing socket's descriptor exactly when FdControl is set and the
      callback runs. */
  lemma UnixBuildTcpHook(hookSet: bool, tcp: TcpEnv)
    ensures Hooks(TcpRun(IsUnix, hookSet, tcp).trace) == (if tcp.controlRuns && hookSet then [tcp.fd] else [])
  {
    TcpHook(IsUnix, hookSet, tcp);
  }

}
