/** Values shared by the probers of the libping package: the address family of a
    target, the echo request as a record, the error kinds a probe returns, and the
    trace of effects (socket calls, hook calls, the clock reading that starts the
    measurement, writes, reads) that a probe performs on the outside world. Every outcome of such an effect is an input
    of the model; the trace records which effects took place and in what order. */
module PingTypes {

  datatype Option<+T> = None | Some(value: T)

  /** Whether a target address is IPv4 or IPv6 (Socksaddr.IsIPv6 in the source). */
  datatype Family = V4 | V6

  /** An ICMP echo request as the source builds it (icmp.Message with an icmp.Echo
      body). The code is left at its zero value by the source. The byte encoding and
      the checksum are computed by golang.org/x/net/icmp, which is not modelled. */
  datatype EchoMessage = EchoMessage(msgType: nat, code: nat, id: nat, sequence: nat, data: seq<bv8>)

  /** Socket domains and types passed to the socket system call. */
  datatype Domain = AF_INET | AF_INET6
  datatype SockType = SOCK_DGRAM

  /** One effect of a probe, in the order the probe performs it. */
  datatype Event =
    | Open(domain: Domain, sockType: SockType, protocol: nat)  // unix.Socket
    | ListenOn(network: string, address: string)              // icmp.ListenPacket
    | RawConn                                                 // SyscallConn
    | Hook(fd: int)                                           // FdControl(fd)
    | ClockStart                                              // start := time.Now()
    | Deadline(duration: int)                                 // SetReadDeadline(now + duration)
    | Send(msg: EchoMessage)                                  // WriteTo of the marshalled message
    | Receive                                                 // ReadFrom
    | Connect                                                 // DialContext
    | Release                                                 // the connection is closed

  /** The error a probe returns, one kind per place in the source that returns one;
      each is named after the context the source attaches to it. */
  datatype PingError =
    | CreateFile       // "create file from fd"
    | CreateConn       // "create conn"
    | ContextDone      // ctx.Err() after cancellation
    | SetReadTimeout   // "set read timeout"
    | MakeMessage      // "make icmp message"
    | WriteMessage     // "write icmp message"
    | ReadMessage      // "read icmp message"
    | PingTimeout      // "IcmpPing timeout"
    | Listen           // "listen"
    | GetSyscallConn   // "get syscall conn"
    | WriteHead        // "write head"
    | ReadFrom         // "ReadFrom"
    | Dial             // "dial"

  /** The result of one ReadFrom: success at a clock reading, or an error with its text. */
  datatype ReadOutcome = ReadOk(at: int) | ReadErr(text: string)

  /** What a probe returns, latency -1 on failure as in the source, together with
      the trace of effects it performed. */
  datatype Outcome = Outcome(latency: int, err: Option<PingError>, trace: seq<Event>)

  /** The outcome of a later stage, preceded by the effects of an earlier one. */
  function Prepend(t: seq<Event>, o: Outcome): Outcome
  {
    o.(trace := t + o.trace)
  }

  /** The outcome with the deferred close of the connection at its end. */
  function Released(o: Outcome): Outcome
  {
    o.(trace := o.trace + [Release])
  }

  /** Prepending two stages one after the other prepends their concatenation. */
  lemma PrependAssoc(a: seq<Event>, b: seq<Event>, o: Outcome)
    ensures Prepend(a, Prepend(b, o)) == Prepend(a + b, o)
  {
    assert a + (b + o.trace) == (a + b) + o.trace;
  }

  /** The messages written, in order. */
  function Sends(t: seq<Event>): seq<EchoMessage>
  {
    if t == [] then [] else Sends(t[..|t| - 1]) + (if t[|t| - 1].Send? then [t[|t| - 1].msg] else [])
  }

  /** The read deadlines set, in order. */
  function Deadlines(t: seq<Event>): seq<int>
  {
    if t == [] then [] else Deadlines(t[..|t| - 1]) + (if t[|t| - 1].Deadline? then [t[|t| - 1].duration] else [])
  }

  /** The descriptors the hook was called with, in order. */
  function Hooks(t: seq<Event>): seq<int>
  {
    if t == [] then [] else Hooks(t[..|t| - 1]) + (if t[|t| - 1].Hook? then [t[|t| - 1].fd] else [])
  }


  function Sum(s: seq<int>): int
  {
    if s == [] then 0 else Sum(s[..|s| - 1]) + s[|s| - 1]
  }

  /** The kind of an event, without its arguments. */
  datatype Kind = OpenKind | ListenKind | RawConnKind | HookKind | ClockKind
                | DeadlineKind | SendKind | ReceiveKind | ConnectKind | ReleaseKind

  function KindOf(e: Event): Kind
  {
    match e
    case Open(_, _, _) => OpenKind
    case ListenOn(_, _) => ListenKind
    case RawConn => RawConnKind
    case Hook(_) => HookKind
    case ClockStart => ClockKind
    case Deadline(_) => DeadlineKind
    case Send(_) => SendKind
    case Receive => ReceiveKind
    case Connect => ConnectKind
    case Release => ReleaseKind
  }

  /** How many events of kind k a trace holds. */
  function Count(t: seq<Event>, k: Kind): nat
  {
    if t == [] then 0 else Count(t[..|t| - 1], k) + (if KindOf(t[|t| - 1]) == k then 1 else 0)
  }

  /** No event of kind k occurs in t. */
  predicate Absent(t: seq<Event>, k: Kind)
  {
    forall i :: 0 <= i < |t| ==> KindOf(t[i]) != k
  }

  /** Every event of kind p occurs before every event of kind q. */
  predicate Before(t: seq<Event>, p: Kind, q: Kind)
  {
    forall i, j :: 0 <= i < |t| && 0 <= j < |t| && KindOf(t[i]) == p && KindOf(t[j]) == q ==> i < j
  }

  /** Events of kind p only in a and of kind q only in b come in that order. */
  lemma BeforeAppend(a: seq<Event>, b: seq<Event>, p: Kind, q: Kind)
    requires Absent(a, q) && Absent(b, p)
    ensures Before(a + b, p, q)
  {
    forall i, j | 0 <= i < |a + b| && 0 <= j < |a + b| && KindOf((a + b)[i]) == p && KindOf((a + b)[j]) == q
      ensures i < j
    {
      assert i < |a| <= j;
    }
  }

  lemma AbsentAppend(a: seq<Event>, b: seq<Event>, k: Kind)
    ensures Absent(a + b, k) <==> Absent(a, k) && Absent(b, k)
  {
    if Absent(a, k) && Absent(b, k) {
      forall i | 0 <= i < |a + b| ensures KindOf((a + b)[i]) != k {
        if i >= |a| {
          assert (a + b)[i] == b[i - |a|];
        }
      }
    }
    if Absent(a + b, k) {
      forall i | 0 <= i < |a| ensures KindOf(a[i]) != k {
        assert (a + b)[i] == a[i];
      }
      forall i | 0 <= i < |b| ensures KindOf(b[i]) != k {
        assert (a + b)[|a| + i] == b[i];
      }
    }
  }

  /** The filters of a trace distribute over concatenation. */
  lemma {:induction false} FiltersAppend(a: seq<Event>, b: seq<Event>)
    ensures Sends(a + b) == Sends(a) + Sends(b)
    ensures Deadlines(a + b) == Deadlines(a) + Deadlines(b)
    ensures Hooks(a + b) == Hooks(a) + Hooks(b)
    decreases |b|
  {
    if b != [] {
      assert (a + b)[..|a + b| - 1] == a + b[..|b| - 1];
      assert (a + b)[|a + b| - 1] == b[|b| - 1];
      FiltersAppend(a, b[..|b| - 1]);
    } else {
      assert a + b == a;
    }
  }

  lemma {:induction false} CountAppend(a: seq<Event>, b: seq<Event>, k: Kind)
    ensures Count(a + b, k) == Count(a, k) + Count(b, k)
    decreases |b|
  {
    if b != [] {
      assert (a + b)[..|a + b| - 1] == a + b[..|b| - 1];
      assert (a + b)[|a + b| - 1] == b[|b| - 1];
      CountAppend(a, b[..|b| - 1], k);
    } else {
      assert a + b == a;
    }
  }

  /** A trace without events of a kind has nothing in that kind's filter. */
  lemma {:induction false} FiltersEmpty(t: seq<Event>)
    ensures Count(t, SendKind) == 0 ==> Sends(t) == []
    ensures Count(t, DeadlineKind) == 0 ==> Deadlines(t) == []
    ensures Count(t, HookKind) == 0 ==> Hooks(t) == []
    decreases |t|
  {
    if t != [] {
      FiltersEmpty(t[..|t| - 1]);
    }
  }

  /** A kind is absent exactly when its count is zero. */
  lemma {:induction false} CountZero(t: seq<Event>, k: Kind)
    ensures Absent(t, k) <==> Count(t, k) == 0
    decreases |t|
  {
    if t != [] {
      var init := t[..|t| - 1];
      CountZero(init, k);
      if Count(t, k) == 0 {
        forall i | 0 <= i < |t| ensures KindOf(t[i]) != k {
          if i < |t| - 1 {
            assert t[i] == init[i];
          }
        }
      }
    }
  }

  /** What the filters keep of a single event. */
  lemma SingleFilters(e: Event)
    ensures Deadlines([e]) == (if e.Deadline? then [e.duration] else [])
    ensures Sends([e]) == (if e.Send? then [e.msg] else [])
    ensures Hooks([e]) == (if e.Hook? then [e.fd] else [])
  {
    assert [e][..0] == [];
  }

  lemma SingleCount(e: Event, k: Kind)
    ensures Count([e], k) == (if KindOf(e) == k then 1 else 0)
  {
    assert [e][..0] == [];
  }

  /** One more event at the end of a trace: its kind is counted once more and
      the filters keep what they keep of it. */
  lemma AppendEvent(t: seq<Event>, e: Event, k: Kind)
    ensures Count(t + [e], k) == Count(t, k) + (if KindOf(e) == k then 1 else 0)
    ensures Sends(t + [e]) == Sends(t) + (if e.Send? then [e.msg] else [])
    ensures Deadlines(t + [e]) == Deadlines(t) + (if e.Deadline? then [e.duration] else [])
    ensures Hooks(t + [e]) == Hooks(t) + (if e.Hook? then [e.fd] else [])
  {
    assert (t + [e])[..|t|] == t;
  }

  /** A first part without q, followed by a part without p and the close of the
      connection, has every p before every q. */
  lemma BeforeRelease(a: seq<Event>, b: seq<Event>, p: Kind, q: Kind)
    requires Count(a, q) == 0 && Count(b, p) == 0 && p != ReleaseKind
    ensures Before(a + b + [Release], p, q)
  {
    assert a + b + [Release] == a + (b + [Release]);
    CountZero(a, q);
    AppendEvent(b, Release, p);
    CountZero(b + [Release], p);
    BeforeAppend(a, b + [Release], p, q);
  }

  lemma {:induction false} SumAppend(a: seq<int>, b: seq<int>)
    ensures Sum(a + b) == Sum(a) + Sum(b)
    decreases |b|
  {
    if b != [] {
      assert (a + b)[..|a + b| - 1] == a + b[..|b| - 1];
      SumAppend(a, b[..|b| - 1]);
    } else {
      assert a + b == a;
    }
  }
}
