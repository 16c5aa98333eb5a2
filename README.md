# libping in Dafny

A model of the probers of the Go package `libping`, with proofs about it. The package measures the latency to a host by
ICMP echo (`IcmpPing`) and by TCP connect time (`TcpPing`). It has two builds:

- `ping_unix.go` sends one ICMP echo request over an unprivileged datagram socket. It sends it inside a loop that is
  meant to retry on read timeouts within a time budget.
- `ping.go` listens with `icmp.ListenPacket`, sends one echo request and reads once. It also holds `TcpPing`, the
  library-wide `MaxTimeout` and the `FdControl` hook. `ping_stub.go` builds the network name the listener uses.

Every effect of a prober becomes an input of the model:
- the system calls, the socket operations and the clock;
- whether `FdControl` is set (`hookSet`), and whether the context is done;
- the outcome of each pass of the retry loop, by sequence number.

An environment datatype (`ListenEnv`, `UnixEnv`, `TcpEnv`) records how each effect turns out. A prober returns its
latency, its error and the trace of events it performed: socket calls, hook calls, the clock reading that starts the
measurement, read deadlines, writes, reads, dials and the close of the connection. The other clock readings are folded
into the values they produce and are not traced (see "## Left out"). Durations and clock readings are integer
nanoseconds, as in `time.Duration`.

Each prober has two forms:
- a method, written as the Go code is written (`Ping.IcmpPing`, `Ping.TcpPing`, `PingUnix.IcmpPing` with its `while`
  loop), proved equal to a specification function;
- the specification function itself (`SingleShot`, `TcpRun`, `UnixPing`, and `LoopRun` for the loop).

Lemmas state what the functions promise:
- which error is returned for each failing step, and in both directions;
- the latency on success;
- how often each effect happens and in what order;
- that every request carries the fixed identifier 0xDBB, the family's echo type and the caller's payload;
- the budget accounting of the retry loop for any budget: deadlines are capped at `MaxTimeout`, all but the last are
  full, together they never exceed the budget and they use it up exactly on the "IcmpPing timeout" error, and sequence
  numbers count up from 1.

For the budget the source starts with (`MaxTimeout`), the first deadline is the whole budget, so the loop makes one
pass. A read that times out therefore ends in "IcmpPing timeout" and never in a retry (`PingUnix.UnixIsSinglePass`,
`PingUnix.UnixSingleAttempt`). The loop is shaped for retries within a budget larger than one attempt, but the code
uses `MaxTimeout` for both the budget and the per-attempt cap, and the budget is not a parameter. The model follows the
code. `LoopRun` is defined for any budget, so the lemmas about the loop also describe the retries it would make with a
larger one.

Clock readings are inputs too. `time.Since` reads Go's monotonic clock, so a reply never comes before the clock
reading that starts the measurement. The predicates `Ping.ReadAfterStart`, `Ping.ConnectAfterStart` and
`PingUnix.ReadsAfterStart` state this. Under them the latency lemmas prove the source's convention both ways: the
latency is -1 exactly when an error is returned.

Files:
- `types.dfy` (`PingTypes`): shared datatypes, the trace and the filters and counts over it.
- `ping_stub.dfy` (`PingStub`): the network name and a parser that reads it back.
- `ping.dfy` (`Ping`): the constants, the listen address, the echo type, the single-shot ICMP prober and TCP prober.
- `ping_unix.dfy` (`PingUnix`): the unix ICMP prober and its loop.

## Model

| member | source | states |
|---|---|---|
| PingStub.IcmpNetworkParts | ping_stub.go:7-15 | The network name is "ip", the version digit, ':' and the ICMP protocol number (1 or 58) in decimal |
| PingStub.NetworkRoundTrip | ping_stub.go:7-15 | Parsing the network name gives back the family's version digit and protocol number, and so the family itself |
| PingStub.IcmpNetworkInjective | ping_stub.go:7-15 | Two families share a network name exactly when they are the same family |
| PingStub.ProtocolSuffix | ping_stub.go:9-13 | The name's protocol is 58 exactly for IPv6 and 1 exactly for IPv4 |
| PingStub.IcmpNetworkShape | ping_stub.go:8-14 | Every name starts with "ip" and holds exactly one ':' |
| Ping.ListenAddressMatchesNetwork | ping.go:51-59 | The listen address is the wildcard of the same family as the network name, and is made only of '0', '.' and ':' |
| Ping.EchoTypeMatchesProtocol | ping.go:97-101 | The message type is the echo request of the family's ICMP flavour: 8 exactly for IPv4, 128 exactly for IPv6 |
| Ping.IcmpPing | ping.go:47-119 | The method returns the latency, error and effects that SingleShot describes |
| Ping.SingleShotErrorOrder | ping.go:59-116 | Each error is returned exactly when its step is the first to fail: listen, SyscallConn on unix, marshal, write, read. There is no error exactly when all of them pass |
| Ping.SingleShotLatency | ping.go:88-118 | Failure returns -1; success returns the read time minus the clock reading taken after the socket setup. On the monotonic clock a success is not negative, so the latency is -1 exactly when an error is returned |
| Ping.ConnSetupFilters | ping.go:66-86 | The connection setup writes nothing. It calls the hook once, on the socket's descriptor, exactly on unix when Control runs its callback and FdControl is set |
| Ping.ConnSetupCount | ping.go:66-86 | The connection setup counted by kind: one SyscallConn on unix, and the hook under the same condition |
| Ping.SetupFilters | ping.go:59-88 | The setup writes nothing, calls the hook as the connection setup does, and ends with the reading that starts the measurement |
| Ping.SetupCount | ping.go:59-88 | The setup counted by kind: one listen, one reading that starts the measurement, and the connection setup |
| Ping.ExchangeFilters | ping.go:90-111 | The exchange writes the request exactly when marshalling succeeded, and calls no hook |
| Ping.ExchangeCount | ping.go:103-116 | The exchange writes once when marshalling succeeded, reads once when the write succeeded, and does nothing else |
| Ping.SingleShotSplit | ping.go:59-118 | Once the connection is ready, the trace is the setup, then the exchange, then the close |
| Ping.ReadyFilters | ping.go:59-118 | A ready probe writes the exchange's request and calls the hook as the setup does |
| Ping.ReadyCount | ping.go:59-118 | A ready probe's effects by kind are those of the setup, those of the exchange and one close |
| Ping.EarlyFilters | ping.go:59-79 | A probe that fails before the connection is ready writes nothing and calls no hook |
| Ping.EarlyCount | ping.go:59-79 | Such a probe only listens, and when listening succeeded calls SyscallConn and closes the connection. It does not read the clock |
| Ping.SingleShotRequest | ping.go:90-110 | Exactly one request is written when the connection is ready and marshalling succeeded, and none otherwise. It has the family's echo type, identifier 0xDBB, sequence 0 and the payload |
| Ping.SingleShotReceive | ping.go:108-116 | One read exactly when the connection is ready and marshalling and the write succeeded, and no read otherwise |
| Ping.SingleShotHookOnce | ping.go:66-86 | FdControl runs at most once, on the socket's descriptor, exactly when listening succeeded on unix, SyscallConn succeeded, Control runs its callback and FdControl is set |
| Ping.SingleShotOrder | ping.go:59-118 | In a ready probe, every event of a kind found only in the setup comes before every event of a kind found only after it |
| Ping.SingleShotHookFirst | ping.go:81-110 | The hook runs before the write |
| Ping.SingleShotClockOnce | ping.go:77-88 | The reading that starts the measurement (`start := time.Now()`) is taken once exactly when the connection is ready, and not taken otherwise |
| Ping.SingleShotClockBeforeSend | ping.go:88-110 | The reading that starts the measurement comes before the write |
| Ping.SingleShotRelease | ping.go:48-65 | Once listening succeeded, the connection is closed once, as the last effect on every path. It is never closed otherwise |
| Ping.TcpPing | ping.go:22-43 | The method returns the latency, error and effects that TcpRun describes |
| Ping.TcpResult | ping.go:35-42 | The "dial" error is returned exactly when the dial fails, with -1. Otherwise the latency is the connect time minus the clock reading taken before dialing. On the monotonic clock it is not negative, so the latency is -1 exactly when the dial failed |
| Ping.DialStartFacts | ping.go:25-36 | Before the dial the clock is read first, and the hook runs once on unix when the control callback runs and FdControl is set |
| Ping.DialEndFacts | ping.go:36-40 | From the dial on: one dial, then one close exactly when the connection was established, and no hook |
| Ping.TcpSplit | ping.go:22-43 | TcpPing's trace is the pre-dial part followed by the dial part, through the filters and counts too |
| Ping.TcpEffects | ping.go:35-42 | The clock is read first and one dial is made. The connection is closed once exactly when it was established, and then as the last effect |
| Ping.TcpHook | ping.go:25-36 | The hook runs at most once, on the dialing socket's descriptor, under those conditions, and before the dial |
| PingUnix.SocketFor | ping_unix.go:31-35 | The socket call is a datagram socket in AF_INET6 with protocol 58 exactly for IPv6, and in AF_INET with protocol 1 exactly for IPv4 |
| PingUnix.SocketMatchesNetwork | ping_unix.go:31-35 | The socket's protocol is the one in the other build's network name, and its domain is IPv6 exactly for an "ip6" name |
| PingUnix.AttemptDeadline | ping_unix.go:62-67 | An attempt's deadline is the remaining budget capped at MaxTimeout. It is one of the two, at most both, and positive while budget remains |
| PingUnix.ContainsIff | ping_unix.go:103 | The substring test holds exactly when the pattern occurs at some position of the error text |
| PingUnix.DeadlineErrorIsTimeout | ping_unix.go:101-105 | Any error text ending in "i/o timeout" counts as a timeout, so the loop goes on |
| PingUnix.IcmpPing | ping_unix.go:28-114 | The method, with its loop, returns the latency, error and effects that UnixPing describes |
| PingUnix.PassFilters | ping_unix.go:56-99 | A pass sets a deadline unless the context is done. It writes the request once the deadline is set and the message is marshalled, and calls no hook |
| PingUnix.PassKinds | ping_unix.go:56-108 | A pass holds only deadlines, writes and reads |
| PingUnix.PassCount | ping_unix.go:56-108 | A pass counted by kind: one deadline unless the context is done, one write after a set deadline and a marshalled message, one read after a successful write |
| PingUnix.ExchangedFilters | ping_unix.go:70-101 | A pass whose read returned set the deadline d and wrote the request |
| PingUnix.LoopSpent | ping_unix.go:55-113 | Defining equation of LoopRun, budget spent: with no budget left the loop does nothing and returns "IcmpPing timeout" with -1 |
| PingUnix.LoopTimeoutStep | ping_unix.go:101-105 | Defining equation of LoopRun, read timed out: a read that timed out is followed by the rest of the loop, with the next sequence number and the budget minus this deadline |
| PingUnix.LoopStop | ping_unix.go:56-110 | Defining equation of LoopRun, any other pass: such a pass ends the loop with that pass's outcome |
| PingUnix.LoopCancelled | ping_unix.go:56-60 | A done context ends the loop at once, with no effect and the context's error |
| PingUnix.LoopWithinOnePass | ping_unix.go:54-68 | A budget of at most MaxTimeout is used up by the first deadline, so the loop makes exactly one pass |
| PingUnix.LoopLatency | ping_unix.go:53-113 | For any budget (through LatencyFrom): failure returns -1. Success returns the time from the clock reading before the loop to the read of the pass that ended the loop. That pass is the one whose request was written last, it succeeded at every step, and every pass before it timed out. On the monotonic clock a success is not negative, so the latency is -1 exactly when an error is returned |
| PingUnix.LoopSends | ping_unix.go:55-86 | For any budget, the requests written carry consecutive sequence numbers from the first one on, identifier 0xDBB, the family's echo type and the payload |
| PingUnix.LoopDeadlineSizes | ping_unix.go:62-70 | For any budget, every deadline is positive and at most MaxTimeout, and all but the last are exactly MaxTimeout |
| PingUnix.LoopDeadlineSum | ping_unix.go:54-113 | For any non-negative budget the deadlines add up to at most the budget. They add up to exactly the budget when the loop ends in "IcmpPing timeout" |
| PingUnix.LoopOnlyExchanges | ping_unix.go:55-111 | The loop only sets deadlines, writes and reads |
| PingUnix.LoopSecondPass | ping_unix.go:54-68 | A second deadline is set only after a first pass that timed out, and only when the budget was above MaxTimeout |
| PingUnix.SocketSetupFacts | ping_unix.go:31-44 | Before the connection exists: one socket call, the hook on its descriptor when FdControl is set, no deadline and no write |
| PingUnix.HeadFacts | ping_unix.go:31-53 | Everything before the loop adds to that the one reading that starts the measurement |
| PingUnix.UnixIsSinglePass | ping_unix.go:53-113 | Once the connection exists, IcmpPing is the setup, the clock reading, the single pass with sequence 1 and deadline MaxTimeout, and the close. A timed-out read ends in "IcmpPing timeout" |
| PingUnix.UnixSplit | ping_unix.go:51-113 | Once the connection exists, the trace is the setup, the clock reading, one pass and the close |
| PingUnix.UnixErrorOrder | ping_unix.go:28-113 | Each error is returned exactly when its step is the first to fail: socket, connection, context, deadline, marshalling, write, read. A timeout read is "IcmpPing timeout" and any other read error is "read icmp message". There is no error exactly when the first read succeeded |
| PingUnix.UnixLatency | ping_unix.go:53-110 | Failure returns -1. Success returns the first pass's read time minus the clock reading before the loop. On the monotonic clock a success is not negative, so the latency is -1 exactly when an error is returned |
| PingUnix.UnixLaterAttemptsIgnored | ping_unix.go:54-68 | Two environments that agree up to the first pass give the same outcome |
| PingUnix.ReadyCount | ping_unix.go:51-113 | Once the connection exists, its effects by kind are those of the setup and the reading that starts the measurement, those of the pass, and one close |
| PingUnix.UnixCount | ping_unix.go:28-113 | Effects by kind: one socket call and the hook when the socket exists and FdControl is set. Once the connection exists, one reading that starts the measurement (`start := time.Now()`), one close and the pass's deadline, write and read. No other traced event happens |
| PingUnix.ReadyFilters | ping_unix.go:42-108 | Once the connection exists, the deadlines and writes are the pass's, and the hook calls are those before the loop |
| PingUnix.UnixSingleAttempt | ping_unix.go:54-99 | At most one deadline, of MaxTimeout. At most one request, with sequence number 1. The hook is called on the socket's descriptor exactly when the socket exists and FdControl is set |
| PingUnix.UnixBudgetSpent | ping_unix.go:54-113 | "IcmpPing timeout" is returned only after deadlines that spent the whole budget |
| PingUnix.UnixBoundaries | ping_unix.go:31-51 | The trace starts with the socket call, the hook comes right after it, a failed socket call is the only effect, and the trace ends with the close exactly when the connection exists |
| PingUnix.ReadyOrder | ping_unix.go:42-99 | Once the connection exists, the hook and the clock reading come before the write |
| PingUnix.UnixOrder | ping_unix.go:42-99 | The hook and the clock reading always come before the write |
| Ping.StubBuildNoHook | ping_stub.go:5 | On the build where isUnix is false, IcmpPing never calls SyscallConn, and neither IcmpPing nor TcpPing ever calls the hook, whether FdControl is set or not |
| PingUnix.UnixBuildTcpHook | ping_unix.go:21 | On the unix build, TcpPing calls the hook on the dialing socket's descriptor exactly when FdControl is set and the control callback runs |

## Left out

- The operating system is not modelled: sockets, `net.FilePacketConn`, `icmp.ListenPacket`, `SyscallConn`,
  `rawConn.Control`, `SetReadDeadline`, `WriteTo`, `ReadFrom`, `DialContext` and the clock. Each is an input saying how
  it turns out.
- The byte encoding of the echo message and its checksum (`icmp.Message.Marshal`). The message is a record, and
  marshalling is an input that succeeds or fails.
- The reply is not matched to the request. The source treats any successful read as the reply, and so does the model.
- Concurrency: the `context.AfterFunc` close in `ping.go` and cancellation racing a blocked read. The context is sampled
  once per pass, as the `select` does. In `ping.go`, the close that `defer cancel()` triggers is modelled as the last
  effect of every path after a successful listen.
- Error values are kinds, not Go error values: their text and the wrapping by `E.Cause` are not modelled. A read
  error's text is kept, because the loop tests it for "timeout".
- The descriptor owned by the `os.File` that `os.NewFile` returns in `ping_unix.go`. `net.FilePacketConn` duplicates it
  and the source never closes `f`, so the model's close event is the close of the connection only. On the
  "create conn" path the model records no close, as in the source.
- Clock readings other than `start := time.Now()` are not traced: `time.Since(start)` at `ping.go:42`, `ping.go:118`
  and `ping_unix.go:110`, and the `time.Now()` inside each pass's `SetReadDeadline` at `ping_unix.go:70`. Each is an
  input folded into the value it produces: `Connected(at)` and `ReadOk(at)` carry the reading that ends the measurement,
  and `Deadline(d)` records only the duration added to the reading. The trace's clock event is only the reading that
  starts the measurement, and the counts of clock events are counts of that reading.
- Integer width: durations and clock readings are unbounded integers. The 64-bit wrap-around of `time.Duration` and
  `time.Since` is not modelled.
- `isUnix` and `FdControl` are declared in both builds. `ping.go`'s `IcmpPing` and `TcpPing` take `isUnix` as a
  parameter and model both branches. `PingUnix.IsUnix` and `PingStub.IsUnix` are the constants of each build, and
  `Ping.StubBuildNoHook` and `PingUnix.UnixBuildTcpHook` plug them in. The unix build as given does not compile:
  `ping.go` carries no build constraint, so on unix it redeclares `FdControl` (`ping.go:20`, `ping_unix.go:24`) and
  `IcmpPing` (`ping.go:47`, `ping_unix.go:28`), and it calls `icmpNetwork`, which only the `!unix` file
  `ping_stub.go` defines. The `isUnix` branches of `ping.go` (`ping.go:25-33`, `ping.go:66-86`) and the unix case of
  `UnixBuildTcpHook` therefore run in no build of these files; the model follows the code as written.
- `TcpPing`: the address string and the resolution that `DialContext` does are not modelled. The dial is one event, and
  the control callback runs at most once, before it.
- Ping.IcmpPing: the model covers only reads that return. `ping.go` sets no read deadline, so its read at
  `ping.go:113` is bounded only by the caller's context: when the context ends, the `context.AfterFunc` close at
  `ping.go:63-65` ends the read. If the context never ends and no reply arrives, that `IcmpPing` never returns, and the
  model has no outcome for that case.
- `ping_test.go` is not part of this model.
- The "not supported" platform error has no counterpart in these files and is not modelled.
