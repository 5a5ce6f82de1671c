/** The reactor of `reactor.cpp`: the descriptor-to-handler table, the kernel interest
    table it keeps in step through `epoll_ctl`, event dispatch (`loop` / `mqttLoop`), the
    broker-link registration with its heartbeat timer, and the timing wheel the loop
    drives.

    What a handler's `handleRead` / `handleWrite` does to the reactor is an input (a
    function from the direction, the descriptor and the reactor to the new reactor), so
    dispatch is modelled for every possible handler. `MqttHandler` objects are numbered
    links; a link's `timer` field is recorded in `links`. */
module Reactor {
  import opened Common
  import opened Epoll
  import Connection
  import TimeWheel

  /** The wheel as the reactor holds it: always five levels of the right sizes. */
  type ShapedWheel = w: TimeWheel.Wheel | TimeWheel.Shaped(w) witness TimeWheel.InitWheel(0)

  /** The heartbeat period of the broker link, in milliseconds. */
  const HeartbeatMs: nat := 60000
  /** The callback number of `mqtt_heartbeat_cb`, the only callback the program arms. */
  const HeartbeatFn: nat := 0

  datatype Handler =
    | Acceptor                            // the listening socket's `AcceptHandler`
    | Connection(conn: Connection.Conn)   // a client's `ConnectionHandler` and its buffers
    | Mqtt(link: nat)                     // a `MqttHandler`, shared across reconnects

  datatype Reactor = Reactor(
    handlers: map<int, Handler>,
    interest: Table,
    wheel: ShapedWheel,
    links: map<nat, Option<nat>>,  // each MqttHandler's `timer` (a node id, or null)
    nextLink: nat)

  /** Every registered interest carries the edge-triggered flag. */
  ghost predicate EdgeTriggered(t: Table)
  {
    forall fd :: fd in t ==> Has(t[fd], Et)
  }

  /** A heartbeat node's argument names a known link, as its `MqttHandler*` does. */
  predicate KnownArgs(links: map<nat, Option<nat>>, n: TimeWheel.Node)
  {
    n.cb.func == HeartbeatFn ==> n.cb.args in links
  }

  /** The reactor's invariant: the handler table and the kernel table name the same
      descriptors, every interest is edge-triggered, every handler's link is known,
      every recorded timer was handed out by the wheel, and every heartbeat in the wheel
      belongs to a known link. */
  ghost predicate Valid(r: Reactor)
  {
    r.handlers.Keys == r.interest.Keys &&
    EdgeTriggered(r.interest) &&
    (forall fd :: fd in r.handlers && r.handlers[fd].Mqtt? ==> r.handlers[fd].link in r.links) &&
    (forall p :: p in r.links ==> p < r.nextLink) &&
    (forall p :: p in r.links && r.links[p].Some? ==> r.links[p].value < r.wheel.nextId) &&
    TimeWheel.Every(r.wheel, n => KnownArgs(r.links, n))
  }

  /** The constructor: the listening socket registered for edge-triggered input with an
      `AcceptHandler`, and a wheel started at `now`. */
  function Init(sockfd: int, now: u64): (r: Reactor)
    ensures Valid(r)
    ensures r.handlers == map[sockfd := Acceptor] && r.interest == map[sockfd := In | Et]
  {
    Reactor(map[sockfd := Acceptor], map[sockfd := In | Et], TimeWheel.InitWheel(now), map[], 0)
  }

  // ---------------------------------------------------------------------------
  // Table operations

  /** `register_`: ADD with `mode | EPOLLET`, then install a fresh connection handler.
      The handler is installed whether or not ADD succeeded. */
  function Register(r: Reactor, fd: int, mode: Mask): (v: Reactor)
    ensures v.handlers == r.handlers[fd := Connection(Connection.Conn([], []))]
    ensures fd !in r.interest ==> v.interest == r.interest[fd := mode | Et]
    ensures fd in r.interest ==> v.interest == r.interest
    ensures Has(v.interest[fd], Et) || fd in r.interest
    ensures v.wheel == r.wheel && v.links == r.links && v.nextLink == r.nextLink
  {
    r.(interest := CtlAdd(r.interest, fd, mode | Et).table,
       handlers := r.handlers[fd := Connection(Connection.Conn([], []))])
  }

  /** `remove`: DEL and erase the handler. */
  function Remove(r: Reactor, fd: int): (v: Reactor)
    ensures fd !in v.handlers && fd !in v.interest
    ensures v.handlers.Keys == r.handlers.Keys - {fd} && v.interest.Keys == r.interest.Keys - {fd}
    ensures forall g :: g in v.handlers ==> v.handlers[g] == r.handlers[g]
    ensures forall g :: g in v.interest ==> v.interest[g] == r.interest[g]
    ensures v.wheel == r.wheel && v.links == r.links && v.nextLink == r.nextLink
  {
    r.(interest := CtlDel(r.interest, fd).table, handlers := r.handlers - {fd})
  }

  /** `update`: MOD with `mode | EPOLLET`; the mask is replaced, and an unregistered
      descriptor is left alone (the failed MOD is ignored). */
  function Update(r: Reactor, fd: int, mode: Mask): (v: Reactor)
    ensures fd in r.interest ==> v.interest == r.interest[fd := mode | Et]
    ensures fd !in r.interest ==> v.interest == r.interest
    ensures v.handlers == r.handlers && v.wheel == r.wheel && v.links == r.links && v.nextLink == r.nextLink
  {
    r.(interest := CtlMod(r.interest, fd, mode | Et).table)
  }

  lemma RegisterValid(r: Reactor, fd: int, mode: Mask)
    requires Valid(r)
    ensures Valid(Register(r, fd, mode))
  {
  }

  lemma RemoveValid(r: Reactor, fd: int)
    requires Valid(r)
    ensures Valid(Remove(r, fd))
  {
  }

  lemma UpdateValid(r: Reactor, fd: int, mode: Mask)
    requires Valid(r)
    ensures Valid(Update(r, fd, mode))
  {
  }

  /** `remove` of a descriptor that is not there changes nothing, so removing twice is
      removing once. */
  lemma RemoveIdempotent(r: Reactor, fd: int)
    ensures Remove(Remove(r, fd), fd) == Remove(r, fd)
    ensures fd !in r.handlers && fd !in r.interest ==> Remove(r, fd) == r
  {
    if fd !in r.handlers && fd !in r.interest {
      assert r.handlers - {fd} == r.handlers;
      assert r.interest - {fd} == r.interest;
    }
    assert (r.handlers - {fd}) - {fd} == r.handlers - {fd};
    assert (r.interest - {fd}) - {fd} == r.interest - {fd};
  }

  // ---------------------------------------------------------------------------
  // Dispatch

  datatype Dir = ReadDir | WriteDir

  /** One readiness report: `events[i].data.fd` and `events[i].events`. */
  datatype ReadyEvent = ReadyEvent(fd: int, revents: Mask)

  /** What the loop did for an event, in order. */
  datatype Call = HandleRead(fd: int) | HandleWrite(fd: int) | CloseOnError(fd: int)

  datatype Dispatched = Dispatched(reactor: Reactor, calls: seq<Call>)

  /** The effect of running a handler's `handleRead` or `handleWrite` on the reactor. */
  type HandlerEffect = (Dir, int, Reactor) -> Reactor

  function Rank(c: Call): nat
  {
    match c
    case HandleRead(_) => 0
    case HandleWrite(_) => 1
    case CloseOnError(_) => 2
  }

  /** The calls for one descriptor: read, then write, then close, each at most once. */
  predicate InOrder(calls: seq<Call>, fd: int)
  {
    (forall i :: 0 <= i < |calls| ==> calls[i].fd == fd) &&
    (forall i, j :: 0 <= i < j < |calls| ==> Rank(calls[i]) < Rank(calls[j]))
  }

  /** The reactor after the read step of an event. */
  function AfterRead(r: Reactor, ev: ReadyEvent, fx: HandlerEffect): Reactor
  {
    if Has(ev.revents, ReadEvents) then fx(ReadDir, ev.fd, r) else r
  }

  /** Whether the write step runs: OUT is reported and the handler survived the read. */
  predicate WriteRuns(r: Reactor, ev: ReadyEvent, fx: HandlerEffect)
  {
    Has(ev.revents, Out) && ev.fd in AfterRead(r, ev, fx).handlers
  }

  /** The reactor after the write step of an event. */
  function AfterWrite(r: Reactor, ev: ReadyEvent, fx: HandlerEffect): Reactor
  {
    var r1 := AfterRead(r, ev, fx);
    if WriteRuns(r, ev, fx) then fx(WriteDir, ev.fd, r1) else r1
  }

  /** One iteration of the `for` loop of `loop` / `mqttLoop`: skip a descriptor without a
      handler; read on IN/PRI/RDHUP; write on OUT if the handler is still there; on
      ERR/HUP close and remove it if it is still there. */
  function DispatchOne(r: Reactor, ev: ReadyEvent, fx: HandlerEffect): (d: Dispatched)
    ensures ev.fd !in r.handlers ==> d == Dispatched(r, [])
    ensures InOrder(d.calls, ev.fd)
    ensures HandleRead(ev.fd) in d.calls <==> ev.fd in r.handlers && Has(ev.revents, ReadEvents)
    ensures HandleWrite(ev.fd) in d.calls ==> Has(ev.revents, Out)
    ensures CloseOnError(ev.fd) in d.calls ==>
              Has(ev.revents, ErrorEvents) && ev.fd !in d.reactor.handlers && ev.fd !in d.reactor.interest
    ensures Has(ev.revents, ErrorEvents) && ev.fd in r.handlers ==> ev.fd !in d.reactor.handlers
  {
    if ev.fd !in r.handlers then Dispatched(r, [])
    else
      Dispatched(AfterClose(r, ev, fx),
                 Steps(ev.fd, Has(ev.revents, ReadEvents), WriteRuns(r, ev, fx), CloseRuns(r, ev, fx)))
  }

  /** Whether the error step runs: ERR/HUP is reported and the handler survived. */
  predicate CloseRuns(r: Reactor, ev: ReadyEvent, fx: HandlerEffect)
  {
    Has(ev.revents, ErrorEvents) && ev.fd in AfterWrite(r, ev, fx).handlers
  }

  /** The reactor after the error step of an event. */
  function AfterClose(r: Reactor, ev: ReadyEvent, fx: HandlerEffect): Reactor
  {
    if CloseRuns(r, ev, fx) then Remove(AfterWrite(r, ev, fx), ev.fd) else AfterWrite(r, ev, fx)
  }

  /** The calls made for one event, given which of its steps run. */
  function Steps(fd: int, readIt: bool, writeIt: bool, closeIt: bool): (calls: seq<Call>)
    ensures InOrder(calls, fd)
    ensures HandleRead(fd) in calls <==> readIt
    ensures HandleWrite(fd) in calls <==> writeIt
    ensures CloseOnError(fd) in calls <==> closeIt
  {
    (if readIt then [HandleRead(fd)] else [])
    + (if writeIt then [HandleWrite(fd)] else [])
    + (if closeIt then [CloseOnError(fd)] else [])
  }

  /** Read precedes write, and a handler that removed itself while reading is not asked
      to write nor closed again. */
  lemma ReadRemovalEndsDispatch(r: Reactor, ev: ReadyEvent, fx: HandlerEffect)
    requires ev.fd in r.handlers && Has(ev.revents, ReadEvents)
    requires ev.fd !in fx(ReadDir, ev.fd, r).handlers
    ensures DispatchOne(r, ev, fx) == Dispatched(fx(ReadDir, ev.fd, r), [HandleRead(ev.fd)])
  {
  }

  /** The write step runs exactly when OUT is reported and the handler survived its
      read; the error step closes exactly a handler that survived both. */
  lemma DispatchSteps(r: Reactor, ev: ReadyEvent, fx: HandlerEffect)
    requires ev.fd in r.handlers
    ensures HandleWrite(ev.fd) in DispatchOne(r, ev, fx).calls <==> WriteRuns(r, ev, fx)
    ensures CloseOnError(ev.fd) in DispatchOne(r, ev, fx).calls <==>
              Has(ev.revents, ErrorEvents) && ev.fd in AfterWrite(r, ev, fx).handlers
    ensures CloseOnError(ev.fd) in DispatchOne(r, ev, fx).calls ==>
              DispatchOne(r, ev, fx).reactor == Remove(AfterWrite(r, ev, fx), ev.fd)
    ensures CloseOnError(ev.fd) !in DispatchOne(r, ev, fx).calls ==>
              DispatchOne(r, ev, fx).reactor == AfterWrite(r, ev, fx)
  {
  }

  /** `loop`'s inner `for`: the events of one `epoll_wait`, in order. */
  function DispatchBatch(r: Reactor, evs: seq<ReadyEvent>, fx: HandlerEffect): (d: Dispatched)
    ensures forall i :: 0 <= i < |d.calls| ==> exists k :: 0 <= k < |evs| && d.calls[i].fd == evs[k].fd
    decreases |evs|
  {
    if |evs| == 0 then Dispatched(r, [])
    else
      var d1 := DispatchOne(r, evs[0], fx);
      var rest := DispatchBatch(d1.reactor, evs[1..], fx);
      var calls := d1.calls + rest.calls;
      assert forall i :: 0 <= i < |calls| ==>
               if i < |d1.calls| then calls[i].fd == evs[0].fd
               else calls[i] == rest.calls[i - |d1.calls|];
      assert forall k :: 0 <= k < |evs| - 1 ==> evs[1..][k] == evs[k + 1];
      Dispatched(rest.reactor, calls)
  }

  /** Handlers that do nothing. */
  function Idle(d: Dir, fd: int, r: Reactor): Reactor
  {
    r
  }

  /** The descriptors a batch reports an error or hang-up for. */
  function ErrorFds(evs: seq<ReadyEvent>): set<int>
  {
    set k | 0 <= k < |evs| && Has(evs[k].revents, ErrorEvents) :: evs[k].fd
  }

  lemma ErrorFdsCons(evs: seq<ReadyEvent>)
    requires |evs| > 0
    ensures ErrorFds(evs) == (if Has(evs[0].revents, ErrorEvents) then {evs[0].fd} else {}) + ErrorFds(evs[1..])
  {
    var tail := evs[1..];
    forall fd | fd in ErrorFds(evs)
      ensures fd in (if Has(evs[0].revents, ErrorEvents) then {evs[0].fd} else {}) + ErrorFds(tail)
    {
      var k :| 0 <= k < |evs| && Has(evs[k].revents, ErrorEvents) && evs[k].fd == fd;
      if k > 0 {
        assert tail[k - 1] == evs[k];
      }
    }
    forall fd | fd in ErrorFds(tail)
      ensures fd in ErrorFds(evs)
    {
      var k :| 0 <= k < |tail| && Has(tail[k].revents, ErrorEvents) && tail[k].fd == fd;
      assert evs[k + 1] == tail[k];
    }
  }

  /** With handlers that change nothing, a batch removes exactly the registered
      descriptors it reports an error or hang-up for, and nothing else. */
  lemma {:induction false} IdleBatchRemovesErrored(r: Reactor, evs: seq<ReadyEvent>)
    ensures DispatchBatch(r, evs, Idle).reactor.handlers.Keys == r.handlers.Keys - ErrorFds(evs)
    ensures forall fd :: fd in DispatchBatch(r, evs, Idle).reactor.handlers ==>
              DispatchBatch(r, evs, Idle).reactor.handlers[fd] == r.handlers[fd]
    decreases |evs|
  {
    if |evs| > 0 {
      var ev := evs[0];
      var d1 := DispatchOne(r, ev, Idle);
      assert AfterWrite(r, ev, Idle) == r;
      ErrorFdsCons(evs);
      IdleBatchRemovesErrored(d1.reactor, evs[1..]);
      if ev.fd in r.handlers && Has(ev.revents, ErrorEvents) {
        assert d1.reactor == Remove(r, ev.fd);
      } else {
        assert d1.reactor == r;
      }
    }
  }

  /** Handlers that keep the invariant keep it across a whole batch. */
  lemma {:induction false} BatchValid(r: Reactor, evs: seq<ReadyEvent>, fx: HandlerEffect)
    requires Valid(r)
    requires forall d, fd, s :: Valid(s) ==> Valid(fx(d, fd, s))
    ensures Valid(DispatchBatch(r, evs, fx).reactor)
    decreases |evs|
  {
    if |evs| > 0 {
      var ev := evs[0];
      var r2 := AfterWrite(r, ev, fx);
      assert Valid(AfterRead(r, ev, fx));
      assert Valid(r2);
      RemoveValid(r2, ev.fd);
      BatchValid(DispatchOne(r, ev, fx).reactor, evs[1..], fx);
    }
  }

  // ---------------------------------------------------------------------------
  // Connection handlers

  /** What `ConnectionHandler::handleRead` leaves in the reactor: a flooded or dropped
      connection is removed; otherwise the handler keeps its new buffers. */
  function ApplyRead(r: Reactor, fd: int, o: Connection.ReadOutcome): (v: Reactor)
    ensures !o.Framed? ==> v == Remove(r, fd)
    ensures o.Framed? && fd in r.handlers ==> v.handlers == r.handlers[fd := Connection(o.conn)]
    ensures v.interest == r.interest || v.interest == Remove(r, fd).interest
  {
    if !o.Framed? then Remove(r, fd)
    else if fd in r.handlers then r.(handlers := r.handlers[fd := Connection(o.conn)])
    else r
  }

  /** What `ConnectionHandler::handleWrite` leaves in the reactor: IN interest once the
      buffer is empty, IN|OUT while the kernel is full, removal otherwise. */
  function ApplyWrite(r: Reactor, fd: int, c: Connection.Conn, o: Connection.WriteOutcome): (v: Reactor)
    ensures o.next == Connection.CloseConn ==> v == Remove(r, fd)
    ensures o.next != Connection.CloseConn && fd in r.interest ==>
              fd in v.interest && v.interest[fd] == (if o.next == Connection.WantIn then In | Et else In | Out | Et)
    ensures o.next != Connection.CloseConn && fd in r.handlers ==>
              v.handlers == r.handlers[fd := Connection(Connection.Conn(c.recv, o.send))]
  {
    match o.next
    case CloseConn => Remove(r, fd)
    case WantIn => ConnUpdate(r, fd, c, o.send, In)
    case WantInOut => ConnUpdate(r, fd, c, o.send, In | Out)
  }

  function ConnUpdate(r: Reactor, fd: int, c: Connection.Conn, send: seq<byte>, mode: Mask): Reactor
  {
    var u := Update(r, fd, mode);
    if fd in r.handlers then u.(handlers := u.handlers[fd := Connection(Connection.Conn(c.recv, send))]) else u
  }

  lemma ApplyReadValid(r: Reactor, fd: int, o: Connection.ReadOutcome)
    requires Valid(r)
    ensures Valid(ApplyRead(r, fd, o))
  {
  }

  lemma ApplyWriteValid(r: Reactor, fd: int, c: Connection.Conn, o: Connection.WriteOutcome)
    requires Valid(r)
    ensures Valid(ApplyWrite(r, fd, c, o))
  {
  }

  // ---------------------------------------------------------------------------
  // Broker link and heartbeat

  /** The `timer` field of a link, null for an unknown one. */
  function TimerOf(r: Reactor, p: nat): Option<nat>
  {
    if p in r.links then r.links[p] else None
  }

  /** Arm a 60000 ms heartbeat for link `p` and record the node in its `timer`. */
  function ArmHeartbeat(r: Reactor, p: nat, now: u64): (v: Reactor)
    ensures v.handlers == r.handlers && v.interest == r.interest && v.nextLink == r.nextLink
    ensures v.wheel.nextId == r.wheel.nextId + 1
    ensures v.links == r.links[p := Some(r.wheel.nextId)]
  {
    var a := TimeWheel.AddNewTimer(r.wheel, TimeWheel.Callback(HeartbeatFn, p), HeartbeatMs, now);
    r.(wheel := a.wheel, links := r.links[p := a.node])
  }

  /** `mqttRegister`: ADD with `mode | EPOLLET`, returning at once when it fails; then use
      the given handler (cancelling its old timer) or a new one, arm a fresh heartbeat and
      map the descriptor to the handler. */
  function MqttRegister(r: Reactor, fd: int, mode: Mask, ptr: Option<nat>, now: u64): (v: Reactor)
    ensures fd in r.interest ==> v == r
    ensures fd !in r.interest ==>
              var p := if ptr.Some? then ptr.value else r.nextLink;
              v.handlers == r.handlers[fd := Mqtt(p)] && v.interest == r.interest[fd := mode | Et] &&
              v.links == r.links[p := Some(r.wheel.nextId)] &&
              v.nextLink == (if ptr.Some? then r.nextLink else r.nextLink + 1)
  {
    if fd in r.interest then r
    else
      var r1 := r.(interest := CtlAdd(r.interest, fd, mode | Et).table);
      var p := if ptr.Some? then ptr.value else r.nextLink;
      var r2 := if ptr.Some? then r1.(wheel := TimeWheel.Cancel(r1.wheel, TimerOf(r1, p)))
                else r1.(links := r1.links[p := None], nextLink := r.nextLink + 1);
      var r3 := ArmHeartbeat(r2, p, now);
      r3.(handlers := r3.handlers[fd := Mqtt(p)])
  }

  /** A re-registered link's old heartbeat can never fire again; the new one is live. */
  lemma MqttRegisterRetiresOldTimer(r: Reactor, fd: int, mode: Mask, p: nat, now: u64)
    requires Valid(r) && fd !in r.interest && TimerOf(r, p).Some?
    ensures var prev := TimerOf(r, p).value;
            TimeWheel.Every(MqttRegister(r, fd, mode, Some(p), now).wheel, n => TimeWheel.NotLive(prev, n))
  {
    var prev := TimerOf(r, p).value;
    var P := (n: TimeWheel.Node) => TimeWheel.NotLive(prev, n);
    TimeWheel.CancelKills(r.wheel, prev);
    var w := TimeWheel.Cancel(r.wheel, Some(prev));
    TimeWheel.AddNewTimerEvery(w, TimeWheel.Callback(HeartbeatFn, p), HeartbeatMs, now, P);
  }

  lemma MqttRegisterValid(r: Reactor, fd: int, mode: Mask, ptr: Option<nat>, now: u64)
    requires Valid(r)
    requires ptr.Some? ==> ptr.value in r.links
    ensures Valid(MqttRegister(r, fd, mode, ptr, now))
  {
    if fd !in r.interest {
      var v := MqttRegister(r, fd, mode, ptr, now);
      var p := if ptr.Some? then ptr.value else r.nextLink;
      assert v.handlers.Keys == r.handlers.Keys + {fd};
      assert v.interest.Keys == r.interest.Keys + {fd};
      assert EdgeTriggered(v.interest);
      assert v.wheel.nextId == r.wheel.nextId + 1;
      MqttRegisterKnownArgs(r, fd, mode, ptr, now);
    }
  }

  /** Re-registering keeps every heartbeat in the wheel tied to a known link. */
  lemma MqttRegisterKnownArgs(r: Reactor, fd: int, mode: Mask, ptr: Option<nat>, now: u64)
    requires Valid(r) && fd !in r.interest
    requires ptr.Some? ==> ptr.value in r.links
    ensures var v := MqttRegister(r, fd, mode, ptr, now);
            TimeWheel.Every(v.wheel, n => KnownArgs(v.links, n))
  {
    var v := MqttRegister(r, fd, mode, ptr, now);
    var p := if ptr.Some? then ptr.value else r.nextLink;
    var P := (n: TimeWheel.Node) => KnownArgs(r.links, n);
    var Q := (n: TimeWheel.Node) => KnownArgs(v.links, n);
    var w := if ptr.Some? then TimeWheel.Cancel(r.wheel, TimerOf(r, p)) else r.wheel;
    if ptr.Some? {
      TimeWheel.CancelEvery(r.wheel, TimerOf(r, p), P);
    }
    TimeWheel.EveryWeaken(w, P, Q);
    TimeWheel.AddNewTimerEvery(w, TimeWheel.Callback(HeartbeatFn, p), HeartbeatMs, now, Q);
    assert v.wheel == TimeWheel.AddNewTimer(w, TimeWheel.Callback(HeartbeatFn, p), HeartbeatMs, now).wheel;
  }

  /** `mqtt_heartbeat_cb`: after the link's housekeeping, arm the next heartbeat 60000 ms
      ahead and record it as the link's timer. */
  function Heartbeat(r: Reactor, p: nat, now: u64): (v: Reactor)
    ensures v.handlers == r.handlers && v.interest == r.interest
    ensures v.links == r.links[p := Some(r.wheel.nextId)]
  {
    ArmHeartbeat(r, p, now)
  }

  /** The heartbeat lands in level 3, in the bucket of its expiry's bits 14 to 19, as a
      live node with the heartbeat callback. */
  lemma HeartbeatLandsInLevel3(r: Reactor, p: nat, now: u64)
    ensures TimeWheel.Level(HeartbeatMs) == 2
    ensures var expire := (now + HeartbeatMs) % U64;
            var i := TimeWheel.Index(2, expire);
            Heartbeat(r, p, now).wheel.levels[2][i] ==
              [TimeWheel.Node(r.wheel.nextId, TimeWheel.Callback(HeartbeatFn, p), expire, true)] + r.wheel.levels[2][i]
  {
  }

  lemma HeartbeatValid(r: Reactor, p: nat, now: u64)
    requires Valid(r) && p in r.links
    ensures Valid(Heartbeat(r, p, now))
  {
  }

  /** Run the fired callbacks in order; each is the heartbeat of its argument's link. */
  function RunCallbacks(r: Reactor, fired: seq<TimeWheel.Node>, now: u64): (v: Reactor)
    ensures v.handlers == r.handlers && v.interest == r.interest
    decreases |fired|
  {
    if |fired| == 0 then r
    else
      var cb := fired[0].cb;
      var r1 := if cb.func == HeartbeatFn then Heartbeat(r, cb.args, now) else r;
      RunCallbacks(r1, fired[1..], now)
  }

  /** Link `p`'s `timer` is a live heartbeat node armed at `now`, numbered `since` or
      later, sitting in its level-3 bucket. */
  ghost predicate Rearmed(v: Reactor, p: nat, since: nat, now: u64)
  {
    var expire := (now + HeartbeatMs) % U64;
    p in v.links && v.links[p].Some? && since <= v.links[p].value &&
    TimeWheel.Node(v.links[p].value, TimeWheel.Callback(HeartbeatFn, p), expire, true)
      in v.wheel.levels[2][TimeWheel.Index(2, expire)]
  }

  /** Whether a heartbeat of link `p` is among the fired nodes. */
  predicate Beats(fired: seq<TimeWheel.Node>, p: nat)
  {
    exists k :: 0 <= k < |fired| && fired[k].cb == TimeWheel.Callback(HeartbeatFn, p)
  }

  /** Running the fired callbacks re-arms the heartbeat of every link that fired one,
      leaves the other links' timers alone, and only adds to the wheel. */
  lemma {:induction false} RunCallbacksRearms(r: Reactor, fired: seq<TimeWheel.Node>, now: u64)
    ensures var v := RunCallbacks(r, fired, now);
            TimeWheel.Grows(r.wheel, v.wheel) && r.wheel.nextId <= v.wheel.nextId &&
            (forall p :: p in r.links ==> p in v.links) &&
            (forall p :: p in r.links && !Beats(fired, p) ==> v.links[p] == r.links[p]) &&
            (forall k :: 0 <= k < |fired| && fired[k].cb.func == HeartbeatFn ==>
               Rearmed(v, fired[k].cb.args, r.wheel.nextId, now))
    decreases |fired|
  {
    var v := RunCallbacks(r, fired, now);
    if |fired| > 0 {
      var cb := fired[0].cb;
      var r1 := if cb.func == HeartbeatFn then Heartbeat(r, cb.args, now) else r;
      if cb.func == HeartbeatFn {
        TimeWheel.AddNewTimerGrows(r.wheel, TimeWheel.Callback(HeartbeatFn, cb.args), HeartbeatMs, now);
        HeartbeatLandsInLevel3(r, cb.args, now);
        assert Rearmed(r1, cb.args, r.wheel.nextId, now);
      }
      RunCallbacksRearms(r1, fired[1..], now);
      assert v == RunCallbacks(r1, fired[1..], now);
      TimeWheel.GrowsTransitive(r.wheel, r1.wheel, v.wheel);
      forall p | p in r.links && !Beats(fired, p)
        ensures v.links[p] == r.links[p]
      {
        assert fired[0].cb != TimeWheel.Callback(HeartbeatFn, p);
      }
      forall k | 0 <= k < |fired| && fired[k].cb.func == HeartbeatFn
        ensures Rearmed(v, fired[k].cb.args, r.wheel.nextId, now)
      {
        var p := fired[k].cb.args;
        if k > 0 {
          assert fired[1..][k - 1] == fired[k];
        } else if Beats(fired[1..], p) {
          var j :| 0 <= j < |fired[1..]| && fired[1..][j].cb == TimeWheel.Callback(HeartbeatFn, p);
          assert fired[1..][j].cb.func == HeartbeatFn;
        } else {
          var expire := (now + HeartbeatMs) % U64;
          var i := TimeWheel.Index(2, expire);
          assert TimeWheel.Node(r1.links[p].value, TimeWheel.Callback(HeartbeatFn, p), expire, true) in r1.wheel.levels[2][i];
        }
      }
    }
  }

  /** With every fired heartbeat's link known, running the callbacks keeps the
      invariant. */
  lemma {:induction false} RunCallbacksValid(r: Reactor, fired: seq<TimeWheel.Node>, now: u64)
    requires Valid(r)
    requires forall k :: 0 <= k < |fired| ==> KnownArgs(r.links, fired[k])
    ensures Valid(RunCallbacks(r, fired, now))
    ensures RunCallbacks(r, fired, now).links.Keys == r.links.Keys
    decreases |fired|
  {
    if |fired| > 0 {
      var cb := fired[0].cb;
      var r1 := if cb.func == HeartbeatFn then Heartbeat(r, cb.args, now) else r;
      if cb.func == HeartbeatFn {
        HeartbeatValid(r, cb.args, now);
      }
      assert r1.links.Keys == r.links.Keys;
      forall k | 0 <= k < |fired[1..]|
        ensures KnownArgs(r1.links, fired[1..][k])
      {
        assert fired[1..][k] == fired[k + 1];
      }
      RunCallbacksValid(r1, fired[1..], now);
    }
  }

  datatype Tick = Tick(reactor: Reactor, calls: seq<Call>, fired: seq<TimeWheel.Node>)

  /** One pass of `mqttLoop`: dispatch the batch, then `expireTimer` at `now` and run the
      callbacks that fired. Every link whose heartbeat fired has a fresh heartbeat armed
      in level 3. */
  function MqttLoopPass(r: Reactor, evs: seq<ReadyEvent>, fx: HandlerEffect, now: u64): (t: Tick)
    ensures t.calls == DispatchBatch(r, evs, fx).calls
    ensures now > DispatchBatch(r, evs, fx).reactor.wheel.time ==> t.reactor.wheel.time == now
    ensures t.reactor.handlers == DispatchBatch(r, evs, fx).reactor.handlers
    ensures forall k :: 0 <= k < |t.fired| ==> t.fired[k].active && t.fired[k].expire <= now
    ensures forall k :: 0 <= k < |t.fired| && t.fired[k].cb.func == HeartbeatFn ==>
              Rearmed(t.reactor, t.fired[k].cb.args, DispatchBatch(r, evs, fx).reactor.wheel.nextId, now)
  {
    var d := DispatchBatch(r, evs, fx);
    var e := TimeWheel.ExpireTimer(d.reactor.wheel, now);
    var r1 := d.reactor.(wheel := e.wheel);
    var r2 := RunCallbacks(r1, e.fired, now);
    assert r2.wheel.time == r1.wheel.time by {
      RunCallbacksKeepsTime(r1, e.fired, now);
    }
    RunCallbacksRearms(r1, e.fired, now);
    Tick(r2, d.calls, e.fired)
  }

  /** Handlers that keep the invariant keep it across a whole `mqttLoop` pass, heartbeats
      included. */
  lemma MqttLoopPassValid(r: Reactor, evs: seq<ReadyEvent>, fx: HandlerEffect, now: u64)
    requires Valid(r)
    requires forall d, fd, s :: Valid(s) ==> Valid(fx(d, fd, s))
    ensures Valid(MqttLoopPass(r, evs, fx, now).reactor)
  {
    BatchValid(r, evs, fx);
    var d := DispatchBatch(r, evs, fx);
    var P := (n: TimeWheel.Node) => KnownArgs(d.reactor.links, n);
    TimeWheel.ExpireTimerEvery(d.reactor.wheel, now, P);
    var e := TimeWheel.ExpireTimer(d.reactor.wheel, now);
    var r1 := d.reactor.(wheel := e.wheel);
    assert Valid(r1);
    forall k | 0 <= k < |e.fired|
      ensures KnownArgs(r1.links, e.fired[k])
    {
      assert P(e.fired[k]);
    }
    RunCallbacksValid(r1, e.fired, now);
  }

  lemma {:induction false} RunCallbacksKeepsTime(r: Reactor, fired: seq<TimeWheel.Node>, now: u64)
    ensures RunCallbacks(r, fired, now).wheel.time == r.wheel.time
    decreases |fired|
  {
    if |fired| > 0 {
      var cb := fired[0].cb;
      var r1 := if cb.func == HeartbeatFn then Heartbeat(r, cb.args, now) else r;
      RunCallbacksKeepsTime(r1, fired[1..], now);
    }
  }
}
