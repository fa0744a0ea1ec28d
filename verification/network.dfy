/**
 * `SocketManager`'s key map: sockets cached under `host:port:type`, with
 * opaque handles standing in for the socket objects a real manager opens.
 */
module Sockets {
  import opened Wrappers
  import opened Numerals

  type Handle = nat
  type CallbackId = nat

  /**
   * The manager's maps. `next` is the handle the next created socket gets,
   * so creation is modelled without any operating-system call.
   */
  datatype SocketManager = SocketManager(
    sockets: map<string, Handle>,
    transports: map<int, Handle>,
    protocols: map<int, Handle>,
    callbacks: map<string, CallbackId>,
    tasks: set<Handle>,
    next: Handle)

  /** `SocketManager()`: nothing open. */
  const Empty := SocketManager(map[], map[], map[], map[], {}, 0)

  /** Every cached socket's handle was handed out before `next`. */
  predicate Fresh(m: SocketManager) {
    forall k :: k in m.sockets ==> m.sockets[k] < m.next
  }

  /** The cache key `f"{host}:{port}:{socket_type}"`. */
  function Key(host: string, port: int, socketType: string): string {
    host + ":" + IntToString(port) + ":" + socketType
  }

  datatype Got = Got(manager: SocketManager, socket: Handle)

  /**
   * get_socket: the cached socket for the key if there is one; otherwise a
   * new socket for "udp" or "tcp", and ValueError for any other type with
   * nothing stored.
   */
  function GetSocket(m: SocketManager, host: string, port: int, socketType: string): (r: Result<Got, string>)
    requires Fresh(m)
    ensures r.Ok? ==> Fresh(r.value.manager)
    ensures Key(host, port, socketType) in m.sockets ==> r == Ok(Got(m, m.sockets[Key(host, port, socketType)]))
    ensures Key(host, port, socketType) !in m.sockets ==> (r.Err? <==> socketType != "udp" && socketType != "tcp")
    ensures r.Ok? && Key(host, port, socketType) !in m.sockets ==>
              && r.value.manager.sockets == m.sockets[Key(host, port, socketType) := r.value.socket]
              && (forall k :: k in m.sockets ==> m.sockets[k] != r.value.socket)
              && r.value.manager.callbacks == m.callbacks && r.value.manager.transports == m.transports
              && r.value.manager.protocols == m.protocols && r.value.manager.tasks == m.tasks
  {
    var key := Key(host, port, socketType);
    if key in m.sockets then Ok(Got(m, m.sockets[key]))
    else if socketType != "udp" && socketType != "tcp" then Err("ValueError")
    else Ok(Got(m.(sockets := m.sockets[key := m.next], next := m.next + 1), m.next))
  }

  /** Asking again for the same key returns the same socket and changes nothing. */
  lemma GetSocketCached(m: SocketManager, host: string, port: int, socketType: string)
    requires Fresh(m)
    requires GetSocket(m, host, port, socketType).Ok?
    ensures var g := GetSocket(m, host, port, socketType).value;
            GetSocket(g.manager, host, port, socketType) == Ok(g)
  {
  }

  /** close_socket: only this key's socket is dropped. */
  function CloseSocket(m: SocketManager, host: string, port: int, socketType: string): (r: SocketManager)
    ensures Key(host, port, socketType) !in r.sockets
    ensures forall k :: k != Key(host, port, socketType) ==> (k in r.sockets <==> k in m.sockets)
    ensures forall k :: k in r.sockets ==> r.sockets[k] == m.sockets[k]
    ensures r.callbacks == m.callbacks && r.transports == m.transports && r.next == m.next
    ensures r.protocols == m.protocols && r.tasks == m.tasks
  {
    m.(sockets := m.sockets - {Key(host, port, socketType)})
  }

  predicate StartsWith(s: string, prefix: string) {
    |prefix| <= |s| && s[..|prefix|] == prefix
  }

  /**
   * unregister_device: the device's callback goes, and so does every socket
   * whose key starts with `ip:`; all other keys stay.
   */
  function UnregisterDevice(m: SocketManager, ip: string): (r: SocketManager)
    ensures ip !in r.callbacks && r.callbacks == m.callbacks - {ip}
    ensures forall k :: k in r.sockets <==> k in m.sockets && !StartsWith(k, ip + ":")
    ensures forall k :: k in r.sockets ==> r.sockets[k] == m.sockets[k]
    ensures r.transports == m.transports && r.next == m.next
    ensures r.protocols == m.protocols && r.tasks == m.tasks
  {
    var kept := map k | k in m.sockets && !StartsWith(k, ip + ":") :: m.sockets[k];
    m.(callbacks := m.callbacks - {ip}, sockets := kept)
  }

  /** Position of the first ':' in s, or |s| when there is none. */
  function ColonIndex(s: string): (r: nat)
    ensures r <= |s|
  {
    if |s| == 0 then 0 else if s[0] == ':' then 0 else 1 + ColonIndex(s[1..])
  }

  lemma {:induction false} ColonIndexAfter(a: string, b: string)
    requires ':' !in a
    ensures ColonIndex(a + ":" + b) == |a|
  {
    if |a| > 0 {
      assert a[0] in a;
      assert (a + ":" + b)[1..] == a[1..] + ":" + b;
      assert ':' !in a[1..] by {
        forall i | 0 <= i < |a| - 1
          ensures a[1..][i] != ':'
        {
          assert a[1..][i] == a[i + 1] && a[i + 1] in a;
        }
      }
      ColonIndexAfter(a[1..], b);
    }
  }

  /**
   * For colon-free addresses (IPv4 dotted quads, hostnames) a key starts with
   * `ip:` exactly when it was made for that host, so unregister_device closes
   * exactly that device's sockets: "10.0.0.1" does not match "10.0.0.12".
   */
  lemma KeyMatchesOwnHostOnly(host: string, port: int, socketType: string, ip: string)
    requires ':' !in host && ':' !in ip
    ensures StartsWith(Key(host, port, socketType), ip + ":") <==> host == ip
  {
    var key := Key(host, port, socketType);
    var rest := IntToString(port) + ":" + socketType;
    var p := ip + ":";
    assert key == host + ":" + rest;
    ColonIndexAfter(host, rest);
    if StartsWith(key, p) {
      assert key == ip + ":" + key[|p|..] by {
        assert key == key[..|p|] + key[|p|..];
      }
      ColonIndexAfter(ip, key[|p|..]);
      assert host == key[..|host|] == p[..|ip|] == ip;
    }
    if host == ip {
      assert key[..|p|] == p;
    }
  }

  /** How a call on the manager ends; `asyncio.Lock` is not reentrant, so re-taking it waits forever. */
  datatype Run = Returned(manager: SocketManager) | Deadlocked

  /**
   * register_device, made by a caller that does (`held`) or does not already
   * hold the manager's lock when the listening socket is recorded: the
   * device's callback is stored, and a port without a transport gets a new
   * endpoint (transport and protocol handles) recorded under the lock.
   */
  function RegisterDeviceHolding(held: bool, m: SocketManager, ip: string, port: int, cb: CallbackId): (r: Run)
    ensures r.Deadlocked? <==> held && port !in m.transports
    ensures r.Returned? ==> r.manager.callbacks == m.callbacks[ip := cb] && r.manager.sockets == m.sockets
    ensures r.Returned? && port in m.transports ==> r.manager == m.(callbacks := m.callbacks[ip := cb])
    ensures r.Returned? && port !in m.transports ==>
              && r.manager.transports == m.transports[port := m.next]
              && r.manager.protocols == m.protocols[port := m.next + 1]
              && r.manager.next == m.next + 2
  {
    var m1 := m.(callbacks := m.callbacks[ip := cb]);
    if port in m.transports then Returned(m1)
    else if held then Deadlocked
    else Returned(m1.(transports := m1.transports[port := m1.next], protocols := m1.protocols[port := m1.next + 1],
                      next := m1.next + 2))
  }

  /**
   * register_device as written: create_listening_socket is awaited inside
   * `async with self._lock` and takes the same lock to record the endpoint,
   * so registering on a port with no listener never returns.
   */
  function RegisterDeviceAsWritten(m: SocketManager, ip: string, port: int, cb: CallbackId): (r: Run)
    ensures r.Deadlocked? <==> port !in m.transports
    ensures r.Returned? ==> r.manager == m.(callbacks := m.callbacks[ip := cb])
  {
    RegisterDeviceHolding(true, m, ip, port, cb)
  }

  /**
   * register_device with the endpoint recorded once the lock is free: the
   * callback is stored, the port ends up with a listener, an existing
   * listener is kept, and the socket cache is untouched.
   */
  function RegisterDevice(m: SocketManager, ip: string, port: int, cb: CallbackId): (r: SocketManager)
    requires Fresh(m)
    ensures Fresh(r)
    ensures r.callbacks == m.callbacks[ip := cb]
    ensures port in r.transports
    ensures port !in m.transports ==> port in r.protocols
    ensures port in m.transports ==> r.transports == m.transports && r.protocols == m.protocols
    ensures forall p :: p != port ==> (p in r.transports <==> p in m.transports)
    ensures forall p :: p in m.transports ==> r.transports[p] == m.transports[p]
    ensures r.sockets == m.sockets
  {
    RegisterDeviceHolding(false, m, ip, port, cb).manager
  }

  /** The counterexample: the first device registered on a fresh manager never returns as written. */
  lemma RegisterDeviceDeadlocks(ip: string, port: int, cb: CallbackId)
    ensures RegisterDeviceAsWritten(Empty, ip, port, cb).Deadlocked?
    ensures RegisterDevice(Empty, ip, port, cb).callbacks == map[ip := cb]
  {
  }

  /** Unregistering a device forgets the callback registration made for it. */
  lemma RegisterThenUnregister(m: SocketManager, ip: string, port: int, cb: CallbackId)
    requires Fresh(m)
    ensures UnregisterDevice(RegisterDevice(m, ip, port, cb), ip).callbacks == m.callbacks - {ip}
    ensures port in UnregisterDevice(RegisterDevice(m, ip, port, cb), ip).transports
  {
    assert m.callbacks[ip := cb] - {ip} == m.callbacks - {ip};
  }

  /** cleanup: every socket, transport, protocol, callback and task is dropped. */
  function Cleanup(m: SocketManager): (r: SocketManager)
    ensures r.sockets == map[] && r.transports == map[] && r.protocols == map[]
    ensures r.callbacks == map[] && r.tasks == {}
    ensures r.next == m.next
    ensures Fresh(r)
  {
    m.(sockets := map[], transports := map[], protocols := map[], callbacks := map[], tasks := {})
  }
}

/**
 * `ConnectionManager`: a connection state per device IP, state-change
 * callbacks, activity stamps and keepalive intervals. Times are integer
 * milliseconds supplied by the caller; callback invocations are returned as
 * events.
 */
module Connections {
  import opened Wrappers

  datatype ConnectionState = Disconnected | Connecting | Connected | Failed

  type CallbackId = nat

  /** `register_device`'s default keepalive interval, in milliseconds. */
  const DefaultKeepalive: int := 30000

  datatype Manager = Manager(
    states: map<string, ConnectionState>,
    callbacks: map<string, seq<CallbackId>>,
    lastActivity: map<string, int>,
    keepalive: map<string, int>,
    monitoring: set<string>)

  const Empty := Manager(map[], map[], map[], map[], {})

  /** Callback lists are duplicate-free and never stored empty. */
  predicate Valid(m: Manager) {
    forall ip :: ip in m.callbacks ==> |m.callbacks[ip]| > 0 && NoDup(m.callbacks[ip])
  }

  /** One callback invocation `callback(ip, state)`. */
  datatype StateEvent = Notified(callback: CallbackId, ip: string, state: ConnectionState)

  datatype Step = Step(manager: Manager, events: seq<StateEvent>)

  function CallbacksOf(m: Manager, ip: string): seq<CallbackId> {
    if ip in m.callbacks then m.callbacks[ip] else []
  }

  /**
   * register_device: the keepalive interval is always recorded; a device not
   * seen before starts DISCONNECTED, stamped now, with monitoring started.
   */
  function RegisterDevice(m: Manager, ip: string, interval: int, now: int): (r: Manager)
    ensures r.keepalive == m.keepalive[ip := interval]
    ensures ip !in m.states ==> r.states == m.states[ip := Disconnected]
                                && r.lastActivity == m.lastActivity[ip := now] && ip in r.monitoring
    ensures ip in m.states ==> r.states == m.states && r.lastActivity == m.lastActivity && r.monitoring == m.monitoring
    ensures r.callbacks == m.callbacks
  {
    var m1 := m.(keepalive := m.keepalive[ip := interval]);
    if ip !in m.states then
      m1.(states := m.states[ip := Disconnected], lastActivity := m.lastActivity[ip := now],
          monitoring := m.monitoring + {ip})
    else m1
  }

  /** unregister_device: the device disappears from every map. */
  function UnregisterDevice(m: Manager, ip: string): (r: Manager)
    requires Valid(m)
    ensures Valid(r)
    ensures ip !in r.states && ip !in r.callbacks && ip !in r.lastActivity && ip !in r.keepalive && ip !in r.monitoring
    ensures r.states == m.states - {ip} && r.callbacks == m.callbacks - {ip}
    ensures r.lastActivity == m.lastActivity - {ip} && r.keepalive == m.keepalive - {ip}
  {
    Manager(m.states - {ip}, m.callbacks - {ip}, m.lastActivity - {ip}, m.keepalive - {ip}, m.monitoring - {ip})
  }

  /** get_connection_state: an unknown device reads as DISCONNECTED. */
  function GetConnectionState(m: Manager, ip: string): (r: ConnectionState)
    ensures ip !in m.states ==> r == Disconnected
    ensures ip in m.states ==> r == m.states[ip]
  {
    if ip in m.states then m.states[ip] else Disconnected
  }

  /**
   * _set_connection_state: nothing happens for an unknown device or an
   * unchanged state; otherwise the state is stored and every callback of the
   * device is called once with the new state.
   */
  function SetConnectionState(m: Manager, ip: string, s: ConnectionState): (r: Step)
    ensures ip !in m.states || m.states[ip] == s ==> r == Step(m, [])
    ensures ip in m.states ==> r.manager.states == m.states[ip := s]
    ensures r.manager.callbacks == m.callbacks && r.manager.lastActivity == m.lastActivity
    ensures r.manager.keepalive == m.keepalive && r.manager.monitoring == m.monitoring
    ensures ip in m.states && m.states[ip] != s ==>
              && |r.events| == |CallbacksOf(m, ip)|
              && forall i :: 0 <= i < |r.events| ==> r.events[i] == Notified(CallbacksOf(m, ip)[i], ip, s)
  {
    if ip !in m.states || m.states[ip] == s then Step(m, [])
    else
      var cs := CallbacksOf(m, ip);
      Step(m.(states := m.states[ip := s]), seq(|cs|, i requires 0 <= i < |cs| => Notified(cs[i], ip, s)))
  }

  /**
   * update_activity: a known device is stamped now and, unless already
   * CONNECTED, moved to CONNECTED; an unknown device is ignored.
   */
  function UpdateActivity(m: Manager, ip: string, now: int): (r: Step)
    ensures ip !in m.lastActivity ==> r == Step(m, [])
    ensures ip in m.lastActivity ==> r.manager.lastActivity == m.lastActivity[ip := now]
    ensures ip in m.lastActivity && ip in m.states ==> GetConnectionState(r.manager, ip) == Connected
    ensures ip in m.lastActivity && ip in m.states && m.states[ip] != Connected ==>
              && |r.events| == |CallbacksOf(m, ip)|
              && forall i :: 0 <= i < |r.events| ==> r.events[i] == Notified(CallbacksOf(m, ip)[i], ip, Connected)
    ensures ip !in m.states || m.states[ip] == Connected ==> r.events == []
    ensures forall other :: other != ip ==> GetConnectionState(r.manager, other) == GetConnectionState(m, other)
    ensures ip !in m.states ==> r.manager.states == m.states
    ensures r.manager.callbacks == m.callbacks
    ensures r.manager.keepalive == m.keepalive && r.manager.monitoring == m.monitoring
  {
    if ip !in m.lastActivity then Step(m, [])
    else
      var m1 := m.(lastActivity := m.lastActivity[ip := now]);
      if GetConnectionState(m, ip) != Connected || ip !in m.states then
        if ip in m.states then SetConnectionState(m1, ip, Connected) else Step(m1, [])
      else Step(m1, [])
  }

  /**
   * register_callback: a callback is added at most once, at the end of the
   * device's list; when it is new and the device is known, it is called at
   * once with the current state.
   */
  function RegisterCallback(m: Manager, ip: string, cb: CallbackId): (r: Step)
    requires Valid(m)
    ensures Valid(r.manager)
    ensures forall c :: c in CallbacksOf(r.manager, ip) <==> c in CallbacksOf(m, ip) || c == cb
    ensures cb in CallbacksOf(m, ip) ==> r == Step(m, [])
    ensures cb !in CallbacksOf(m, ip) ==> CallbacksOf(r.manager, ip) == CallbacksOf(m, ip) + [cb]
    ensures cb !in CallbacksOf(m, ip) && ip in m.states ==> r.events == [Notified(cb, ip, m.states[ip])]
    ensures ip !in m.states ==> r.events == []
    ensures forall other :: other != ip ==> CallbacksOf(r.manager, other) == CallbacksOf(m, other)
    ensures r.manager.states == m.states
  {
    var cs := CallbacksOf(m, ip);
    if cb in cs then Step(m, [])
    else
      var m1 := m.(callbacks := m.callbacks[ip := Insert(cs, cb)]);
      if ip in m.states then Step(m1, [Notified(cb, ip, m.states[ip])]) else Step(m1, [])
  }

  /**
   * unregister_callback: the callback leaves and the others keep their order;
   * the device's entry goes once its list is empty.
   */
  function UnregisterCallback(m: Manager, ip: string, cb: CallbackId): (r: Manager)
    requires Valid(m)
    ensures Valid(r)
    ensures forall c :: c in CallbacksOf(r, ip) <==> c in CallbacksOf(m, ip) && c != cb
    ensures cb !in CallbacksOf(m, ip) ==> r == m
    ensures forall i :: 0 <= i < |CallbacksOf(m, ip)| && CallbacksOf(m, ip)[i] == cb ==>
              CallbacksOf(r, ip) == CallbacksOf(m, ip)[..i] + CallbacksOf(m, ip)[i + 1..]
    ensures ip in r.callbacks <==> exists c :: c in CallbacksOf(m, ip) && c != cb
    ensures forall other :: other != ip ==> CallbacksOf(r, other) == CallbacksOf(m, other)
    ensures r.states == m.states
  {
    if ip in m.callbacks && cb in m.callbacks[ip] then
      var rest := Without(m.callbacks[ip], cb);
      forall i | 0 <= i < |m.callbacks[ip]| && m.callbacks[ip][i] == cb
        ensures rest == m.callbacks[ip][..i] + m.callbacks[ip][i + 1..]
      {
        WithoutAt(m.callbacks[ip], cb, i);
      }
      if |rest| == 0 then m.(callbacks := m.callbacks - {ip})
      else
        assert rest[0] in rest;
        m.(callbacks := m.callbacks[ip := rest])
    else if ip in m.callbacks then
      assert m.callbacks[ip][0] in m.callbacks[ip];
      m
    else m
  }

  /** cleanup: every map is emptied and all monitoring stops. */
  function Cleanup(m: Manager): (r: Manager)
    ensures r == Empty
    ensures forall ip :: GetConnectionState(r, ip) == Disconnected
  {
    Empty
  }

  /**
   * The timeout test of _monitor_connection in integer milliseconds: a
   * CONNECTED or CONNECTING device whose silence exceeds 1.5 keepalive
   * intervals has timed out. A missing stamp reads as 0 and a missing
   * interval as 30000.
   */
  predicate TimedOut(m: Manager, ip: string, now: int) {
    var last := if ip in m.lastActivity then m.lastActivity[ip] else 0;
    var interval := if ip in m.keepalive then m.keepalive[ip] else DefaultKeepalive;
    ip in m.states && (m.states[ip] == Connected || m.states[ip] == Connecting)
    && 2 * (now - last) > 3 * interval
  }

  /**
   * One pass of the monitoring loop: a timed-out device is set DISCONNECTED,
   * which calls each of its callbacks once, in order, with DISCONNECTED.
   */
  function MonitorCheck(m: Manager, ip: string, now: int): (r: Step)
    ensures TimedOut(m, ip, now) ==> GetConnectionState(r.manager, ip) == Disconnected
                                     && r.manager == m.(states := m.states[ip := Disconnected])
                                     && |r.events| == |CallbacksOf(m, ip)|
                                     && forall i :: 0 <= i < |r.events| ==>
                                          r.events[i] == Notified(CallbacksOf(m, ip)[i], ip, Disconnected)
    ensures !TimedOut(m, ip, now) ==> r == Step(m, [])
  {
    if TimedOut(m, ip, now) then SetConnectionState(m, ip, Disconnected) else Step(m, [])
  }

  /** A device never times out within 1.5 intervals of its last activity. */
  lemma FreshActivityNoTimeout(m: Manager, ip: string, now: int, later: int)
    requires ip in m.states && ip in m.lastActivity && ip in m.keepalive && m.keepalive[ip] >= 0
    requires now <= later && 2 * (later - now) <= 3 * m.keepalive[ip]
    ensures !TimedOut(UpdateActivity(m, ip, now).manager, ip, later)
  {
  }

  /** Activity after a timeout brings a device back to CONNECTED. */
  lemma TimeoutThenActivity(m: Manager, ip: string, now: int, later: int)
    requires TimedOut(m, ip, now)
    requires ip in m.lastActivity
    ensures GetConnectionState(UpdateActivity(MonitorCheck(m, ip, now).manager, ip, later).manager, ip) == Connected
  {
  }
}

/**
 * `CommandExecutor.execute_command`: up to `retries` send/receive attempts
 * with exponential backoff between them. The transport's behaviour on each
 * attempt is a scripted outcome; sleeping is recorded as the list of delays.
 */
module Executor {
  import opened Wrappers

  /** What the transport did on one attempt. */
  datatype Attempt =
    | Reply(data: seq<int>)  // receive_packet returned these bytes
    | TimedOut               // receive_packet returned None (socket.timeout)
    | Raised(error: int)     // send_packet or receive_packet raised OSError

  /** What execute_command ended with. */
  datatype Outcome = Response(data: seq<int>) | NoResponse | Error(error: int)

  /** Only non-empty bytes count as a response (`if response:`). */
  predicate Answers(a: Attempt) {
    a.Reply? && |a.data| > 0
  }

  function Pow2(k: nat): (r: nat)
    ensures r >= 1
  {
    if k == 0 then 1 else 2 * Pow2(k - 1)
  }

  /** The pause after failed attempt k: `0.1 * (2 ** k)` seconds. */
  function Backoff(k: nat): real {
    0.1 * (Pow2(k) as real)
  }

  /** The first of the first n attempts that yields non-empty bytes, if any does. */
  function FirstAnswer(script: seq<Attempt>, n: nat): (r: Option<nat>)
    requires n <= |script|
    ensures r.Some? ==> r.value < n && Answers(script[r.value]) && forall j :: 0 <= j < r.value ==> !Answers(script[j])
    ensures r.None? ==> forall j :: 0 <= j < n ==> !Answers(script[j])
  {
    if n == 0 then None
    else match FirstAnswer(script, n - 1)
      case Some(i) => Some(i)
      case None => if Answers(script[n - 1]) then Some(n - 1) else None
  }

  /** The error of the last attempt among the first n that raised, if any did. */
  function LastError(script: seq<Attempt>, n: nat): (r: Outcome)
    requires n <= |script|
    ensures r.Error? ==> exists k :: 0 <= k < n && script[k] == Raised(r.error)
                                    && forall j :: k < j < n ==> !script[j].Raised?
    ensures r.NoResponse? <==> forall j :: 0 <= j < n ==> !script[j].Raised?
    ensures !r.Response?
  {
    if n == 0 then NoResponse
    else if script[n - 1].Raised? then Error(script[n - 1].error)
    else LastError(script, n - 1)
  }

  /**
   * execute_command: the first attempt that yields non-empty bytes returns
   * them and stops; if none does, the last OSError raised is re-raised, and
   * without one the result is None. A non-positive `retries` makes no
   * attempt. The backoff 0.1·2^k follows failed attempt k only when another
   * attempt comes after it.
   */
  method ExecuteCommand(retries: int, script: seq<Attempt>) returns (r: Outcome, attempts: nat, delays: seq<real>)
    requires retries <= |script|
    ensures retries <= 0 ==> r == NoResponse && attempts == 0 && delays == []
    ensures retries > 0 ==> 1 <= attempts <= retries
    ensures retries > 0 ==> match FirstAnswer(script, retries)
                            case Some(k) => r == Response(script[k].data) && attempts == k + 1
                            case None => r == LastError(script, retries) && attempts == retries
    ensures |delays| == if attempts > 0 then attempts - 1 else 0
    ensures forall k :: 0 <= k < |delays| ==> delays[k] == Backoff(k)
  {
    r := NoResponse;
    attempts := 0;
    delays := [];
    if retries <= 0 {
      return;
    }
    var lastError: Outcome := NoResponse;
    var attempt := 0;
    while attempt < retries
      invariant 0 <= attempt <= retries
      invariant attempts == attempt
      invariant FirstAnswer(script, attempt).None?
      invariant lastError == LastError(script, attempt)
      invariant |delays| == if attempt == retries then retries - 1 else attempt
      invariant forall k :: 0 <= k < |delays| ==> delays[k] == Backoff(k)
      decreases retries - attempt
    {
      attempts := attempt + 1;
      match script[attempt] {
        case Reply(data) =>
          if |data| > 0 {
            r := Response(data);
            return;
          }
        case TimedOut =>
        case Raised(e) =>
          lastError := Error(e);
      }
      if attempt < retries - 1 {
        delays := delays + [Backoff(attempt)];
      }
      attempt := attempt + 1;
    }
    r := lastError;
  }

  /** An answer on the first try makes exactly one attempt and never sleeps. */
  lemma FirstTryAnswers(script: seq<Attempt>, retries: int)
    requires 0 < retries <= |script| && Answers(script[0])
    ensures FirstAnswer(script, retries) == Some(0)
  {
    if retries > 1 {
      FirstTryAnswers(script, retries - 1);
    }
  }

  /** A late answer wins over earlier failures: errors before it are not raised. */
  lemma AnswerBeatsEarlierErrors(script: seq<Attempt>, retries: nat, k: nat)
    requires k < retries <= |script| && Answers(script[k])
    requires forall j :: 0 <= j < k ==> !Answers(script[j])
    ensures FirstAnswer(script, retries) == Some(k)
  {
    if retries > k + 1 {
      AnswerBeatsEarlierErrors(script, retries - 1, k);
    } else {
      assert FirstAnswer(script, k).None?;
    }
  }
}
