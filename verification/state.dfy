/**
 * `DeviceState` and `StateChangeDetector`: a property map with per-name
 * listener sets, and a detector that multiplexes many watchers of a name
 * onto one internal listener. Listener and callback objects are opaque
 * handles; invoking them is recorded as an emitted event, in the order
 * the listener set is iterated.
 */
module DeviceStore {
  import opened Wrappers

  /** The Python values the integration stores as properties. */
  datatype Value =
    | VNone
    | VBool(b: bool)
    | VInt(i: int)
    | VReal(r: real)
    | VStr(s: string)
    | VList(items: seq<Value>)
    | VDict(entries: map<string, Value>)

  type ListenerId = nat

  datatype DeviceState = DeviceState(properties: map<string, Value>, listeners: map<string, seq<ListenerId>>)

  /** A listener set is never stored empty and holds each listener once. */
  predicate Valid(st: DeviceState) {
    forall n :: n in st.listeners ==> |st.listeners[n]| > 0 && NoDup(st.listeners[n])
  }

  /** `DeviceState()`: no properties, no listeners. */
  const Fresh := DeviceState(map[], map[])

  /** One listener invocation `listener(name, old_value, new_value)`. */
  datatype Event = Changed(listener: ListenerId, name: string, before: Value, after: Value)

  /** `properties.get(name)`: a missing property reads as None. */
  function Get(st: DeviceState, name: string): Value {
    if name in st.properties then st.properties[name] else VNone
  }

  function ListenersOf(st: DeviceState, name: string): seq<ListenerId> {
    if name in st.listeners then st.listeners[name] else []
  }

  /** Calling every listener of a name once, in set order. */
  function Fanout(ls: seq<ListenerId>, name: string, before: Value, after: Value): (r: seq<Event>)
    ensures |r| == |ls|
    ensures forall i :: 0 <= i < |ls| ==> r[i] == Changed(ls[i], name, before, after)
    ensures NoDup(ls) ==> NoDup(r)
  {
    seq(|ls|, i requires 0 <= i < |ls| => Changed(ls[i], name, before, after))
  }

  /** The state after an operation, the operation's boolean answer, and the listener calls it made. */
  datatype Update = Update(state: DeviceState, result: bool, events: seq<Event>)

  /**
   * set_property: equal values (a missing property counting as None) change
   * nothing and answer false; otherwise the value is stored, each listener
   * of that name is called once with (name, old, new), and the answer is true.
   */
  function SetProperty(st: DeviceState, name: string, value: Value): (r: Update)
    ensures r.result <==> Get(st, name) != value
    ensures !r.result ==> r.state == st && r.events == []
    ensures Get(r.state, name) == value
    ensures forall m :: m != name ==> Get(r.state, m) == Get(st, m)
    ensures r.result ==> name in r.state.properties && r.state.properties - {name} == st.properties - {name}
    ensures r.state.listeners == st.listeners
    ensures r.result ==> |r.events| == |ListenersOf(st, name)|
    ensures r.result ==> forall e :: e in r.events <==>
                                     e.listener in ListenersOf(st, name) && e == Changed(e.listener, name, Get(st, name), value)
  {
    var before := Get(st, name);
    if before == value then Update(st, false, [])
    else
      var st' := st.(properties := st.properties[name := value]);
      Update(st', true, Fanout(ListenersOf(st, name), name, before, value))
  }

  /** get_property(name, default). */
  function GetProperty(st: DeviceState, name: string, default: Value): (r: Value)
    ensures name in st.properties ==> r == Get(st, name)
    ensures name !in st.properties ==> r == default
  {
    if name in st.properties then st.properties[name] else default
  }

  /** has_property. */
  predicate HasProperty(st: DeviceState, name: string) {
    name in st.properties
  }

  /**
   * delete_property as the source has it: for a missing name the local
   * `listeners` is never bound, so the method raises UnboundLocalError.
   */
  function DeletePropertyAsWritten(st: DeviceState, name: string): (r: Result<Update, string>)
    ensures r.Err? <==> name !in st.properties
    ensures r.Ok? ==> r.value == DeleteProperty(st, name)
  {
    if name !in st.properties then Err("UnboundLocalError")
    else Ok(DeleteProperty(st, name))
  }

  /**
   * delete_property with a missing name treated as nothing to delete. A
   * present property is removed and each of its listeners is called once with
   * (name, old, None); the answer is whether any listener was called, as in
   * the source, not whether something was deleted.
   */
  function DeleteProperty(st: DeviceState, name: string): (r: Update)
    ensures name !in r.state.properties
    ensures r.state.properties == st.properties - {name}
    ensures r.state.listeners == st.listeners
    ensures forall m :: m != name ==> Get(r.state, m) == Get(st, m)
    ensures r.result <==> name in st.properties && |ListenersOf(st, name)| > 0
    ensures name !in st.properties ==> r.state == st && r.events == []
    ensures name in st.properties ==> |r.events| == |ListenersOf(st, name)|
    ensures name in st.properties ==> forall e :: e in r.events <==>
              e.listener in ListenersOf(st, name) && e == Changed(e.listener, name, st.properties[name], VNone)
    ensures Valid(st) ==> NoDup(r.events)
  {
    if name !in st.properties then Update(st, false, [])
    else
      var ls := ListenersOf(st, name);
      Update(st.(properties := st.properties - {name}), |ls| > 0, Fanout(ls, name, st.properties[name], VNone))
  }

  /** The counterexample: deleting a property that was never set raises. */
  lemma DeleteMissingRaises()
    ensures DeletePropertyAsWritten(Fresh, "last_bar").Err?
    ensures DeleteProperty(Fresh, "last_bar") == Update(Fresh, false, [])
  {
  }

  /** Where the name is present the two definitions agree. */
  lemma DeleteCorrectionConservative(st: DeviceState, name: string)
    requires name in st.properties
    ensures DeletePropertyAsWritten(st, name) == Ok(DeleteProperty(st, name))
  {
  }

  /** add_property_listener: the listener joins the name's set; nothing else changes. */
  function AddListener(st: DeviceState, name: string, l: ListenerId): (r: DeviceState)
    requires Valid(st)
    ensures Valid(r)
    ensures r.properties == st.properties
    ensures forall m :: m in ListenersOf(r, name) <==> m in ListenersOf(st, name) || m == l
    ensures l in ListenersOf(st, name) ==> r == st
    ensures forall n :: n != name ==> ListenersOf(r, n) == ListenersOf(st, n)
    ensures r.listeners.Keys == st.listeners.Keys + {name}
  {
    st.(listeners := st.listeners[name := Insert(ListenersOf(st, name), l)])
  }

  /**
   * remove_property_listener: answers whether the listener was registered
   * for the name, and drops the name's entry once its set becomes empty.
   */
  function RemoveListener(st: DeviceState, name: string, l: ListenerId): (r: Update)
    requires Valid(st)
    ensures Valid(r.state)
    ensures r.events == []
    ensures r.result <==> l in ListenersOf(st, name)
    ensures !r.result ==> r.state == st
    ensures r.state.properties == st.properties
    ensures forall m :: m in ListenersOf(r.state, name) <==> m in ListenersOf(st, name) && m != l
    ensures forall n :: n != name ==> ListenersOf(r.state, n) == ListenersOf(st, n)
    ensures r.result ==> (name in r.state.listeners <==> exists m :: m in ListenersOf(st, name) && m != l)
  {
    if name in st.listeners && l in st.listeners[name] then
      var rest := Without(st.listeners[name], l);
      if |rest| == 0 then Update(st.(listeners := st.listeners - {name}), true, [])
      else
        assert rest[0] in rest;
        Update(st.(listeners := st.listeners[name := rest]), true, [])
    else Update(st, false, [])
  }

  /** clear_property_listeners: one name's set, or every set when no name is given. */
  function ClearListeners(st: DeviceState, name: Option<string>): (r: DeviceState)
    requires Valid(st)
    ensures Valid(r)
    ensures r.properties == st.properties
    ensures name.None? ==> r.listeners == map[]
    ensures name.Some? ==> name.value !in r.listeners
    ensures name.Some? ==> forall n :: n != name.value ==> ListenersOf(r, n) == ListenersOf(st, n)
  {
    match name
    case None => st.(listeners := map[])
    case Some(n) => if n in st.listeners then st.(listeners := st.listeners - {n}) else st
  }

  /** A read after a write sees the written value; a second identical write is a no-op. */
  lemma SetThenGet(st: DeviceState, name: string, value: Value, default: Value)
    ensures var u := SetProperty(st, name, value);
            GetProperty(u.state, name, default) == (if value == VNone && name !in st.properties then default else value)
    ensures !SetProperty(SetProperty(st, name, value).state, name, value).result
  {
  }

  /** A listener hears about a change of exactly the names it listens to. */
  lemma ListenerHearsOwnName(st: DeviceState, name: string, value: Value, l: ListenerId)
    requires Get(st, name) != value
    ensures (exists e :: e in SetProperty(st, name, value).events && e.listener == l) <==> l in ListenersOf(st, name)
  {
    var u := SetProperty(st, name, value);
    if l in ListenersOf(st, name) {
      assert Changed(l, name, Get(st, name), value) in u.events;
    }
  }

  /**
   * The listener calls a run of `set_property` calls on `names` makes, judged
   * only from the state before the run and the state after it: each name, at
   * its first write, calls every listener it had with (name, value before,
   * value after) when those differ, and a later write of the same name, or of
   * a name in `seen` (written earlier), calls nothing. This holds for runs
   * that write each name with one value.
   */
  function Announced(st: DeviceState, seen: set<string>, names: seq<string>, final: DeviceState): seq<Event>
    decreases |names|
  {
    if |names| == 0 then []
    else FirstWriteCalls(st, seen, names[0], final) + Announced(st, seen + {names[0]}, names[1..], final)
  }

  /** The calls the write of `n` adds to the announcements once `seen` has been written. */
  function FirstWriteCalls(st: DeviceState, seen: set<string>, n: string, final: DeviceState): seq<Event> {
    if n in seen || Get(st, n) == Get(final, n) then []
    else Fanout(ListenersOf(st, n), n, Get(st, n), Get(final, n))
  }

  /** The names written once a run has followed the ones in `seen`. */
  function Written(seen: set<string>, names: seq<string>): (w: set<string>)
    ensures forall m :: m in w <==> m in seen || m in names
    decreases |names|
  {
    if |names| == 0 then seen
    else
      assert forall m :: m in names <==> m == names[0] || m in names[1..];
      Written(seen + {names[0]}, names[1..])
  }

  /**
   * A run judged from a later state `b` announces what it announces judged
   * from an earlier state `a` with the names `extra` already written: names
   * outside `extra` had the same value in `a` and `b`, and names in `extra`
   * no longer change after `b`.
   */
  lemma {:induction false} AnnouncedShift(a: DeviceState, b: DeviceState, c: DeviceState, seen: set<string>, extra: set<string>, names: seq<string>)
    requires a.listeners == b.listeners
    requires forall n :: n in names && n !in extra ==> Get(b, n) == Get(a, n)
    requires forall n :: n in names && n in extra ==> Get(b, n) == Get(c, n)
    ensures Announced(b, seen, names, c) == Announced(a, seen + extra, names, c)
    decreases |names|
  {
    if |names| > 0 {
      var n := names[0];
      assert ListenersOf(a, n) == ListenersOf(b, n);
      assert FirstWriteCalls(b, seen, n, c) == FirstWriteCalls(a, seen + extra, n, c);
      assert forall m :: m in names[1..] ==> m in names;
      AnnouncedShift(a, b, c, seen + {n}, extra, names[1..]);
      assert seen + {n} + extra == seen + extra + {n};
    }
  }

  /** The announcements depend on the final state only through the names' values. */
  lemma {:induction false} AnnouncedFrame(st: DeviceState, seen: set<string>, names: seq<string>, f1: DeviceState, f2: DeviceState)
    requires forall n :: n in names ==> Get(f1, n) == Get(f2, n)
    ensures Announced(st, seen, names, f1) == Announced(st, seen, names, f2)
    decreases |names|
  {
    if |names| > 0 {
      assert forall m :: m in names[1..] ==> m in names;
      AnnouncedFrame(st, seen + {names[0]}, names[1..], f1, f2);
    }
  }

  /** One more write at the end of a run adds its first-write calls, judged after the whole run. */
  lemma {:induction false} AnnouncedSnoc(st: DeviceState, seen: set<string>, names: seq<string>, n: string, final: DeviceState)
    ensures Announced(st, seen, names + [n], final)
            == Announced(st, seen, names, final) + FirstWriteCalls(st, Written(seen, names), n, final)
    decreases |names|
  {
    if |names| == 0 {
      assert names + [n] == [n];
    } else {
      var seen', f0 := seen + {names[0]}, FirstWriteCalls(st, seen, names[0], final);
      var tail := Announced(st, seen', names[1..], final);
      var last := FirstWriteCalls(st, Written(seen, names), n, final);
      assert Announced(st, seen, names + [n], final) == f0 + Announced(st, seen', names[1..] + [n], final) by {
        assert (names + [n])[0] == names[0];
        assert (names + [n])[1..] == names[1..] + [n];
      }
      assert Announced(st, seen', names[1..] + [n], final) == tail + last by {
        AnnouncedSnoc(st, seen', names[1..], n, final);
      }
      AppendAssoc(f0, tail, last);
    }
  }

  /**
   * One more write of `v` to `n` extends a run: the calls it makes, judged
   * from the state before it, are what the longer run adds. The run must
   * have written `n` with `v` if it wrote `n` at all.
   */
  lemma AnnouncedStep(st: DeviceState, names: seq<string>, s1: DeviceState, s2: DeviceState, n: string, v: Value)
    requires s1.listeners == st.listeners
    requires forall m :: m != n ==> Get(s2, m) == Get(s1, m)
    requires Get(s2, n) == v
    requires n !in names ==> Get(s1, n) == Get(st, n)
    requires n in names ==> Get(s1, n) == v
    ensures Announced(st, {}, names, s1) + FirstWriteCalls(s1, {}, n, s2) == Announced(st, {}, names + [n], s2)
  {
    var written := Written({}, names);
    AnnouncedSnoc(st, {}, names, n, s2);
    assert Announced(st, {}, names, s2) == Announced(st, {}, names, s1) by {
      AnnouncedFrame(st, {}, names, s1, s2);
    }
    assert FirstWriteCalls(st, written, n, s2) == FirstWriteCalls(s1, {}, n, s2) by {
      assert ListenersOf(st, n) == ListenersOf(s1, n);
      assert n in names <==> n in written;
    }
  }

  /**
   * A write of `k` followed by a run: what the write announced, then what
   * the run announced judged from the state after the write, is what the
   * whole run announces. The run must leave `k` as the write left it.
   */
  lemma AnnouncedCons(a: DeviceState, b: DeviceState, c: DeviceState, k: string, rest: seq<string>)
    requires a.listeners == b.listeners
    requires forall n :: n in rest && n != k ==> Get(b, n) == Get(a, n)
    requires Get(b, k) == Get(c, k)
    ensures Announced(a, {}, [k], b) + Announced(b, {}, rest, c) == Announced(a, {}, [k] + rest, c)
  {
    assert Announced(a, {}, [k], b) == FirstWriteCalls(a, {}, k, c) by {
      assert [k][1..] == [];
    }
    assert Announced(b, {}, rest, c) == Announced(a, {} + {k}, rest, c) by {
      AnnouncedShift(a, b, c, {}, {k}, rest);
    }
    assert ([k] + rest)[0] == k && ([k] + rest)[1..] == rest;
  }

  /**
   * Two runs in a row announce what the joined run announces, when the
   * second run leaves the first run's names as the first left them and the
   * first run leaves the second run's other names as they were.
   */
  lemma AnnouncedConcat(a: DeviceState, b: DeviceState, c: DeviceState, xs: seq<string>, ys: seq<string>)
    requires a.listeners == b.listeners
    requires forall n :: n in xs ==> Get(b, n) == Get(c, n)
    requires forall n :: n in ys && n !in xs ==> Get(b, n) == Get(a, n)
    ensures Announced(a, {}, xs, b) + Announced(b, {}, ys, c) == Announced(a, {}, xs + ys, c)
  {
    var written := Written({}, xs);
    assert {} + written == written;
    AnnouncedSplit(a, {}, xs, ys, c);
    AnnouncedFrame(a, {}, xs, b, c);
    AnnouncedShift(a, b, c, {}, written, ys);
  }

  /** A run split in two: the second part announces only names the first did not write. */
  lemma {:induction false} AnnouncedSplit(st: DeviceState, seen: set<string>, xs: seq<string>, ys: seq<string>, final: DeviceState)
    ensures Announced(st, seen, xs + ys, final)
            == Announced(st, seen, xs, final) + Announced(st, Written(seen, xs), ys, final)
    decreases |xs|
  {
    if |xs| == 0 {
      assert xs + ys == ys;
      assert Announced(st, seen, xs, final) == [] && Written(seen, xs) == seen;
    } else {
      var seen', f0 := seen + {xs[0]}, FirstWriteCalls(st, seen, xs[0], final);
      var front := Announced(st, seen', xs[1..], final);
      var back := Announced(st, Written(seen, xs), ys, final);
      assert Announced(st, seen, xs + ys, final) == f0 + Announced(st, seen', xs[1..] + ys, final) by {
        assert (xs + ys)[0] == xs[0];
        assert (xs + ys)[1..] == xs[1..] + ys;
      }
      assert Announced(st, seen', xs[1..] + ys, final) == front + back by {
        AnnouncedSplit(st, seen', xs[1..], ys, final);
      }
      assert Announced(st, seen, xs, final) == f0 + front;
      AppendAssoc(f0, front, back);
    }
  }

  /**
   * What the announcements are, call by call: a call for a name of the run
   * not written before whose value changed, to one of its listeners, carrying
   * the value before and after; and every such call is made. In a valid state
   * none repeats.
   */
  lemma {:induction false} AnnouncedMembers(st: DeviceState, seen: set<string>, names: seq<string>, final: DeviceState)
    ensures forall e :: e in Announced(st, seen, names, final) <==>
              && e.name in names && e.name !in seen && Get(st, e.name) != Get(final, e.name)
              && e.listener in ListenersOf(st, e.name)
              && e == Changed(e.listener, e.name, Get(st, e.name), Get(final, e.name))
    ensures Valid(st) ==> NoDup(Announced(st, seen, names, final))
    decreases |names|
  {
    if |names| > 0 {
      var n := names[0];
      AnnouncedMembers(st, seen + {n}, names[1..], final);
      assert forall m :: m in names <==> m == n || m in names[1..];
      var first := FirstWriteCalls(st, seen, n, final);
      if Valid(st) && first != [] {
        assert forall e :: e in first ==> e.name == n;
        NoDupAppend(first, Announced(st, seen + {n}, names[1..], final));
      }
    }
  }

  // ---------------------------------------------------------------------
  // StateChangeDetector
  // ---------------------------------------------------------------------

  type CallbackId = nat

  /**
   * A detector: its own internal listener handle (`_property_changed`) and
   * the watcher callbacks per property name.
   */
  datatype Detector = Detector(me: ListenerId, watchers: map<string, seq<CallbackId>>)

  /** Every watcher set is non-empty and duplicate-free. */
  predicate WatchersValid(d: Detector) {
    forall n :: n in d.watchers ==> |d.watchers[n]| > 0 && NoDup(d.watchers[n])
  }

  /** The internal listener is registered for exactly the watched names. */
  predicate Linked(st: DeviceState, d: Detector) {
    && (forall n :: n in d.watchers ==> d.me in ListenersOf(st, n))
    && (forall n :: n in st.listeners && d.me in st.listeners[n] ==> n in d.watchers)
  }

  function WatchersOf(d: Detector, name: string): seq<CallbackId> {
    if name in d.watchers then d.watchers[name] else []
  }

  datatype Watched = Watched(state: DeviceState, detector: Detector, result: bool)

  /**
   * add_watcher: the first watcher of a name registers the internal listener
   * on the device state; later watchers only join the set.
   */
  function AddWatcher(st: DeviceState, d: Detector, name: string, cb: CallbackId): (r: Watched)
    requires Valid(st) && WatchersValid(d) && Linked(st, d)
    ensures Valid(r.state) && WatchersValid(r.detector) && Linked(r.state, r.detector)
    ensures r.detector.me == d.me
    ensures forall c :: c in WatchersOf(r.detector, name) <==> c in WatchersOf(d, name) || c == cb
    ensures forall n :: n != name ==> WatchersOf(r.detector, n) == WatchersOf(d, n)
    ensures name in d.watchers ==> r.state == st
    ensures name !in d.watchers ==> r.state == AddListener(st, name, d.me)
    ensures r.state.properties == st.properties
  {
    if name !in d.watchers then
      Watched(AddListener(st, name, d.me), d.(watchers := d.watchers[name := [cb]]), true)
    else
      Watched(st, d.(watchers := d.watchers[name := Insert(d.watchers[name], cb)]), true)
  }

  /**
   * remove_watcher: answers whether the callback was watching the name; the
   * last watcher's removal also removes the internal listener.
   */
  function RemoveWatcher(st: DeviceState, d: Detector, name: string, cb: CallbackId): (r: Watched)
    requires Valid(st) && WatchersValid(d) && Linked(st, d)
    ensures Valid(r.state) && WatchersValid(r.detector) && Linked(r.state, r.detector)
    ensures r.detector.me == d.me
    ensures r.result <==> cb in WatchersOf(d, name)
    ensures !r.result ==> r.state == st && r.detector == d
    ensures forall c :: c in WatchersOf(r.detector, name) <==> c in WatchersOf(d, name) && c != cb
    ensures forall n :: n != name ==> WatchersOf(r.detector, n) == WatchersOf(d, n)
    ensures r.state.properties == st.properties
    ensures r.result ==> (name in r.detector.watchers <==> exists c :: c in WatchersOf(d, name) && c != cb)
    ensures r.result && name !in r.detector.watchers ==> d.me !in ListenersOf(r.state, name)
  {
    if name in d.watchers && cb in d.watchers[name] then
      var rest := Without(d.watchers[name], cb);
      if |rest| == 0 then
        Watched(RemoveListener(st, name, d.me).state, d.(watchers := d.watchers - {name}), true)
      else
        assert rest[0] in rest;
        Watched(st, d.(watchers := d.watchers[name := rest]), true)
    else Watched(st, d, false)
  }

  /** One watcher callback invocation `callback(name, old_value, new_value)`. */
  datatype WatchEvent = Watch(callback: CallbackId, name: string, before: Value, after: Value)

  /** _property_changed: every current watcher of the name is called once. */
  function OnPropertyChanged(d: Detector, name: string, before: Value, after: Value): (r: seq<WatchEvent>)
    ensures |r| == |WatchersOf(d, name)|
    ensures forall i :: 0 <= i < |r| ==> r[i] == Watch(WatchersOf(d, name)[i], name, before, after)
  {
    var cs := WatchersOf(d, name);
    seq(|cs|, i requires 0 <= i < |cs| => Watch(cs[i], name, before, after))
  }

  /**
   * End to end: when a watched property changes, the device state calls the
   * detector's listener exactly when the name has watchers, and the detector
   * forwards to each of them.
   */
  lemma ChangeReachesWatchers(st: DeviceState, d: Detector, name: string, value: Value)
    requires Linked(st, d)
    requires Get(st, name) != value
    ensures (exists e :: e in SetProperty(st, name, value).events && e.listener == d.me) <==> name in d.watchers
  {
    ListenerHearsOwnName(st, name, value, d.me);
  }
}
