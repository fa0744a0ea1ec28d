/**
 * The handlers that mirror part of their own state into the device state:
 * `MenuStateHandler`, `BarNotificationHandler` and the feature part of
 * `DeviceConfigState`. Each operation returns the handler's new fields and
 * the device-state outcome of the `set_property` / `delete_property` calls
 * it makes, in order.
 */
module Handlers {
  import opened Wrappers
  import opened Numerals
  import opened DeviceStore

  /** A device state together with every listener call made so far. */
  datatype Outcome = Outcome(state: DeviceState, events: seq<Event>)

  /** One more `set_property` call. */
  function Then(o: Outcome, name: string, value: Value): (r: Outcome)
    ensures Get(r.state, name) == value
    ensures forall m :: m != name ==> Get(r.state, m) == Get(o.state, m)
    ensures r.state.listeners == o.state.listeners
    ensures forall e :: e in r.events ==> e in o.events || e.name == name
    ensures o.events <= r.events
    ensures Get(o.state, name) == value ==> r == o
    ensures r.events == o.events + FirstWriteCalls(o.state, {}, name, r.state)
  {
    var u := SetProperty(o.state, name, value);
    Outcome(u.state, o.events + u.events)
  }

  /**
   * A run of writes followed by one more `set_property` announces what the
   * longer run announces, when the run wrote each name with one value.
   */
  lemma ThenAnnounced(st: DeviceState, pre: seq<Event>, names: seq<string>, o: Outcome, n: string, v: Value)
    requires o.state.listeners == st.listeners
    requires o.events == pre + Announced(st, {}, names, o.state)
    requires n !in names ==> Get(o.state, n) == Get(st, n)
    requires n in names ==> Get(o.state, n) == v
    ensures Then(o, n, v).events == pre + Announced(st, {}, names + [n], Then(o, n, v).state)
  {
    var r := Then(o, n, v);
    var a, f := Announced(st, {}, names, o.state), FirstWriteCalls(o.state, {}, n, r.state);
    assert a + f == Announced(st, {}, names + [n], r.state) by {
      AnnouncedStep(st, names, o.state, r.state, n, v);
    }
    assert r.events == (pre + a) + f;
    AppendAssoc(pre, a, f);
  }

  // ---------------------------------------------------------------------
  // MenuStateHandler
  // ---------------------------------------------------------------------

  datatype MenuHandler = MenuHandler(menuId: Option<string>, items: seq<Value>, position: int)

  /** `MenuStateHandler(state)`: no menu, no items, position 0. */
  const NewMenu := MenuHandler(None, [], 0)

  function IdValue(id: Option<string>): Value {
    match id
    case None => VNone
    case Some(s) => VStr(s)
  }

  /** The menu properties, in the order the handler writes them. */
  const MenuKeys: seq<string> := ["menu_id", "menu_items", "menu_position"]

  predicate IsMenuKey(n: string) {
    n == "menu_id" || n == "menu_items" || n == "menu_position"
  }

  /** The three menu properties of the device state show the handler's fields. */
  predicate MenuMirrored(h: MenuHandler, st: DeviceState) {
    && Get(st, "menu_id") == IdValue(h.menuId)
    && Get(st, "menu_items") == VList(h.items)
    && Get(st, "menu_position") == VInt(h.position)
  }

  /** Only the menu properties differ, and only menu properties were announced. */
  ghost predicate MenuFrame(st: DeviceState, o: Outcome) {
    && o.state.listeners == st.listeners
    && (forall n :: !IsMenuKey(n) ==> Get(o.state, n) == Get(st, n))
    && (forall e :: e in o.events ==> IsMenuKey(e.name))
  }

  /** The names a run of writes sets, in order. */
  function Names(ws: seq<(string, Value)>): (r: seq<string>)
    ensures |r| == |ws|
    ensures forall i :: 0 <= i < |ws| ==> r[i] == ws[i].0
  {
    if |ws| == 0 then [] else [ws[0].0] + Names(ws[1..])
  }

  /**
   * `set_property(name, value)` for each pair, in order, each name once:
   * every name ends with its value, every other property is untouched, and
   * the listener calls are exactly those the run announces.
   */
  function Writes(o: Outcome, ws: seq<(string, Value)>): (r: Outcome)
    requires DistinctKeys(ws)
    ensures forall i :: 0 <= i < |ws| ==> Get(r.state, ws[i].0) == ws[i].1
    ensures forall n :: n !in Names(ws) ==> Get(r.state, n) == Get(o.state, n)
    ensures r.state.listeners == o.state.listeners
    ensures r.events == o.events + Announced(o.state, {}, Names(ws), r.state)
    decreases |ws|
  {
    if |ws| == 0 then o
    else
      var o1 := Then(o, ws[0].0, ws[0].1);
      var r := Writes(o1, ws[1..]);
      assert forall i :: 1 <= i < |ws| ==> ws[1..][i - 1] == ws[i];
      assert r.events == o.events + Announced(o.state, {}, Names(ws), r.state) by {
        var k, rest := ws[0].0, Names(ws[1..]);
        assert o1.events == o.events + Announced(o.state, {}, [k], o1.state) by {
          ThenAnnounced(o.state, o.events, [], o, k, ws[0].1);
          assert [] + [k] == [k];
        }
        assert Get(o1.state, k) == Get(r.state, k) by {
          assert k !in rest;
        }
        AnnouncedCons(o.state, o1.state, r.state, k, rest);
        assert Names(ws) == [k] + rest;
        AppendAssoc(o.events, Announced(o.state, {}, [k], o1.state), Announced(o1.state, {}, rest, r.state));
      }
      r
  }

  /** What set_current_menu writes when the menu changes, and clear_menu always: id, empty items, position 0. */
  function MenuWrites(id: Value): (ws: seq<(string, Value)>)
    ensures DistinctKeys(ws) && Names(ws) == MenuKeys
  {
    var ws := [("menu_id", id), ("menu_items", VList([])), ("menu_position", VInt(0))];
    assert "menu_id"[6] != "menu_items"[6] && "menu_id"[6] != "menu_position"[6] && "menu_items"[6] != "menu_position"[6];
    assert Names(ws) == [ws[0].0] + Names(ws[1..]);
    ws
  }

  /** The menu writes leave id, empty items and position 0, touch nothing else, and announce the menu keys. */
  lemma MenuWritten(st: DeviceState, id: Value)
    ensures var o := Writes(Outcome(st, []), MenuWrites(id));
            && Get(o.state, "menu_id") == id && Get(o.state, "menu_items") == VList([])
            && Get(o.state, "menu_position") == VInt(0)
            && MenuFrame(st, o)
            && o.events == Announced(st, {}, MenuKeys, o.state)
  {
    var o := Writes(Outcome(st, []), MenuWrites(id));
    MenuWrittenState(st, id);
    assert o.events == Announced(st, {}, MenuKeys, o.state) by {
      assert o.events == [] + Announced(st, {}, MenuKeys, o.state);
    }
    assert forall e :: e in o.events ==> IsMenuKey(e.name) by {
      AnnouncedMembers(st, {}, MenuKeys, o.state);
    }
  }

  /** The state after the menu writes. */
  lemma MenuWrittenState(st: DeviceState, id: Value)
    ensures var o := Writes(Outcome(st, []), MenuWrites(id));
            && Get(o.state, "menu_id") == id && Get(o.state, "menu_items") == VList([])
            && Get(o.state, "menu_position") == VInt(0)
            && o.state.listeners == st.listeners
            && forall n :: !IsMenuKey(n) ==> Get(o.state, n) == Get(st, n)
  {
    var ws := MenuWrites(id);
    assert ws[0].0 == "menu_id" && ws[1].0 == "menu_items" && ws[2].0 == "menu_position";
    forall n | !IsMenuKey(n)
      ensures n !in Names(ws)
    {
      assert n !in MenuKeys;
    }
  }

  datatype MenuStep = MenuStep(handler: MenuHandler, out: Outcome)

  /**
   * set_current_menu: the id is always stored; items and position are reset
   * to [] and 0, in the handler and in the device state, exactly when the id
   * changes.
   */
  function SetCurrentMenu(h: MenuHandler, st: DeviceState, id: string): (r: MenuStep)
    ensures r.handler.menuId == Some(id)
    ensures Get(r.out.state, "menu_id") == VStr(id)
    ensures h.menuId != Some(id) ==> r.handler.items == [] && r.handler.position == 0
    ensures h.menuId != Some(id) ==> Get(r.out.state, "menu_items") == VList([]) && Get(r.out.state, "menu_position") == VInt(0)
    ensures h.menuId == Some(id) ==> r.handler.items == h.items && r.handler.position == h.position
    ensures h.menuId == Some(id) ==> Get(r.out.state, "menu_items") == Get(st, "menu_items")
                                     && Get(r.out.state, "menu_position") == Get(st, "menu_position")
    ensures MenuMirrored(h, st) ==> MenuMirrored(r.handler, r.out.state)
    ensures MenuFrame(st, r.out)
    ensures r.out.events == Announced(st, {}, if h.menuId != Some(id) then MenuKeys else ["menu_id"], r.out.state)
  {
    if h.menuId != Some(id) then
      MenuWritten(st, VStr(id));
      var o := Writes(Outcome(st, []), MenuWrites(VStr(id)));
      MenuStep(MenuHandler(Some(id), [], 0), o)
    else
      var o1 := Then(Outcome(st, []), "menu_id", VStr(id));
      ThenAnnounced(st, [], [], Outcome(st, []), "menu_id", VStr(id));
      assert [] + ["menu_id"] == ["menu_id"];
      MenuStep(h.(menuId := Some(id)), o1)
  }

  /** update_menu_items. */
  function UpdateMenuItems(h: MenuHandler, st: DeviceState, items: seq<Value>): (r: MenuStep)
    ensures r.handler == h.(items := items)
    ensures Get(r.out.state, "menu_items") == VList(items)
    ensures MenuMirrored(h, st) ==> MenuMirrored(r.handler, r.out.state)
    ensures MenuFrame(st, r.out)
    ensures r.out.events == Announced(st, {}, ["menu_items"], r.out.state)
  {
    ThenAnnounced(st, [], [], Outcome(st, []), "menu_items", VList(items));
    assert [] + ["menu_items"] == ["menu_items"];
    MenuStep(h.(items := items), Then(Outcome(st, []), "menu_items", VList(items)))
  }

  /** set_menu_position. */
  function SetMenuPosition(h: MenuHandler, st: DeviceState, position: int): (r: MenuStep)
    ensures r.handler == h.(position := position)
    ensures Get(r.out.state, "menu_position") == VInt(position)
    ensures MenuMirrored(h, st) ==> MenuMirrored(r.handler, r.out.state)
    ensures MenuFrame(st, r.out)
    ensures r.out.events == Announced(st, {}, ["menu_position"], r.out.state)
  {
    ThenAnnounced(st, [], [], Outcome(st, []), "menu_position", VInt(position));
    assert [] + ["menu_position"] == ["menu_position"];
    MenuStep(h.(position := position), Then(Outcome(st, []), "menu_position", VInt(position)))
  }

  /** clear_menu: resets all three fields and leaves the device state mirroring them, whatever came before. */
  function ClearMenu(h: MenuHandler, st: DeviceState): (r: MenuStep)
    ensures r.handler == NewMenu
    ensures MenuMirrored(r.handler, r.out.state)
    ensures MenuFrame(st, r.out)
    ensures r.out.events == Announced(st, {}, MenuKeys, r.out.state)
  {
    MenuWritten(st, VNone);
    var o := Writes(Outcome(st, []), MenuWrites(VNone));
    MenuStep(NewMenu, o)
  }

  /** Clearing an already cleared and mirrored menu announces nothing. */
  lemma ClearMenuTwiceSilent(h: MenuHandler, st: DeviceState)
    ensures var r := ClearMenu(h, st);
            ClearMenu(r.handler, r.out.state).out == Outcome(r.out.state, [])
  {
  }

  // ---------------------------------------------------------------------
  // BarNotificationHandler
  // ---------------------------------------------------------------------

  /** The dict `update_bar` builds; numeric fields are Python floats. */
  datatype BarRecord = BarRecord(barType: string, text: string, value: real, minValue: real, maxValue: real, units: string)

  /** `update_bar`'s keyword defaults: value 0.0, min 0.0, max 100.0, no units. */
  function DefaultBar(barType: string, text: string): BarRecord {
    BarRecord(barType, text, 0.0, 0.0, 100.0, "")
  }

  function BarValue(b: BarRecord): Value {
    VDict(map["type" := VStr(b.barType), "text" := VStr(b.text), "value" := VReal(b.value),
              "min_value" := VReal(b.minValue), "max_value" := VReal(b.maxValue), "units" := VStr(b.units)])
  }

  /** The property name `f"bar_{bar_id}"`. */
  function BarKey(id: int): string {
    "bar_" + IntToString(id)
  }

  const LastBar := "last_bar"

  /** Distinct bar ids get distinct property names, none of them `last_bar`. */
  lemma BarKeyInjective(i: int, j: int)
    ensures BarKey(i) == BarKey(j) <==> i == j
    ensures BarKey(i) != LastBar
  {
    if BarKey(i) == BarKey(j) {
      assert IntToString(i) == BarKey(i)[4..] == BarKey(j)[4..] == IntToString(j);
      ParseIntRoundTrip(i);
      ParseIntRoundTrip(j);
    }
    assert BarKey(i)[0] != LastBar[0];
  }

  datatype BarHandler = BarHandler(bars: map<int, BarRecord>)

  const NewBars := BarHandler(map[])

  /** Every tracked bar is visible under its own property name. */
  predicate BarsMirrored(h: BarHandler, st: DeviceState) {
    forall id :: id in h.bars ==> Get(st, BarKey(id)) == BarValue(h.bars[id])
  }

  datatype BarStep = BarStep(handler: BarHandler, out: Outcome)

  /**
   * update_bar: identical data under the same id changes nothing; otherwise
   * the bar is stored and published under its own name and as `last_bar`.
   */
  function UpdateBar(h: BarHandler, st: DeviceState, id: int, b: BarRecord): (r: BarStep)
    ensures id in h.bars && h.bars[id] == b ==> r.handler == h && r.out == Outcome(st, [])
    ensures !(id in h.bars && h.bars[id] == b) ==>
              && r.handler.bars == h.bars[id := b]
              && Get(r.out.state, BarKey(id)) == BarValue(b)
              && Get(r.out.state, LastBar) == BarValue(b)
              && r.out.events == Announced(st, {}, [BarKey(id), LastBar], r.out.state)
    ensures forall n :: n != BarKey(id) && n != LastBar ==> Get(r.out.state, n) == Get(st, n)
    ensures r.out.state.listeners == st.listeners
    ensures BarsMirrored(h, st) ==> BarsMirrored(r.handler, r.out.state)
  {
    if id in h.bars && h.bars[id] == b then BarStep(h, Outcome(st, []))
    else
      BarKeyInjective(id, id);
      var o1 := Then(Outcome(st, []), BarKey(id), BarValue(b));
      var o := Then(o1, LastBar, BarValue(b));
      assert o.events == Announced(st, {}, [BarKey(id), LastBar], o.state) by {
        assert o1.events == [] + Announced(st, {}, [BarKey(id)], o1.state) by {
          ThenAnnounced(st, [], [], Outcome(st, []), BarKey(id), BarValue(b));
          assert [] + [BarKey(id)] == [BarKey(id)];
        }
        ThenAnnounced(st, [], [BarKey(id)], o1, LastBar, BarValue(b));
        assert [BarKey(id)] + [LastBar] == [BarKey(id), LastBar];
      }
      var h' := BarHandler(h.bars[id := b]);
      assert BarsMirrored(h, st) ==> BarsMirrored(h', o.state) by {
        if BarsMirrored(h, st) {
          forall k | k in h'.bars
            ensures Get(o.state, BarKey(k)) == BarValue(h'.bars[k])
          {
            BarKeyInjective(k, id);
          }
        }
      }
      BarStep(h', o)
  }

  /** get_bar. */
  function GetBar(h: BarHandler, id: int): (r: Option<BarRecord>)
    ensures r.Some? <==> id in h.bars
    ensures r.Some? ==> r.value == h.bars[id]
  {
    if id in h.bars then Some(h.bars[id]) else None
  }

  /** A set of ids that is not empty has a member to pick. */
  lemma NonEmptyHasMember(s: set<int>)
    requires s != {}
    ensures exists x :: x in s
  {
    if forall x :: x !in s {
      assert false;
    }
  }

  lemma {:induction false} MaxExists(s: set<int>)
    requires s != {}
    ensures exists m :: m in s && forall k :: k in s ==> k <= m
  {
    NonEmptyHasMember(s);
    var x :| x in s;
    if s - {x} == {} {
      assert s == {x};
    } else {
      MaxExists(s - {x});
      var m :| m in s - {x} && forall k :: k in s - {x} ==> k <= m;
      var top := if x <= m then m else x;
      forall k | k in s
        ensures k <= top
      {
        if k != x {
          assert k in s - {x};
        }
      }
      assert top in s;
    }
  }

  /** get_last_bar_notification: the bar with the largest id, or None when there are no bars. */
  function GetLastBar(h: BarHandler): (r: Option<BarRecord>)
    ensures r.None? <==> h.bars == map[]
    ensures r.Some? ==> exists m :: m in h.bars && r.value == h.bars[m] && forall k :: k in h.bars ==> k <= m
  {
    if |h.bars| == 0 then None
    else
      assert h.bars.Keys != {} by {
        assert |h.bars.Keys| == |h.bars| > 0;
      }
      MaxExists(h.bars.Keys);
      var m :| m in h.bars && forall k :: k in h.bars ==> k <= m;
      Some(h.bars[m])
  }

  /** The property names of a set of bar ids. */
  function BarKeys(ids: set<int>): set<string> {
    set id | id in ids :: BarKey(id)
  }

  /**
   * Deleting the present properties among `names` called each of their
   * listeners once with (name, old value, None), and made no other call.
   */
  predicate DeletionsAnnounced(st: DeviceState, names: set<string>, events: seq<Event>) {
    && (forall e :: e in events ==>
          && e.name in names && e.name in st.properties && e.listener in ListenersOf(st, e.name)
          && e == Changed(e.listener, e.name, st.properties[e.name], VNone))
    && (forall n, l :: n in names && n in st.properties && l in ListenersOf(st, n) ==>
          Changed(l, n, st.properties[n], VNone) in events)
  }

  /** One more `delete_property` of a name not yet deleted keeps the announcement complete. */
  lemma DeleteAnnounces(st: DeviceState, s: DeviceState, names: set<string>, n: string, events: seq<Event>)
    requires DeletionsAnnounced(st, names, events)
    requires n !in names && s.listeners == st.listeners
    requires n in s.properties <==> n in st.properties
    requires n in s.properties ==> s.properties[n] == st.properties[n]
    ensures DeletionsAnnounced(st, names + {n}, events + DeleteProperty(s, n).events)
    ensures Valid(st) && NoDup(events) ==> NoDup(events + DeleteProperty(s, n).events)
  {
    var added := DeleteProperty(s, n).events;
    assert ListenersOf(s, n) == ListenersOf(st, n);
    assert forall e :: e in added ==> e.name == n;
    if Valid(st) && NoDup(events) {
      assert Valid(s);
      NoDupAppend(events, added);
    }
  }

  /**
   * clear_bars with the corrected delete: forgets every bar and deletes each
   * bar's property and then `last_bar`, a missing property being nothing to delete.
   */
  method ClearBars(h: BarHandler, st: DeviceState) returns (h': BarHandler, out: Outcome)
    ensures h' == NewBars
    ensures out.state.properties == st.properties - BarKeys(h.bars.Keys) - {LastBar}
    ensures out.state.listeners == st.listeners
    ensures forall e :: e in out.events ==> e.after == VNone && (e.name in BarKeys(h.bars.Keys) || e.name == LastBar)
    ensures DeletionsAnnounced(st, BarKeys(h.bars.Keys) + {LastBar}, out.events)
    ensures Valid(st) ==> NoDup(out.events)
  {
    h' := NewBars;
    var s := st;
    var events: seq<Event> := [];
    var todo := h.bars.Keys;
    while todo != {}
      invariant todo <= h.bars.Keys
      invariant s.properties == st.properties - BarKeys(h.bars.Keys - todo)
      invariant s.listeners == st.listeners
      invariant DeletionsAnnounced(st, BarKeys(h.bars.Keys - todo), events)
      invariant Valid(st) ==> NoDup(events)
      decreases |todo|
    {
      NonEmptyHasMember(todo);
      var id :| id in todo;
      assert BarKey(id) !in BarKeys(h.bars.Keys - todo) by {
        forall j | j in h.bars.Keys - todo
          ensures BarKey(j) != BarKey(id)
        {
          BarKeyInjective(j, id);
        }
      }
      DeleteAnnounces(st, s, BarKeys(h.bars.Keys - todo), BarKey(id), events);
      var u := DeleteProperty(s, BarKey(id));
      assert BarKeys(h.bars.Keys - (todo - {id})) == BarKeys(h.bars.Keys - todo) + {BarKey(id)};
      s := u.state;
      events := events + u.events;
      todo := todo - {id};
    }
    assert h.bars.Keys - todo == h.bars.Keys;
    assert LastBar !in BarKeys(h.bars.Keys) by {
      forall j | j in h.bars.Keys
        ensures BarKey(j) != LastBar
      {
        BarKeyInjective(j, j);
      }
    }
    DeleteAnnounces(st, s, BarKeys(h.bars.Keys), LastBar, events);
    var u := DeleteProperty(s, LastBar);
    out := Outcome(u.state, events + u.events);
  }

  /**
   * clear_bars as written: the uncorrected delete raises for the first
   * missing property, so the call fails exactly when some tracked bar's
   * property or `last_bar` is absent. The bars are forgotten either way, and
   * the deletions made before the raise stay made: `out` is the state and
   * call log at the point the call returned or raised.
   */
  method ClearBarsAsWritten(h: BarHandler, st: DeviceState) returns (h': BarHandler, out: Outcome, err: Option<string>)
    ensures h' == NewBars
    ensures err.Some? <==> (exists id :: id in h.bars && BarKey(id) !in st.properties) || LastBar !in st.properties
    ensures err.None? ==> out.state.properties == st.properties - BarKeys(h.bars.Keys) - {LastBar}
    ensures err.None? ==> DeletionsAnnounced(st, BarKeys(h.bars.Keys) + {LastBar}, out.events)
    ensures out.state.listeners == st.listeners
    ensures forall k :: k in out.state.properties ==> k in st.properties && out.state.properties[k] == st.properties[k]
    ensures forall k :: k in st.properties && k !in out.state.properties ==>
              k in BarKeys(h.bars.Keys) || (err.None? && k == LastBar)
    ensures err.Some? && (forall id :: id in h.bars ==> BarKey(id) in st.properties) ==>
              out.state.properties == st.properties - BarKeys(h.bars.Keys)
    ensures DeletionsAnnounced(st, st.properties.Keys - out.state.properties.Keys, out.events)
  {
    h' := NewBars;
    var s := st;
    var events: seq<Event> := [];
    var todo := h.bars.Keys;
    while todo != {}
      invariant todo <= h.bars.Keys
      invariant s.properties == st.properties - BarKeys(h.bars.Keys - todo)
      invariant s.listeners == st.listeners
      invariant forall id :: id in h.bars.Keys - todo ==> BarKey(id) in st.properties
      invariant DeletionsAnnounced(st, BarKeys(h.bars.Keys - todo), events)
      decreases |todo|
    {
      NonEmptyHasMember(todo);
      var id :| id in todo;
      assert BarKey(id) !in BarKeys(h.bars.Keys - todo) by {
        forall j | j in h.bars.Keys - todo
          ensures BarKey(j) != BarKey(id)
        {
          BarKeyInjective(j, id);
        }
      }
      match DeletePropertyAsWritten(s, BarKey(id)) {
        case Err(e) =>
          assert BarKey(id) !in st.properties;
          out, err := Outcome(s, events), Some(e);
          return;
        case Ok(u) =>
          DeleteAnnounces(st, s, BarKeys(h.bars.Keys - todo), BarKey(id), events);
          assert BarKeys(h.bars.Keys - (todo - {id})) == BarKeys(h.bars.Keys - todo) + {BarKey(id)};
          s := u.state;
          events := events + u.events;
          todo := todo - {id};
      }
    }
    assert h.bars.Keys - todo == h.bars.Keys;
    assert LastBar !in BarKeys(h.bars.Keys) by {
      forall j | j in h.bars.Keys
        ensures BarKey(j) != LastBar
      {
        BarKeyInjective(j, j);
      }
    }
    match DeletePropertyAsWritten(s, LastBar) {
      case Err(e) =>
        out, err := Outcome(s, events), Some(e);
      case Ok(u) =>
        DeleteAnnounces(st, s, BarKeys(h.bars.Keys), LastBar, events);
        out, err := Outcome(u.state, events + u.events), None;
    }
  }

  // ---------------------------------------------------------------------
  // DeviceConfigState: supported features
  // ---------------------------------------------------------------------

  datatype ConfigState = ConfigState(deviceInfo: map<string, Value>, features: set<string>)

  /** The property name `f"supported_feature_{feature}"`. */
  function FeatureKey(f: string): string {
    "supported_feature_" + f
  }

  lemma FeatureKeyInjective(f: string, g: string)
    ensures FeatureKey(f) == FeatureKey(g) <==> f == g
  {
    if FeatureKey(f) == FeatureKey(g) {
      assert f == FeatureKey(f)[18..] == FeatureKey(g)[18..] == g;
    }
  }

  datatype ConfigStep = ConfigStep(config: ConfigState, out: Outcome)

  /** set_supported_feature: adds or removes the feature and publishes the flag. */
  function SetSupportedFeature(c: ConfigState, o: Outcome, f: string, supported: bool): (r: ConfigStep)
    ensures r.config.features == if supported then c.features + {f} else c.features - {f}
    ensures r.config.deviceInfo == c.deviceInfo
    ensures Get(r.out.state, FeatureKey(f)) == VBool(supported)
    ensures forall n :: n != FeatureKey(f) ==> Get(r.out.state, n) == Get(o.state, n)
    ensures r.out.state.listeners == o.state.listeners
    ensures r.out.events == o.events + Announced(o.state, {}, [FeatureKey(f)], r.out.state)
  {
    var fs := if supported then c.features + {f} else c.features - {f};
    ThenAnnounced(o.state, o.events, [], o, FeatureKey(f), VBool(supported));
    assert [] + [FeatureKey(f)] == [FeatureKey(f)];
    ConfigStep(c.(features := fs), Then(o, FeatureKey(f), VBool(supported)))
  }

  /** The flag names of a feature list, in its order. */
  function FeatureKeys(fs: seq<string>): (r: seq<string>)
    ensures |r| == |fs|
    ensures forall i :: 0 <= i < |fs| ==> r[i] == FeatureKey(fs[i])
  {
    if |fs| == 0 then [] else [FeatureKey(fs[0])] + FeatureKeys(fs[1..])
  }

  /** is_feature_supported after set_supported_feature answers the flag just set. */
  lemma SetThenSupported(c: ConfigState, o: Outcome, f: string, supported: bool)
    ensures f in SetSupportedFeature(c, o, f, supported).config.features <==> supported
  {
  }

  /** `str.lower()` on ASCII letters; other characters are kept. */
  function Lower(s: string): (r: string)
    ensures |r| == |s|
    ensures forall i :: 0 <= i < |s| ==> r[i] == if 'A' <= s[i] <= 'Z' then (s[i] as int + 32) as char else s[i]
  {
    if |s| == 0 then ""
    else [if 'A' <= s[0] <= 'Z' then (s[0] as int + 32) as char else s[0]] + Lower(s[1..])
  }

  predicate OccursAt(s: string, part: string, i: int) {
    0 <= i && i + |part| <= |s| && s[i..i + |part|] == part
  }

  /** Python's `part in s` on strings. */
  predicate Contains(s: string, part: string) {
    exists i :: 0 <= i <= |s| - |part| && OccursAt(s, part, i)
  }

  const BasicFeatures: seq<string> := ["power", "volume", "mute", "input"]
  const AdvancedFeatures: seq<string> := ["zone2", "menu", "audio_mode"]

  /**
   * `device_info.get("model", "").lower()`: a missing model reads as "", a
   * model that is not a string has no `lower` and raises AttributeError.
   */
  function ModelOf(info: map<string, Value>): (r: Result<string, string>)
    ensures "model" !in info ==> r == Ok("")
    ensures "model" in info && info["model"].VStr? ==> r == Ok(Lower(info["model"].s))
    ensures r.Err? <==> "model" in info && !info["model"].VStr?
  {
    if "model" !in info then Ok("")
    else match info["model"]
      case VStr(m) => Ok(Lower(m))
      case _ => Err("AttributeError")
  }

  /** The features enabled for a lower-cased model name. */
  function FeaturesFor(model: string): (r: seq<string>)
    ensures forall f :: f in r <==> f in BasicFeatures || (Contains(model, "xmc") && f in AdvancedFeatures)
  {
    BasicFeatures + if Contains(model, "xmc") then AdvancedFeatures else []
  }

  /** `set_supported_feature(f, True)` for each feature in order. */
  function EnableAll(c: ConfigState, o: Outcome, fs: seq<string>): (r: ConfigStep)
    ensures r.config.features == c.features + set f | f in fs
    ensures r.config.deviceInfo == c.deviceInfo
    ensures forall f :: f in fs ==> Get(r.out.state, FeatureKey(f)) == VBool(true)
    ensures forall n :: (forall f :: f in fs ==> n != FeatureKey(f)) ==> Get(r.out.state, n) == Get(o.state, n)
    ensures r.out.state.listeners == o.state.listeners
    ensures r.out.events == o.events + Announced(o.state, {}, FeatureKeys(fs), r.out.state)
    decreases |fs|
  {
    if |fs| == 0 then ConfigStep(c, o)
    else
      var s := SetSupportedFeature(c, o, fs[0], true);
      var r := EnableAll(s.config, s.out, fs[1..]);
      assert forall f :: f in fs <==> f == fs[0] || f in fs[1..];
      assert r.config.features == c.features + set f | f in fs by {
        assert (set f | f in fs) == {fs[0]} + set f | f in fs[1..];
      }
      assert r.out.events == o.events + Announced(o.state, {}, FeatureKeys(fs), r.out.state) by {
        assert Get(r.out.state, FeatureKey(fs[0])) == VBool(true) by {
          if fs[0] !in fs[1..] {
            forall f | f in fs[1..]
              ensures FeatureKey(fs[0]) != FeatureKey(f)
            {
              FeatureKeyInjective(fs[0], f);
            }
          }
        }
        EnableAllAnnounced(o, s.out, r.out, fs);
      }
      r
  }

  /**
   * The inductive step of EnableAll's announcements: the first flag's calls,
   * then the rest judged from the state after the first write.
   */
  lemma EnableAllAnnounced(o: Outcome, s: Outcome, r: Outcome, fs: seq<string>)
    requires |fs| > 0
    requires s.state.listeners == o.state.listeners
    requires s.events == o.events + Announced(o.state, {}, [FeatureKey(fs[0])], s.state)
    requires r.events == s.events + Announced(s.state, {}, FeatureKeys(fs[1..]), r.state)
    requires forall n :: n in FeatureKeys(fs[1..]) && n != FeatureKey(fs[0]) ==> Get(s.state, n) == Get(o.state, n)
    requires Get(s.state, FeatureKey(fs[0])) == VBool(true) == Get(r.state, FeatureKey(fs[0]))
    ensures r.events == o.events + Announced(o.state, {}, FeatureKeys(fs), r.state)
  {
    var k := FeatureKey(fs[0]);
    var rest := FeatureKeys(fs[1..]);
    AnnouncedCons(o.state, s.state, r.state, k, rest);
    assert FeatureKeys(fs) == [k] + rest;
    AppendAssoc(o.events, Announced(o.state, {}, [k], s.state), Announced(s.state, {}, rest, r.state));
  }

  /**
   * How a call on the config state ends: it returns, raises after the effects
   * made so far, or waits forever for a lock its own caller already holds
   * (`asyncio.Lock` is not reentrant).
   */
  datatype Run = Returned(step: ConfigStep) | Raised(step: ConfigStep, error: string) | Deadlocked

  /**
   * `set_supported_feature(f, True)` for each feature in order, made by a
   * caller that does (`held`) or does not already hold the config lock: each
   * call first takes that lock.
   */
  function EnableAllHolding(held: bool, c: ConfigState, o: Outcome, fs: seq<string>): (r: Run)
    ensures r.Deadlocked? <==> held && |fs| > 0
    ensures !held ==> r == Returned(EnableAll(c, o, fs))
    decreases |fs|
  {
    if |fs| == 0 then Returned(ConfigStep(c, o))
    else if held then Deadlocked
    else
      var s := SetSupportedFeature(c, o, fs[0], true);
      EnableAllHolding(held, s.config, s.out, fs[1..])
  }

  /**
   * _update_supported_features: power, volume, mute and input always, plus
   * zone2, menu and audio_mode when the lower-cased model contains "xmc". A
   * model that is not a string raises before any feature is touched.
   */
  function UpdateSupportedFeatures(held: bool, c: ConfigState, o: Outcome): (r: Run)
    ensures r.Raised? <==> ModelOf(c.deviceInfo).Err?
    ensures r.Raised? ==> r.step == ConfigStep(c, o)
    ensures r.Deadlocked? <==> held && ModelOf(c.deviceInfo).Ok?
    ensures r.Returned? ==> r.step.config.deviceInfo == c.deviceInfo
    ensures r.Returned? ==> forall f :: f in r.step.config.features <==>
                              f in c.features || f in FeaturesFor(ModelOf(c.deviceInfo).value)
    ensures r.Returned? ==> forall f :: f in FeaturesFor(ModelOf(c.deviceInfo).value) ==>
                              Get(r.step.out.state, FeatureKey(f)) == VBool(true)
    ensures r.Returned? ==> forall n :: (forall f :: f in FeaturesFor(ModelOf(c.deviceInfo).value) ==> n != FeatureKey(f))
                              ==> Get(r.step.out.state, n) == Get(o.state, n)
    ensures r.Returned? ==> r.step.out.state.listeners == o.state.listeners
    ensures r.Returned? ==> r.step.out.events
                            == o.events + Announced(o.state, {}, FeatureKeys(FeaturesFor(ModelOf(c.deviceInfo).value)), r.step.out.state)
  {
    match ModelOf(c.deviceInfo)
    case Err(e) => Raised(ConfigStep(c, o), e)
    case Ok(model) => EnableAllHolding(held, c, o, FeaturesFor(model))
  }

  /** `DeviceConfigState(state)`: no device info, no features. */
  const NewConfig := ConfigState(map[], {})

  /** The property name `f"device_info_{key}"`. */
  function InfoKey(k: string): string {
    "device_info_" + k
  }

  lemma InfoKeyInjective(k: string, l: string)
    ensures InfoKey(k) == InfoKey(l) <==> k == l
  {
    if InfoKey(k) == InfoKey(l) {
      assert k == InfoKey(k)[12..] == InfoKey(l)[12..] == l;
    }
  }

  /** Device-info and feature properties never share a name. */
  lemma InfoKeyNotFeatureKey(k: string, f: string)
    ensures InfoKey(k) != FeatureKey(f)
  {
    assert InfoKey(k)[0] != FeatureKey(f)[0];
  }

  /** The items of a dict, in its insertion order: each key once. */
  predicate DistinctKeys(items: seq<(string, Value)>) {
    forall i, j :: 0 <= i < j < |items| ==> items[i].0 != items[j].0
  }

  /** `dict.update` with the items, in order. */
  function UpdateWith(m: map<string, Value>, items: seq<(string, Value)>): (r: map<string, Value>)
    requires DistinctKeys(items)
    ensures forall k :: k in r <==> k in m || HasKey(items, k)
    ensures forall i :: 0 <= i < |items| ==> items[i].0 in r && r[items[i].0] == items[i].1
    ensures forall k :: k in m && (forall i :: 0 <= i < |items| ==> items[i].0 != k) ==> r[k] == m[k]
    decreases |items|
  {
    if |items| == 0 then m
    else
      var r := UpdateWith(m[items[0].0 := items[0].1], items[1..]);
      assert forall i :: 1 <= i < |items| ==> items[1..][i - 1] == items[i];
      KeysCons(items);
      r
  }

  /** Some item has key `k`. */
  predicate HasKey(items: seq<(string, Value)>, k: string) {
    exists i :: 0 <= i < |items| && items[i].0 == k
  }

  /** A key occurs in a non-empty run of items when it is the first one's or occurs after it. */
  lemma KeysCons(items: seq<(string, Value)>)
    requires |items| > 0
    ensures forall k :: HasKey(items, k) <==> k == items[0].0 || HasKey(items[1..], k)
  {
    forall k | HasKey(items, k)
      ensures k == items[0].0 || HasKey(items[1..], k)
    {
      var i :| 0 <= i < |items| && items[i].0 == k;
      if i > 0 {
        assert items[1..][i - 1].0 == k;
      }
    }
    forall k | HasKey(items[1..], k)
      ensures HasKey(items, k)
    {
      var i :| 0 <= i < |items| - 1 && items[1..][i].0 == k;
      assert items[i + 1].0 == k;
    }
  }

  /** The property names of a dict's items, in its order. */
  function InfoKeys(items: seq<(string, Value)>): (r: seq<string>)
    ensures |r| == |items|
    ensures forall i :: 0 <= i < |items| ==> r[i] == InfoKey(items[i].0)
  {
    if |items| == 0 then [] else [InfoKey(items[0].0)] + InfoKeys(items[1..])
  }

  /** The writes `(f"device_info_{key}", value)` for a dict's items, in its order. */
  function InfoWrites(items: seq<(string, Value)>): (ws: seq<(string, Value)>)
    requires DistinctKeys(items)
    ensures |ws| == |items|
    ensures forall i :: 0 <= i < |items| ==> ws[i] == (InfoKey(items[i].0), items[i].1)
    ensures DistinctKeys(ws)
    ensures Names(ws) == InfoKeys(items)
  {
    var ws := seq(|items|, i requires 0 <= i < |items| => (InfoKey(items[i].0), items[i].1));
    forall i, j | 0 <= i < j < |ws|
      ensures ws[i].0 != ws[j].0
    {
      InfoKeyInjective(items[i].0, items[j].0);
    }
    ws
  }

  /** `set_property(f"device_info_{key}", value)` for each item, in order. */
  function PublishInfo(o: Outcome, items: seq<(string, Value)>): (r: Outcome)
    requires DistinctKeys(items)
    ensures forall i :: 0 <= i < |items| ==> Get(r.state, InfoKey(items[i].0)) == items[i].1
    ensures forall n :: (forall i :: 0 <= i < |items| ==> n != InfoKey(items[i].0)) ==> Get(r.state, n) == Get(o.state, n)
    ensures r.state.listeners == o.state.listeners
    ensures r.events == o.events + Announced(o.state, {}, InfoKeys(items), r.state)
  {
    var ws := InfoWrites(items);
    var r := Writes(o, ws);
    assert forall i :: 0 <= i < |items| ==> ws[i].0 == InfoKey(items[i].0) && ws[i].1 == items[i].1;
    assert forall n :: (forall i :: 0 <= i < |items| ==> n != InfoKey(items[i].0)) ==> n !in Names(ws) by {
      forall n | n in Names(ws)
        ensures exists i :: 0 <= i < |items| && n == InfoKey(items[i].0)
      {
        var i :| 0 <= i < |ws| && Names(ws)[i] == n;
      }
    }
    r
  }

  /** The part of update_device_info before the features: merge the info and publish each item. */
  function MergeInfo(c: ConfigState, st: DeviceState, items: seq<(string, Value)>): ConfigStep
    requires DistinctKeys(items)
  {
    ConfigStep(c.(deviceInfo := UpdateWith(c.deviceInfo, items)), PublishInfo(Outcome(st, []), items))
  }

  /**
   * update_device_info as written: _update_supported_features runs inside
   * `async with self._lock`, and its first set_supported_feature waits for
   * that same lock. The call never returns; it only ends by raising, when the
   * merged model is not a string.
   */
  function UpdateDeviceInfoAsWritten(c: ConfigState, st: DeviceState, items: seq<(string, Value)>): (r: Run)
    requires DistinctKeys(items)
    ensures !r.Returned?
    ensures r.Deadlocked? <==> ModelOf(UpdateWith(c.deviceInfo, items)).Ok?
  {
    var m := MergeInfo(c, st, items);
    UpdateSupportedFeatures(true, m.config, m.out)
  }

  /**
   * update_device_info with the features updated once the lock is no longer
   * held: the info is merged, every item is published as
   * `device_info_<key>`, and the features follow the merged model.
   */
  function UpdateDeviceInfo(c: ConfigState, st: DeviceState, items: seq<(string, Value)>): (r: Run)
    requires DistinctKeys(items)
    ensures !r.Deadlocked?
    ensures r.Raised? <==> ModelOf(UpdateWith(c.deviceInfo, items)).Err?
    ensures r.step.config.deviceInfo == UpdateWith(c.deviceInfo, items)
    ensures forall i :: 0 <= i < |items| ==> Get(r.step.out.state, InfoKey(items[i].0)) == items[i].1
    ensures r.Returned? ==> forall f :: f in r.step.config.features <==>
                              f in c.features || f in FeaturesFor(ModelOf(UpdateWith(c.deviceInfo, items)).value)
    ensures r.Returned? ==> forall f :: f in FeaturesFor(ModelOf(UpdateWith(c.deviceInfo, items)).value) ==>
                              Get(r.step.out.state, FeatureKey(f)) == VBool(true)
    ensures r.step.out.state.listeners == st.listeners
    ensures r.step.out.events
            == Announced(st, {}, InfoKeys(items) + (if r.Returned? then FeatureKeys(FeaturesFor(ModelOf(UpdateWith(c.deviceInfo, items)).value)) else []),
                         r.step.out.state)
  {
    var m := MergeInfo(c, st, items);
    var r := UpdateSupportedFeatures(false, m.config, m.out);
    forall i, f | 0 <= i < |items|
      ensures InfoKey(items[i].0) != FeatureKey(f)
    {
      InfoKeyNotFeatureKey(items[i].0, f);
    }
    InfoThenFeaturesAnnounced(c, st, items);
    r
  }

  /**
   * The listener calls of update_device_info: those of the published info,
   * then, when the features were set, those of the feature flags.
   */
  lemma InfoThenFeaturesAnnounced(c: ConfigState, st: DeviceState, items: seq<(string, Value)>)
    requires DistinctKeys(items)
    ensures var m := MergeInfo(c, st, items);
            var r := UpdateSupportedFeatures(false, m.config, m.out);
            r.step.out.events
            == Announced(st, {}, InfoKeys(items) + (if r.Returned? then FeatureKeys(FeaturesFor(ModelOf(UpdateWith(c.deviceInfo, items)).value)) else []),
                         r.step.out.state)
  {
    var m := MergeInfo(c, st, items);
    var r := UpdateSupportedFeatures(false, m.config, m.out);
    var iks := InfoKeys(items);
    var a1 := Announced(st, {}, iks, m.out.state);
    assert m.out.events == a1 by {
      assert m.out.events == [] + a1;
    }
    if r.Returned? {
      var fs := FeaturesFor(ModelOf(m.config.deviceInfo).value);
      var fks := FeatureKeys(fs);
      var a2 := Announced(m.out.state, {}, fks, r.step.out.state);
      assert r.step.out.events == a1 + a2;
      assert a1 + a2 == Announced(st, {}, iks + fks, r.step.out.state) by {
        InfoKeysUntouched(items, fs, m.out.state, r.step.out.state);
        FeatureKeysUntouched(items, fs, st, m.out.state);
        AnnouncedConcat(st, m.out.state, r.step.out.state, iks, fks);
      }
    } else {
      assert iks + [] == iks;
    }
  }

  /** Setting feature flags leaves every device-info property as it was. */
  lemma InfoKeysUntouched(items: seq<(string, Value)>, fs: seq<string>, m: DeviceState, r: DeviceState)
    requires forall n :: (forall f :: f in fs ==> n != FeatureKey(f)) ==> Get(r, n) == Get(m, n)
    ensures forall n :: n in InfoKeys(items) ==> Get(m, n) == Get(r, n)
  {
    var iks := InfoKeys(items);
    forall n | n in iks
      ensures Get(m, n) == Get(r, n)
    {
      var i :| 0 <= i < |items| && iks[i] == n;
      forall f | f in fs
        ensures n != FeatureKey(f)
      {
        InfoKeyNotFeatureKey(items[i].0, f);
      }
    }
  }

  /** Publishing the info leaves every other property, the feature flags among them, as it was. */
  lemma FeatureKeysUntouched(items: seq<(string, Value)>, fs: seq<string>, st: DeviceState, m: DeviceState)
    requires forall n :: (forall i :: 0 <= i < |items| ==> n != InfoKey(items[i].0)) ==> Get(m, n) == Get(st, n)
    ensures forall n :: n in FeatureKeys(fs) && n !in InfoKeys(items) ==> Get(m, n) == Get(st, n)
  {
    var iks := InfoKeys(items);
    forall n | n in FeatureKeys(fs) && n !in iks
      ensures Get(m, n) == Get(st, n)
    {
      forall i | 0 <= i < |items|
        ensures n != InfoKey(items[i].0)
      {
        assert iks[i] == InfoKey(items[i].0);
      }
    }
  }

  /**
   * The counterexample: reporting an XMC-2 model to a fresh config state
   * never returns as written; the corrected call enables zone2.
   */
  lemma DeviceInfoDeadlocks()
    ensures UpdateDeviceInfoAsWritten(NewConfig, Fresh, [("model", VStr("XMC-2"))]).Deadlocked?
    ensures var r := UpdateDeviceInfo(NewConfig, Fresh, [("model", VStr("XMC-2"))]);
            r.Returned? && "zone2" in r.step.config.features
  {
    var items := [("model", VStr("XMC-2"))];
    assert UpdateWith(map[], items)["model"] == VStr("XMC-2");
    XmcInAnyCase();
  }

  /** The model test ignores letter case: "XMC-2" counts as an XMC model. */
  lemma XmcInAnyCase()
    ensures Contains(ModelOf(map["model" := VStr("XMC-2")]).value, "xmc")
    ensures "zone2" in FeaturesFor(ModelOf(map["model" := VStr("XMC-2")]).value)
  {
    var model := ModelOf(map["model" := VStr("XMC-2")]).value;
    assert model[0] == 'x' && model[1] == 'm' && model[2] == 'c';
    assert OccursAt(model, "xmc", 0);
  }
}
