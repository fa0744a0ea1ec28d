/**
 * Notification parsing and routing (pymotivaxmc2/notifier.py): the filter
 * predicate, the listener registry and its at-most-once delivery, the parser
 * for the three notification roots, and the dispatcher that joins them.
 * Listener callbacks are opaque handles; "calling a listener" is an entry in
 * the returned delivery log.
 */
module Notifier {
  import opened Wrappers
  import opened Xml

  /** The kind a notification carries (emotiva_types.NotificationType). */
  datatype Kind = PropertyKind | MenuKind | BarKind | KeepAliveKind | GoodbyeKind

  /** The kinds a filter is written in (notifier.NotificationType). */
  datatype FilterType = Standard | Menu | Bar | KeepAlive | Goodbye

  /** The translation table a filter applies to its listed types. */
  function KindOf(t: FilterType): Kind {
    match t
    case Standard => PropertyKind
    case Menu => MenuKind
    case Bar => BarKind
    case KeepAlive => KeepAliveKind
    case Goodbye => GoodbyeKind
  }

  /** The inverse of `KindOf`, used to state what a type filter accepts. */
  function FilterTypeOf(k: Kind): (t: FilterType)
    ensures KindOf(t) == k
  {
    match k
    case PropertyKind => Standard
    case MenuKind => Menu
    case BarKind => Bar
    case KeepAliveKind => KeepAlive
    case GoodbyeKind => Goodbye
  }

  datatype MenuRow = MenuRow(number: string, columns: seq<Attrs>)

  datatype BarEntry =
    | BarOff
    | BigText(text: string)
    | BarLevel(text: string, value: string, min: string, max: string, units: string)

  /** The `data` of a notification; `NoData` is Python's `None`. */
  datatype Payload =
    | NoData
    | PropertyData(sequence: string, properties: map<string, Attrs>)
    | MenuData(sequence: string, rows: seq<MenuRow>)
    | BarData(sequence: string, bars: seq<BarEntry>)

  datatype Notification = Notification(deviceIp: string, kind: Kind, data: Payload)

  /** An empty list behaves exactly like an omitted (None) criterion. */
  datatype Filter = Filter(types: seq<FilterType>, propertyNames: seq<string>, deviceIps: seq<string>)

  lemma KindOfInjective(t: FilterType)
    ensures FilterTypeOf(KindOf(t)) == t
  {
  }

  function KindsOf(ts: seq<FilterType>): (r: seq<Kind>)
    ensures forall k :: k in r <==> FilterTypeOf(k) in ts
  {
    var r := seq(|ts|, i requires 0 <= i < |ts| => KindOf(ts[i]));
    assert forall i :: 0 <= i < |ts| ==> r[i] == KindOf(ts[i]);
    forall k | k in r
      ensures FilterTypeOf(k) in ts
    {
      var i :| 0 <= i < |r| && r[i] == k;
      KindOfInjective(ts[i]);
    }
    forall k | FilterTypeOf(k) in ts
      ensures k in r
    {
      var i :| 0 <= i < |ts| && ts[i] == FilterTypeOf(k);
      assert r[i] == k;
    }
    r
  }

  /** The property-name criterion applies only to PROPERTY notifications that carry a properties dict. */
  predicate NamesApply(f: Filter, n: Notification) {
    |f.propertyNames| > 0 && n.kind == PropertyKind && n.data.PropertyData?
  }

  /** NotificationFilter.matches. */
  function Matches(f: Filter, n: Notification): (r: bool)
    ensures |f.deviceIps| > 0 && n.deviceIp !in f.deviceIps ==> !r
    ensures |f.types| > 0 && FilterTypeOf(n.kind) !in f.types ==> !r
    ensures f == Filter([], [], []) ==> r
    ensures (|f.deviceIps| == 0 || n.deviceIp in f.deviceIps)
         && (|f.types| == 0 || FilterTypeOf(n.kind) in f.types)
        ==> (r <==> (NamesApply(f, n) ==> exists p :: p in f.propertyNames && p in n.data.properties))
  {
    if |f.deviceIps| > 0 && n.deviceIp !in f.deviceIps then false
    else if |f.types| > 0 && n.kind !in KindsOf(f.types) then false
    else if NamesApply(f, n) then
      exists i :: 0 <= i < |f.propertyNames| && f.propertyNames[i] in n.data.properties
    else true
  }

  type ListenerId = nat

  /**
   * NotificationRegistry: listener -> filters, plus the insertion order in
   * which the Python dict iterates its listeners.
   */
  datatype Registry = Registry(order: seq<ListenerId>, filters: map<ListenerId, seq<Filter>>)

  ghost predicate Valid(reg: Registry) {
    && NoDup(reg.order)
    && (forall l :: l in reg.order <==> l in reg.filters)
  }

  function EmptyRegistry(): (r: Registry)
    ensures Valid(r)
  {
    Registry([], map[])
  }

  function FilterList(f: Option<Filter>): seq<Filter> {
    match f
    case Some(x) => [x]
    case None => []
  }

  /** register_listener. */
  function Register(reg: Registry, l: ListenerId, f: Option<Filter>): (r: Registry)
    requires Valid(reg)
    ensures Valid(r)
    ensures r.filters.Keys == reg.filters.Keys + {l}
    ensures r.filters[l] == (if l in reg.filters then reg.filters[l] else []) + FilterList(f)
    ensures forall m :: m in reg.filters && m != l ==> r.filters[m] == reg.filters[m]
    ensures l in reg.filters ==> r.order == reg.order
  {
    if l in reg.filters then
      Registry(reg.order, reg.filters[l := reg.filters[l] + FilterList(f)])
    else
      Registry(reg.order + [l], reg.filters[l := FilterList(f)])
  }

  /** unregister_listener. */
  function Unregister(reg: Registry, l: ListenerId): (r: Registry)
    requires Valid(reg)
    ensures Valid(r)
    ensures r.filters.Keys == reg.filters.Keys - {l}
    ensures forall m :: m in r.filters ==> r.filters[m] == reg.filters[m]
  {
    Registry(Without(reg.order, l), reg.filters - {l})
  }

  /** Whether a listener with these filters is called: no filters, or some filter matches. */
  predicate Wants(fs: seq<Filter>, n: Notification) {
    |fs| == 0 || exists i :: 0 <= i < |fs| && Matches(fs[i], n)
  }

  function Deliveries(order: seq<ListenerId>, filters: map<ListenerId, seq<Filter>>, n: Notification): (r: seq<ListenerId>)
    requires forall l :: l in order ==> l in filters
    ensures forall l :: l in r <==> l in order && Wants(filters[l], n)
    ensures NoDup(order) ==> NoDup(r)
  {
    if |order| == 0 then []
    else
      var rest := Deliveries(order[1..], filters, n);
      if Wants(filters[order[0]], n) then
        (if NoDup(order) then
           assert NoDup(order[1..]) && order[0] !in order[1..];
           NoDupCons(order[0], rest);
           [order[0]] + rest
         else [order[0]] + rest)
      else rest
  }

  /**
   * notify: the listeners called. Every registered listener
   * that wants the notification is called exactly once; no other is called.
   */
  function Notify(reg: Registry, n: Notification): (r: seq<ListenerId>)
    requires Valid(reg)
    ensures forall l :: l in r <==> l in reg.filters && Wants(reg.filters[l], n)
    ensures NoDup(r)
  {
    Deliveries(reg.order, reg.filters, n)
  }

  // ---------------------------------------------------------------------
  // NotificationParser.parse_notification
  // ---------------------------------------------------------------------

  /** A keepalive/goodbye marker: the bare tag, or a `property` child of that name. */
  predicate IsMarker(c: Element, name: string) {
    (c.tag == "property" && "name" in c.attrs && c.attrs["name"] == name) || c.tag == name
  }

  predicate IsSpecial(c: Element) {
    IsMarker(c, "keepalive") || IsMarker(c, "goodbye")
  }

  function MarkerKind(c: Element): Kind
    requires IsSpecial(c)
  {
    if IsMarker(c, "keepalive") then KeepAliveKind else GoodbyeKind
  }

  /** The kind decided by the first keepalive/goodbye child, if any. */
  function SpecialKind(cs: seq<Element>): (r: Option<Kind>)
    ensures r.None? <==> forall i :: 0 <= i < |cs| ==> !IsSpecial(cs[i])
    ensures r.Some? ==> exists i :: 0 <= i < |cs| && IsSpecial(cs[i]) && r.value == MarkerKind(cs[i])
                          && forall j :: 0 <= j < i ==> !IsSpecial(cs[j])
  {
    if |cs| == 0 then None
    else if IsMarker(cs[0], "keepalive") then Some(KeepAliveKind)
    else if IsMarker(cs[0], "goodbye") then Some(GoodbyeKind)
    else
      var r := SpecialKind(cs[1..]);
      if r.Some? then
        ghost var i :| 0 <= i < |cs| - 1 && IsSpecial(cs[1..][i]) && r.value == MarkerKind(cs[1..][i])
                       && forall j :: 0 <= j < i ==> !IsSpecial(cs[1..][j]);
        assert IsSpecial(cs[i + 1]) && forall j :: 0 <= j < i + 1 ==> !IsSpecial(cs[j]);
        r
      else r
  }

  /**
   * The key a child contributes to the properties map: the `name` attribute
   * of a `property` child (none when it is missing or empty), else the tag.
   */
  function PropertyKey(c: Element): Option<string> {
    if c.tag == "property" then
      (if Attr(c, "name", "") != "" then Some(c.attrs["name"]) else None)
    else Some(c.tag)
  }

  /** No later child contributes the same key as child i. */
  ghost predicate LastWithKey(cs: seq<Element>, i: int)
    requires 0 <= i < |cs|
  {
    forall j :: i < j < |cs| ==> PropertyKey(cs[j]) != PropertyKey(cs[i])
  }

  /** The properties map of a PROPERTY notification: each keyed child's attributes, the last one winning. */
  function CollectProperties(cs: seq<Element>): map<string, Attrs> {
    if |cs| == 0 then map[]
    else
      var m := CollectProperties(cs[..|cs| - 1]);
      var c := cs[|cs| - 1];
      match PropertyKey(c)
      case Some(k) => m[k := c.attrs]
      case None => m
  }

  /**
   * The keys of the properties map are exactly the names of the named
   * `property` children and the tags of the other children.
   */
  lemma {:induction false} CollectPropertiesKeys(cs: seq<Element>)
    ensures forall k :: k in CollectProperties(cs) <==> exists i :: 0 <= i < |cs| && PropertyKey(cs[i]) == Some(k)
  {
    if |cs| > 0 {
      var init := cs[..|cs| - 1];
      CollectPropertiesKeys(init);
      assert forall i :: 0 <= i < |cs| - 1 ==> init[i] == cs[i];
      forall k | exists i :: 0 <= i < |cs| && PropertyKey(cs[i]) == Some(k)
        ensures k in CollectProperties(cs)
      {
        var i :| 0 <= i < |cs| && PropertyKey(cs[i]) == Some(k);
        if i < |cs| - 1 {
          assert PropertyKey(init[i]) == Some(k);
        }
      }
    }
  }

  /** Each keyed child that no later child overrides supplies its attribute map as the value. */
  lemma {:induction false} CollectPropertiesValues(cs: seq<Element>, i: int)
    requires 0 <= i < |cs| && PropertyKey(cs[i]).Some? && LastWithKey(cs, i)
    ensures PropertyKey(cs[i]).value in CollectProperties(cs)
    ensures CollectProperties(cs)[PropertyKey(cs[i]).value] == cs[i].attrs
  {
    if i < |cs| - 1 {
      var init := cs[..|cs| - 1];
      assert init[i] == cs[i];
      assert LastWithKey(init, i) by {
        forall j | i < j < |init|
          ensures PropertyKey(init[j]) != PropertyKey(init[i])
        {
          assert init[j] == cs[j];
        }
      }
      CollectPropertiesValues(init, i);
      assert PropertyKey(cs[|cs| - 1]) != PropertyKey(cs[i]);
    }
  }

  /** The `property`-tag form of a legacy child: the tag moves into the `name` attribute. */
  function ToTagged(c: Element): Element {
    Element("property", c.attrs["name" := c.tag], c.text, c.children)
  }

  function AllToTagged(cs: seq<Element>): (r: seq<Element>)
    ensures |r| == |cs| && forall i :: 0 <= i < |cs| ==> r[i] == ToTagged(cs[i])
  {
    seq(|cs|, i requires 0 <= i < |cs| => ToTagged(cs[i]))
  }

  /**
   * The two wire shapes agree: rewriting every legacy child into its
   * `property` form keeps the same property names, and each value gains
   * only the `name` attribute.
   */
  lemma {:induction false} DualShapeAgreement(cs: seq<Element>)
    requires forall i :: 0 <= i < |cs| ==> cs[i].tag != "property" && cs[i].tag != ""
    ensures CollectProperties(AllToTagged(cs)).Keys == CollectProperties(cs).Keys
    ensures forall k :: k in CollectProperties(cs) ==>
              CollectProperties(AllToTagged(cs))[k] == CollectProperties(cs)[k]["name" := k]
  {
    if |cs| > 0 {
      var init := cs[..|cs| - 1];
      DualShapeAgreement(init);
      assert AllToTagged(cs)[..|cs| - 1] == AllToTagged(init);
      var c := cs[|cs| - 1];
      assert AllToTagged(cs)[|cs| - 1] == ToTagged(c);
      assert PropertyKey(ToTagged(c)) == Some(c.tag) == PropertyKey(c);
    }
  }

  /** One `row` element: its number (default "0") and its `col` children's attributes in order. */
  function MenuRowOf(row: Element): (r: MenuRow)
    ensures r.number == Attr(row, "number", "0")
    ensures |r.columns| == |FindAll(row.children, "col")|
    ensures forall i :: 0 <= i < |r.columns| ==> r.columns[i] == FindAll(row.children, "col")[i].attrs
  {
    MenuRow(Attr(row, "number", "0"),
            seq(|FindAll(row.children, "col")|, i requires 0 <= i < |FindAll(row.children, "col")| =>
                  FindAll(row.children, "col")[i].attrs))
  }

  /** The entry a `bar` element contributes; unknown types contribute nothing. */
  function BarEntryOf(b: Element): (r: Option<BarEntry>)
    ensures r.None? <==> Attr(b, "type", "") !in {"off", "bigText", "bar"}
    ensures Attr(b, "type", "") == "off" ==> r == Some(BarOff)
    ensures Attr(b, "type", "") == "bigText" ==> r == Some(BigText(Attr(b, "text", "")))
    ensures Attr(b, "type", "") == "bar" ==>
              r == Some(BarLevel(Attr(b, "text", ""), Attr(b, "value", "0"), Attr(b, "min", "0"),
                                 Attr(b, "max", "100"), Attr(b, "units", "")))
  {
    var t := Attr(b, "type", "");
    if t == "off" then Some(BarOff)
    else if t == "bigText" then Some(BigText(Attr(b, "text", "")))
    else if t == "bar" then
      Some(BarLevel(Attr(b, "text", ""), Attr(b, "value", "0"), Attr(b, "min", "0"),
                    Attr(b, "max", "100"), Attr(b, "units", "")))
    else None
  }

  function BarEntries(bs: seq<Element>): (r: seq<BarEntry>)
    ensures |r| <= |bs|
    ensures forall e :: e in r <==> exists i :: 0 <= i < |bs| && BarEntryOf(bs[i]) == Some(e)
  {
    if |bs| == 0 then []
    else
      var rest := BarEntries(bs[1..]);
      assert forall i :: 0 <= i < |bs| - 1 ==> bs[1..][i] == bs[i + 1];
      match BarEntryOf(bs[0])
      case Some(e) => [e] + rest
      case None => rest
  }

  /**
   * The entries follow document order: the entries of two runs of `bar`
   * elements are the first run's entries followed by the second's.
   */
  lemma {:induction false} BarEntriesAppend(a: seq<Element>, b: seq<Element>)
    ensures BarEntries(a + b) == BarEntries(a) + BarEntries(b)
  {
    if |a| == 0 {
      assert a + b == b;
    } else {
      assert (a + b)[0] == a[0];
      assert (a + b)[1..] == a[1..] + b;
      BarEntriesAppend(a[1..], b);
    }
  }

  const NotifyTags: set<string> := {"emotivaNotify", "emotivaMenuNotify", "emotivaBarNotify"}

  function ParseRoot(root: Element, ip: string): Option<Notification> {
    var sequence := Attr(root, "sequence", "0");
    if root.tag == "emotivaNotify" then
      match SpecialKind(root.children)
      case Some(k) => Some(Notification(ip, k, NoData))
      case None => Some(Notification(ip, PropertyKind, PropertyData(sequence, CollectProperties(root.children))))
    else if root.tag == "emotivaMenuNotify" then
      var rows := FindAll(root.children, "row");
      Some(Notification(ip, MenuKind, MenuData(sequence, seq(|rows|, i requires 0 <= i < |rows| => MenuRowOf(rows[i])))))
    else if root.tag == "emotivaBarNotify" then
      Some(Notification(ip, BarKind, BarData(sequence, BarEntries(FindAll(root.children, "bar")))))
    else None
  }

  /** parse_notification: None for malformed input or an unknown root tag. */
  function ParseNotification(doc: Document, ip: string): (r: Option<Notification>)
    ensures r.Some? <==> doc.Parsed? && doc.root.tag in NotifyTags
    ensures r.Some? ==> r.value.deviceIp == ip
    ensures r.Some? && doc.root.tag == "emotivaMenuNotify" ==> r.value.kind == MenuKind
    ensures r.Some? && doc.root.tag == "emotivaBarNotify" ==> r.value.kind == BarKind
    ensures r.Some? && doc.root.tag == "emotivaNotify" ==>
              match SpecialKind(doc.root.children)
              case Some(k) => r.value.kind == k && r.value.data == NoData
              case None => r.value.kind == PropertyKind
                           && r.value.data == PropertyData(Attr(doc.root, "sequence", "0"), CollectProperties(doc.root.children))
    ensures r.Some? && doc.root.tag == "emotivaMenuNotify" ==>
              && r.value.data.MenuData? && r.value.data.sequence == Attr(doc.root, "sequence", "0")
              && |r.value.data.rows| == |FindAll(doc.root.children, "row")|
              && forall i :: 0 <= i < |r.value.data.rows| ==>
                   r.value.data.rows[i] == MenuRowOf(FindAll(doc.root.children, "row")[i])
    ensures r.Some? && doc.root.tag == "emotivaBarNotify" ==>
              r.value.data == BarData(Attr(doc.root, "sequence", "0"), BarEntries(FindAll(doc.root.children, "bar")))
  {
    match doc
    case Malformed => None
    case Parsed(root) => ParseRoot(root, ip)
  }

  /**
   * A property notification's map has a key exactly for each named `property`
   * child and each legacy tag-named child, holding the last such child's attributes.
   */
  lemma ParsedPropertyNotification(root: Element, ip: string, k: string)
    requires root.tag == "emotivaNotify" && SpecialKind(root.children).None?
    ensures var r := ParseNotification(Parsed(root), ip);
            && r.Some? && r.value.kind == PropertyKind && r.value.data.PropertyData?
            && (k in r.value.data.properties <==> exists i :: 0 <= i < |root.children| && PropertyKey(root.children[i]) == Some(k))
    ensures forall i :: 0 <= i < |root.children| && PropertyKey(root.children[i]) == Some(k) && LastWithKey(root.children, i) ==>
              ParseNotification(Parsed(root), ip).value.data.properties[k] == root.children[i].attrs
  {
    CollectPropertiesKeys(root.children);
    forall i | 0 <= i < |root.children| && PropertyKey(root.children[i]) == Some(k) && LastWithKey(root.children, i)
      ensures CollectProperties(root.children)[k] == root.children[i].attrs
    {
      CollectPropertiesValues(root.children, i);
    }
  }

  /** NotificationDispatcher.dispatch_notification: the listeners called for one datagram. */
  function Dispatch(reg: Registry, doc: Document, ip: string): (r: seq<ListenerId>)
    requires Valid(reg)
    ensures ParseNotification(doc, ip).None? ==> r == []
    ensures forall l :: l in r <==> l in reg.filters && ParseNotification(doc, ip).Some?
                                    && Wants(reg.filters[l], ParseNotification(doc, ip).value)
    ensures NoDup(r)
  {
    match ParseNotification(doc, ip)
    case None => []
    case Some(n) => Notify(reg, n)
  }
}
