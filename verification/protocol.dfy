/**
 * Wire helpers of pymotivaxmc2/protocol.py at tree level: protocol-version
 * parsing and compatibility, the transponder record, request builders
 * (the ElementTree they build, before pretty-printing), and the response
 * classifiers that turn a received tree into a status/data record.
 */
module Protocol {
  import opened Wrappers
  import opened Numerals
  import opened Xml

  /** constants.PROTOCOL_VERSION */
  const DefaultVersion: string := "1.0"

  /** constants.RESPONSE_TYPES */
  const ResponseTypes: seq<string> := ["transponder", "command", "notify", "error"]

  // ---------------------------------------------------------------------
  // ProtocolVersion
  // ---------------------------------------------------------------------

  function FindChar(s: string, c: char): (r: Option<nat>)
    ensures r.Some? ==> r.value < |s| && s[r.value] == c && c !in s[..r.value]
    ensures r.None? ==> c !in s
  {
    if |s| == 0 then None
    else if s[0] == c then Some(0)
    else match FindChar(s[1..], c)
      case None => None
      case Some(k) => assert s[..k + 1] == [s[0]] + s[1..][..k]; Some(k + 1)
  }

  /** `v` is "A.B" with exactly one dot around it, and `int()` accepts both halves as a and b. */
  ghost predicate SplitsAt(v: string, i: int, a: int, b: int) {
    && 0 <= i < |v| && v[i] == '.' && '.' !in v[..i] && '.' !in v[i + 1..]
    && ParseInt(v[..i]) == Some(a) && ParseInt(v[i + 1..]) == Some(b)
  }

  /** A dot with no dot before it is the one `FindChar` finds. */
  lemma FirstDot(v: string, i: int)
    requires 0 <= i < |v| && v[i] == '.' && '.' !in v[..i]
    ensures FindChar(v, '.') == Some(i)
  {
    var k := FindChar(v, '.').value;
    assert forall j :: 0 <= j < k ==> v[..k][j] == v[j];
    assert forall j :: 0 <= j < i ==> v[..i][j] == v[j];
  }

  /**
   * ProtocolVersion.parse_version: (major, minor) when `version_str.split('.')`
   * yields exactly two parts that `int()` accepts, and (1, 0) otherwise.
   */
  function ParseVersion(v: string): (r: (int, int))
    ensures r == (1, 0) || exists i :: SplitsAt(v, i, r.0, r.1)
    ensures forall i, a, b :: SplitsAt(v, i, a, b) ==> r == (a, b)
    ensures '.' !in v ==> r == (1, 0)
  {
    match FindChar(v, '.')
    case None => (1, 0)
    case Some(i) =>
      FirstDotUnique(v, i);
      var a := ParseInt(v[..i]);
      var b := ParseInt(v[i + 1..]);
      if '.' !in v[i + 1..] && a.Some? && b.Some? then
        assert SplitsAt(v, i, a.value, b.value);
        (a.value, b.value)
      else (1, 0)
  }

  /** Every split of `v` is at the first dot. */
  lemma FirstDotUnique(v: string, i: int)
    requires FindChar(v, '.') == Some(i)
    ensures forall j, a, b :: SplitsAt(v, j, a, b) ==> j == i
  {
    forall j, a, b | SplitsAt(v, j, a, b)
      ensures j == i
    {
      FirstDot(v, j);
    }
  }

  /** ProtocolVersion.is_compatible: same major, device minor at least the required one. */
  predicate IsCompatible(device: string, required: string) {
    var d := ParseVersion(device);
    var q := ParseVersion(required);
    d.0 == q.0 && d.1 >= q.1
  }

  function RenderVersion(major: int, minor: int): string {
    IntToString(major) + "." + IntToString(minor)
  }

  /** A rendered "major.minor" parses back to the same pair. */
  lemma VersionRoundTrip(major: int, minor: int)
    ensures ParseVersion(RenderVersion(major, minor)) == (major, minor)
  {
    var a := IntToString(major);
    var b := IntToString(minor);
    var v := RenderVersion(major, minor);
    assert v[..|a|] == a && v[|a| + 1..] == b;
    ParseIntRoundTrip(major);
    ParseIntRoundTrip(minor);
    assert SplitsAt(v, |a|, major, minor);
  }

  /** Compatibility orders versions of one major number by their minor number. */
  lemma CompatibleRendered(major: int, m1: int, m2: int)
    ensures IsCompatible(RenderVersion(major, m1), RenderVersion(major, m2)) <==> m1 >= m2
  {
    VersionRoundTrip(major, m1);
    VersionRoundTrip(major, m2);
  }

  lemma CompatibleReflexive(v: string)
    ensures IsCompatible(v, v)
  {
  }

  lemma CompatibleTransitive(a: string, b: string, c: string)
    requires IsCompatible(a, b) && IsCompatible(b, c)
    ensures IsCompatible(a, c)
  {
  }

  // ---------------------------------------------------------------------
  // TransponderResponse
  // ---------------------------------------------------------------------

  /** An entry of a list inside a complex transponder child: the grandchild's attributes or its text. */
  datatype TItem = ItemAttrs(attrs: Attrs) | ItemText(text: string)

  /**
   * A value of the transponder data dict: a string, or the dict built from
   * a child with attributes or children (attributes plus one list per
   * grandchild tag; the two key sets are disjoint).
   */
  datatype TData = TText(s: string) | TComplex(attrs: Attrs, lists: map<string, seq<TItem>>)

  datatype Transponder = Transponder(
    name: TData, model: TData, version: TData,
    ports: map<string, int>, keepaliveInterval: Option<int>)

  function GetData(data: map<string, TData>, key: string, default: TData): TData {
    if key in data then data[key] else default
  }

  /** The ports dict: the entries of a dict-valued `ports` that `int()` accepts. */
  function PortsOf(data: map<string, TData>): (r: map<string, int>)
    ensures forall k :: k in r <==>
      "ports" in data && data["ports"].TComplex? && k in data["ports"].attrs
      && ParseInt(data["ports"].attrs[k]).Some?
    ensures forall k :: k in r ==> Some(r[k]) == ParseInt(data["ports"].attrs[k])
  {
    if "ports" in data && data["ports"].TComplex? then
      var a := data["ports"].attrs;
      map k | k in a && ParseInt(a[k]).Some? :: ParseInt(a[k]).value
    else map[]
  }

  /** TransponderResponse.__init__. */
  function NewTransponder(data: map<string, TData>): (r: Transponder)
    ensures r.name == GetData(data, "name", TText(""))
    ensures r.model == GetData(data, "model", TText(""))
    ensures r.version == GetData(data, "protocol", TText(DefaultVersion))
    ensures r.ports == PortsOf(data)
    ensures r.keepaliveInterval.Some? <==>
      "keepaliveInterval" in data && data["keepaliveInterval"].TText?
      && ParseInt(data["keepaliveInterval"].s).Some?
    ensures r.keepaliveInterval.Some? ==> r.keepaliveInterval == ParseInt(data["keepaliveInterval"].s)
  {
    var keepalive :=
      if "keepaliveInterval" in data && data["keepaliveInterval"].TText? then
        ParseInt(data["keepaliveInterval"].s)
      else None;
    Transponder(GetData(data, "name", TText("")), GetData(data, "model", TText("")),
                GetData(data, "protocol", TText(DefaultVersion)), PortsOf(data), keepalive)
  }

  function RenderPorts(ports: map<string, int>): (r: Attrs)
    ensures r.Keys == ports.Keys
    ensures forall k :: k in ports ==> r[k] == IntToString(ports[k])
  {
    map k | k in ports :: IntToString(ports[k])
  }

  /** When every attribute of a `ports` child is an integer, every attribute is a port. */
  lemma PortsOfIntegers(attrs: Attrs)
    requires forall k :: k in attrs ==> ParseInt(attrs[k]).Some?
    ensures PortsOf(map["ports" := TComplex(attrs, map[])]).Keys == attrs.Keys
    ensures forall k :: k in attrs ==> PortsOf(map["ports" := TComplex(attrs, map[])])[k] == ParseInt(attrs[k]).value
  {
  }

  lemma RenderedPorts(ports: map<string, int>)
    ensures forall k :: k in ports ==> ParseInt(RenderPorts(ports)[k]) == Some(ports[k])
  {
    forall k | k in ports
      ensures ParseInt(RenderPorts(ports)[k]) == Some(ports[k])
    {
      ParseIntRoundTrip(ports[k]);
    }
  }

  /** A `ports` child whose attributes all read back as given integers yields exactly those ports. */
  lemma PortsOfExact(attrs: Attrs, ports: map<string, int>)
    requires attrs.Keys == ports.Keys
    requires forall k :: k in attrs ==> ParseInt(attrs[k]) == Some(ports[k])
    ensures PortsOf(map["ports" := TComplex(attrs, map[])]) == ports
  {
    PortsOfIntegers(attrs);
  }

  /** A `ports` child whose attributes are rendered integers yields exactly those ports. */
  lemma PortsRoundTrip(ports: map<string, int>)
    ensures PortsOf(map["ports" := TComplex(RenderPorts(ports), map[])]) == ports
  {
    RenderedPorts(ports);
    PortsOfExact(RenderPorts(ports), ports);
  }

  // ---------------------------------------------------------------------
  // CommandFormatter (tree level)
  // ---------------------------------------------------------------------

  /** The parameter values `format_request` distinguishes; scalars are rendered with `str()`. */
  datatype Scalar = SStr(s: string) | SInt(i: int) | SBool(b: bool) | SNone

  function Str(v: Scalar): string {
    match v
    case SStr(s) => s
    case SInt(i) => IntToString(i)
    case SBool(b) => if b then "True" else "False"
    case SNone => "None"
  }

  datatype ListItem = ItemDict(entries: map<string, Scalar>) | ItemScalar(v: Scalar)

  datatype ParamValue =
    | ScalarParam(v: Scalar)
    | DictParam(d: map<string, Scalar>)
    | ListParam(items: seq<ListItem>)

  /** One entry of the params dict, kept in the dict's insertion order. */
  datatype Param = Param(key: string, value: ParamValue)

  predicate DistinctKeys(ps: seq<Param>) {
    forall i, j :: 0 <= i < j < |ps| ==> ps[i].key != ps[j].key
  }

  function StrMap(d: map<string, Scalar>): (r: Attrs)
    ensures r.Keys == d.Keys
    ensures forall k :: k in d ==> r[k] == Str(d[k])
  {
    map k | k in d :: Str(d[k])
  }

  /** One `item` of a list parameter: a dict item's entries as attributes, a scalar item as text. */
  function ItemElement(it: ListItem): (r: Element)
    ensures r.tag == "item" && r.children == []
    ensures it.ItemDict? ==> r.attrs == StrMap(it.entries) && r.text == None
    ensures it.ItemScalar? ==> r.attrs == map[] && r.text == Some(Str(it.v))
  {
    match it
    case ItemDict(d) => Element("item", StrMap(d), None, [])
    case ItemScalar(v) => Element("item", map[], Some(Str(v)), [])
  }

  /** The sub-element a dict or list parameter becomes. */
  function ParamElement(key: string, v: ParamValue): (r: Element)
    requires !v.ScalarParam?
    ensures r.tag == key && r.text == None
    ensures v.DictParam? ==> r.attrs == StrMap(v.d) && r.children == []
    ensures v.ListParam? ==> r.attrs == map[] && |r.children| == |v.items|
                             && forall j :: 0 <= j < |v.items| ==> r.children[j] == ItemElement(v.items[j])
  {
    match v
    case DictParam(d) => Element(key, StrMap(d), None, [])
    case ListParam(items) =>
      Element(key, map[], None, seq(|items|, j requires 0 <= j < |items| => ItemElement(items[j])))
  }

  /** Root attributes contributed by scalar parameters. */
  function ScalarAttrs(ps: seq<Param>): Attrs {
    if |ps| == 0 then map[]
    else if ps[0].value.ScalarParam? then ScalarAttrs(ps[1..])[ps[0].key := Str(ps[0].value.v)]
    else ScalarAttrs(ps[1..])
  }

  lemma {:induction false} ScalarAttrsSpec(ps: seq<Param>)
    requires DistinctKeys(ps)
    ensures forall k :: k in ScalarAttrs(ps) <==> exists i :: 0 <= i < |ps| && ps[i].key == k && ps[i].value.ScalarParam?
    ensures forall i :: 0 <= i < |ps| && ps[i].value.ScalarParam? ==> ScalarAttrs(ps)[ps[i].key] == Str(ps[i].value.v)
  {
    if |ps| > 0 {
      ScalarAttrsSpec(ps[1..]);
      assert forall i :: 1 <= i < |ps| ==> ps[i] == ps[1..][i - 1];
    }
  }

  /** Sub-elements contributed by dict and list parameters, in parameter order. */
  function ParamChildren(ps: seq<Param>): seq<Element> {
    if |ps| == 0 then []
    else if ps[0].value.ScalarParam? then ParamChildren(ps[1..])
    else [ParamElement(ps[0].key, ps[0].value)] + ParamChildren(ps[1..])
  }

  /** How many dict and list parameters there are. */
  function NonScalarCount(ps: seq<Param>): nat {
    if |ps| == 0 then 0
    else (if ps[0].value.ScalarParam? then 0 else 1) + NonScalarCount(ps[1..])
  }

  /**
   * Sub-elements follow parameter order: there is one per dict or list
   * parameter, and the one for parameter i sits after those of the dict and
   * list parameters before it.
   */
  lemma {:induction false} ParamChildrenOrder(ps: seq<Param>)
    ensures |ParamChildren(ps)| == NonScalarCount(ps)
    ensures forall i :: 0 <= i < |ps| && !ps[i].value.ScalarParam? ==>
              NonScalarCount(ps[..i]) < |ParamChildren(ps)|
              && ParamChildren(ps)[NonScalarCount(ps[..i])] == ParamElement(ps[i].key, ps[i].value)
  {
    if |ps| > 0 {
      ParamChildrenOrder(ps[1..]);
      forall i | 1 <= i < |ps| && !ps[i].value.ScalarParam?
        ensures NonScalarCount(ps[..i]) < |ParamChildren(ps)|
        ensures ParamChildren(ps)[NonScalarCount(ps[..i])] == ParamElement(ps[i].key, ps[i].value)
      {
        assert ps[..i][1..] == ps[1..][..i - 1];
        assert ps[1..][i - 1] == ps[i];
      }
      assert ps[..0] == [];
    }
  }

  lemma {:induction false} ParamChildrenSpec(ps: seq<Param>)
    ensures |ParamChildren(ps)| <= |ps|
    ensures forall c :: c in ParamChildren(ps) <==> exists i :: 0 <= i < |ps| && !ps[i].value.ScalarParam?
                                                            && c == ParamElement(ps[i].key, ps[i].value)
  {
    if |ps| > 0 {
      ParamChildrenSpec(ps[1..]);
      assert forall i :: 1 <= i < |ps| ==> ps[i] == ps[1..][i - 1];
    }
  }

  /**
   * CommandFormatter.format_request as the tree it builds: the command type
   * is the root tag; a discover request carries `protocol`; scalar
   * parameters are root attributes (overriding `protocol` when one is named
   * so); dict and list parameters become sub-elements.
   */
  function FormatRequest(commandType: string, ps: seq<Param>, version: Option<string>): (r: Element)
    requires DistinctKeys(ps)
    ensures r.tag == commandType && r.text == None
    ensures forall k :: k in r.attrs <==>
      (k == "protocol" && commandType == "discover")
      || exists i :: 0 <= i < |ps| && ps[i].key == k && ps[i].value.ScalarParam?
    ensures forall i :: 0 <= i < |ps| && ps[i].value.ScalarParam? ==> r.attrs[ps[i].key] == Str(ps[i].value.v)
    ensures (commandType == "discover" && forall i :: 0 <= i < |ps| ==> ps[i].key != "protocol" || !ps[i].value.ScalarParam?)
            ==> r.attrs["protocol"] == version.GetOr(DefaultVersion)
    ensures forall c :: c in r.children <==> exists i :: 0 <= i < |ps| && !ps[i].value.ScalarParam?
                                                       && c == ParamElement(ps[i].key, ps[i].value)
    ensures |r.children| == NonScalarCount(ps)
    ensures forall i :: 0 <= i < |ps| && !ps[i].value.ScalarParam? ==>
              NonScalarCount(ps[..i]) < |r.children|
              && r.children[NonScalarCount(ps[..i])] == ParamElement(ps[i].key, ps[i].value)
  {
    ParamChildrenSpec(ps);
    ParamChildrenOrder(ps);
    Element(commandType, RequestAttrs(commandType, ps, version), None, ParamChildren(ps))
  }

  /** The root attributes of a request: `protocol` for discover, then each scalar parameter. */
  function RequestAttrs(commandType: string, ps: seq<Param>, version: Option<string>): (r: Attrs)
    requires DistinctKeys(ps)
    ensures forall k :: k in r <==>
      (k == "protocol" && commandType == "discover")
      || exists i :: 0 <= i < |ps| && ps[i].key == k && ps[i].value.ScalarParam?
    ensures forall i :: 0 <= i < |ps| && ps[i].value.ScalarParam? ==> r[ps[i].key] == Str(ps[i].value.v)
    ensures (commandType == "discover" && forall i :: 0 <= i < |ps| ==> ps[i].key != "protocol" || !ps[i].value.ScalarParam?)
            ==> r["protocol"] == version.GetOr(DefaultVersion)
  {
    var base: Attrs := if commandType == "discover" then map["protocol" := version.GetOr(DefaultVersion)] else map[];
    ScalarAttrsSpec(ps);
    base + ScalarAttrs(ps)
  }

  /** Reading an integer parameter back from the built tree gives the integer. */
  lemma IntParamReadBack(commandType: string, ps: seq<Param>, version: Option<string>, i: int)
    requires DistinctKeys(ps) && 0 <= i < |ps| && ps[i].value.ScalarParam? && ps[i].value.v.SInt?
    ensures ParseInt(Attr(FormatRequest(commandType, ps, version), ps[i].key, "")) == Some(ps[i].value.v.i)
  {
    ParseIntRoundTrip(ps[i].value.v.i);
  }

  predicate AllScalar(ps: seq<Param>) {
    forall i :: 0 <= i < |ps| ==> ps[i].value.ScalarParam?
  }

  lemma {:induction false} AllScalarNoChildren(ps: seq<Param>)
    requires AllScalar(ps)
    ensures ParamChildren(ps) == []
  {
    if |ps| > 0 {
      AllScalarNoChildren(ps[1..]);
    }
  }

  function ControlParams(command: string, value: string, ack: bool): (ps: seq<Param>)
    ensures DistinctKeys(ps) && AllScalar(ps)
    ensures ScalarAttrs(ps) == if ack then map["command" := command, "value" := value, "ack" := "true"]
                               else map["command" := command, "value" := value]
  {
    var pc := Param("command", ScalarParam(SStr(command)));
    var pv := Param("value", ScalarParam(SStr(value)));
    var pa := Param("ack", ScalarParam(SStr("true")));
    if ack then
      assert [pc, pv, pa][1..] == [pv, pa] && [pv, pa][1..] == [pa] && [pa][1..] == [];
      assert ScalarAttrs([pa]) == map["ack" := "true"];
      assert ScalarAttrs([pv, pa]) == map["ack" := "true"]["value" := value];
      assert ScalarAttrs([pc, pv, pa]) == map["ack" := "true"]["value" := value]["command" := command];
      assert map["ack" := "true"]["value" := value]["command" := command]
          == map["command" := command, "value" := value, "ack" := "true"];
      [pc, pv, pa]
    else
      assert [pc, pv][1..] == [pv] && [pv][1..] == [];
      assert ScalarAttrs([pv]) == map["value" := value];
      assert ScalarAttrs([pc, pv]) == map["value" := value]["command" := command];
      assert map["value" := value]["command" := command] == map["command" := command, "value" := value];
      [pc, pv]
  }

  /** CommandFormatter.format_control_request. */
  function FormatControlRequest(command: string, value: string, ack: bool): (r: Element)
    ensures r.tag == "control" && r.children == [] && r.text == None
    ensures r.attrs == if ack then map["command" := command, "value" := value, "ack" := "true"]
                       else map["command" := command, "value" := value]
  {
    var ps := ControlParams(command, value, ack);
    AllScalarNoChildren(ps);
    var r := FormatRequest("control", ps, None);
    assert r == Element("control", map[] + ScalarAttrs(ps), None, ParamChildren(ps));
    r
  }

  /** CommandFormatter.format_ping_request as a tree. */
  function FormatPingRequest(version: Option<string>): (r: Element)
    ensures r == Element("discover", map["protocol" := version.GetOr(DefaultVersion), "ping" := "true"], None, [])
  {
    var pp := Param("ping", ScalarParam(SStr("true")));
    assert [pp][1..] == [];
    AllScalarNoChildren([pp]);
    FormatRequest("discover", [pp], version)
  }

  // ---------------------------------------------------------------------
  // ResponseParser
  // ---------------------------------------------------------------------

  datatype NotifyBody =
    | NoBody
    | PropertiesBody(properties: map<string, Attrs>)
    | MenuBody(menuId: string, position: int, items: seq<Attrs>)
    | BarsBody(bars: seq<Attrs>)

  /** The dicts parse_response returns, one variant per response type. */
  datatype Response =
    | TransponderResp(fields: map<string, TData>)
    | CommandResp(status: string, data: Attrs)
    | NotifyResp(notifyType: Option<string>, body: NotifyBody)
    | ErrorResp(message: string, code: Option<string>)
  {
    function Status(): string {
      match this
      case TransponderResp(_) => "ok"
      case CommandResp(s, _) => s
      case NotifyResp(_, _) => "ok"
      case ErrorResp(_, _) => "error"
    }

    function TypeName(): string {
      match this
      case TransponderResp(_) => "transponder"
      case CommandResp(_, _) => "command"
      case NotifyResp(_, _) => "notify"
      case ErrorResp(_, _) => "error"
    }
  }

  /** Why parse_response raised InvalidTransponderResponseError. */
  datatype ResponseError = InvalidXml | UnknownResponseType(tag: string) | MalformedContent

  /** A grandchild adds a list entry when it has attributes or non-empty text. */
  predicate Appends(g: Element) {
    |g.attrs| > 0 || (g.text.Some? && g.text.value != "")
  }

  function ItemOf(g: Element): TItem
    requires Appends(g)
  {
    if |g.attrs| > 0 then ItemAttrs(g.attrs) else ItemText(g.text.value)
  }

  /** Appending to a key already holding an attribute string raises AttributeError. */
  predicate Collides(c: Element) {
    exists i :: 0 <= i < |c.children| && c.children[i].tag in c.attrs && Appends(c.children[i])
  }

  /** The per-tag lists of a complex child, built left to right. */
  function Lists(gs: seq<Element>, attrs: Attrs): (r: map<string, seq<TItem>>)
    ensures forall k :: k in r <==> k !in attrs && exists i :: 0 <= i < |gs| && gs[i].tag == k
  {
    if |gs| == 0 then map[]
    else
      var m := Lists(gs[..|gs| - 1], attrs);
      var g := gs[|gs| - 1];
      assert forall i :: 0 <= i < |gs| - 1 ==> gs[..|gs| - 1][i] == gs[i];
      if g.tag in attrs then m
      else
        var prev := if g.tag in m then m[g.tag] else [];
        m[g.tag := prev + (if Appends(g) then [ItemOf(g)] else [])]
  }

  function TransponderChild(c: Element): Option<TData> {
    if |c.children| > 0 || |c.attrs| > 0 then
      if Collides(c) then None else Some(TComplex(c.attrs, Lists(c.children, c.attrs)))
    else if c.text.Some? && c.text.value != "" then Some(TText(c.text.value))
    else Some(TText(""))
  }

  /** The data dict: the base entries, each child overriding the key of its tag in document order. */
  function TransponderData(cs: seq<Element>, base: map<string, TData>): Option<map<string, TData>> {
    if |cs| == 0 then Some(base)
    else
      match TransponderData(cs[..|cs| - 1], base)
      case None => None
      case Some(m) =>
        var c := cs[|cs| - 1];
        match TransponderChild(c)
        case None => None
        case Some(d) => Some(m[c.tag := d])
  }

  /** The transponder parse fails exactly when some child fails; otherwise every child tag is a key. */
  lemma TransponderDataShape(cs: seq<Element>, base: map<string, TData>)
    ensures TransponderData(cs, base).None? <==> exists i :: 0 <= i < |cs| && TransponderChild(cs[i]).None?
    ensures TransponderData(cs, base).Some? ==>
              forall k :: k in TransponderData(cs, base).value <==> k in base || exists i :: 0 <= i < |cs| && cs[i].tag == k
  {
    TransponderDataFails(cs, base);
    if TransponderData(cs, base).Some? {
      TransponderDataKeys(cs, base);
    }
  }

  /** The parse fails exactly when some child fails. */
  lemma {:induction false} TransponderDataFails(cs: seq<Element>, base: map<string, TData>)
    ensures TransponderData(cs, base).None? <==> exists i :: 0 <= i < |cs| && TransponderChild(cs[i]).None?
  {
    if |cs| > 0 {
      var init := cs[..|cs| - 1];
      TransponderDataFails(init, base);
      assert forall i :: 0 <= i < |cs| - 1 ==> init[i] == cs[i];
    }
  }

  /** A successful parse has a key for every base key and every child tag, and no other. */
  lemma {:induction false} TransponderDataKeys(cs: seq<Element>, base: map<string, TData>)
    requires TransponderData(cs, base).Some?
    ensures forall k :: k in TransponderData(cs, base).value <==> k in base || HasTag(cs, k)
  {
    if |cs| > 0 {
      var init, c := cs[..|cs| - 1], cs[|cs| - 1];
      var m := TransponderData(init, base).value;
      assert forall k :: k in m <==> k in base || HasTag(init, k) by {
        TransponderDataKeys(init, base);
      }
      TagsSnoc(cs, init);
    }
  }

  /** Some child carries tag `k`. */
  predicate HasTag(cs: seq<Element>, k: string) {
    exists i :: 0 <= i < |cs| && cs[i].tag == k
  }

  /** A tag occurs in a non-empty run of children when it occurs before the last one or on it. */
  lemma TagsSnoc(cs: seq<Element>, init: seq<Element>)
    requires |cs| > 0 && init == cs[..|cs| - 1]
    ensures forall k :: HasTag(cs, k) <==> HasTag(init, k) || k == cs[|cs| - 1].tag
  {
    forall k | HasTag(cs, k)
      ensures HasTag(init, k) || k == cs[|cs| - 1].tag
    {
      var i :| 0 <= i < |cs| && cs[i].tag == k;
      if i < |init| {
        assert init[i].tag == k;
      }
    }
    forall k | HasTag(init, k)
      ensures HasTag(cs, k)
    {
      var i :| 0 <= i < |init| && init[i].tag == k;
      assert cs[i].tag == k;
    }
  }

  /** _parse_transponder_response; None where a grandchild collides with an attribute. */
  function ParseTransponder(root: Element): Option<map<string, TData>> {
    TransponderData(root.children, map k | k in root.attrs :: TText(root.attrs[k]))
  }

  /** _parse_command_response. */
  function ParseCommand(root: Element): (r: Response)
    ensures r.CommandResp? && r.TypeName() == "command"
    ensures r.Status() == Attr(root, "status", "ok")
    ensures "status" !in r.data
    ensures forall k :: k in root.attrs && k != "status" ==> k in r.data && r.data[k] == root.attrs[k]
    ensures forall k :: k in r.data ==> k in root.attrs
  {
    CommandResp(Attr(root, "status", "ok"), root.attrs - {"status"})
  }

  /** One property's data: its attributes without `name`, with `value` defaulting to "". */
  function PropertyData(p: Element): (r: Attrs)
    ensures "value" in r && r["value"] == Attr(p, "value", "")
    ensures "name" !in r
  {
    (p.attrs - {"name"})["value" := Attr(p, "value", "")]
  }

  /** The entries under every `properties` child, in document order. */
  function PropertyElements(cs: seq<Element>): seq<Element> {
    if |cs| == 0 then []
    else (if cs[0].tag == "properties" then cs[0].children else []) + PropertyElements(cs[1..])
  }

  function NamedProperties(ps: seq<Element>): (r: map<string, Attrs>)
    ensures forall k :: k in r <==> k != "" && exists i :: 0 <= i < |ps| && Attr(ps[i], "name", "") == k
    ensures forall k :: k in r ==> "value" in r[k] && "name" !in r[k]
  {
    if |ps| == 0 then map[]
    else
      var m := NamedProperties(ps[..|ps| - 1]);
      var p := ps[|ps| - 1];
      assert forall i :: 0 <= i < |ps| - 1 ==> ps[..|ps| - 1][i] == ps[i];
      var name := Attr(p, "name", "");
      if name != "" then m[name := PropertyData(p)] else m
  }

  /** Each named property that no later property renames supplies its data as the value. */
  lemma {:induction false} NamedPropertiesValues(ps: seq<Element>, i: int)
    requires 0 <= i < |ps| && Attr(ps[i], "name", "") != ""
    requires forall j :: i < j < |ps| ==> Attr(ps[j], "name", "") != Attr(ps[i], "name", "")
    ensures NamedProperties(ps)[Attr(ps[i], "name", "")] == PropertyData(ps[i])
  {
    if i < |ps| - 1 {
      var init := ps[..|ps| - 1];
      assert init[i] == ps[i];
      assert forall j :: i < j < |init| ==> init[j] == ps[j];
      NamedPropertiesValues(init, i);
    }
  }

  /** The `<property name=… value=…/>` element a device sends for one property. */
  function PropertyElement(name: string, value: string): Element {
    Element("property", map["name" := name, "value" := value], None, [])
  }

  function PropertyList(props: seq<(string, string)>): (r: seq<Element>)
    ensures |r| == |props| && forall i :: 0 <= i < |props| ==> r[i] == PropertyElement(props[i].0, props[i].1)
  {
    seq(|props|, i requires 0 <= i < |props| => PropertyElement(props[i].0, props[i].1))
  }

  /** The notification a device sends for a list of property values. */
  function PropertyNotify(props: seq<(string, string)>): Element {
    Element("notify", map["type" := "property"], None, [Element("properties", map[], None, PropertyList(props))])
  }

  lemma ParsePropertyNotify(props: seq<(string, string)>)
    ensures ParseResponse(Parsed(PropertyNotify(props)))
         == Ok(NotifyResp(Some("property"), PropertiesBody(NamedProperties(PropertyList(props)))))
  {
    var root := PropertyNotify(props);
    assert "notify" in ResponseTypes;
    assert Attr(root, "type", "") == "property";
    assert root.children[1..] == [];
    assert PropertyElements(root.children) == PropertyList(props);
  }

  lemma PropertyElementData(name: string, value: string)
    ensures Attr(PropertyElement(name, value), "name", "") == name
    ensures PropertyData(PropertyElement(name, value)) == map["value" := value]
  {
    var p := PropertyElement(name, value);
    assert Attr(p, "value", "") == value;
    assert (p.attrs - {"name"}).Keys == {"value"};
  }

  lemma NamedPropertyList(props: seq<(string, string)>)
    requires forall i :: 0 <= i < |props| ==> props[i].0 != ""
    requires forall i, j :: 0 <= i < j < |props| ==> props[i].0 != props[j].0
    ensures forall k :: k in NamedProperties(PropertyList(props)) <==> exists i :: 0 <= i < |props| && props[i].0 == k
    ensures forall i :: 0 <= i < |props| ==> NamedProperties(PropertyList(props))[props[i].0] == map["value" := props[i].1]
  {
    var els := PropertyList(props);
    forall i | 0 <= i < |props|
      ensures Attr(els[i], "name", "") == props[i].0
      ensures PropertyData(els[i]) == map["value" := props[i].1]
    {
      PropertyElementData(props[i].0, props[i].1);
    }
    forall i | 0 <= i < |props|
      ensures NamedProperties(els)[props[i].0] == map["value" := props[i].1]
    {
      NamedPropertiesValues(els, i);
    }
  }

  /** A property notification built from distinct named values parses back to exactly those values. */
  lemma PropertyNotifyRoundTrip(props: seq<(string, string)>)
    requires forall i :: 0 <= i < |props| ==> props[i].0 != ""
    requires forall i, j :: 0 <= i < j < |props| ==> props[i].0 != props[j].0
    ensures var r := ParseResponse(Parsed(PropertyNotify(props)));
            && r.Ok? && r.value.NotifyResp? && r.value.body.PropertiesBody?
            && (forall k :: k in r.value.body.properties <==> exists i :: 0 <= i < |props| && props[i].0 == k)
            && (forall i :: 0 <= i < |props| ==> r.value.body.properties[props[i].0] == map["value" := props[i].1])
  {
    ParsePropertyNotify(props);
    NamedPropertyList(props);
  }

  /** The attribute maps of the children of every `items` child, in document order. */
  function ItemsOf(cs: seq<Element>): (r: seq<Attrs>)
    ensures forall a :: a in r <==> exists i, j :: 0 <= i < |cs| && cs[i].tag == "items"
                                                 && 0 <= j < |cs[i].children| && cs[i].children[j].attrs == a
  {
    if |cs| == 0 then []
    else
      (if cs[0].tag == "items" then seq(|cs[0].children|, j requires 0 <= j < |cs[0].children| => cs[0].children[j].attrs) else [])
      + ItemsOf(cs[1..])
  }

  /** The attribute maps of the `bar` children, in document order. */
  function BarsOf(cs: seq<Element>): (r: seq<Attrs>)
    ensures |r| == |FindAll(cs, "bar")|
    ensures forall j :: 0 <= j < |r| ==> r[j] == FindAll(cs, "bar")[j].attrs
  {
    var bars := FindAll(cs, "bar");
    seq(|bars|, j requires 0 <= j < |bars| => bars[j].attrs)
  }

  /** _parse_notification_response; None where the menu position is not an integer. */
  function ParseNotify(root: Element): (r: Option<Response>)
    ensures r.None? <==> Attr(root, "type", "") == "menu" && ParseInt(Attr(root, "position", "0")).None?
    ensures r.Some? ==> r.value.NotifyResp? && r.value.Status() == "ok"
    ensures r.Some? ==> (r.value.notifyType.Some? <==> Attr(root, "type", "") != "")
    ensures r.Some? && Attr(root, "type", "") == "property" ==>
              r.value.body == PropertiesBody(NamedProperties(PropertyElements(root.children)))
    ensures r.Some? && Attr(root, "type", "") == "menu" ==>
              && r.value.body.MenuBody?
              && r.value.body.menuId == Attr(root, "id", "")
              && ParseInt(Attr(root, "position", "0")) == Some(r.value.body.position)
              && r.value.body.items == ItemsOf(root.children)
    ensures r.Some? && Attr(root, "type", "") == "bar" ==> r.value.body == BarsBody(BarsOf(root.children))
    ensures r.Some? && Attr(root, "type", "") !in {"property", "menu", "bar"} ==> r.value.body == NoBody
  {
    var t := Attr(root, "type", "");
    var nt := if t != "" then Some(t) else None;
    if t == "property" then
      Some(NotifyResp(nt, PropertiesBody(NamedProperties(PropertyElements(root.children)))))
    else if t == "menu" then
      match ParseInt(Attr(root, "position", "0"))
      case None => None
      case Some(pos) => Some(NotifyResp(nt, MenuBody(Attr(root, "id", ""), pos, ItemsOf(root.children))))
    else if t == "bar" then
      Some(NotifyResp(nt, BarsBody(BarsOf(root.children))))
    else Some(NotifyResp(nt, NoBody))
  }

  /** _parse_error_response. */
  function ParseErrorResponse(root: Element): (r: Response)
    ensures r.Status() == "error" && r.TypeName() == "error"
    ensures r.message == Attr(root, "message", "Unknown error")
    ensures r.code.Some? <==> "code" in root.attrs
    ensures r.code.Some? ==> r.code.value == root.attrs["code"]
  {
    ErrorResp(Attr(root, "message", "Unknown error"),
              if "code" in root.attrs then Some(root.attrs["code"]) else None)
  }

  /**
   * ResponseParser.parse_response: every failure, malformed XML or an
   * unknown root tag included, is InvalidTransponderResponseError.
   */
  function ParseResponse(doc: Document): (r: Result<Response, ResponseError>)
    ensures doc.Malformed? ==> r == Err(InvalidXml)
    ensures doc.Parsed? && doc.root.tag !in ResponseTypes ==> r == Err(UnknownResponseType(doc.root.tag))
    ensures r.Ok? ==> doc.Parsed? && r.value.TypeName() == doc.root.tag
    ensures doc.Parsed? && doc.root.tag == "command" ==> r == Ok(ParseCommand(doc.root))
    ensures doc.Parsed? && doc.root.tag == "error" ==> r == Ok(ParseErrorResponse(doc.root))
    ensures doc.Parsed? && doc.root.tag == "notify" ==>
              match ParseNotify(doc.root)
              case Some(resp) => r == Ok(resp)
              case None => r == Err(MalformedContent)
    ensures doc.Parsed? && doc.root.tag == "transponder" ==>
              match ParseTransponder(doc.root)
              case Some(data) => r == Ok(TransponderResp(data))
              case None => r == Err(MalformedContent)
  {
    match doc
    case Malformed => Err(InvalidXml)
    case Parsed(root) =>
      if root.tag !in ResponseTypes then Err(UnknownResponseType(root.tag))
      else if root.tag == "transponder" then
        match ParseTransponder(root)
        case None => Err(MalformedContent)
        case Some(data) => Ok(TransponderResp(data))
      else if root.tag == "command" then Ok(ParseCommand(root))
      else if root.tag == "notify" then
        match ParseNotify(root)
        case None => Err(MalformedContent)
        case Some(resp) => Ok(resp)
      else Ok(ParseErrorResponse(root))
  }

  /** A command reply carrying status s and data d parses back to exactly (s, d). */
  lemma CommandResponseRoundTrip(s: string, d: Attrs, children: seq<Element>)
    requires "status" !in d
    ensures ParseResponse(Parsed(Element("command", d["status" := s], None, children))) == Ok(CommandResp(s, d))
  {
    assert "command" in ResponseTypes;
    assert d["status" := s] - {"status"} == d;
  }

  /** ResponseParser.parse_transponder_response. */
  function ParseTransponderResponse(resp: Response): (r: Option<Transponder>)
    ensures r.Some? <==> resp.TypeName() == "transponder"
    ensures r.Some? ==> r.value == NewTransponder(resp.fields)
  {
    if resp.TransponderResp? then Some(NewTransponder(resp.fields)) else None
  }
}
