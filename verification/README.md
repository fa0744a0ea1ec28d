# pymotivaxmc2 core in Dafny

A model of the sequential core of pymotivaxmc2, the asyncio client for Emotiva
XMC processors, with its properties proved. The client talks to the device over
UDP: XML requests go out, and XML responses and notifications come back. It
keeps the device's properties in an observable store. The model covers the
deterministic bookkeeping around that traffic:

- **Notifier** (`notifier.dfy`): `NotificationFilter.matches`, the listener
  registry with its at-most-once delivery, the parser for the three
  notification roots (`emotivaNotify`, `emotivaMenuNotify`, `emotivaBarNotify`,
  including both property shapes), and the dispatcher.
- **Protocol** (`protocol.dfy`): protocol-version parsing and compatibility,
  `TransponderResponse`, the request builders at element-tree level, and
  `ResponseParser` with its per-type classifiers.
- **WireUtils** (`utils.dfy`): the minimal `Request` builder, tolerant parsing,
  root-tag validation and command-attribute extraction.
- **DeviceStore** (`state.dfy`): `DeviceState`, a change-detecting property map
  with per-name listeners, and `StateChangeDetector`, which multiplexes watchers
  onto one internal listener.
- **Cache** (`cache.dfy`): `PropertyCache`, whose entries expire after a
  time-to-live.
- **Handlers** (`handlers.dfy`): `MenuStateHandler`, `BarNotificationHandler` and
  the feature part of `DeviceConfigState`, each mirroring its fields into the
  device state.
- **Sockets, Connections, Executor** (`network.dfy`): `SocketManager`'s key map,
  `ConnectionManager`'s per-device state machine, and `CommandExecutor`'s retry
  loop, run against a scripted sequence of transport outcomes.

Shared pieces:

- `xml.dfy` is an abstract element tree: tag, attribute map, optional text,
  children. A received document is either parsed or malformed.
- `numerals.dfy` holds Python's `str(int)` and `int(str)`, with the round trip
  between them.
- `wrappers.dfy` holds `Option`, `Result` and duplicate-free sequences.

Listener and callback objects are opaque numeric handles. Calling one is an
event in the log an operation returns. Clocks are parameters: seconds as reals
for the cache, integer milliseconds for the connection monitor. Python sets of
listeners are duplicate-free sequences in insertion order.

## Model

| member | source | states |
|---|---|---|
| Notifier.FilterTypeOf | pymotivaxmc2/notifier.py:82-88 | Every notification kind is the image of exactly one filter type under the translation table (STANDARD to PROPERTY, MENU to MENU, and so on). |
| Notifier.KindsOf | pymotivaxmc2/notifier.py:91-93 | The translated type list contains a kind exactly when that kind's filter type is listed. |
| Notifier.Matches | pymotivaxmc2/notifier.py:67-107 | A non-empty IP list rejects other senders, and a non-empty type list rejects kinds not listed. A filter with no criteria accepts everything. Once IP and type pass, the filter accepts exactly when the property-name criterion does not apply or some listed name is a key of the notification's properties. The criterion applies only to a non-empty list on a PROPERTY notification that carries properties. |
| Notifier.EmptyRegistry | pymotivaxmc2/notifier.py:117-121 | A new registry satisfies the registry invariant: a duplicate-free iteration order over exactly the registered listeners. |
| Notifier.Register | pymotivaxmc2/notifier.py:132-140 | The invariant is kept. The listener has one entry, whose filter list grows by the filter only when one is given. Other listeners are unchanged, and a known listener keeps its place in the order. |
| Notifier.Unregister | pymotivaxmc2/notifier.py:149-152 | The invariant is kept. Exactly that listener is removed, and every other listener's filters are unchanged. |
| Notifier.Deliveries | pymotivaxmc2/notifier.py:162-178 | A listener is in the call log exactly when it is in the iteration order and has no filters or a matching one. A duplicate-free order gives a duplicate-free log. |
| Notifier.Notify | pymotivaxmc2/notifier.py:161-178 | Each registered listener that wants the notification is called exactly once, and no other listener is called. |
| Notifier.SpecialKind | pymotivaxmc2/notifier.py:206-213 | The result is None exactly when no child is a keepalive or goodbye marker (a bare tag, or a `property` child of that name). Otherwise it is the kind of the first marker child. |
| Notifier.CollectPropertiesKeys | pymotivaxmc2/notifier.py:216-224 | The properties map's keys are exactly the names of the named `property` children and the tags of the other children. |
| Notifier.CollectPropertiesValues | pymotivaxmc2/notifier.py:216-224 | The value under a key is the attribute map of the last child contributing that key. |
| Notifier.DualShapeAgreement | pymotivaxmc2/notifier.py:217-224 | Rewriting every legacy tag-named child into its `<property name=…>` form keeps the same keys. Each value gains only the `name` attribute. |
| Notifier.BarEntries | pymotivaxmc2/notifier.py:264-285 | A kept entry comes from some `bar` element, every element of a kept type contributes one, and there are never more entries than elements. |
| Notifier.BarEntryOf | pymotivaxmc2/notifier.py:266-285 | Only the types `off`, `bigText` and `bar` give an entry. `bigText` carries its text (default ""). `bar` carries text, value (default "0"), min ("0"), max ("100") and units (""). |
| Notifier.BarEntriesAppend | pymotivaxmc2/notifier.py:264-285 | Entries follow document order: the entries of two runs of elements are the first run's entries followed by the second's. |
| Notifier.MenuRowOf | pymotivaxmc2/notifier.py:243-254 | A row carries its `number` (default "0") and, in order, the attribute map of each of its `col` children. |
| Notifier.ParseNotification | pymotivaxmc2/notifier.py:199-292 | A notification results exactly when the document parses and the root is one of the three notification tags, and it carries the sender's IP. `emotivaNotify` gives the first marker's kind with no data. Without a marker it gives PROPERTY with the root's `sequence` (default "0") and the collected properties map. A menu root gives MENU with the sequence and one row per `row` child, in order. A bar root gives BAR with the sequence and the entries of its `bar` children. |
| Notifier.ParsedPropertyNotification | pymotivaxmc2/notifier.py:215-233 | In a parsed property notification, a key is present exactly when some child is a named `property` of that name or a legacy child with that tag. Its value is the attribute map of the last such child. |
| Notifier.Dispatch | pymotivaxmc2/notifier.py:320-324 | When parsing fails, no listener is called. Otherwise exactly the registered listeners that want the parsed notification are called, each once. |
| Protocol.ParseVersion | pymotivaxmc2/protocol.py:82-97 | The result is (1, 0), or the two halves around the only dot when `int()` accepts both. Any such split determines the result, and a string without a dot gives (1, 0). |
| Protocol.VersionRoundTrip | pymotivaxmc2/protocol.py:92-94 | Rendering "major.minor" and parsing it gives back (major, minor). |
| Protocol.CompatibleRendered | pymotivaxmc2/protocol.py:100-115 | Two versions with the same major are compatible exactly when the device minor is at least the required minor. |
| Protocol.CompatibleReflexive | pymotivaxmc2/protocol.py:111-115 | Every version string is compatible with itself. |
| Protocol.CompatibleTransitive | pymotivaxmc2/protocol.py:111-115 | Compatibility is transitive. |
| Protocol.PortsOf | pymotivaxmc2/protocol.py:55-62 | The ports are exactly the attributes of a dict-valued `ports` entry that `int()` accepts, each with its integer value. |
| Protocol.PortsRoundTrip | pymotivaxmc2/protocol.py:55-62 | A `ports` dict of rendered integers yields exactly those ports. |
| Protocol.NewTransponder | pymotivaxmc2/protocol.py:43-70 | Name and model default to "" and version (from `protocol`) to "1.0". The ports are exactly those of `PortsOf`: the `int()`-accepted attributes of a dict-valued `ports` entry. The keepalive interval is present exactly when the entry is a string that `int()` accepts, and then it is that integer. |
| Protocol.ParamElement | pymotivaxmc2/protocol.py:210-227 | A dict parameter becomes a child with the stringified entries as attributes. A list parameter becomes a child with one `item` per element, in list order. A dict item carries its entries as `str()` attributes and no text. A scalar item carries its `str()` as text and no attributes. |
| Protocol.ParamChildrenOrder | pymotivaxmc2/protocol.py:209-227 | There is one child per dict or list parameter, in parameter order: a parameter's child comes right after those of the dict and list parameters before it. |
| Protocol.ScalarAttrsSpec | pymotivaxmc2/protocol.py:228-230 | The root attributes from scalar parameters are exactly the scalar keys, each with its `str()` value. |
| Protocol.ParamChildrenSpec | pymotivaxmc2/protocol.py:209-227 | The root's children are exactly the elements of the dict and list parameters. |
| Protocol.FormatRequest | pymotivaxmc2/protocol.py:179-230 | The root tag is the command type. Its attribute keys are exactly the scalar parameters' keys, plus `protocol` for "discover". For "discover", `protocol` holds the given version (default "1.0") unless a scalar parameter of that name overrides it. Scalar values are rendered with `str()` (None as "None", booleans as "True"/"False"). The children are exactly the elements of the dict and list parameters, one per such parameter and in the order of the params dict. |
| Protocol.IntParamReadBack | pymotivaxmc2/protocol.py:228-230 | An integer parameter read back from the built tree with `int()` gives the integer. |
| Protocol.ControlParams | pymotivaxmc2/protocol.py:257-263 | The parameters are all scalar with distinct keys. Their attributes are command and value, plus ack="true" only when ack is set. |
| Protocol.FormatControlRequest | pymotivaxmc2/protocol.py:245-265 | The result is a `control` root without children whose attributes are exactly command and value, plus ack="true" when ack is set. |
| Protocol.FormatPingRequest | pymotivaxmc2/protocol.py:268-282 | The result is a `discover` root with exactly `protocol` (the given version, default "1.0") and ping="true". |
| Protocol.Lists | pymotivaxmc2/protocol.py:367-375 | A complex child's per-tag lists have a key exactly for each grandchild tag that is not already an attribute. |
| Protocol.TransponderDataShape | pymotivaxmc2/protocol.py:337-385 | A transponder parse fails exactly when some child fails (a grandchild appending to an attribute key). Otherwise the data keys are the root attributes plus the child tags. |
| Protocol.TransponderDataFails | pymotivaxmc2/protocol.py:357-383 | The data dict is missing exactly when some child cannot be converted. |
| Protocol.TransponderDataKeys | pymotivaxmc2/protocol.py:353-383 | A successful parse has a key for each root attribute and each child tag, and no other key. |
| Protocol.ParseCommand | pymotivaxmc2/protocol.py:388-411 | The status is "ok" unless a `status` attribute overrides it. The data holds exactly the other attributes, unchanged. |
| Protocol.PropertyData | pymotivaxmc2/protocol.py:444-449 | A property's data has `value` (default "") and never `name`. |
| Protocol.NamedProperties | pymotivaxmc2/protocol.py:439-451 | The keys are exactly the non-empty `name` attributes. |
| Protocol.NamedPropertiesValues | pymotivaxmc2/protocol.py:439-451 | The value under a name is the data of the last property carrying it. |
| Protocol.ParseNotify | pymotivaxmc2/protocol.py:414-493 | The parse fails exactly for a menu whose position `int()` rejects. The status is "ok", and `notify_type` is present exactly when the `type` attribute is non-empty. A property notification carries the named properties of its `properties` children. A menu carries `id` (default "") and the integer position, with the `items` children's entries as items. A bar notification carries its `bar` children's attributes. Any other type has no body. |
| Protocol.ItemsOf | pymotivaxmc2/protocol.py:463-473 | A menu item is exactly the attribute map of some child of some `items` child. |
| Protocol.BarsOf | pymotivaxmc2/protocol.py:478-491 | The bars are the attribute maps of the `bar` children, one each, in document order. |
| Protocol.PropertyNotifyRoundTrip | pymotivaxmc2/protocol.py:436-453 | A property notification built from distinct named values parses back to exactly those names, each mapped to {"value": v}. |
| Protocol.ParseErrorResponse | pymotivaxmc2/protocol.py:496-518 | The status is "error", the message defaults to "Unknown error", and the code is present exactly when the attribute is. |
| Protocol.ParseResponse | pymotivaxmc2/protocol.py:294-334 | Malformed XML and unknown root tags are errors. A command root gives exactly `_parse_command_response`'s result and an error root `_parse_error_response`'s. A notify root gives the notification classifier's result, or an error when it fails. A transponder root gives its data dict, or an error when a child collides. |
| Protocol.CommandResponseRoundTrip | pymotivaxmc2/protocol.py:388-411 | A command reply carrying status s and data d parses back to exactly (s, d). |
| Protocol.ParseTransponderResponse | pymotivaxmc2/protocol.py:521-536 | A transponder record results exactly for a transponder response, built from its data. |
| WireUtils.FormatRequest | pymotivaxmc2/utils.py:14-32 | The result is a `Request` root with exactly one child, named after the command and without children. The child's attribute keys are the parameter keys, with `str()` values. |
| WireUtils.ParseResponse | pymotivaxmc2/utils.py:34-48 | The result is None exactly for malformed input, and otherwise the root. |
| WireUtils.ValidateResponse | pymotivaxmc2/utils.py:50-65 | Validation holds exactly when a document is present and its root tag is the expected one. |
| WireUtils.ExtractCommandResponse | pymotivaxmc2/utils.py:67-86 | A result needs a `Response` root and comes from a child with the command's tag. A result exists whenever such a child exists. |
| WireUtils.ParseThenValidate | pymotivaxmc2/utils.py:44-65 | Parsing then validating accepts exactly the well-formed documents with the expected root. |
| WireUtils.EchoedRequestRoundTrip | pymotivaxmc2/utils.py:78-86 | Extraction from a request echoed under a `Response` root recovers every parameter's `str()` value, and no other key. |
| WireUtils.ExtractTakesFirst | pymotivaxmc2/utils.py:78-86 | The first child with the command's tag is the one extracted. |
| DeviceStore.Fanout | pymotivaxmc2/state.py:62-69 | Each listener, in order, gets one (name, old, new) call. |
| DeviceStore.SetProperty | pymotivaxmc2/state.py:33-71 | The result is true exactly when the value differs from the stored one (missing reads as None). When unchanged, the state is the same and no listener is called. Otherwise the value is stored and other names are untouched. Each listener of that name gets exactly one (name, old, new) call, and nobody else is called. |
| DeviceStore.GetProperty | pymotivaxmc2/state.py:73-84 | The stored value when present, and the default otherwise. |
| DeviceStore.DeletePropertyAsWritten | pymotivaxmc2/state.py:112-141 | The call raises exactly when the name is missing. Otherwise it agrees with the corrected delete. |
| DeviceStore.DeleteProperty | pymotivaxmc2/state.py:112-141 | The property is removed and nothing else is. The result is true exactly when it existed and had listeners. Each listener gets one (name, old, None) call, and a valid state gives no repeated call. A missing name changes nothing and calls no one. |
| DeviceStore.DeleteMissingRaises | pymotivaxmc2/state.py:122-141 | Deleting `last_bar` from a fresh state raises as written, while the corrected delete is a silent no-op. |
| DeviceStore.DeleteCorrectionConservative | pymotivaxmc2/state.py:122-141 | Whenever the name is present, the written and corrected deletes agree. |
| DeviceStore.AddListener | pymotivaxmc2/state.py:162-177 | Listener sets stay non-empty and duplicate-free. The name's set gains exactly the listener, re-adding is a no-op, and other names and properties are unchanged. |
| DeviceStore.RemoveListener | pymotivaxmc2/state.py:179-203 | The result is true exactly when the listener was registered for the name. The set loses exactly that listener, and the name's entry stays exactly when another listener remains. Nothing else changes. |
| DeviceStore.ClearListeners | pymotivaxmc2/state.py:205-216 | With no name, every set is dropped. With a name, only that set is dropped. Properties are untouched. |
| DeviceStore.SetThenGet | pymotivaxmc2/state.py:33-84 | A read after a write returns the written value, and repeating the same write reports no change. |
| DeviceStore.ListenerHearsOwnName | pymotivaxmc2/state.py:57-69 | On a change, a listener is called exactly when it listens to that name. |
| DeviceStore.AddWatcher | pymotivaxmc2/state.py:358-380 | The internal listener is registered for exactly the watched names. The first watcher of a name registers it on the device state, and later watchers only join the set. |
| DeviceStore.RemoveWatcher | pymotivaxmc2/state.py:382-410 | The result is true exactly when the callback was watching the name. The last watcher's removal also removes the internal listener, and the link invariant is kept. |
| DeviceStore.OnPropertyChanged | pymotivaxmc2/state.py:412-435 | Each current watcher of the name gets one (name, old, new) call. |
| DeviceStore.ChangeReachesWatchers | pymotivaxmc2/state.py:369-435 | When a property changes, the detector's listener is called exactly when the name has watchers. |
| DeviceStore.AnnouncedMembers | pymotivaxmc2/state.py:33-71 | A run of writes announces a call exactly for a name of the run whose value differs between the states before and after the run, to each listener of that name, carrying the old and new value. A valid state gives no repeated call. |
| DeviceStore.AnnouncedConcat | pymotivaxmc2/state.py:33-71 | Two runs of writes in a row make the calls of the joined run. This needs the second run to leave the first run's names as the first left them, and the first run to leave the second run's other names as they were. |
| DeviceStore.AnnouncedCons | pymotivaxmc2/state.py:33-71 | A write followed by a run makes the calls of the longer run. This needs the run to leave the written name as the write left it, and the write to leave the run's other names as they were. |
| DeviceStore.AnnouncedStep | pymotivaxmc2/state.py:33-71 | A run followed by one more write makes the calls of the longer run, when the run wrote that name with the same value if at all. |
| DeviceStore.AnnouncedSplit | pymotivaxmc2/state.py:33-71 | The calls of a run split in two are those of the first part, then those of the second part's names not written in the first. |
| Cache.NewCache | pymotivaxmc2/state.py:227-236 | A new cache is empty with the given time-to-live. |
| Cache.Set | pymotivaxmc2/state.py:238-247 | The value is stored, stamped now, and is live exactly when the time-to-live is positive. Other entries are untouched. |
| Cache.Get | pymotivaxmc2/state.py:249-271 | A live entry's value is returned and nothing changes. Otherwise the default is returned and any expired entry is removed. No other key changes. |
| Cache.Has | pymotivaxmc2/state.py:273-294 | The answer is true exactly for a live entry. Otherwise any expired entry is removed, and no other key changes. |
| Cache.Delete | pymotivaxmc2/state.py:296-311 | The answer is true exactly when an entry, live or expired, was present, and it is removed. |
| Cache.Clear | pymotivaxmc2/state.py:313-316 | No entries remain, and the time-to-live is kept. |
| Cache.SetTtl | pymotivaxmc2/state.py:318-326 | Entries keep their stamps under the new time-to-live. |
| Cache.SetThenGet | pymotivaxmc2/state.py:238-271 | A stored value reads back at once when the time-to-live is positive. |
| Cache.HasAgreesWithGet | pymotivaxmc2/state.py:249-294 | `has` and `get` agree on liveness and leave the same cache. |
| Cache.ExpiryBoundary | pymotivaxmc2/state.py:260-271 | A value stays readable until ttl seconds after it was stored, and not after. |
| Cache.ExpiredStaysGone | pymotivaxmc2/state.py:260-294 | Once an expired entry has been observed, it is gone for good. |
| Handlers.Then | pymotivaxmc2/state.py:33-71 | One more `set_property`: the name reads the value, and other names and listeners are unchanged. The calls made so far stay, as a prefix. The new calls are exactly the name's listeners, each once with (name, old, new), when the value changed, and none when it did not. |
| Handlers.ThenAnnounced | pymotivaxmc2/state.py:33-71 | After a run that wrote each name with one value, one more `set_property` makes the calls of the longer run. |
| Handlers.Writes | pymotivaxmc2/state.py:33-71 | A run of `set_property` calls on distinct names leaves each name with its value and every other property unchanged. Its calls follow those made before, and are the calls of the run. Each written name whose value changed calls each of its listeners once with (name, old, new), names in write order, as `DeviceStore.Announced` defines. |
| Handlers.MenuWritten | pymotivaxmc2/state.py:474-478 | Writing the id, empty items and position 0 leaves those values, changes only menu properties, and makes the calls of that run. |
| Handlers.SetCurrentMenu | pymotivaxmc2/state.py:459-478 | The id is always stored. Items and position reset to [] and 0, in the handler and the device state, exactly when the id changes. Only menu properties change, and the mirror is kept. The listener calls are those of writing `menu_id`, then `menu_items` and `menu_position` when the id changed. Each written name whose value changed calls each of its listeners once with (name, old, new), names in write order, as `DeviceStore.Announced` defines. |
| Handlers.UpdateMenuItems | pymotivaxmc2/state.py:489-500 | The items are stored and published, only menu properties change, and the mirror is kept. Each listener of `menu_items` is called once with (name, old, new) when the list changed, and no one else is called. |
| Handlers.SetMenuPosition | pymotivaxmc2/state.py:511-522 | The position is stored and published, only menu properties change, and the mirror is kept. Each listener of `menu_position` is called once with (name, old, new) when the position changed, and no one else is called. |
| Handlers.ClearMenu | pymotivaxmc2/state.py:533-543 | All three fields reset, and the device state mirrors them whatever came before. Only menu properties change. The listener calls are those of writing `menu_id`, `menu_items` and `menu_position` in that order. Each written name whose value changed calls each of its listeners once with (name, old, new), names in write order, as `DeviceStore.Announced` defines. |
| Handlers.ClearMenuTwiceSilent | pymotivaxmc2/state.py:533-543 | Clearing an already cleared menu calls no listener. |
| Handlers.BarKeyInjective | pymotivaxmc2/state.py:600-603 | Distinct bar ids have distinct property names, none of them `last_bar`. |
| Handlers.UpdateBar | pymotivaxmc2/state.py:564-603 | Identical data under the same id changes nothing and calls no one. Otherwise the bar is stored and published under its own name and then as `last_bar`, and the listener calls are those of these two writes. Each written name whose value changed calls each of its listeners once with (name, old, new), names in write order, as `DeviceStore.Announced` defines. No other property changes. A state that showed every tracked bar under its name still does. |
| Handlers.GetBar | pymotivaxmc2/state.py:605-615 | The result is the record exactly when the id is tracked. |
| Handlers.GetLastBar | pymotivaxmc2/state.py:617-628 | The result is None exactly when there are no bars, and otherwise the record of the largest id. |
| Handlers.ClearBars | pymotivaxmc2/state.py:630-643 | With the corrected delete: no bar is tracked afterwards, and exactly the bar properties and `last_bar` are deleted. Each listener of each deleted property that existed gets a (name, old, None) call, and no other call is made. In a valid state no call repeats. |
| Handlers.ClearBarsAsWritten | pymotivaxmc2/state.py:630-643 | As written, the call raises exactly when a tracked bar's property or `last_bar` is missing, as on a fresh handler. The bars are forgotten either way. Without a raise it deletes and announces as the corrected version does. With one, the deletions made before it stay made: only bar properties are gone (all of them when `last_bar` was the missing one), every other property is unchanged, and each gone property was announced to each of its listeners exactly as a delete does. |
| Handlers.FeatureKeyInjective | pymotivaxmc2/state.py:707 | Distinct features have distinct property names. |
| Handlers.SetSupportedFeature | pymotivaxmc2/state.py:692-707 | The feature is added or removed as the flag says, and the flag is published under its own name only. Each listener of that name is called once with (name, old, new) when the flag changed, after the calls made before. |
| Handlers.SetThenSupported | pymotivaxmc2/state.py:700-719 | After setting a feature, `is_feature_supported` answers the flag just set. |
| Handlers.Lower | pymotivaxmc2/state.py:733 | `str.lower` maps ASCII capitals to small letters and keeps every other character. |
| Handlers.ModelOf | pymotivaxmc2/state.py:733 | A missing model reads as "". A string model is lower-cased. Any other model raises. |
| Handlers.FeaturesFor | pymotivaxmc2/state.py:735-750 | The features are power, volume, mute and input, plus zone2, menu and audio_mode exactly when the model contains "xmc". |
| Handlers.EnableAll | pymotivaxmc2/state.py:750-751 | Every listed feature is added and published as true, and nothing else is touched. The listener calls are those of writing the flags in list order. Each written name whose value changed calls each of its listeners once with (name, old, new), names in write order, as `DeviceStore.Announced` defines. |
| Handlers.EnableAllHolding | pymotivaxmc2/state.py:700-751 | A caller already holding the lock deadlocks on the first feature. Without the lock, every feature is enabled in turn. |
| Handlers.UpdateSupportedFeatures | pymotivaxmc2/state.py:730-751 | A non-string model raises before anything changes. A caller holding the lock deadlocks. Otherwise the features are the old ones plus those of the model, all published as true, and nothing else is touched. The listener calls are those of writing the flags in feature order. Each written name whose value changed calls each of its listeners once with (name, old, new), names in write order, as `DeviceStore.Announced` defines. |
| Handlers.XmcInAnyCase | pymotivaxmc2/state.py:733-747 | The model test ignores case: "XMC-2" enables zone2. |
| Handlers.InfoKeyInjective | pymotivaxmc2/state.py:678 | Distinct info keys have distinct property names. |
| Handlers.UpdateWith | pymotivaxmc2/state.py:674 | `dict.update`: the keys are the old keys plus the new ones. New keys take their values, and the others keep theirs. |
| Handlers.PublishInfo | pymotivaxmc2/state.py:677-678 | Each item is published as `device_info_<key>`, and no other property changes. The listener calls are those of these writes in the dict's order. Each written name whose value changed calls each of its listeners once with (name, old, new), names in write order, as `DeviceStore.Announced` defines. |
| Handlers.UpdateDeviceInfoAsWritten | pymotivaxmc2/state.py:665-681 | As written, the call never returns. It deadlocks exactly when the merged model is usable and raises otherwise. |
| Handlers.UpdateDeviceInfo | pymotivaxmc2/state.py:665-681 | The call never deadlocks, and raises exactly for a non-string model. The info is merged and every item is published. On return, the features follow the merged model and are published as true. The listener calls are those of the info writes, then, on return, those of the flag writes. Each written name whose value changed calls each of its listeners once with (name, old, new), names in write order, as `DeviceStore.Announced` defines. |
| Handlers.InfoThenFeaturesAnnounced | pymotivaxmc2/state.py:677-681 | The calls of update_device_info are those of the info writes followed by those of the flag writes, as one run. |
| Handlers.DeviceInfoDeadlocks | pymotivaxmc2/state.py:672-751 | Reporting an XMC-2 model to a fresh config deadlocks as written. The corrected call enables zone2. |
| Sockets.GetSocket | pymotivaxmc2/network.py:71-109 | A cached key returns its socket and changes nothing. A new key gets a fresh handle for "udp" or "tcp" and raises ValueError for any other type, storing nothing. A new socket changes only the socket cache. |
| Sockets.GetSocketCached | pymotivaxmc2/network.py:87-91 | Asking again for the same key returns the same socket and changes nothing. |
| Sockets.CloseSocket | pymotivaxmc2/network.py:111-129 | Only that key's socket is dropped. Transports, protocols, callbacks and tasks are untouched. |
| Sockets.UnregisterDevice | pymotivaxmc2/network.py:281-305 | The device's callback is removed, along with exactly the sockets whose key starts with `ip:`. Transports, protocols and tasks are untouched. |
| Sockets.KeyMatchesOwnHostOnly | pymotivaxmc2/network.py:296-298 | For colon-free addresses, a key starts with `ip:` exactly when it was made for that host. |
| Sockets.Cleanup | pymotivaxmc2/network.py:325-357 | Every socket, transport, protocol, callback and task is dropped. |
| Sockets.RegisterDeviceHolding | pymotivaxmc2/network.py:259-279 | The callback is stored. A port without a listener gets a new endpoint, but a caller already holding the lock deadlocks there. |
| Sockets.RegisterDeviceAsWritten | pymotivaxmc2/network.py:259-279 | As written, the call deadlocks exactly when the port has no listener yet. Otherwise it only stores the callback. |
| Sockets.RegisterDevice | pymotivaxmc2/network.py:259-279 | The callback is stored, the port ends up with a listener, existing listeners are kept, and the socket cache is untouched. |
| Sockets.RegisterDeviceDeadlocks | pymotivaxmc2/network.py:236-279 | The first device registered on a new manager deadlocks as written. |
| Sockets.RegisterThenUnregister | pymotivaxmc2/network.py:259-305 | Unregistering forgets the callback registration. |
| Connections.RegisterDevice | pymotivaxmc2/network.py:654-672 | The keepalive interval is always recorded. A new device starts DISCONNECTED, stamped now and monitored. A known one keeps its state. |
| Connections.UnregisterDevice | pymotivaxmc2/network.py:674-696 | The device leaves every map. |
| Connections.GetConnectionState | pymotivaxmc2/network.py:821-831 | An unknown device reads as DISCONNECTED. |
| Connections.SetConnectionState | pymotivaxmc2/network.py:760-784 | An unknown device or an unchanged state changes nothing. Otherwise the state is stored and each callback is called once, in order, with the new state. |
| Connections.UpdateActivity | pymotivaxmc2/network.py:746-784 | A known device is stamped now and becomes CONNECTED. Unless it already was, each of its callbacks is called once with (ip, CONNECTED), in list order. An unknown device is ignored. Other devices' states, the callbacks, the keepalive intervals and the monitored set do not change. |
| Connections.RegisterCallback | pymotivaxmc2/network.py:786-803 | A callback is added at most once, at the end of the device's list. A new callback of a known device is called at once with the current state. Other devices' lists and all states are unchanged. |
| Connections.UnregisterCallback | pymotivaxmc2/network.py:805-819 | The callback is removed and the others keep their order. The device's entry stays exactly when another callback remains. |
| Wrappers.Insert | pymotivaxmc2/network.py:798-799 | A new callback is appended last, and a present one changes nothing. |
| Wrappers.WithoutAt | pymotivaxmc2/network.py:814-815 | On a duplicate-free list, removing an element drops its one occurrence and keeps the rest in order. |
| Connections.Cleanup | pymotivaxmc2/network.py:833-852 | Every map is emptied, so every device reads as DISCONNECTED. |
| Connections.MonitorCheck | pymotivaxmc2/network.py:720-735 | A CONNECTED or CONNECTING device silent for more than 1.5 keepalive intervals becomes DISCONNECTED, and nothing else in the manager changes. Each of its callbacks is called once, in list order, with (ip, DISCONNECTED). Otherwise nothing changes and no one is called. |
| Connections.FreshActivityNoTimeout | pymotivaxmc2/network.py:726-732 | A device never times out within 1.5 intervals of its last activity. |
| Connections.TimeoutThenActivity | pymotivaxmc2/network.py:730-758 | Activity after a timeout brings the device back to CONNECTED. |
| Executor.FirstAnswer | pymotivaxmc2/network.py:897-905 | The result is the first attempt yielding non-empty bytes, if any does. |
| Executor.LastError | pymotivaxmc2/network.py:909-920 | The result is the error of the last attempt that raised, or no error when none did. |
| Executor.ExecuteCommand | pymotivaxmc2/network.py:873-922 | At most `retries` attempts are made, and the first non-empty response is returned. Otherwise the last OSError is raised, or None when no attempt raised. The backoff 0.1·2^k follows attempt k only when another attempt comes after it. |
| Executor.FirstTryAnswers | pymotivaxmc2/network.py:897-905 | An answer on the first try ends the loop at once. |
| Executor.AnswerBeatsEarlierErrors | pymotivaxmc2/network.py:897-920 | A late answer wins over earlier errors. |

## Left out

- Real I/O is not modelled: `send_packet`, `receive_packet`, datagram endpoints, `close_listening_socket`, `_handle_received_data`, `EmotivaNetworkDiscovery` and `BroadcastListener`. Sockets and endpoints are opaque handles.
- `socket.socket()` failing with OSError in `get_socket`, and exceptions from `close()`, are not modelled.
- XML parsing, UTF-8 decoding and pretty-printing are not modelled. A received document is either an element tree or malformed, and builders produce trees rather than bytes.
- `extract_command_response` looks its child up with an ElementPath expression. The model matches the command as a plain tag.
- asyncio locks and tasks: operations are atomic and sequential. The two re-entrant lock acquisitions are modelled explicitly (see Findings).
- `_monitor_connection` is a polling loop with sleeps. Only one pass of its timeout test is modelled, in integer milliseconds.
- Clocks (`time.time()`) are parameters.
- Python floats are reals, without rounding or NaN.
- Python equality across types (`0 == False`, `1 == 1.0`) is not modelled: values of different kinds always differ.
- `int()` accepts ASCII digits only (with sign, underscores and surrounding whitespace). `str.lower` handles ASCII letters only.
- Listener exceptions are caught and logged in the source. Model listeners never raise, and a coroutine listener counts as one call.
- Python sets of listeners and watchers iterate in an unspecified order. The model uses insertion order.
- Handlers.ClearBarsAsWritten: the bar ids are a set, while the source deletes in dict insertion order. So when the call raises part-way, the model does not say which bar properties were deleted before the raise, only that some subset was, each with its calls.
- Handlers.ClearBars: uses the corrected delete from the state.py:122-141 finding, so a missing property is skipped where the source raises (`Handlers.ClearBarsAsWritten` models that). It deletes the bar properties in an unspecified order where the source uses insertion order, so the order of its calls is not stated.
- Protocol.FormatRequest: float parameter values are not modelled, because Python's shortest round-trip float rendering is out of scope. The string, integer, boolean and None values are. Nor are values whose `str()` is Python's rendering of a container: a tuple or set parameter, which becomes a root attribute through `str(value)`; a list inside a list item; and a dict or list inside a dict item or a dict parameter. Rendering Python container reprs is out of scope.
- WireUtils.FormatRequest: float parameter values are not modelled, for the same reason. Neither are dict or list values, which `str()` would render as Python literals.
- Executor.ExecuteCommand: the transport script must hold an outcome for every permitted attempt.
- DeviceStore.DeleteProperty: the result means "had listeners", as in the source, not "deleted".
- The getters that only read a field (`get_current_menu`, `get_menu_items`, `get_menu_position`, `get_device_info`, `get_properties`, `get_supported_features`, `get_ttl`, `is_feature_supported`, `has_property`) are datatype fields or membership tests. `get_property_async` is `GetProperty`.
- `EmotivaCommand`, `ProtocolVersion.latest`, `controller.py`, `emotiva.py`, `cli.py` and the declaration-only modules are not part of this model.

## Findings

| source | as written | input that shows it | evidently intended | confidence | as-written member | corrected member |
|---|---|---|---|---|---|---|
| pymotivaxmc2/state.py:122-141 | `listeners` and `old_value` are bound only when the name exists, so a missing name raises UnboundLocalError | `clear_bars()` on a handler whose device state has no `last_bar` property, e.g. a fresh one | deleting a missing property is a no-op that returns False | high (not executed) | DeviceStore.DeletePropertyAsWritten, DeviceStore.DeleteMissingRaises, Handlers.ClearBarsAsWritten | DeviceStore.DeleteProperty, Handlers.ClearBars |
| pymotivaxmc2/state.py:672-751 | `update_device_info` holds the config lock while `_update_supported_features` calls `set_supported_feature`, which takes the same non-reentrant `asyncio.Lock` | `update_device_info({"model": "XMC-2"})` on a fresh config state | the info is merged and published and the features follow the model | high (not executed) | Handlers.UpdateDeviceInfoAsWritten, Handlers.DeviceInfoDeadlocks | Handlers.UpdateDeviceInfo |
| pymotivaxmc2/network.py:259-279 | `register_device` holds the manager lock while awaiting `create_listening_socket`, which takes the same lock to record the endpoint | the first `register_device(ip, port, cb)` on a new manager | the callback is stored and the port gets a listener | high (not executed) | Sockets.RegisterDeviceAsWritten, Sockets.RegisterDeviceDeadlocks | Sockets.RegisterDevice |
