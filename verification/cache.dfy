/**
 * `PropertyCache`: values stamped with the time they were stored, readable
 * only while younger than the time-to-live. The clock (`time.time()`) is a
 * parameter `now`, in seconds.
 */
module Cache {
  import opened DeviceStore

  datatype Entry = Entry(value: Value, stamp: real)

  datatype PropertyCache = PropertyCache(entries: map<string, Entry>, ttl: real)

  /** `PropertyCache()` uses a 60-second time-to-live. */
  const DefaultTtl: real := 60.0

  function NewCache(ttl: real): (c: PropertyCache)
    ensures c.entries == map[] && c.ttl == ttl
  {
    PropertyCache(map[], ttl)
  }

  /** An entry is live while its age is strictly below the time-to-live. */
  predicate Live(c: PropertyCache, name: string, now: real) {
    name in c.entries && now - c.entries[name].stamp < c.ttl
  }

  /** set: store the value stamped with the current time, replacing any entry. */
  function Set(c: PropertyCache, name: string, value: Value, now: real): (r: PropertyCache)
    ensures r.ttl == c.ttl
    ensures name in r.entries && r.entries[name].value == value
    ensures Live(r, name, now) <==> c.ttl > 0.0
    ensures forall m :: m != name ==> (m in r.entries <==> m in c.entries)
    ensures forall m :: m != name && m in c.entries ==> r.entries[m] == c.entries[m]
  {
    c.(entries := c.entries[name := Entry(value, now)])
  }

  /** The cache after a read, and the value read. */
  datatype Lookup = Lookup(cache: PropertyCache, value: Value)

  /**
   * get: a live entry's value; otherwise the default, and an expired entry
   * is removed on the way.
   */
  function Get(c: PropertyCache, name: string, default: Value, now: real): (r: Lookup)
    ensures Live(c, name, now) ==> r.value == c.entries[name].value && r.cache == c
    ensures !Live(c, name, now) ==> r.value == default && name !in r.cache.entries
    ensures r.cache.ttl == c.ttl
    ensures r.cache.entries - {name} == c.entries - {name}
  {
    if name in c.entries then
      if now - c.entries[name].stamp < c.ttl then Lookup(c, c.entries[name].value)
      else Lookup(c.(entries := c.entries - {name}), default)
    else Lookup(c, default)
  }

  /** The cache after a query, and the query's answer. */
  datatype Probe = Probe(cache: PropertyCache, present: bool)

  /** has: whether a live entry exists; an expired one is removed on the way. */
  function Has(c: PropertyCache, name: string, now: real): (r: Probe)
    ensures r.present <==> Live(c, name, now)
    ensures r.present ==> r.cache == c
    ensures !r.present ==> name !in r.cache.entries
    ensures r.cache.ttl == c.ttl
    ensures r.cache.entries - {name} == c.entries - {name}
  {
    if name in c.entries then
      if now - c.entries[name].stamp < c.ttl then Probe(c, true)
      else Probe(c.(entries := c.entries - {name}), false)
    else Probe(c, false)
  }

  /** delete: answers whether an entry, live or expired, was present. */
  function Delete(c: PropertyCache, name: string): (r: Probe)
    ensures r.present <==> name in c.entries
    ensures name !in r.cache.entries
    ensures r.cache.entries == c.entries - {name} && r.cache.ttl == c.ttl
  {
    if name in c.entries then Probe(c.(entries := c.entries - {name}), true)
    else Probe(c, false)
  }

  /** clear: no entries, same time-to-live. */
  function Clear(c: PropertyCache): (r: PropertyCache)
    ensures r.entries == map[] && r.ttl == c.ttl
  {
    c.(entries := map[])
  }

  /** set_ttl: entries keep their stamps, so liveness is judged against the new bound. */
  function SetTtl(c: PropertyCache, ttl: real): (r: PropertyCache)
    ensures r.entries == c.entries && r.ttl == ttl
  {
    c.(ttl := ttl)
  }

  function GetTtl(c: PropertyCache): real {
    c.ttl
  }

  /** A value just stored reads back, unless the time-to-live is not positive. */
  lemma SetThenGet(c: PropertyCache, name: string, value: Value, default: Value, now: real)
    ensures Get(Set(c, name, value, now), name, default, now).value == (if c.ttl > 0.0 then value else default)
  {
  }

  /** has and get agree on liveness and leave the cache in the same state. */
  lemma HasAgreesWithGet(c: PropertyCache, name: string, default: Value, now: real)
    ensures Has(c, name, now).cache == Get(c, name, default, now).cache
    ensures Has(c, name, now).present ==> Get(c, name, default, now).value == c.entries[name].value
    ensures !Has(c, name, now).present ==> Get(c, name, default, now).value == default
  {
  }

  /** An entry stays readable until ttl seconds after it was stored, and not after. */
  lemma ExpiryBoundary(c: PropertyCache, name: string, value: Value, t: real, later: real, default: Value)
    requires t <= later
    ensures Get(Set(c, name, value, t), name, default, later).value == (if later - t < c.ttl then value else default)
  {
  }

  /** Once an expired entry has been observed it is gone for good. */
  lemma ExpiredStaysGone(c: PropertyCache, name: string, default: Value, now: real, later: real)
    requires !Live(c, name, now)
    ensures !Has(Get(c, name, default, now).cache, name, later).present
  {
  }
}
