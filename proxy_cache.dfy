/**
 * The proxy's in-memory origin cache (proxy.py:73-74): file name to the
 * Last-Modified text and the content bytes of the last 200 seen for it.
 */
module ProxyCache {
  import opened Wrappers
  import opened Utf8

  datatype CacheEntry = CacheEntry(lastModified: string, content: Bytes)

  /** `cache.get(name)`. */
  function Get(entries: map<string, CacheEntry>, name: string): (r: Option<CacheEntry>)
    ensures r.Some? <==> name in entries
    ensures r.Some? ==> r.value == entries[name]
  {
    if name in entries then Some(entries[name]) else None
  }

  class OriginCache {
    var entries: map<string, CacheEntry>

    /** The cache starts empty. */
    constructor()
      ensures entries == map[]
    {
      entries := map[];
    }

    function Lookup(name: string): Option<CacheEntry>
      reads this
    {
      Get(entries, name)
    }

    /** `cache[name] = entry`: that key now maps to the entry, and every other key is unchanged. */
    method Store(name: string, entry: CacheEntry)
      modifies this
      ensures entries == old(entries)[name := entry]
      ensures forall other :: other != name ==> Get(entries, other) == Get(old(entries), other)
    {
      entries := entries[name := entry];
    }
  }
}
