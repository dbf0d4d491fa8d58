/** `Rails.cache` as the application uses it: a key/value store with `read`, `exist?`,
    `write` and `delete`. Entries written with a time-to-live may vanish at any moment;
    that is the same change to the store as `delete`, so expiry is modelled by `Delete`. */
module RailsCache {
  import opened Wrappers

  /** Everything the application writes to the cache: the status markers `'pending'` and
      `'failed'`, a per-word score and a job's word-to-score hash. A score is a count of
      hundredths (`0.75` is `Number(75)`). */
  datatype Value = Text(text: string) | Number(hundredths: nat) | Table(entries: map<string, Value>)

  /** `Rails.cache.read(key)`: the stored value, or `nil` for a missing (or expired) key. */
  function Read(store: map<string, Value>, key: string): (r: Option<Value>)
    ensures r.Some? <==> key in store
    ensures r.Some? ==> r.value == store[key]
  {
    if key in store then Some(store[key]) else None
  }

  /** The shared cache. */
  class Cache {
    var entries: map<string, Value>

    constructor ()
      ensures entries == map[]
    {
      entries := map[];
    }

    /** `Rails.cache.write(key, value, expires_in: ...)`: a full-value replace of one key. */
    method Write(key: string, value: Value)
      modifies this
      ensures entries == old(entries)[key := value]
    {
      entries := entries[key := value];
    }

    /** `Rails.cache.delete(key)`, and the expiry of `key`. */
    method Delete(key: string)
      modifies this
      ensures entries == old(entries) - {key}
    {
      entries := entries - {key};
    }
  }
}
