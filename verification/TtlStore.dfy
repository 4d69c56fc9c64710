/** Redis string keys with an expiry.

    One keyspace (the keys sharing a prefix) is a map from the rest of the key to a value and
    the instant at which the key disappears.  An expired entry stays in the map but no read sees it. */
module TtlStore {
  import opened Wrappers

  datatype Entry<+V> = Entry(value: V, expiry: nat)

  type TtlMap<K(==), +V> = map<K, Entry<V>>

  /** GET: the value of a key that has not expired. */
  function Get<K, V>(m: TtlMap<K, V>, key: K, now: nat): Option<V> {
    if key in m && now < m[key].expiry then Some(m[key].value) else None
  }

  /** SET with a time to live. */
  function Put<K, V>(m: TtlMap<K, V>, key: K, value: V, ttl: nat, now: nat): TtlMap<K, V> {
    m[key := Entry(value, now + ttl)]
  }

  /** DEL. */
  function Drop<K, V>(m: TtlMap<K, V>, key: K): TtlMap<K, V> {
    m - {key}
  }
}
