/** The Redis store behind config.RedisClient, reduced to what the code
    relies on: string values under string keys, each with an expiry instant.
    An entry is live while now < expiresAt; an expired entry reads as absent
    whether or not the store has dropped it yet. */
module TtlStore {
  import opened Wrappers

  datatype Entry = Entry(value: string, expiresAt: int)

  type Entries = map<string, Entry>

  /** What a failed GET reports: no live entry (redis.Nil), or the store
      itself could not answer. */
  datatype StoreError = Nil | Unavailable

  predicate Live(m: Entries, key: string, now: int)
  {
    key in m && now < m[key].expiresAt
  }

  /** The value a GET at `now` sees. */
  function Lookup(m: Entries, key: string, now: int): (r: Option<string>)
    ensures r.Some? <==> Live(m, key, now)
    ensures r.Some? ==> r.value == m[key].value
  {
    if Live(m, key, now) then Some(m[key].value) else None
  }

  /** SET key value EX ttl, issued at `now`: the key is overwritten, every
      other key keeps its entry. */
  function Put(m: Entries, key: string, value: string, ttl: nat, now: int): (r: Entries)
    ensures forall t :: Lookup(r, key, t) == (if t < now + ttl then Some(value) else None)
    ensures r - {key} == m - {key}
    ensures key in r
  {
    m[key := Entry(value, now + ttl)]
  }

  /** DEL key: the key is gone, every other key keeps its entry. */
  function Remove(m: Entries, key: string): (r: Entries)
    ensures forall t :: Lookup(r, key, t) == None
    ensures r - {key} == m - {key}
    ensures key !in r
  {
    m - {key}
  }

  /** Keys other than the one written read as before. */
  lemma OtherKeysUnaffected(m: Entries, key: string, other: string, value: string, ttl: nat, now: int, t: int)
    requires other != key
    ensures Lookup(Put(m, key, value, ttl, now), other, t) == Lookup(m, other, t)
    ensures Lookup(Remove(m, key), other, t) == Lookup(m, other, t)
  {
    assert other in Put(m, key, value, ttl, now) - {key} <==> other in m - {key};
    assert other in Remove(m, key) - {key} <==> other in m - {key};
  }

  /** The store client. A call that the store fails is modelled by the
      `fails` input: it reports an error and changes nothing. */
  class Store {
    var entries: Entries

    constructor ()
      ensures entries == map[]
    {
      entries := map[];
    }

    /** GET key */
    method Get(key: string, now: int, fails: bool) returns (r: Result<string, StoreError>)
      ensures fails ==> r == Err(Unavailable)
      ensures !fails ==> (r.Ok? <==> Live(entries, key, now))
      ensures !fails && r.Ok? ==> r.value == entries[key].value
      ensures !fails && r.Err? ==> r.error == Nil
    {
      if fails {
        return Err(Unavailable);
      }
      match Lookup(entries, key, now)
      case None => r := Err(Nil);
      case Some(v) => r := Ok(v);
    }

    /** SET key value EX ttl; go-redis reads a zero expiration as "never
      expire", which no caller here passes. */
    method Set(key: string, value: string, ttl: nat, now: int, fails: bool) returns (err: Option<StoreError>)
      requires ttl > 0
      modifies this
      ensures err.Some? <==> fails
      ensures err.Some? ==> err == Some(Unavailable)
      ensures entries == if fails then old(entries) else Put(old(entries), key, value, ttl, now)
    {
      if fails {
        return Some(Unavailable);
      }
      entries := Put(entries, key, value, ttl, now);
      err := None;
    }

    /** DEL key; its result is ignored by every caller. */
    method Del(key: string)
      modifies this
      ensures entries == Remove(old(entries), key)
    {
      entries := Remove(entries, key);
    }
  }
}
