/** The TTL store behind both caches. */
module TTLCache {
  import opened Wrappers

  /** expires is None for an item that never expires. */
  datatype Item<+V> = Item(value: V, expires: Option<int>)

  /** When an item set at an instant expires: never, unless the timeout is positive. */
  function Expiry(timeout: int, now: int): Option<int> {
    if timeout > 0 then Some(now + timeout) else None
  }

  predicate Live<V>(item: Item<V>, now: int) {
    item.expires.Some? ==> now <= item.expires.value
  }

  /** An item is found up to and including the instant one timeout after it was set, and for ever without a timeout. */
  lemma LivesForOneTimeout<V>(timeout: int, now: int, value: V, later: int)
    ensures Live(Item(value, Expiry(timeout, now)), later) <==> timeout <= 0 || later - now <= timeout
  {
  }

  /** The items that have not expired. */
  function LiveItems<V>(store: map<string, Item<V>>, now: int): map<string, Item<V>> {
    map k | k in store && Live(store[k], now) :: store[k]
  }

  class Cache<V> {
    const timeout: int
    var store: map<string, Item<V>>

    constructor (timeout: int)
      ensures this.timeout == timeout && store == map[]
    {
      this.timeout := timeout;
      store := map[];
    }

    /** The timeout is positive, and no item was set later than now. */
    ghost predicate Timely(now: int)
      reads this
    {
      timeout > 0 && forall k :: k in store ==> store[k].expires.Some? && store[k].expires.value <= now + timeout
    }

    predicate Hit(now: int, index: string)
      reads this
    {
      index in store && Live(store[index], now)
    }

    /** store.Get: an expired item counts as missing even before it is cleaned up. */
    method Lookup(now: int, index: string) returns (r: Option<V>)
      ensures r == if Hit(now, index) then Some(store[index].value) else None
    {
      if index !in store {
        return None;
      }
      var item := store[index];
      if item.expires.Some? && now > item.expires.value {
        return None;
      }
      return Some(item.value);
    }

    /** store.Set with the default expiration, and Update. */
    method Commit(now: int, index: string, item: V)
      modifies this
      ensures store == old(store)[index := Item(item, Expiry(timeout, now))]
    {
      store := store[index := Item(item, if timeout > 0 then Some(now + timeout) else None)];
    }

    /** Delete. */
    method Delete(index: string)
      modifies this
      ensures store == old(store) - {index}
    {
      store := store - {index};
    }

    /** The cleaner goroutine: drops items that have expired, and only those. */
    method DeleteExpired(now: int)
      modifies this
      ensures store == LiveItems(old(store), now)
      ensures forall k :: k in store <==>
        k in old(store) && (old(store)[k].expires == None || now <= old(store)[k].expires.value)
    {
      store := map k | k in store && Live(store[k], now) :: store[k];
    }

    /** Shutdown flushes the store. */
    method Shutdown()
      modifies this
      ensures store == map[]
    {
      store := map[];
    }
  }
}
