/**
The limiter's data structures as the program keeps them: a map of shared entry objects, each with
its own list of timestamps, updated in place by the limit check and by the sweep. One call is one
atomic step here; `LockedLimiter` takes the calls apart.
*/
module InMemoryStore {
  import opened SlidingWindow

  class RateLimitEntry {
    var timestamps: seq<int>

    constructor ()
      ensures timestamps == []
    {
      timestamps := [];
    }

    /** The pruning loop shared by the check and the sweep. */
    method Prune(now: int, window: int)
      modifies this
      ensures timestamps == Younger(old(timestamps), now, window)
    {
      var valid := [];
      for i := 0 to |timestamps|
        invariant timestamps == old(timestamps)
        invariant valid == Younger(timestamps[..i], now, window)
      {
        assert timestamps[..i + 1][..i] == timestamps[..i];
        if now - timestamps[i] < window {
          valid := valid + [timestamps[i]];
        }
      }
      assert timestamps[..|timestamps|] == timestamps;
      timestamps := valid;
    }
  }

  class Limiter {
    var items: map<string, RateLimitEntry>

    /** No entry object serves two keys. */
    ghost predicate Valid()
      reads this
    {
      forall k, l :: k in items && l in items && items[k] == items[l] ==> k == l
    }

    ghost function Contents(): Store
      reads this, items.Values
    {
      map key | key in items :: items[key].timestamps
    }

    constructor ()
      ensures Valid() && Contents() == map[]
    {
      items := map[];
    }

    method CheckLimit(key: string, limit: int, window: int, now: int) returns (allowed: bool)
      requires Valid()
      modifies this, items.Values
      ensures Valid() && fresh(items.Values - old(items.Values))
      ensures allowed == Admits(old(Contents()), key, limit, window, now)
      ensures Contents() == AfterCheck(old(Contents()), key, limit, window, now)
    {
      var entry: RateLimitEntry;
      if key in items {
        entry := items[key];
      } else {
        entry := new RateLimitEntry();
        items := items[key := entry];
      }
      assert entry.timestamps == Stamps(old(Contents()), key);
      entry.Prune(now, window);
      if |entry.timestamps| >= limit {
        allowed := false;
      } else {
        entry.timestamps := entry.timestamps + [now];
        allowed := true;
      }
      assert Contents() == AfterCheck(old(Contents()), key, limit, window, now);
    }

    /** The sweep's work on one key. */
    method SweepKey(key: string, now: int)
      requires Valid() && key in items
      modifies this, items[key]
      ensures Valid() && items.Values <= old(items.Values)
      ensures Contents() == SweptAt(old(Contents()), key, now)
    {
      var entry := items[key];
      entry.Prune(now, RETENTION);
      if |entry.timestamps| == 0 {
        items := items - {key};
      }
      assert Contents() == SweptAt(old(Contents()), key, now);
    }

    /** One tick of the background sweep over all keys. */
    method Cleanup(now: int)
      requires Valid()
      modifies this, items.Values
      ensures Valid() && items.Values <= old(items.Values)
      ensures Contents() == AfterSweep(old(Contents()), now)
    {
      ghost var before := Contents();
      var keys := items.Keys;
      assert Contents() == PartlySwept(before, keys, now);
      while keys != {}
        invariant Valid() && items.Values <= old(items.Values)
        invariant keys <= items.Keys && Contents() == PartlySwept(before, keys, now)
        decreases keys
      {
        var key :| key in keys;
        assert key in Contents();
        SweepStep(before, keys, key, now);
        SweepKey(key, now);
        keys := keys - {key};
        assert items.Keys == Contents().Keys;
      }
    }
  }
}
