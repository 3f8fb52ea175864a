/** The limiter's two mutable objects, proved against the step functions of RateLimiter. */
module RateLimiterStores {
  import opened Common
  import opened RateLimiter

  class TenantWindow {
    var count: int
    var windowStart: int

    constructor (now: int)
      ensures Value() == Window(0, now)
    {
      windowStart := now;
      count := 0;
    }

    function Value(): Window
      reads this
    {
      Window(count, windowStart)
    }

    /** The part of a request that runs under the window's own lock. */
    method Charged(limit: int, windowDuration: int, now: int) returns (v: Verdict)
      modifies this
      ensures (Value(), v) == Charge(old(Value()), limit, windowDuration, now)
    {
      if now - windowStart > windowDuration {
        windowStart := now;
        count := 0;
      }
      if count >= limit {
        var resetInSeconds := (windowDuration - (now - windowStart)) / SECOND;
        if resetInSeconds < 1 {
          resetInSeconds := 1;
        }
        return Limited(resetInSeconds);
      }
      count := count + 1;
      v := Admitted;
    }
  }

  /** A store of tenant windows (fallback "anonymous") or of IP windows (fallback "unknown"). */
  class RateLimiterStore {
    var tenants: map<string, TenantWindow>
    const fallback: string

    constructor ForTenants()
      ensures Valid() && View() == map[] && fallback == "anonymous"
    {
      fallback := "anonymous";
      tenants := map[];
    }

    constructor ForAddresses()
      ensures Valid() && View() == map[] && fallback == "unknown"
    {
      fallback := "unknown";
      tenants := map[];
    }

    ghost predicate Valid()
      reads this
    {
      forall k, l :: k in tenants && l in tenants && tenants[k] == tenants[l] ==> k == l
    }

    ghost function Windows(): set<TenantWindow>
      reads this
    {
      set k | k in tenants :: tenants[k]
    }

    ghost function View(): Table
      reads this, Windows()
    {
      map k | k in tenants :: tenants[k].Value()
    }

    function KeyOf(id: string): string {
      if id == "" then fallback else id
    }

    /** The part of a request that runs under the store's lock. */
    method Lookup(key: string, now: int) returns (tw: TenantWindow)
      requires Valid()
      modifies this
      ensures Valid() && key in tenants && tw == tenants[key]
      ensures View() == Open(old(View()), key, now)
      ensures fresh(Windows() - old(Windows()))
    {
      if key in tenants {
        tw := tenants[key];
      } else {
        tw := new TenantWindow(now);
        tenants := tenants[key := tw];
      }
    }

    /** One request, looked up at `looked` and charged at `charged`. It uses the
        window of its own id, or of the fallback when it has none, and no other. */
    method RateLimit(id: string, limit: int, windowDuration: int, looked: int, charged: int) returns (v: Verdict)
      requires Valid()
      modifies this, Windows()
      ensures Valid() && fresh(Windows() - old(Windows()))
      ensures (View(), Some(v)) ==
              Step(old(View()), windowDuration, Request(KeyOf(id), limit, looked, charged), true)
      ensures id != "" ==> id in View() && View() - {id} == old(View()) - {id}
      ensures id == "" ==> fallback in View() && View() - {fallback} == old(View()) - {fallback}
    {
      var key := KeyOf(id);
      var tw := Lookup(key, looked);
      v := tw.Charged(limit, windowDuration, charged);
      assert View() == Open(old(View()), key, looked)[key := tw.Value()];
    }

    /** One tick of the janitor. */
    method CleanUp(now: int)
      requires Valid()
      modifies this
      ensures Valid() && Windows() <= old(Windows())
      ensures View() == Evict(old(View()), now)
      ensures forall k :: k in old(View()) ==> (k in View() <==> now - old(View())[k].start <= 15 * 60 * 1_000_000_000)
    {
      var todo := tenants.Keys;
      while todo != {}
        invariant Valid() && todo <= tenants.Keys
        invariant forall k :: k in tenants ==> k in old(tenants) && tenants[k] == old(tenants)[k]
        invariant forall k :: k in old(tenants) ==>
                    (k in tenants <==> k in todo || !Stale(old(tenants)[k].Value(), now))
        decreases |todo|
      {
        var orgID :| orgID in todo;
        todo := todo - {orgID};
        if now - tenants[orgID].windowStart > EVICT_AFTER {
          tenants := tenants - {orgID};
        }
      }
    }
  }
}
