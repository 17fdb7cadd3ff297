/**
The three middlewares that share one in-memory store, and the limit this gives each client, for
atomic checks and for checks that interleave at the locks.

The general middleware keys a request by client address and endpoint class, the strict one by
address and path, the per-user one by user. The bound of `SlidingWindow` speaks of one key always
used with one limit and window; here that is proved of the keys the program builds.
*/
module RateLimitMiddleware {
  import opened SlidingWindow
  import InMemoryStore
  import L = LockedLimiter

  datatype RateLimitConfig = RateLimitConfig(limit: int, window: int, endpoint: string)

  const AUTH_RATE_LIMIT := RateLimitConfig(10, MINUTE, "auth")
  const GENERAL_RATE_LIMIT := RateLimitConfig(100, MINUTE, "general")
  const ADMIN_RATE_LIMIT := RateLimitConfig(50, MINUTE, "admin")

  const AUTH_PATHS := [
    "/uflow/auth/enduser/login",
    "/uflow/auth/enduser/register",
    "/uflow/auth/enduser/forgot-password",
    "/uflow/auth/enduser/reset-password",
    "/uflow/auth/enduser/verify-otp",
    "/uflow/auth/enduser/resend-otp",
    "/uflow/auth/admin/login",
    "/uflow/auth/admin/forgot-password",
    "/uflow/auth/admin/reset-password",
    "/uflow/auth/oidc/",
    "/uflow/auth/saml/",
    "/uflow/auth/webauthn/",
    "/uflow/auth/totp/",
    "/uflow/auth/device/",
    "/uflow/auth/ciba/",
    "/api/v1/auth/"
  ]

  function SelectRateLimitConfig(path: string): RateLimitConfig {
    if exists i | 0 <= i < |AUTH_PATHS| :: AUTH_PATHS[i] <= path then AUTH_RATE_LIMIT
    else if "/api/v1/admin/" <= path || "/uflow/admin/" <= path then ADMIN_RATE_LIMIT
    else GENERAL_RATE_LIMIT
  }

  /** Which paths have which limit: the listed paths ten a minute, the admin paths fifty, all others a hundred. */
  lemma LimitOfPath(path: string)
    ensures var config := SelectRateLimitConfig(path);
            && config.window == 60_000_000_000
            && (config.limit == 10 <==> exists i :: 0 <= i < |AUTH_PATHS| && AUTH_PATHS[i] <= path)
            && (config.limit == 50 <==> "/api/v1/admin/" <= path || "/uflow/admin/" <= path)
            && (config.limit == 10 || config.limit == 50 || config.limit == 100)
            && (config.endpoint == "auth" <==> config.limit == 10)
            && (config.endpoint == "admin" <==> config.limit == 50)
            && (config.endpoint == "general" <==> config.limit == 100)
  {
    forall i | 0 <= i < |AUTH_PATHS| && AUTH_PATHS[i] <= path
      ensures !("/api/v1/admin/" <= path) && !("/uflow/admin/" <= path)
    {
      AuthPathsApart(i);
    }
  }

  lemma AuthPathsApart(i: nat)
    requires i < |AUTH_PATHS|
    ensures |AUTH_PATHS[i]| > 9
    ensures (AUTH_PATHS[i][1] == 'u' && AUTH_PATHS[i][8] == 'u') || (AUTH_PATHS[i][1] == 'a' && AUTH_PATHS[i][9] == 'u')
  {}

  datatype Request =
    | Default(ip: string, path: string, at: int)
    | Strict(ip: string, path: string, limit: int, window: int, at: int)
    | PerUser(user: string, limit: int, window: int, at: int)
    | Tick(at: int)

  function EndpointKey(ip: string, endpoint: string): string {
    ip + ":" + endpoint
  }

  /** The step of the shared store that a request causes. */
  function StoreEvent(r: Request): Event {
    match r
    case Default(ip, path, at) =>
      var config := SelectRateLimitConfig(path);
      Check(EndpointKey(ip, config.endpoint), config.limit, config.window, at)
    case Strict(ip, path, limit, window, at) => Check(ip + ":" + path, limit, window, at)
    case PerUser(user, limit, window, at) => Check("user:" + user, limit, window, at)
    case Tick(at) => Sweep(at)
  }

  function StoreEvents(rs: seq<Request>): (es: seq<Event>)
    ensures |es| == |rs|
    ensures forall i :: 0 <= i < |rs| ==> es[i] == StoreEvent(rs[i])
  {
    if rs == [] then [] else StoreEvents(rs[..|rs| - 1]) + [StoreEvent(rs[|rs| - 1])]
  }

  lemma EventsLast(rs: seq<Request>, n: nat)
    requires |rs| == n + 1
    ensures StoreEvents(rs)[..n] == StoreEvents(rs[..n]) && StoreEvents(rs)[n] == StoreEvent(rs[n])
  {}

  /** Serving one request on the shared store. */
  method Serve(store: InMemoryStore.Limiter, r: Request) returns (allowed: bool)
    requires store.Valid()
    modifies store, store.items.Values
    ensures store.Valid() && fresh(store.items.Values - old(store.items.Values))
    ensures store.Contents() == After(old(store.Contents()), StoreEvent(r))
    ensures var e := StoreEvent(r);
            allowed == (e.Check? ==> Admits(old(store.Contents()), e.key, e.limit, e.window, e.at))
  {
    match r {
      case Default(ip, path, at) =>
        var config := SelectRateLimitConfig(path);
        allowed := store.CheckLimit(EndpointKey(ip, config.endpoint), config.limit, config.window, at);
      case Strict(ip, path, limit, window, at) =>
        allowed := store.CheckLimit(ip + ":" + path, limit, window, at);
      case PerUser(user, limit, window, at) =>
        allowed := store.CheckLimit("user:" + user, limit, window, at);
      case Tick(at) =>
        store.Cleanup(at);
        allowed := true;
    }
  }

  // ---------------------------------------------------------------- keys

  /** Printed addresses hold no slash, and do not begin like the word that begins a user's key. */
  predicate IsAddress(ip: string) {
    '/' !in ip && !("u" <= ip)
  }

  /** Requests come from an address; request paths start with a slash. */
  ghost predicate WellFormed(r: Request) {
    match r
    case Default(ip, path, _) => IsAddress(ip)
    case Strict(ip, path, _, _, _) => IsAddress(ip) && "/" <= path
    case PerUser(_, _, _, _) => true
    case Tick(_) => true
  }

  ghost predicate Arrives(rs: seq<Request>) {
    && (forall r :: r in rs ==> WellFormed(r))
    && (forall i, j :: 0 <= i < j < |rs| ==> rs[i].at <= rs[j].at)
  }

  /** Endpoint classes hold no colon, so the last colon of a key separates it from the address. */
  lemma EndpointKeysDiffer(ip: string, endpoint: string, ip': string, endpoint': string)
    requires ':' !in endpoint && ':' !in endpoint'
    ensures EndpointKey(ip, endpoint) == EndpointKey(ip', endpoint') <==> ip == ip' && endpoint == endpoint'
  {
    var k, k' := EndpointKey(ip, endpoint), EndpointKey(ip', endpoint');
    if k == k' {
      assert k[|ip|] == ':' && k'[|ip'|] == ':';
      assert ip == k[..|ip|] == k'[..|ip'|] == ip';
      assert endpoint == k[|ip| + 1..] == k'[|ip'| + 1..] == endpoint';
    }
  }

  ghost predicate IsConfig(config: RateLimitConfig) {
    config == AUTH_RATE_LIMIT || config == GENERAL_RATE_LIMIT || config == ADMIN_RATE_LIMIT
  }

  ghost predicate Counts(r: Request, ip: string, config: RateLimitConfig) {
    r.Default? && r.ip == ip && SelectRateLimitConfig(r.path) == config
  }

  /** A request touches the key of (address, class) exactly when it is a default request of that pair. */
  lemma KeyIdentifies(r: Request, ip: string, config: RateLimitConfig)
    requires WellFormed(r) && IsConfig(config) && IsAddress(ip)
    ensures StoreEvent(r).Check? && StoreEvent(r).key == EndpointKey(ip, config.endpoint)
       <==> Counts(r, ip, config)
  {
    var key := EndpointKey(ip, config.endpoint);
    match r {
      case Default(ip', path, _) =>
        EndpointKeysDiffer(ip', SelectRateLimitConfig(path).endpoint, ip, config.endpoint);
      case Strict(ip', path, _, _, _) =>
        assert (ip' + ":" + path)[|ip'| + 1] == '/';
        assert '/' !in key;
      case PerUser(user, _, _, _) =>
        assert ("user:" + user)[0] == 'u';
        assert key[0] == (ip + ":")[0];
        assert ip != "" && ip[0] == 'u' ==> "u" <= ip;
      case Tick(_) =>
    }
  }

  // ---------------------------------------------------------------- the limit of a client

  /** The times at which requests of one address and endpoint class were let through. */
  ghost function LetThrough(rs: seq<Request>, ip: string, config: RateLimitConfig): seq<int> {
    if rs == [] then []
    else
      var n := |rs| - 1;
      var earlier := LetThrough(rs[..n], ip, config);
      if Counts(rs[n], ip, config) && Admitted(StoreEvents(rs), n) then earlier + [rs[n].at] else earlier
  }

  lemma {:induction false} LetThroughIsAdmissions(rs: seq<Request>, ip: string, config: RateLimitConfig)
    requires Arrives(rs) && IsConfig(config) && IsAddress(ip)
    ensures LetThrough(rs, ip, config) == Admissions(StoreEvents(rs), EndpointKey(ip, config.endpoint))
  {
    if rs != [] {
      var n := |rs| - 1;
      LetThroughIsAdmissions(rs[..n], ip, config);
      KeyIdentifies(rs[n], ip, config);
      EventsLast(rs, n);
      AdmissionsLast(StoreEvents(rs), n, EndpointKey(ip, config.endpoint));
    }
  }

  /**
  Whatever mix of general, strict, per-user requests and sweeps the shared store serves one by one, no
  client address gets more than its class's limit of requests through in any minute.
  */
  lemma ClientLimit(rs: seq<Request>, ip: string, config: RateLimitConfig, from: int)
    requires Arrives(rs) && IsConfig(config) && IsAddress(ip)
    ensures InWindow(LetThrough(rs, ip, config), from, 60_000_000_000) <= config.limit
  {
    var events, key := StoreEvents(rs), EndpointKey(ip, config.endpoint);
    forall i | 0 <= i < |events| && events[i].Check? && events[i].key == key
      ensures events[i].limit <= config.limit && events[i].window == MINUTE
    {
      KeyIdentifies(rs[i], ip, config);
    }
    assert Ordered(events) by {
      forall i, j | 0 <= i < j < |events| ensures events[i].at <= events[j].at {
        assert events[i].at == rs[i].at && events[j].at == rs[j].at;
      }
    }
    LetThroughIsAdmissions(rs, ip, config);
    WindowBound(events, key, config.limit, MINUTE, from);
  }

  // ---------------------------------------------------------------- the limit at the locks

  /** The call of the store that a request makes. */
  ghost predicate Makes(r: Request, call: L.Call) {
    WellFormed(r) && StoreEvent(r).Check?
    && call == L.Call(StoreEvent(r).key, StoreEvent(r).limit, StoreEvent(r).window)
  }

  /** Every check that begins is made for some request. */
  ghost predicate Serves(actions: seq<L.Action>) {
    forall i :: 0 <= i < |actions| && actions[i].Begin? ==> exists r :: Makes(r, actions[i].call)
  }

  lemma ServedUniformly(actions: seq<L.Action>, ip: string, config: RateLimitConfig)
    requires Serves(actions) && IsConfig(config) && IsAddress(ip)
    ensures L.RunUniform(actions, EndpointKey(ip, config.endpoint), config.limit, MINUTE)
  {
    var key := EndpointKey(ip, config.endpoint);
    forall i | 0 <= i < |actions| ensures L.CallsUniform(actions[i], key, config.limit, MINUTE) {
      if actions[i].Begin? && actions[i].call.key == key {
        var r :| Makes(r, actions[i].call);
        KeyIdentifies(r, ip, config);
      }
    }
  }

  /**
  However requests interleave at the locks, an address gets at most its class's limit through in any
  minute, plus what was decided on entries the sweep had dropped meanwhile; nothing more than the limit
  when the sweep drops no entry that a request is waiting for.
  */
  lemma ClientLimitAtTheLocks(actions: seq<L.Action>, ip: string, config: RateLimitConfig, from: int)
    requires Serves(actions) && IsConfig(config) && IsAddress(ip)
    ensures var log, key := L.Exec(actions).log, EndpointKey(ip, config.endpoint);
            && InWindow(L.Times(log, L.OfKey(key)), from, MINUTE)
               <= config.limit + InWindow(L.Times(log, L.Stranded(key)), from, MINUTE)
            && (L.NeverStrands(actions, key) ==> InWindow(L.Times(log, L.OfKey(key)), from, MINUTE) <= config.limit)
  {
    var key := EndpointKey(ip, config.endpoint);
    ServedUniformly(actions, ip, config);
    L.KeyBound(actions, key, config.limit, MINUTE, from);
    if L.NeverStrands(actions, key) {
      L.KeyBoundWithoutStranding(actions, key, config.limit, MINUTE, from);
    }
  }
}
