/**
 * The rate and connection ceilings the relay applies by itself while the admission service cannot
 * be reached: token buckets with refunds, in a bounded map, and local leases. Tokens are exact
 * real numbers here.
 */
module TokenBucket {
  import opened Lists

  const MAX_BUCKETS := 32768
  const IDLE_MS := 120000
  const LEASE_MS := 30000

  datatype Key = Account(account: string) | Device(account: string, device: string) | Network(clientIp: string) | Service
  datatype Bucket = Bucket(tokens: real, at: int)
  type Buckets = map<Key, Bucket>

  function Max(a: real, b: real): real { if a < b then b else a }
  function Min(a: real, b: real): real { if a < b then a else b }

  function Cap(rpm: real): (cap: real)
    ensures 3.0 <= cap <= 200.0
  {
    Max(3.0, Min(200.0, rpm / 10.0))
  }

  function Refill(elapsed: int, rpm: real): real { elapsed as real * rpm / 60000.0 }

  predicate Idle(b: Bucket, at: int) { at - b.at > IDLE_MS }

  /** The sweep of a full map. */
  function Swept(buckets: Buckets, at: int): Buckets {
    if |buckets| >= MAX_BUCKETS then map k | k in buckets && !Idle(buckets[k], at) :: buckets[k] else buckets
  }

  function Refilled(b: Bucket, rpm: real, at: int): Bucket {
    Bucket(Min(Cap(rpm), b.tokens + Refill(at - b.at, rpm)), at)
  }

  function Spend(buckets: Buckets, k: Key, rpm: real, at: int): (r: (Buckets, bool)) {
    var swept := Swept(buckets, at);
    if k !in swept && |swept| >= MAX_BUCKETS then (swept, false)
    else
      var b := Refilled(if k in swept then swept[k] else Bucket(Cap(rpm), at), rpm, at);
      if b.tokens >= 1.0 then (swept[k := b.(tokens := b.tokens - 1.0)], true) else (swept[k := b], false)
  }

  // ---- what a bucket stands for ----

  /** The tokens a caller would find: a missing bucket is a full one. */
  function Level(buckets: Buckets, k: Key, rpm: real, at: int): real {
    if k in buckets then Refilled(buckets[k], rpm, at).tokens else Cap(rpm)
  }

  /** Tokens are never negative, and no bucket comes from the future. */
  predicate Fine(buckets: Buckets, at: int) {
    forall k :: k in buckets ==> buckets[k].tokens >= 0.0 && buckets[k].at <= at
  }

  lemma RefillAdds(a: int, b: int, rpm: real)
    ensures Refill(a + b, rpm) == Refill(a, rpm) + Refill(b, rpm)
    ensures rpm >= 0.0 && a >= 0 ==> Refill(a, rpm) >= 0.0
  {
  }

  /** A rate is brisk when it fills an empty bucket within the idle time. */
  predicate Brisk(rpm: real) { rpm >= 180000.0 / 120001.0 }

  lemma BriskFills(rpm: real)
    requires rpm >= 0.0
    ensures Brisk(rpm) <==> Refill(IDLE_MS + 1, rpm) >= Cap(rpm)
  {
  }

  /**
   * Deleting any bucket that has been idle for more than two minutes is unobservable if and only
   * if the rate is brisk; every whole rate of at least 2 a minute is, and 1 a minute is not.
   */
  lemma DeletionUnobservable(rpm: real)
    requires rpm >= 0.0
    ensures Brisk(rpm) <==>
            forall b: Bucket, at: int :: b.tokens >= 0.0 && Idle(b, at) ==> Refilled(b, rpm, at).tokens == Cap(rpm)
    ensures rpm >= 2.0 ==> Brisk(rpm)
    ensures !Brisk(1.0)
  {
    BriskFills(rpm);
    if Brisk(rpm) {
      forall b: Bucket, at: int | b.tokens >= 0.0 && Idle(b, at) ensures Refilled(b, rpm, at).tokens == Cap(rpm) {
        IdleIsFull(b, rpm, at);
      }
    } else {
      var empty := Bucket(0.0, 0);
      assert Idle(empty, IDLE_MS + 1) && Refilled(empty, rpm, IDLE_MS + 1).tokens != Cap(rpm);
    }
  }

  lemma IdleIsFull(b: Bucket, rpm: real, at: int)
    requires Brisk(rpm) && b.tokens >= 0.0 && Idle(b, at)
    ensures Refilled(b, rpm, at).tokens == Cap(rpm)
  {
  }

  lemma SweepKeepsLevels(buckets: Buckets, at: int, k: Key, rpm: real)
    requires Fine(buckets, at) && Brisk(rpm)
    ensures Level(Swept(buckets, at), k, rpm, at) == Level(buckets, k, rpm, at)
    ensures Fine(Swept(buckets, at), at)
  {
    if k in buckets && Idle(buckets[k], at) {
      IdleIsFull(buckets[k], rpm, at);
    }
  }

  lemma RefilledNow(b: Bucket, rpm: real)
    ensures b.tokens <= Cap(rpm) ==> Refilled(b, rpm, b.at).tokens == b.tokens
    ensures rpm >= 0.0 && b.tokens >= 0.0 ==> forall at :: at >= b.at ==> Refilled(b, rpm, at).tokens >= 0.0
  {
    RefillAdds(0, 0, rpm);
    if rpm >= 0.0 && b.tokens >= 0.0 {
      forall at | at >= b.at ensures Refilled(b, rpm, at).tokens >= 0.0 {
        RefillAdds(at - b.at, 0, rpm);
      }
    }
  }

  lemma Drawn(b: Bucket, rpm: real, at: int)
    requires b.tokens >= 0.0 && b.at <= at && rpm >= 0.0
    ensures var now := Refilled(b, rpm, at);
            && now.tokens >= 0.0 && Refilled(now, rpm, at) == now
            && (now.tokens >= 1.0 ==> var less := now.(tokens := now.tokens - 1.0); Refilled(less, rpm, at) == less)
  {
    RefilledNow(b, rpm);
    var now := Refilled(b, rpm, at);
    RefilledNow(now, rpm);
    if now.tokens >= 1.0 {
      RefilledNow(now.(tokens := now.tokens - 1.0), rpm);
    }
    hide Refill, Cap;
  }

  /** Spending takes one token from its own bucket exactly when it is allowed, and nothing from any other. */
  lemma SpendTakesOne(buckets: Buckets, k: Key, rpm: real, at: int, other: Key, rate: real)
    requires Fine(buckets, at) && Brisk(rate) && rpm >= 0.0 && (other == k ==> rate == rpm)
    ensures var (after, allowed) := Spend(buckets, k, rpm, at);
            && Fine(after, at)
            && Level(after, other, rate, at) == Level(buckets, other, rate, at) - (if other == k && allowed then 1.0 else 0.0)
  {
    SweepKeepsLevels(buckets, at, other, rate);
    var swept := Swept(buckets, at);
    var b := if k in swept then swept[k] else Bucket(Cap(rpm), at);
    Drawn(b, rpm, at);
    NewIsFull(rpm, at);
    var now := Refilled(b, rpm, at);
    PutLevel(swept, k, now, other, rate, at);
    PutLevel(swept, k, now.(tokens := now.tokens - 1.0), other, rate, at);
    hide Cap, Refill, Refilled, Brisk, Swept, Fine;
  }

  lemma PutLevel(buckets: Buckets, k: Key, b: Bucket, other: Key, rate: real, at: int)
    ensures Level(buckets[k := b], other, rate, at) ==
            if other == k then Refilled(b, rate, at).tokens else Level(buckets, other, rate, at)
    ensures Fine(buckets, at) && b.tokens >= 0.0 && b.at <= at ==> Fine(buckets[k := b], at)
  {
  }

  lemma NewIsFull(rpm: real, at: int)
    ensures Refilled(Bucket(Cap(rpm), at), rpm, at).tokens == Cap(rpm)
  {
  }

  /** Time only adds what the rate allows. */
  lemma LevelRises(buckets: Buckets, k: Key, rpm: real, before: int, at: int)
    requires Fine(buckets, before) && before <= at && rpm >= 0.0
    ensures Level(buckets, k, rpm, at) <= Level(buckets, k, rpm, before) + Refill(at - before, rpm)
    ensures 0.0 <= Level(buckets, k, rpm, before) <= Cap(rpm)
    ensures Fine(buckets, at)
  {
    RefillAdds(at - before, 0, rpm);
    if k in buckets {
      RefillAdds(before - buckets[k].at, at - before, rpm);
    }
  }

  // ---- one request under the local fallback ----

  datatype Limits = Limits(accountRpm: real, deviceRpm: real, accountConnections: int, deviceConnections: int)
  datatype Policy = Policy(serviceRpm: real, serviceConnections: int, anonymousRpm: real, anonymousConnections: int,
                           registered: Limits, categories: map<string, Limits>)

  datatype Operation = Request | Connect | Renew | Release
  /** A proven identity has both an account and a device. */
  datatype Identity = Anonymous | Known(account: string, device: string)
  datatype Ask = Ask(operation: Operation, category: string, identity: Identity, clientIp: string,
                     leaseId: Option<string>, expiresAt: Option<int>)
  datatype Lease = Lease(identity: Identity, clientIp: string, expiresAt: Option<int>)
  type Leases = map<string, Lease>

  datatype State = State(buckets: Buckets, leases: Leases)
  datatype Reply = Allowed(leaseId: Option<string>) | Denied(reason: string)

  function LimitsFor(p: Policy, category: string): Limits {
    if category in p.categories then p.categories[category] else p.registered
  }

  function LiveLeases(leases: Leases, at: int): Leases {
    map id | id in leases && !(leases[id].expiresAt.Some? && leases[id].expiresAt.value <= at) :: leases[id]
  }

  function LeaseFor(a: Ask, expiresAt: Option<int>): Lease { Lease(a.identity, a.clientIp, expiresAt) }

  function AccountLeases(leases: Leases, account: string): set<string> {
    set id | id in leases && leases[id].identity.Known? && leases[id].identity.account == account
  }

  function DeviceLeases(leases: Leases, identity: Identity): set<string> {
    set id | id in leases && leases[id].identity == identity
  }

  function NetworkLeases(leases: Leases, clientIp: string): set<string> {
    set id | id in leases && leases[id].identity.Anonymous? && leases[id].clientIp == clientIp
  }

  /** The account and device buckets, or the network bucket; the reason is that of the first refusal. */
  function Rates(buckets: Buckets, p: Policy, a: Ask, at: int): (Buckets, Option<string>) {
    match a.identity
    case Anonymous =>
      var (after, ok) := Spend(buckets, Network(a.clientIp), p.anonymousRpm, at);
      (after, if ok then None else Some("anonymous-network-rate"))
    case Known(account, device) =>
      var t := LimitsFor(p, a.category);
      var (first, okAccount) := Spend(buckets, Account(account), t.accountRpm, at);
      if !okAccount then (first, Some("account-rate"))
      else
        var (second, okDevice) := Spend(first, Device(account, device), t.deviceRpm, at);
        (second, if okDevice then None else Some("device-rate"))
  }

  function Connections(leases: Leases, p: Policy, a: Ask): Option<string> {
    match a.identity
    case Anonymous =>
      if |NetworkLeases(leases, a.clientIp)| >= p.anonymousConnections then Some("anonymous-network-connections")
      else if |leases| >= p.serviceConnections then Some("service-connections")
      else None
    case Known(account, device) =>
      var t := LimitsFor(p, a.category);
      if |leases| >= p.serviceConnections then Some("service-connections")
      else if |AccountLeases(leases, account)| >= t.accountConnections then Some("account-connections")
      else if |DeviceLeases(leases, a.identity)| >= t.deviceConnections then Some("device-connections")
      else None
  }

  function Restore(buckets: Buckets, k: Key, was: Buckets): Buckets {
    if k in was then buckets[k := was[k]] else buckets - {k}
  }

  /** A refused request of a known account gives both its buckets back. */
  function Refund(buckets: Buckets, identity: Identity, was: Buckets): Buckets {
    if identity.Known?
    then Restore(Restore(buckets, Account(identity.account), was), Device(identity.account, identity.device), was)
    else buckets
  }

  /** The operations that cost nothing: a release, and the renewal of a lease still held. */
  predicate Free(leases: Leases, a: Ask, at: int) {
    a.operation.Release? || (a.operation.Renew? && a.leaseId.Some? && a.leaseId.value in LiveLeases(leases, at))
  }

  /** `boundedFallback`; `newId` is the lease id it would make up. */
  function Fallback(s: State, p: Policy, a: Ask, newId: string, at: int): (r: (State, Reply)) {
    var leases := LiveLeases(s.leases, at);
    if a.operation.Release? then
      (State(s.buckets, if a.leaseId.Some? then leases - {a.leaseId.value} else leases), Allowed(None))
    else if Free(s.leases, a, at) then
      (State(s.buckets, leases[a.leaseId.value := LeaseFor(a, a.expiresAt)]), Allowed(a.leaseId))
    else
      var (charged, rateReason) := Rates(s.buckets, p, a, at);
      var connects := a.operation.Connect? || a.operation.Renew?;
      var reason := if rateReason.Some? then rateReason else if connects then Connections(leases, p, a) else None;
      if reason.Some? then (State(Refund(charged, a.identity, s.buckets), leases), Denied(reason.value))
      else
        var id := if a.leaseId.Some? then a.leaseId.value else newId;
        var expiresAt := if a.expiresAt.Some? then a.expiresAt.value else at + LEASE_MS;
        var held := if connects then leases[id := LeaseFor(a, Some(expiresAt))] else leases;
        if a.operation.Renew? then (State(charged, held), Allowed(Some(id)))
        else
          var (served, okService) := Spend(charged, Service, p.serviceRpm, at);
          if okService then (State(served, held), Allowed(if connects then Some(id) else None))
          else (State(Refund(served, a.identity, s.buckets), if connects then held - {id} else held), Denied("service-rate"))
  }

  // ---- refunds ----

  /** A denied request of a known account leaves its account and device buckets as if it had not been made. */
  lemma DeniedIsRefunded(s: State, p: Policy, a: Ask, newId: string, at: int)
    requires a.identity.Known? && Fallback(s, p, a, newId, at).1.Denied?
    ensures var after := Fallback(s, p, a, newId, at).0.buckets;
            forall k :: k == Account(a.identity.account) || k == Device(a.identity.account, a.identity.device) ==>
              (k in after <==> k in s.buckets) && (k in after ==> after[k] == s.buckets[k])
  {
    hide Spend, Connections, Rates;
  }

  // ---- bounds ----

  lemma PutSize(m: Buckets, k: Key, b: Bucket)
    ensures m[k := b].Keys == m.Keys + {k}
    ensures |m[k := b]| == |m| + if k in m then 0 else 1
  {
  }

  lemma NewBucketServes(rpm: real, at: int)
    ensures Refilled(Bucket(Cap(rpm), at), rpm, at).tokens >= 1.0
  {
  }

  /** The map stays within its limit, and a bucket is only ever made for a request that it serves. */
  lemma SpendBounded(buckets: Buckets, k: Key, rpm: real, at: int)
    requires |buckets| <= MAX_BUCKETS
    ensures var after := Spend(buckets, k, rpm, at).0;
            && |after| <= MAX_BUCKETS && after.Keys <= buckets.Keys + {k}
            && (k !in buckets && k in after ==> Spend(buckets, k, rpm, at).1)
  {
    hide Refill, Cap, Refilled;
    var swept := Swept(buckets, at);
    FewerKeys(swept, buckets);
    hide Swept;
    var b := Refilled(if k in swept then swept[k] else Bucket(Cap(rpm), at), rpm, at);
    PutSize(swept, k, b);
    PutSize(swept, k, b.(tokens := b.tokens - 1.0));
    NewBucketServes(rpm, at);
  }

  lemma RatesBounded(buckets: Buckets, p: Policy, a: Ask, at: int)
    requires |buckets| <= MAX_BUCKETS
    ensures var after := Rates(buckets, p, a, at).0;
            |after| <= MAX_BUCKETS && after.Keys <= buckets.Keys + RateKeys(a)
  {
    hide Spend;
    match a.identity
    case Anonymous =>
      SpendBounded(buckets, Network(a.clientIp), p.anonymousRpm, at);
    case Known(account, device) =>
      var t := LimitsFor(p, a.category);
      SpendBounded(buckets, Account(account), t.accountRpm, at);
      SpendBounded(Spend(buckets, Account(account), t.accountRpm, at).0, Device(account, device), t.deviceRpm, at);
  }

  lemma RestoreKeys(buckets: Buckets, k: Key, was: Buckets)
    ensures Restore(buckets, k, was).Keys == (buckets.Keys - {k}) + (was.Keys * {k})
  {
  }

  lemma RefundBounded(buckets: Buckets, a: Ask, was: Buckets)
    requires |buckets| <= MAX_BUCKETS && |was| <= MAX_BUCKETS && buckets.Keys <= was.Keys + RateKeys(a)
    ensures |Refund(buckets, a.identity, was)| <= MAX_BUCKETS
  {
    if a.identity.Known? {
      var account, device := Account(a.identity.account), Device(a.identity.account, a.identity.device);
      RestoreKeys(buckets, account, was);
      RestoreKeys(Restore(buckets, account, was), device, was);
      hide Restore;
      FewerKeys(Refund(buckets, a.identity, was), was);
    }
  }

  /** Neither the buckets nor the connections outgrow their limits, whatever is asked. */
  lemma FallbackBounded(s: State, p: Policy, a: Ask, newId: string, at: int)
    requires |s.buckets| <= MAX_BUCKETS
    ensures |Fallback(s, p, a, newId, at).0.buckets| <= MAX_BUCKETS
    ensures var after := Fallback(s, p, a, newId, at).0.leases;
            |after| <= |s.leases| || |after| <= p.serviceConnections
  {
    hide Spend, Rates, Refund, Connections, RateKeys;
    RatesBounded(s.buckets, p, a, at);
    var charged := Rates(s.buckets, p, a, at).0;
    RefundBounded(charged, a, s.buckets);
    SpendBounded(charged, Service, p.serviceRpm, at);
    ServedBounded(charged, s.buckets, p, a, at);
    LeasesBounded(s, p, a, newId, at);
  }

  lemma ServedBounded(charged: Buckets, was: Buckets, p: Policy, a: Ask, at: int)
    requires |charged| <= MAX_BUCKETS && |was| <= MAX_BUCKETS && charged.Keys <= was.Keys + RateKeys(a)
    ensures !Spend(charged, Service, p.serviceRpm, at).1 ==>
              |Refund(Spend(charged, Service, p.serviceRpm, at).0, a.identity, was)| <= MAX_BUCKETS
  {
    hide Spend, Refund;
    SpendBounded(charged, Service, p.serviceRpm, at);
    if !Spend(charged, Service, p.serviceRpm, at).1 {
      RefundBounded(Spend(charged, Service, p.serviceRpm, at).0, a, was);
    }
  }

  lemma LeasePut(leases: Leases, id: string, lease: Lease)
    ensures |leases[id := lease]| <= |leases| + 1 && (id in leases ==> |leases[id := lease]| == |leases|)
    ensures |leases[id := lease] - {id}| <= |leases| && |leases - {id}| <= |leases|
  {
  }

  /** What `boundedFallback` does to the leases, by cases. */
  lemma LeaseOutcome(s: State, p: Policy, a: Ask, newId: string, at: int)
    ensures var leases, after := LiveLeases(s.leases, at), Fallback(s, p, a, newId, at).0.leases;
            var id := if a.leaseId.Some? then a.leaseId.value else newId;
            var expiresAt := if a.expiresAt.Some? then a.expiresAt.value else at + LEASE_MS;
            || after == leases || after == leases - {id}
            || (after == leases[id := LeaseFor(a, a.expiresAt)] && id in leases)
            || after == leases[id := LeaseFor(a, Some(expiresAt))] - {id}
            || (after == leases[id := LeaseFor(a, Some(expiresAt))] && Connections(leases, p, a).None?)
  {
    hide Spend, Rates, Refund, LiveLeases, Connections, LeaseFor;
  }

  /** A refusal or a free operation adds no lease; a new lease is made only below the ceiling. */
  lemma LeasesBounded(s: State, p: Policy, a: Ask, newId: string, at: int)
    ensures var after := Fallback(s, p, a, newId, at).0.leases;
            |after| <= |s.leases| || |after| <= p.serviceConnections
  {
    hide Fallback, LiveLeases, Connections, LeaseFor;
    var leases := LiveLeases(s.leases, at);
    var id := if a.leaseId.Some? then a.leaseId.value else newId;
    var expiresAt := if a.expiresAt.Some? then a.expiresAt.value else at + LEASE_MS;
    LeaseOutcome(s, p, a, newId, at);
    LiveIsFewer(s.leases, at);
    LeasePut(leases, id, LeaseFor(a, Some(expiresAt)));
    LeasePut(leases, id, LeaseFor(a, a.expiresAt));
    ConnectionsBelow(leases, p, a);
  }

  lemma OneMore(after: set<string>, before: set<string>, id: string)
    requires after <= before + {id}
    ensures |after| <= |before| + 1
  {
    SetSubset(after, before + {id});
  }

  lemma SetSubset(a: set<string>, b: set<string>)
    requires a <= b
    ensures |a| <= |b|
  {
    assert b == a + (b - a);
  }

  /** The unexpired leases of an identity's account and device, or of its network, and all of them. */
  predicate WithinConnections(leases: Leases, p: Policy, a: Ask) {
    && |leases| <= p.serviceConnections
    && (a.identity.Known? ==>
          && |AccountLeases(leases, a.identity.account)| <= LimitsFor(p, a.category).accountConnections
          && |DeviceLeases(leases, a.identity)| <= LimitsFor(p, a.category).deviceConnections)
    && (a.identity.Anonymous? ==> |NetworkLeases(leases, a.clientIp)| <= p.anonymousConnections)
  }

  /** A connection that is granted, or renewed after its lease was lost, leaves every ceiling it counts against respected. */
  lemma GrantedConnectionFits(s: State, p: Policy, a: Ask, newId: string, at: int)
    requires (a.operation.Connect? || a.operation.Renew?) && !Free(s.leases, a, at)
    requires Fallback(s, p, a, newId, at).1.Allowed?
    ensures WithinConnections(Fallback(s, p, a, newId, at).0.leases, p, a)
  {
    hide Spend, Rates, LiveLeases;
    var leases := LiveLeases(s.leases, at);
    var id := if a.leaseId.Some? then a.leaseId.value else newId;
    var lease := LeaseFor(a, Some(if a.expiresAt.Some? then a.expiresAt.value else at + LEASE_MS));
    assert Fallback(s, p, a, newId, at).0.leases == leases[id := lease] && Connections(leases, p, a).None?;
    LeaseAddsOne(leases, p, a, id, lease);
  }

  lemma LeaseAddsOne(leases: Leases, p: Policy, a: Ask, id: string, lease: Lease)
    requires Connections(leases, p, a).None? && lease.identity == a.identity && lease.clientIp == a.clientIp
    ensures WithinConnections(leases[id := lease], p, a)
  {
    var after := leases[id := lease];
    LeasePut(leases, id, lease);
    match a.identity
    case Anonymous =>
      OneMore(NetworkLeases(after, a.clientIp), NetworkLeases(leases, a.clientIp), id);
    case Known(account, device) =>
      OneMore(AccountLeases(after, account), AccountLeases(leases, account), id);
      OneMore(DeviceLeases(after, a.identity), DeviceLeases(leases, a.identity), id);
  }

  lemma LiveIsFewer(leases: Leases, at: int)
    ensures |LiveLeases(leases, at)| <= |leases|
  {
    FewerKeys(LiveLeases(leases, at), leases);
  }

  lemma ConnectionsBelow(leases: Leases, p: Policy, a: Ask)
    ensures Connections(leases, p, a).None? ==> |leases| < p.serviceConnections
  {
  }

  // ---- what a request costs ----

  function RateKeys(a: Ask): set<Key> {
    if a.identity.Known? then {Account(a.identity.account), Device(a.identity.account, a.identity.device)}
    else {Network(a.clientIp)}
  }

  /** The buckets a request that is not free needs. */
  function CostKeys(a: Ask): set<Key> {
    RateKeys(a) + if a.operation.Request? || a.operation.Connect? then {Service} else {}
  }

  function RateFor(p: Policy, a: Ask, k: Key): real {
    match k
    case Account(_) => LimitsFor(p, a.category).accountRpm
    case Device(_, _) => LimitsFor(p, a.category).deviceRpm
    case Network(_) => p.anonymousRpm
    case Service => p.serviceRpm
  }

  predicate Sane(p: Policy, a: Ask) {
    forall k :: k in CostKeys(a) ==> RateFor(p, a, k) >= 0.0
  }

  /** The request is granted against bucket `k`. */
  predicate Granted(s: State, p: Policy, a: Ask, newId: string, at: int, k: Key) {
    Fallback(s, p, a, newId, at).1.Allowed? && !Free(s.leases, a, at) && k in CostKeys(a)
  }

  lemma RatesTakeOne(buckets: Buckets, p: Policy, a: Ask, at: int, k: Key, rate: real)
    requires Fine(buckets, at) && Brisk(rate) && Sane(p, a) && (k in RateKeys(a) ==> rate == RateFor(p, a, k))
    ensures var (after, reason) := Rates(buckets, p, a, at);
            && Fine(after, at)
            && Level(after, k, rate, at) <= Level(buckets, k, rate, at)
            && (reason.None? && k in RateKeys(a) ==> Level(after, k, rate, at) <= Level(buckets, k, rate, at) - 1.0)
  {
    hide Spend, Level, Fine, Brisk;
    match a.identity
    case Anonymous =>
      assert Network(a.clientIp) in CostKeys(a);
      SpendTakesOne(buckets, Network(a.clientIp), p.anonymousRpm, at, k, rate);
    case Known(account, device) =>
      assert Account(account) in CostKeys(a) && Device(account, device) in CostKeys(a);
      var t := LimitsFor(p, a.category);
      SpendTakesOne(buckets, Account(account), t.accountRpm, at, k, rate);
      var first := Spend(buckets, Account(account), t.accountRpm, at).0;
      SpendTakesOne(first, Device(account, device), t.deviceRpm, at, k, rate);
  }

  lemma RefundLevels(buckets: Buckets, a: Ask, was: Buckets, at: int, k: Key, rate: real)
    requires Fine(buckets, at) && Fine(was, at)
    requires Level(buckets, k, rate, at) <= Level(was, k, rate, at)
    ensures Fine(Refund(buckets, a.identity, was), at)
    ensures Level(Refund(buckets, a.identity, was), k, rate, at) <= Level(was, k, rate, at)
  {
  }

  /** A granted request takes a token from each of its buckets; no request puts one in. */
  lemma FallbackTakesOne(s: State, p: Policy, a: Ask, newId: string, at: int, k: Key, rate: real)
    requires Fine(s.buckets, at) && Brisk(rate) && Sane(p, a) && (k in CostKeys(a) ==> rate == RateFor(p, a, k))
    ensures var after := Fallback(s, p, a, newId, at).0.buckets;
            && Fine(after, at)
            && Level(after, k, rate, at) <= Level(s.buckets, k, rate, at) - if Granted(s, p, a, newId, at, k) then 1.0 else 0.0
  {
    hide Spend, Rates, Refund, Connections, Level, Fine, Brisk, LiveLeases, RateKeys, Sane, RateFor;
    RatesTakeOne(s.buckets, p, a, at, k, rate);
    var charged := Rates(s.buckets, p, a, at).0;
    RefundLevels(charged, a, s.buckets, at, k, rate);
    if a.operation.Request? || a.operation.Connect? {
      ServiceTakesOne(charged, p, a, at, k, rate);
      var served := Spend(charged, Service, p.serviceRpm, at).0;
      RefundLevels(served, a, s.buckets, at, k, rate);
      NotBoth(a);
    }
  }

  lemma NotBoth(a: Ask)
    ensures Service !in RateKeys(a)
  {
  }

  lemma ServiceTakesOne(charged: Buckets, p: Policy, a: Ask, at: int, k: Key, rate: real)
    requires Fine(charged, at) && Brisk(rate) && Sane(p, a) && (k in CostKeys(a) ==> rate == RateFor(p, a, k))
    requires a.operation.Request? || a.operation.Connect?
    ensures var (served, ok) := Spend(charged, Service, p.serviceRpm, at);
            && Fine(served, at)
            && Level(served, k, rate, at) <= Level(charged, k, rate, at) - if k == Service && ok then 1.0 else 0.0
  {
    hide Spend, Level, Fine, Brisk;
    assert Service in CostKeys(a) && RateFor(p, a, Service) == p.serviceRpm;
    SpendTakesOne(charged, Service, p.serviceRpm, at, k, rate);
  }

  // ---- whole runs ----

  datatype Event = Event(at: int, ask: Ask, newId: string)

  predicate InOrder(run: seq<Event>) { forall i, j :: 0 <= i < j < |run| ==> run[i].at <= run[j].at }

  function Next(s: State, p: Policy, e: Event): State { Fallback(s, p, e.ask, e.newId, e.at).0 }

  /** The requests of the run that are granted against bucket `k`, from state `s` on. */
  function Grants(s: State, p: Policy, run: seq<Event>, k: Key): nat
    decreases run
  {
    if run == [] then 0
    else (if Granted(s, p, run[0].ask, run[0].newId, run[0].at, k) then 1 else 0) + Grants(Next(s, p, run[0]), p, run[1..], k)
  }

  function After(s: State, p: Policy, run: seq<Event>): State
    decreases run
  {
    if run == [] then s else After(Next(s, p, run[0]), p, run[1..])
  }

  /** Every request that needs bucket `k` is charged at the same rate. */
  predicate FixedRate(p: Policy, run: seq<Event>, k: Key, rate: real) {
    forall e :: e in run ==> Sane(p, e.ask) && (k in CostKeys(e.ask) ==> RateFor(p, e.ask, k) == rate)
  }

  /**
   * The requests granted against one bucket between `from` and the last of the run are at most the
   * tokens it held and what its rate added meanwhile: no sweep, refund or refusal adds a request.
   */
  lemma {:induction false} GrantsWithinLevel(s: State, p: Policy, run: seq<Event>, k: Key, rate: real, from: int)
    requires Fine(s.buckets, from) && Brisk(rate) && FixedRate(p, run, k, rate)
    requires InOrder(run) && run != [] && from <= run[0].at
    ensures Grants(s, p, run, k) as real
            <= Level(s.buckets, k, rate, from) + Refill(run[|run| - 1].at - from, rate)
    decreases run
  {
    hide Level, Fine, Granted, Next, Refill, Sane, CostKeys, Brisk;
    var e := run[0];
    var after := Next(s, p, e);
    assert e in run;
    BriskIsPositive(rate);
    LevelRises(s.buckets, k, rate, from, e.at);
    StepTakesOne(s, p, e, k, rate);
    if |run| == 1 {
      assert run[1..] == [];
      LevelRises(after.buckets, k, rate, e.at, e.at);
    } else {
      TailOfRun(p, run, k, rate);
      GrantsWithinLevel(after, p, run[1..], k, rate, e.at);
      RefillAdds(e.at - from, run[|run| - 1].at - e.at, rate);
    }
  }

  lemma TailOfRun(p: Policy, run: seq<Event>, k: Key, rate: real)
    requires |run| > 1 && InOrder(run) && FixedRate(p, run, k, rate)
    ensures InOrder(run[1..]) && FixedRate(p, run[1..], k, rate)
    ensures run[1..][|run| - 2] == run[|run| - 1] && run[0].at <= run[1..][0].at
  {
  }

  lemma StepTakesOne(s: State, p: Policy, e: Event, k: Key, rate: real)
    requires Fine(s.buckets, e.at) && Brisk(rate) && Sane(p, e.ask) && (k in CostKeys(e.ask) ==> RateFor(p, e.ask, k) == rate)
    ensures var after := Next(s, p, e).buckets;
            && Fine(after, e.at)
            && Level(after, k, rate, e.at)
               <= Level(s.buckets, k, rate, e.at) - if Granted(s, p, e.ask, e.newId, e.at, k) then 1.0 else 0.0
  {
    hide Level, Fine, Brisk, Granted, Fallback, Sane, CostKeys, RateFor;
    FallbackTakesOne(s, p, e.ask, e.newId, e.at, k, rate);
  }

  /** After any run from an empty map, buckets are fine and within their limit. */
  lemma {:induction false} ReachableFine(s: State, p: Policy, run: seq<Event>, from: int)
    requires Fine(s.buckets, from) && |s.buckets| <= MAX_BUCKETS && InOrder(run)
    requires run != [] ==> from <= run[0].at
    requires forall e :: e in run ==> Sane(p, e.ask)
    ensures var after := After(s, p, run);
            Fine(after.buckets, if run == [] then from else run[|run| - 1].at) && |after.buckets| <= MAX_BUCKETS
    decreases run
  {
    hide Fine, Next, Sane;
    if run != [] {
      var e := run[0];
      assert e in run;
      LaterFine(s.buckets, from, e.at);
      NextFine(s, p, e);
      assert forall x :: x in run[1..] ==> x in run;
      ReachableFine(Next(s, p, e), p, run[1..], e.at);
    }
  }

  lemma LaterFine(buckets: Buckets, before: int, at: int)
    requires Fine(buckets, before) && before <= at
    ensures Fine(buckets, at)
  {
  }

  lemma NextFine(s: State, p: Policy, e: Event)
    requires Fine(s.buckets, e.at) && Sane(p, e.ask) && |s.buckets| <= MAX_BUCKETS
    ensures Fine(Next(s, p, e).buckets, e.at) && |Next(s, p, e).buckets| <= MAX_BUCKETS
  {
    hide Fine, Fallback, Sane, CostKeys, RateFor;
    FallbackBounded(s, p, e.ask, e.newId, e.at);
    FallbackFine(s, p, e);
  }

  lemma FallbackFine(s: State, p: Policy, e: Event)
    requires Fine(s.buckets, e.at) && Sane(p, e.ask)
    ensures Fine(Fallback(s, p, e.ask, e.newId, e.at).0.buckets, e.at)
  {
    var k := if e.ask.identity.Known? then Network("") else Account("");
    assert k !in CostKeys(e.ask);
    FallbackTakesOne(s, p, e.ask, e.newId, e.at, k, 2.0);
  }

  function Fresh(): State { State(map[], map[]) }

  lemma FineWhenReached(p: Policy, before: seq<Event>, run: seq<Event>)
    requires InOrder(before + run) && run != [] && forall e :: e in before ==> Sane(p, e.ask)
    ensures Fine(After(Fresh(), p, before).buckets, run[0].at) && InOrder(run)
  {
    SplitInOrder(before, run);
    var first := if before == [] then run[0].at else before[0].at;
    var last := if before == [] then first else before[|before| - 1].at;
    hide InOrder, Sane, After, Fine;
    NoBucketsFine(first);
    ReachableFine(Fresh(), p, before, first);
    LaterFine(After(Fresh(), p, before).buckets, last, run[0].at);
  }

  /**
   * Token-bucket budget: in any stretch of any run, the requests granted against one bucket at one
   * brisk rate number at most its capacity and what the rate adds over the stretch.
   */
  lemma GrantsWithinBudget(p: Policy, before: seq<Event>, run: seq<Event>, k: Key, rate: real)
    requires InOrder(before + run) && run != [] && Brisk(rate)
    requires FixedRate(p, run, k, rate) && forall e :: e in before ==> Sane(p, e.ask)
    ensures Grants(After(Fresh(), p, before), p, run, k) as real
            <= Cap(rate) + Refill(run[|run| - 1].at - run[0].at, rate)
  {
    FineWhenReached(p, before, run);
    GrantsWithinCap(After(Fresh(), p, before), p, run, k, rate);
  }

  lemma LevelAtMostCap(buckets: Buckets, k: Key, rate: real, at: int)
    requires Fine(buckets, at) && Brisk(rate)
    ensures Level(buckets, k, rate, at) <= Cap(rate)
  {
  }

  lemma GrantsWithinCap(s: State, p: Policy, run: seq<Event>, k: Key, rate: real)
    requires InOrder(run) && run != [] && Fine(s.buckets, run[0].at) && Brisk(rate) && FixedRate(p, run, k, rate)
    ensures Grants(s, p, run, k) as real <= Cap(rate) + Refill(run[|run| - 1].at - run[0].at, rate)
  {
    hide InOrder, FixedRate, Grants, Refill, Cap, Fine, Level, Brisk;
    GrantsWithinLevel(s, p, run, k, rate, run[0].at);
    LevelAtMostCap(s.buckets, k, rate, run[0].at);
  }

  lemma NoBucketsFine(at: int)
    ensures Fine(map[], at)
  {
  }

  lemma BriskIsPositive(rate: real)
    requires Brisk(rate)
    ensures rate >= 0.0
  {
  }

  lemma SplitInOrder(before: seq<Event>, run: seq<Event>)
    requires InOrder(before + run)
    ensures InOrder(before) && InOrder(run)
    ensures before != [] && run != [] ==> before[|before| - 1].at <= run[0].at
  {
    var all := before + run;
    forall i, j | 0 <= i < j < |before| ensures before[i].at <= before[j].at {
      assert all[i] == before[i] && all[j] == before[j];
    }
    forall i, j | 0 <= i < j < |run| ensures run[i].at <= run[j].at {
      assert all[|before| + i] == run[i] && all[|before| + j] == run[j];
    }
    if before != [] && run != [] {
      assert all[|before| - 1] == before[|before| - 1] && all[|before|] == run[0];
    }
  }

  // ---- the closure as a class ----

  class ClientAccess {
    var fallback: Buckets
    var localLeases: Leases

    constructor ()
      ensures fallback == map[] && localLeases == map[]
    {
      fallback, localLeases := map[], map[];
    }

    method Sweep(at: int)
      modifies this`fallback
      ensures fallback == map k | k in old(fallback) && !Idle(old(fallback)[k], at) :: old(fallback)[k]
    {
      var todo := fallback.Keys;
      while todo != {}
        invariant todo <= fallback.Keys <= old(fallback).Keys
        invariant forall k :: k in fallback ==> fallback[k] == old(fallback)[k]
        invariant forall k :: k in old(fallback) && k !in todo ==> (k in fallback <==> !Idle(old(fallback)[k], at))
        decreases todo
      {
        var k :| k in todo;
        if at - fallback[k].at > IDLE_MS {
          fallback := fallback - {k};
        }
        todo := todo - {k};
      }
    }

    method SpendOne(k: Key, rpm: real, at: int) returns (allowed: bool)
      modifies this`fallback
      ensures (fallback, allowed) == Spend(old(fallback), k, rpm, at)
    {
      hide Cap, Refill;
      if |fallback| >= MAX_BUCKETS {
        Sweep(at);
      }
      assert fallback == Swept(old(fallback), at);
      hide Swept;
      var cap := Cap(rpm);
      var v := if k in fallback then fallback[k] else Bucket(cap, at);
      if k !in fallback && |fallback| >= MAX_BUCKETS {
        return false;
      }
      v := Bucket(Min(cap, v.tokens + Refill(at - v.at, rpm)), at);
      allowed := v.tokens >= 1.0;
      if allowed {
        v := v.(tokens := v.tokens - 1.0);
      }
      fallback := fallback[k := v];
    }

    method DropExpiredLeases(at: int)
      modifies this`localLeases
      ensures localLeases == LiveLeases(old(localLeases), at)
    {
      var todo := localLeases.Keys;
      while todo != {}
        invariant todo <= localLeases.Keys <= old(localLeases).Keys
        invariant forall id :: id in localLeases ==> localLeases[id] == old(localLeases)[id]
        invariant forall id :: id in old(localLeases) && id !in todo ==>
                    (id in localLeases <==> !(old(localLeases)[id].expiresAt.Some? && old(localLeases)[id].expiresAt.value <= at))
        decreases todo
      {
        var id :| id in todo;
        if localLeases[id].expiresAt.Some? && localLeases[id].expiresAt.value <= at {
          localLeases := localLeases - {id};
        }
        todo := todo - {id};
      }
    }

    method ChargeRates(p: Policy, a: Ask, at: int) returns (reason: Option<string>)
      modifies this`fallback
      ensures (fallback, reason) == Rates(old(fallback), p, a, at)
    {
      hide Spend;
      if a.identity.Anonymous? {
        var ok := SpendOne(Network(a.clientIp), p.anonymousRpm, at);
        return if ok then None else Some("anonymous-network-rate");
      }
      var t := LimitsFor(p, a.category);
      var okAccount := SpendOne(Account(a.identity.account), t.accountRpm, at);
      if !okAccount {
        return Some("account-rate");
      }
      var okDevice := SpendOne(Device(a.identity.account, a.identity.device), t.deviceRpm, at);
      return if okDevice then None else Some("device-rate");
    }

    method BoundedFallback(p: Policy, a: Ask, newId: string, at: int) returns (reply: Reply)
      modifies this
      ensures (State(fallback, localLeases), reply) == Fallback(State(old(fallback), old(localLeases)), p, a, newId, at)
    {
      hide Spend, Rates, Connections, LiveLeases, Refund;
      DropExpiredLeases(at);
      if a.operation.Release? {
        if a.leaseId.Some? {
          localLeases := localLeases - {a.leaseId.value};
        }
        return Allowed(None);
      }
      if a.operation.Renew? && a.leaseId.Some? && a.leaseId.value in localLeases {
        localLeases := localLeases[a.leaseId.value := LeaseFor(a, a.expiresAt)];
        return Allowed(a.leaseId);
      }
      var was := fallback;
      var connects := a.operation.Connect? || a.operation.Renew?;
      var leaseId: Option<string> := None;
      var reason := ChargeRates(p, a, at);
      if reason.None? && connects {
        reason := Connections(localLeases, p, a);
        if reason.None? {
          leaseId := Some(if a.leaseId.Some? then a.leaseId.value else newId);
          var expiresAt := if a.expiresAt.Some? then a.expiresAt.value else at + LEASE_MS;
          localLeases := localLeases[leaseId.value := LeaseFor(a, Some(expiresAt))];
        }
      }
      if reason.None? && !a.operation.Renew? {
        var okService := SpendOne(Service, p.serviceRpm, at);
        if !okService {
          if leaseId.Some? {
            localLeases := localLeases - {leaseId.value};
          }
          reason := Some("service-rate");
        }
      }
      if reason.Some? {
        fallback := Refund(fallback, a.identity, was);
        return Denied(reason.value);
      }
      return Allowed(leaseId);
    }
  }
}
