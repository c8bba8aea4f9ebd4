/** What one request does under the local fallback, with every rate and limit written out. */
module FallbackOutcome {
  import opened Lists
  import opened TokenBucket

  // ---- one token ----

  /** The bucket outlasts the sweep, which a full map makes of buckets idle for more than two minutes. */
  predicate Remains(buckets: Buckets, k: Key, at: int) {
    k in buckets && !(|buckets| >= 32768 && at - buckets[k].at > 120000)
  }

  function Remaining(buckets: Buckets, at: int): set<Key> { set k | k in buckets && Remains(buckets, k, at) }

  /** A tenth of the rate, but at least 3 and at most 200 tokens. */
  function Capacity(rpm: real): real { if rpm < 30.0 then 3.0 else if rpm > 2000.0 then 200.0 else rpm / 10.0 }

  /** The tokens in the bucket at that time: it gains its rate every minute, up to its capacity; a new one is full. */
  function Tokens(buckets: Buckets, k: Key, rpm: real, at: int): real {
    if !Remains(buckets, k, at) then Capacity(rpm)
    else
      var filled := buckets[k].tokens + (at - buckets[k].at) as real * rpm / 60000.0;
      if filled < Capacity(rpm) then filled else Capacity(rpm)
  }

  /** There is a whole token, in a bucket that is there or that the map has room for. */
  predicate HasToken(buckets: Buckets, k: Key, rpm: real, at: int) {
    if Remains(buckets, k, at) then Tokens(buckets, k, rpm, at) >= 1.0 else |Remaining(buckets, at)| < 32768
  }

  /** One token goes exactly when there is one, from that bucket; of the others only idle ones disappear. */
  lemma SpentExactly(buckets: Buckets, k: Key, rpm: real, at: int)
    ensures var (after, allowed) := Spend(buckets, k, rpm, at);
            && (allowed <==> HasToken(buckets, k, rpm, at))
            && (k in after <==> Remains(buckets, k, at) || allowed)
            && (k in after ==> after[k] == Bucket(Tokens(buckets, k, rpm, at) - (if allowed then 1.0 else 0.0), at))
            && (forall other :: other != k ==> (other in after <==> Remains(buckets, other, at)))
            && (forall other :: other != k && other in after ==> after[other] == buckets[other])
  {
    var swept := Swept(buckets, at);
    assert swept.Keys == Remaining(buckets, at);
    assert |swept| == |swept.Keys|;
    CapacityMeans(rpm);
    if k !in swept {
      NewIsFull(rpm, at);
    } else {
      RefilledMeans(buckets[k], rpm, at);
    }
    hide Cap, Refill, Refilled, Capacity, Swept;
  }

  lemma CapacityMeans(rpm: real)
    ensures Cap(rpm) == Capacity(rpm) >= 1.0
  {
  }

  lemma RefilledMeans(b: Bucket, rpm: real, at: int)
    ensures var filled := b.tokens + (at - b.at) as real * rpm / 60000.0;
            Refilled(b, rpm, at) == Bucket(if filled < Capacity(rpm) then filled else Capacity(rpm), at)
  {
    CapacityMeans(rpm);
    hide Cap, Capacity;
  }

  // ---- the leases ----

  predicate Held(leases: Leases, id: string, at: int) {
    id in leases && (leases[id].expiresAt.Some? ==> at < leases[id].expiresAt.value)
  }

  /** The unexpired leases, all of them, of an account, of a device of it, and of an unknown visitor's address. */
  function HeldBy(leases: Leases, at: int): set<string> { set id | id in leases && Held(leases, id, at) }

  function OfAccount(leases: Leases, account: string, at: int): set<string> {
    set id | id in leases && Held(leases, id, at) && leases[id].identity.Known? && leases[id].identity.account == account
  }

  function OfDevice(leases: Leases, account: string, device: string, at: int): set<string> {
    set id | id in leases && Held(leases, id, at) && leases[id].identity.Known?
             && leases[id].identity.account == account && leases[id].identity.device == device
  }

  function OfAddress(leases: Leases, clientIp: string, at: int): set<string> {
    set id | id in leases && Held(leases, id, at) && !leases[id].identity.Known? && leases[id].clientIp == clientIp
  }

  /** The leases are the unexpired ones, except that `id` now holds `lease`, or is gone. */
  ghost predicate LeasesAre(after: Leases, leases: Leases, at: int, id: string, lease: Option<Lease>) {
    && (if lease.Some? then id in after && after[id] == lease.value else id !in after)
    && (forall other :: other != id ==> (other in after <==> Held(leases, other, at)))
    && (forall other :: other != id && other in after ==> after[other] == leases[other])
  }

  /** A release removes its lease, and a renewal of a lease still held replaces it; neither costs a token. */
  lemma FreeExactly(s: State, p: Policy, a: Ask, newId: string, at: int)
    ensures a.operation == Release ==>
              var (after, reply) := Fallback(s, p, a, newId, at);
              && reply == Allowed(None) && after.buckets == s.buckets
              && (if a.leaseId.Some? then LeasesAre(after.leases, s.leases, at, a.leaseId.value, None)
                  else after.leases.Keys == HeldBy(s.leases, at) && forall id :: id in after.leases ==> after.leases[id] == s.leases[id])
    ensures a.operation == Renew && a.leaseId.Some? && Held(s.leases, a.leaseId.value, at) ==>
              var (after, reply) := Fallback(s, p, a, newId, at);
              && reply == Allowed(a.leaseId) && after.buckets == s.buckets
              && LeasesAre(after.leases, s.leases, at, a.leaseId.value, Some(Lease(a.identity, a.clientIp, a.expiresAt)))
  {
    hide Spend, Rates, Connections, Refund;
  }

  /** The limits of the category, or those of a registered user. */
  function LimitsOf(p: Policy, a: Ask): Limits { if a.category in p.categories then p.categories[a.category] else p.registered }

  /** There is room for one more connection, under each ceiling it counts against. */
  predicate RoomFor(leases: Leases, p: Policy, a: Ask, at: int) {
    && |HeldBy(leases, at)| < p.serviceConnections
    && match a.identity
       case Anonymous => |OfAddress(leases, a.clientIp, at)| < p.anonymousConnections
       case Known(account, device) =>
         && |OfAccount(leases, account, at)| < LimitsOf(p, a).accountConnections
         && |OfDevice(leases, account, device, at)| < LimitsOf(p, a).deviceConnections
  }

  /** The buckets once the request's own are charged. */
  function Charged(buckets: Buckets, p: Policy, a: Ask, at: int): Buckets {
    match a.identity
    case Anonymous => Spend(buckets, Network(a.clientIp), p.anonymousRpm, at).0
    case Known(account, device) =>
      Spend(Spend(buckets, Account(account), LimitsOf(p, a).accountRpm, at).0, Device(account, device), LimitsOf(p, a).deviceRpm, at).0
  }

  /** There is a token in each of the request's own buckets. */
  predicate HasTokens(buckets: Buckets, p: Policy, a: Ask, at: int) {
    match a.identity
    case Anonymous => HasToken(buckets, Network(a.clientIp), p.anonymousRpm, at)
    case Known(account, device) =>
      && HasToken(buckets, Account(account), LimitsOf(p, a).accountRpm, at)
      && HasToken(Spend(buckets, Account(account), LimitsOf(p, a).accountRpm, at).0,
                  Device(account, device), LimitsOf(p, a).deviceRpm, at)
  }

  lemma RatesMean(buckets: Buckets, p: Policy, a: Ask, at: int)
    ensures Rates(buckets, p, a, at).1.None? <==> HasTokens(buckets, p, a, at)
    ensures HasTokens(buckets, p, a, at) || a.identity.Anonymous? ==> Rates(buckets, p, a, at).0 == Charged(buckets, p, a, at)
  {
    match a.identity {
      case Anonymous => SpentExactly(buckets, Network(a.clientIp), p.anonymousRpm, at);
      case Known(account, device) =>
        SpentExactly(buckets, Account(account), LimitsOf(p, a).accountRpm, at);
        SpentExactly(Spend(buckets, Account(account), LimitsOf(p, a).accountRpm, at).0,
                     Device(account, device), LimitsOf(p, a).deviceRpm, at);
    }
    hide Spend, HasToken;
  }

  /**
   * Any other request is granted exactly when each of its buckets has a token, there is room for a
   * connection if it asks for one, and, but for a renewal, the service itself has a token. A granted
   * connection holds a lease, of 30 seconds unless it says another time; a refused one holds none.
   */
  lemma GrantedExactly(s: State, p: Policy, a: Ask, newId: string, at: int)
    requires a.operation != Release
    requires a.operation == Renew && a.leaseId.Some? ==> !Held(s.leases, a.leaseId.value, at)
    ensures var (after, reply) := Fallback(s, p, a, newId, at);
            var connects := a.operation == Connect || a.operation == Renew;
            var id := if a.leaseId.Some? then a.leaseId.value else newId;
            && (reply.Allowed? <==>
                && HasTokens(s.buckets, p, a, at) && (connects ==> RoomFor(s.leases, p, a, at))
                && (a.operation != Renew ==> HasToken(Charged(s.buckets, p, a, at), Service, p.serviceRpm, at)))
            && (reply.Allowed? ==> reply == Allowed(if connects then Some(id) else None))
            && (reply.Allowed? && connects ==>
                  LeasesAre(after.leases, s.leases, at, id,
                            Some(Lease(a.identity, a.clientIp, Some(if a.expiresAt.Some? then a.expiresAt.value else at + 30000)))))
            && (!(reply.Allowed? && connects) ==>
                  || LeasesAre(after.leases, s.leases, at, id, if Held(s.leases, id, at) then Some(s.leases[id]) else None)
                  || (connects && reply == Denied("service-rate") && LeasesAre(after.leases, s.leases, at, id, None)))
  {
    RatesMean(s.buckets, p, a, at);
    ConnectionReasons(s.leases, p, a, at);
    SpentExactly(Charged(s.buckets, p, a, at), Service, p.serviceRpm, at);
    hide Spend, Rates, Connections, Refund, HasToken, HasTokens, RoomFor, Charged;
  }

  /** A refusal names its cause: a missing token first, then a ceiling, then the service. */
  lemma RefusedExactly(s: State, p: Policy, a: Ask, newId: string, at: int)
    requires Fallback(s, p, a, newId, at).1.Denied?
    ensures Fallback(s, p, a, newId, at).1.reason ==
            if !HasTokens(s.buckets, p, a, at) then
              match a.identity
              case Anonymous => "anonymous-network-rate"
              case Known(account, _) =>
                if HasToken(s.buckets, Account(account), LimitsOf(p, a).accountRpm, at) then "device-rate" else "account-rate"
            else if (a.operation == Connect || a.operation == Renew) && !RoomFor(s.leases, p, a, at) then
              match a.identity
              case Anonymous =>
                if |OfAddress(s.leases, a.clientIp, at)| >= p.anonymousConnections then "anonymous-network-connections"
                else "service-connections"
              case Known(account, device) =>
                if |HeldBy(s.leases, at)| >= p.serviceConnections then "service-connections"
                else if |OfAccount(s.leases, account, at)| >= LimitsOf(p, a).accountConnections then "account-connections"
                else "device-connections"
            else "service-rate"
  {
    RatesMean(s.buckets, p, a, at);
    RateReasons(s.buckets, p, a, at);
    ConnectionReasons(s.leases, p, a, at);
    hide Spend, Rates, Connections, Refund, HasToken, HasTokens, RoomFor, OfAddress, OfAccount, HeldBy, LiveLeases;
  }

  lemma RateReasons(buckets: Buckets, p: Policy, a: Ask, at: int)
    ensures var reason := Rates(buckets, p, a, at).1;
            reason == if reason.None? then None else
              match a.identity
              case Anonymous => Some("anonymous-network-rate")
              case Known(account, _) =>
                Some(if HasToken(buckets, Account(account), LimitsOf(p, a).accountRpm, at) then "device-rate" else "account-rate")
  {
    if a.identity.Known? {
      SpentExactly(buckets, Account(a.identity.account), LimitsOf(p, a).accountRpm, at);
    }
    hide Spend, HasToken;
  }

  lemma ConnectionReasons(leases: Leases, p: Policy, a: Ask, at: int)
    ensures var reason := Connections(LiveLeases(leases, at), p, a);
            reason == if RoomFor(leases, p, a, at) then None else
              match a.identity
              case Anonymous =>
                Some(if |OfAddress(leases, a.clientIp, at)| >= p.anonymousConnections then "anonymous-network-connections"
                     else "service-connections")
              case Known(account, device) =>
                Some(if |HeldBy(leases, at)| >= p.serviceConnections then "service-connections"
                     else if |OfAccount(leases, account, at)| >= LimitsOf(p, a).accountConnections then "account-connections"
                     else "device-connections")
  {
    var live := LiveLeases(leases, at);
    assert live.Keys == HeldBy(leases, at) && |live| == |live.Keys|;
    match a.identity {
      case Anonymous => assert NetworkLeases(live, a.clientIp) == OfAddress(leases, a.clientIp, at);
      case Known(account, device) =>
        assert AccountLeases(live, account) == OfAccount(leases, account, at);
        assert DeviceLeases(live, a.identity) == OfDevice(leases, account, device, at);
    }
  }

  /**
   * What is charged: a granted request pays from its own buckets and, unless it renews, from the
   * service's. A refused visitor is not given back what it paid; a refused account is.
   */
  lemma ChargedExactly(s: State, p: Policy, a: Ask, newId: string, at: int)
    requires a.operation != Release
    requires a.operation == Renew && a.leaseId.Some? ==> !Held(s.leases, a.leaseId.value, at)
    ensures var (after, reply) := Fallback(s, p, a, newId, at);
            var charged := Charged(s.buckets, p, a, at);
            && (reply.Allowed? ==>
                  after.buckets == if a.operation == Renew then charged else Spend(charged, Service, p.serviceRpm, at).0)
            && (reply.Denied? && a.identity == Anonymous ==>
                  after.buckets == if reply.reason == "service-rate" then Spend(charged, Service, p.serviceRpm, at).0 else charged)
            && (reply.Denied? && a.identity.Known? ==>
                  forall k :: k in {Account(a.identity.account), Device(a.identity.account, a.identity.device)} ==>
                    (k in after.buckets <==> k in s.buckets) && (k in after.buckets ==> after.buckets[k] == s.buckets[k]))
  {
    RatesMean(s.buckets, p, a, at);
    if a.identity.Known? && Fallback(s, p, a, newId, at).1.Denied? {
      DeniedIsRefunded(s, p, a, newId, at);
    } else {
      RateReasons(s.buckets, p, a, at);
      ConnectionReasons(s.leases, p, a, at);
    }
    hide Spend, Rates, Charged, Connections, HasToken, HasTokens, RoomFor, OfAddress, OfAccount, HeldBy, LiveLeases;
  }
}
