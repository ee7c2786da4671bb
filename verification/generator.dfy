/** The random.org client: a process-wide generator that asks the service
    for integers while the daily quota allows it and otherwise draws them
    from a local pseudo-random generator. Time is an integer count of
    milliseconds since the earliest representable date. A call reads the
    clock before it decides what to do (`now`) and again once the transport
    has answered (`received`). The transport's answer to a request
    is an argument (`reply`); each operation reports the request it sent,
    if any, so that "the transport is not called" reads `sent == None`. */
module RandomInt {
  import opened Outcomes
  import opened IntParse
  import opened Response

  // The service's hard limits and the client's cooldowns.
  const RandomDotOrgMin: int := -1000000000
  const RandomDotOrgMax: int := 1000000000
  const RandomDotOrgMaxN: int := 10000
  const RandomDotOrgCooldown: int := 10
  const RandomDotOrgQuotaCooldown: int := 60000

  // The defaults of NextSet's optional parameters.
  const DefaultN: int := 10
  const DefaultBase: int := 10

  /** The timestamp of the earliest representable date; LastUsedApi starts there. */
  const MinTime: nat := 0

  datatype AddressFamily = InterNetwork | InterNetworkV6 | OtherFamily
  datatype Address = Address(family: AddressFamily, text: string)

  /** The two requests the client makes; the URL text itself is not modelled. */
  datatype Request =
    | QuotaRequest(ip: Address)
    | IntegersRequest(num: int, min: int, max: int, numberBase: int)

  /** What the transport answered: the body, or the failure it raised. */
  datatype Reply = Received(body: string) | Failed(reason: string)

  /** `Math.Clamp(value, lo, hi)`. */
  function Clamp(value: int, lo: int, hi: int): (r: int)
    requires lo <= hi
    ensures lo <= r <= hi
    ensures lo <= value <= hi ==> r == value
  {
    if value < lo then lo else if value > hi then hi else value
  }

  /** Clamping picks the point of the range nearest to the value. */
  lemma ClampIsNearest(value: int, lo: int, hi: int, w: int)
    requires lo <= hi && lo <= w <= hi
    ensures var r := Clamp(value, lo, hi);
            (if r <= value then value - r else r - value) <= (if w <= value then value - w else w - value)
  {
  }

  /** After clamping, the bounds lie in the service's absolute range, the
      count lies in [1, 10000], and twice the count fits in an int32. */
  lemma ClampedArguments(min: Int32, max: Int32, n: Int32)
    ensures RandomDotOrgMin <= Clamp(min, RandomDotOrgMin, RandomDotOrgMax) <= RandomDotOrgMax
    ensures RandomDotOrgMin <= Clamp(max, RandomDotOrgMin, RandomDotOrgMax) <= RandomDotOrgMax
    ensures 1 <= Clamp(n, 1, RandomDotOrgMaxN) <= RandomDotOrgMaxN
    ensures MinInt32 <= 2 * Clamp(n, 1, RandomDotOrgMaxN) <= MaxInt32
    ensures MinInt32 <= Clamp(max, RandomDotOrgMin, RandomDotOrgMax) + 1 <= MaxInt32
  {
  }

  predicate NoIPv4(addresses: seq<Address>) {
    forall i :: 0 <= i < |addresses| ==> addresses[i].family != InterNetwork
  }

  /** The position of the first IPv4 entry, or the length when there is none. */
  function FirstIPv4Index(addresses: seq<Address>): (k: nat)
    ensures k <= |addresses| && NoIPv4(addresses[..k])
    ensures k < |addresses| ==> addresses[k].family == InterNetwork
  {
    if addresses == [] || addresses[0].family == InterNetwork then 0
    else
      var k := FirstIPv4Index(addresses[1..]);
      assert addresses[..k + 1] == [addresses[0]] + addresses[1..][..k];
      k + 1
  }

  /** `FirstOrDefault(x => x.AddressFamily == InterNetwork)`. */
  function FirstIPv4(addresses: seq<Address>): (r: Option<Address>)
    ensures r.None? <==> NoIPv4(addresses)
    ensures r.Some? ==> r.value.family == InterNetwork && r.value == addresses[FirstIPv4Index(addresses)]
  {
    var k := FirstIPv4Index(addresses);
    assert addresses[..|addresses|] == addresses;
    if k < |addresses| then Some(addresses[k]) else None
  }

  /** What `System.Random.Next(minValue, maxValue)` may return: `minValue`
      when the bounds are equal, otherwise a value of [minValue, maxValue). */
  predicate Drawable(x: int, minValue: int, maxValue: int) {
    if minValue == maxValue then x == minValue else minValue <= x < maxValue
  }

  /** One draw from the local generator. Which value comes out is the
      generator's choice; the model only knows its range. */
  method RandomNext(minValue: int, maxValue: int) returns (r: Result<int>)
    ensures r.Err? <==> minValue > maxValue
    ensures r.Err? ==> r.error == ArgumentOutOfRange
    ensures r.Ok? ==> Drawable(r.value, minValue, maxValue)
  {
    if minValue > maxValue {
      return Err(ArgumentOutOfRange);
    }
    if minValue == maxValue {
      return Ok(minValue);
    }
    var x :| minValue <= x < maxValue;
    r := Ok(x);
  }

  /** The outcome of the local path for `n` values drawn with
      `Next(lo, hi + 1)`: exactly `n` values, each one a possible draw, or the
      generator's range error. */
  predicate LocalOutcome(r: Result<seq<int>>, n: int, lo: int, hi: int) {
    if lo > hi + 1 then r == Err(ArgumentOutOfRange)
    else r.Ok? && |r.value| == n && forall i :: 0 <= i < n ==> Drawable(r.value[i], lo, hi + 1)
  }

  /** The local fill loop of NextSet. */
  method FillLocal(n: int, lo: int, hi: int) returns (r: Result<seq<int>>)
    requires n >= 1
    ensures LocalOutcome(r, n, lo, hi)
  {
    var nums := new int[n];
    for i := 0 to n
      invariant forall k :: 0 <= k < i ==> Drawable(nums[k], lo, hi + 1)
      invariant i > 0 ==> lo <= hi + 1
    {
      var d := RandomNext(lo, hi + 1);
      if d.Err? {
        return Err(d.error);
      }
      nums[i] := d.value;
    }
    r := Ok(nums[..]);
  }

  /** With clamped bounds every locally drawn value lies in the service's
      absolute range, and in [lo, hi] whenever lo <= hi. */
  lemma LocalValuesInRange(r: Result<seq<int>>, n: int, lo: int, hi: int)
    requires RandomDotOrgMin <= lo <= RandomDotOrgMax && RandomDotOrgMin <= hi <= RandomDotOrgMax
    requires LocalOutcome(r, n, lo, hi) && r.Ok?
    ensures forall x :: x in r.value ==> RandomDotOrgMin <= x <= RandomDotOrgMax
    ensures lo <= hi ==> forall x :: x in r.value ==> lo <= x <= hi
  {
  }

  /** Where NextSet sends a request: the local generator, or the service. */
  datatype Route = Local(n: int, lo: int, hi: int) | Remote(request: Request)

  /** NextSet's decision, taken on the state before the call. The local
      path is taken exactly when the quota does not exceed twice the clamped
      count, or at most 10 ms have passed since the service was last used.
      Both paths carry the clamped arguments, so a request never asks the
      service for more than its limits allow, and is only made while the
      quota covers twice the count. */
  function Decide(quota: int, lastUsedApi: int, now: int, min: int, max: int, n: int, numberBase: int): (route: Route)
    ensures route.Local? <==> quota <= 2 * Clamp(n, 1, RandomDotOrgMaxN) || now - lastUsedApi <= RandomDotOrgCooldown
    ensures route.Local? ==> route == Local(Clamp(n, 1, RandomDotOrgMaxN),
                                            Clamp(min, RandomDotOrgMin, RandomDotOrgMax),
                                            Clamp(max, RandomDotOrgMin, RandomDotOrgMax))
    ensures route.Remote? ==>
              route.request == IntegersRequest(Clamp(n, 1, RandomDotOrgMaxN),
                                               Clamp(min, RandomDotOrgMin, RandomDotOrgMax),
                                               Clamp(max, RandomDotOrgMin, RandomDotOrgMax), numberBase)
              && 1 <= route.request.num <= RandomDotOrgMaxN
              && RandomDotOrgMin <= route.request.min <= RandomDotOrgMax
              && RandomDotOrgMin <= route.request.max <= RandomDotOrgMax
              && quota > 2 * route.request.num && now - lastUsedApi > RandomDotOrgCooldown
  {
    var lo := Clamp(min, RandomDotOrgMin, RandomDotOrgMax);
    var hi := Clamp(max, RandomDotOrgMin, RandomDotOrgMax);
    var k := Clamp(n, 1, RandomDotOrgMaxN);
    if quota <= k * 2 || now - lastUsedApi <= RandomDotOrgCooldown then Local(k, lo, hi)
    else Remote(IntegersRequest(k, lo, hi, numberBase))
  }

  /** More quota, or a later call, never turns a call to the service into a
      local draw, and a smaller count never does either. */
  lemma RemoteStaysRemote(quota: int, quota': int, lastUsedApi: int, now: int, now': int,
                          min: int, max: int, n: int, n': int, numberBase: int)
    requires quota <= quota' && now <= now' && n' <= n
    requires Decide(quota, lastUsedApi, now, min, max, n, numberBase).Remote?
    ensures Decide(quota', lastUsedApi, now', min, max, n', numberBase).Remote?
  {
    assert Clamp(n', 1, RandomDotOrgMaxN) <= Clamp(n, 1, RandomDotOrgMaxN);
  }

  /** Next uses the default count of 10, so its quota threshold is 20. */
  lemma NextThreshold(quota: int, lastUsedApi: int, now: int, min: int, max: int)
    ensures (Decide(quota, lastUsedApi, now, min, max, DefaultN, DefaultBase).Local?
             <==> quota <= 20 || now - lastUsedApi <= 10)
  {
  }

  /** The outcome of the remote path: a transport failure propagates as it
      is, with no local fallback; a received body is parsed as a whole, and
      can only fail as unparsable. */
  function RemoteResult(reply: Reply): (r: Result<seq<int>>)
    ensures reply.Failed? ==> r == Err(Transport(reply.reason))
    ensures reply.Received? ==> (r.Ok? <==> AllLinesParse(reply.body))
    ensures reply.Received? && r.Err? ==> r.error.Unparsable? && r.error.text in Split(reply.body, NewLine)
  {
    match reply
    case Failed(reason) => Err(Transport(reason))
    case Received(body) => ParseResponse(body)
  }

  /** The number of values the service sends is never compared with the
      number requested: whatever count a remote call asked for, a body of
      any other number of int32 values comes back as exactly those values.
      The premises about `Decide` only name the request for the reader;
      RemoteResult takes no count, so the conclusion holds without them, and
      the quirk itself is NextSet's `r == RemoteResult(reply)` on the remote
      path, which does not mention `request.num`. */
  lemma CountNotChecked(quota: int, lastUsedApi: int, now: int, min: int, max: int, n: int, numberBase: int,
                        xs: seq<int>)
    requires forall i :: 0 <= i < |xs| ==> MinInt32 <= xs[i] <= MaxInt32
    requires Decide(quota, lastUsedApi, now, min, max, n, numberBase).Remote?
    requires |xs| != Decide(quota, lastUsedApi, now, min, max, n, numberBase).request.num
    ensures RemoteResult(Received(Render(xs))) == Ok(xs)
  {
    ParseRender(xs);
  }

  /** An empty body is an empty success for NextSet, so `results?[0]` in
      Next fails with an index error rather than falling back. */
  lemma EmptyBodyIndexError()
    ensures RemoteResult(Received("")) == Ok([])
    ensures First(RemoteResult(Received(""))) == Err(IndexOutOfRange)
  {
    assert Split("", NewLine) == [[]];
  }

  /** `results?[0]`: the first element, or the index error of an empty array. */
  function First(rs: Result<seq<int>>): (r: Result<int>)
    ensures r.Ok? <==> rs.Ok? && |rs.value| > 0
    ensures r.Ok? ==> r.value == rs.value[0]
    ensures rs.Err? ==> r == Err(rs.error)
    ensures rs.Ok? && rs.value == [] ==> r == Err(IndexOutOfRange)
  {
    match rs
    case Err(e) => Err(e)
    case Ok(vs) => if vs == [] then Err(IndexOutOfRange) else Ok(vs[0])
  }

  /** The state GetQuota leaves behind, with what it returned and sent. */
  datatype QuotaRefresh = QuotaRefresh(quota: Int32, lastChecked: int, result: Result<int>, sent: Option<Request>)

  /** GetQuota on the state (`quota`, `lastChecked`) with the public address
      `ip`, when the clock reads `now` at the start and `received` once the
      reply has arrived. The request is skipped exactly while a negative
      quota is less than 60 s old; the quota only ever takes a value parsed
      from a quota body; a successful refresh returns the quota it leaves
      behind; and the check time only moves, to `received`, when a request
      was sent. */
  function RefreshQuota(quota: Int32, lastChecked: int, ip: Address, now: int, received: int, reply: Reply): (c: QuotaRefresh)
    ensures c.sent.None? <==> quota < 0 && now - lastChecked < RandomDotOrgQuotaCooldown
    ensures c.quota != quota ==> c.sent.Some? && reply.Received? && ParseInt32(reply.body) == Some(c.quota)
    ensures c.result.Ok? ==> c.result.value == c.quota
    ensures c.lastChecked != lastChecked ==> c.sent.Some? && c.lastChecked == received
  {
    if quota < 0 && now - lastChecked < RandomDotOrgQuotaCooldown then
      QuotaRefresh(quota, lastChecked, Ok(quota), None)
    else
      var sent := Some(QuotaRequest(ip));
      match reply
      case Failed(reason) => QuotaRefresh(quota, lastChecked, Err(Transport(reason)), sent)
      case Received(body) =>
        match ParseInt32(body)
        case Some(v) => QuotaRefresh(v, received, Ok(v), sent)
        case None => QuotaRefresh(quota, received, Err(Unparsable(body)), sent)
  }

  /** While the last known quota is negative and less than 60 s have passed
      since it was checked, the cached quota is returned without a request
      and nothing changes. */
  lemma QuotaThrottle(quota: Int32, lastChecked: int, ip: Address, now: int, received: int, reply: Reply)
    requires quota < 0 && now - lastChecked < RandomDotOrgQuotaCooldown
    ensures RefreshQuota(quota, lastChecked, ip, now, received, reply)
            == QuotaRefresh(quota, lastChecked, Ok(quota), None)
  {
  }

  /** Otherwise the quota endpoint is asked. A transport failure propagates
      and changes nothing; a body advances the check time to when it arrived
      whether or not it parses, and only a parsed body replaces the quota. */
  lemma QuotaFetch(quota: Int32, lastChecked: int, ip: Address, now: int, received: int, reply: Reply)
    requires !(quota < 0 && now - lastChecked < RandomDotOrgQuotaCooldown)
    ensures var c := RefreshQuota(quota, lastChecked, ip, now, received, reply);
            c.sent == Some(QuotaRequest(ip))
            && (reply.Failed? ==> c == QuotaRefresh(quota, lastChecked, Err(Transport(reply.reason)), c.sent))
            && (reply.Received? ==> c.lastChecked == received)
            && (reply.Received? && ParseInt32(reply.body).Some? ==>
                  c.quota == ParseInt32(reply.body).value && c.result == Ok(c.quota))
            && (reply.Received? && ParseInt32(reply.body).None? ==>
                  c.quota == quota && c.result == Err(Unparsable(reply.body)))
  {
  }

  class Generator {
    var Quota: Int32
    var LastCheckedQuota: nat
    var LastUsedApi: nat
    var Initialized: bool
    var PublicIP: Option<Address>

    /** Initialization is only recorded once an IPv4 address was resolved.
        Every operation keeps this invariant; GetQuota, which the class only
        calls after storing the address, states its own need separately. */
    ghost predicate Valid()
      reads this
    {
      Initialized ==> PublicIP.Some? && PublicIP.value.family == InterNetwork
    }

    /** The static field initializers, run when the class is first used. */
    constructor (now: nat)
      ensures Valid()
      ensures Quota == 0 && LastCheckedQuota == now && LastUsedApi == MinTime
      ensures !Initialized && PublicIP == None
    {
      Quota := 0;
      LastCheckedQuota := now;
      LastUsedApi := MinTime;
      Initialized := false;
      PublicIP := None;
    }

    /** Refreshes the quota estimate (see RefreshQuota); the clock is read
        as `now` before the request and as `received` after the reply. */
    method GetQuota(now: nat, received: nat, reply: Reply) returns (r: Result<int>, sent: Option<Request>)
      requires Valid() && PublicIP.Some?
      modifies this
      ensures Valid()
      ensures LastUsedApi == old(LastUsedApi) && Initialized == old(Initialized) && PublicIP == old(PublicIP)
      ensures QuotaRefresh(Quota, LastCheckedQuota, r, sent)
              == RefreshQuota(old(Quota), old(LastCheckedQuota), PublicIP.value, now, received, reply)
    {
      if Quota < 0 {
        if now - LastCheckedQuota < RandomDotOrgQuotaCooldown {
          return Ok(Quota), None;
        }
      }
      sent := Some(QuotaRequest(PublicIP.value));
      match reply {
        case Failed(reason) =>
          r := Err(Transport(reason));
        case Received(body) =>
          LastCheckedQuota := received;
          match ParseInt32(body) {
            case Some(v) =>
              Quota := v;
              r := Ok(v);
            case None =>
              r := Err(Unparsable(body));
          }
      }
    }

    /** Resolves the public address, then refreshes the quota; the client
        becomes initialized only when both succeed, and is never
        uninitialized again. */
    method InitializeClient(addresses: seq<Address>, now: nat, received: nat, reply: Reply)
      returns (r: Result<()>, sent: Option<Request>)
      requires Valid()
      modifies this
      ensures Valid()
      ensures old(Initialized) ==> Initialized
      ensures LastUsedApi == old(LastUsedApi)
      ensures FirstIPv4(addresses).None? ==>
                r == Err(AddressNotFound) && sent == None
                && Quota == old(Quota) && LastCheckedQuota == old(LastCheckedQuota)
                && PublicIP == old(PublicIP) && Initialized == old(Initialized)
      ensures FirstIPv4(addresses).Some? ==>
                var c := RefreshQuota(old(Quota), old(LastCheckedQuota), FirstIPv4(addresses).value, now, received, reply);
                PublicIP == FirstIPv4(addresses)
                && Quota == c.quota && LastCheckedQuota == c.lastChecked && sent == c.sent
                && (if c.result.Ok? then r == Ok(()) && Initialized
                    else r == Err(c.result.error) && Initialized == old(Initialized))
    {
      var ip := FirstIPv4(addresses);
      if ip.None? {
        return Err(AddressNotFound), None;
      }
      PublicIP := ip;
      var q;
      q, sent := GetQuota(now, received, reply);
      if q.Err? {
        return Err(q.error), sent;
      }
      Initialized := true;
      r := Ok(());
    }

    /** `NextSet(min, max, n, numberBase)`: up to `n` integers in
        [min, max], from the service when the quota and the cooldown allow
        it and from the local generator otherwise. */
    method NextSet(min: Int32, max: Int32, n: Int32, numberBase: Int32, now: nat, received: nat, reply: Reply)
      returns (r: Result<seq<int>>, sent: Option<Request>)
      requires Valid()
      modifies this
      ensures Valid()
      ensures Quota == old(Quota) && LastCheckedQuota == old(LastCheckedQuota)
      ensures Initialized == old(Initialized) && PublicIP == old(PublicIP)
      ensures !old(Initialized) ==>
                r == Err(NotInitialized) && sent == None && LastUsedApi == old(LastUsedApi)
      ensures old(Initialized) ==>
                match Decide(old(Quota), old(LastUsedApi), now, min, max, n, numberBase)
                case Local(k, lo, hi) =>
                  sent == None && LastUsedApi == old(LastUsedApi) && LocalOutcome(r, k, lo, hi)
                case Remote(request) =>
                  sent == Some(request) && r == RemoteResult(reply)
                  && LastUsedApi == (if reply.Received? then received else old(LastUsedApi))
    {
      if !Initialized {
        return Err(NotInitialized), None;
      }
      var lo := Clamp(min, RandomDotOrgMin, RandomDotOrgMax);
      var hi := Clamp(max, RandomDotOrgMin, RandomDotOrgMax);
      var k := Clamp(n, 1, RandomDotOrgMaxN);
      if Quota <= k * 2 || now - LastUsedApi <= RandomDotOrgCooldown {
        r := FillLocal(k, lo, hi);
        return r, None;
      }
      sent := Some(IntegersRequest(k, lo, hi, numberBase));
      match reply {
        case Failed(reason) =>
          r := Err(Transport(reason));
        case Received(body) =>
          LastUsedApi := received;
          r := ParseResponse(body);
      }
    }

    /** `Next(min, max)`: the first value of `NextSet(min, max)` with the
        default count and base. */
    method Next(min: Int32, max: Int32, now: nat, received: nat, reply: Reply) returns (r: Result<int>, sent: Option<Request>)
      requires Valid()
      modifies this
      ensures Valid()
      ensures Quota == old(Quota) && LastCheckedQuota == old(LastCheckedQuota)
      ensures Initialized == old(Initialized) && PublicIP == old(PublicIP)
      ensures !old(Initialized) ==>
                r == Err(NotInitialized) && sent == None && LastUsedApi == old(LastUsedApi)
      ensures old(Initialized) ==>
                match Decide(old(Quota), old(LastUsedApi), now, min, max, DefaultN, DefaultBase)
                case Local(k, lo, hi) =>
                  sent == None && LastUsedApi == old(LastUsedApi)
                  && (if lo > hi + 1 then r == Err(ArgumentOutOfRange)
                      else r.Ok? && Drawable(r.value, lo, hi + 1))
                case Remote(request) =>
                  sent == Some(request) && r == First(RemoteResult(reply))
                  && LastUsedApi == (if reply.Received? then received else old(LastUsedApi))
    {
      if !Initialized {
        return Err(NotInitialized), None;
      }
      var results;
      results, sent := NextSet(min, max, DefaultN, DefaultBase, now, received, reply);
      r := First(results);
    }
  }
}
