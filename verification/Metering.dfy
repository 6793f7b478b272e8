/** Resource sessions and the resource meter of a block. */
module Metering {
  import opened Words

  datatype Code =
    | Success
    | InsufficientResources
    | DiskStorageLimitExceeded
    | NetworkBandwidthLimitExceeded
    | ComputeBandwidthLimitExceeded
    | AuthorizationFailure
    | InvalidSignature
    | InvalidNonce
    | ReadOnlyContext
    | OperationFailed

  /** An error code, or an exception. */
  datatype Status = Returned(code: Code) | Threw

  datatype Resources = Resources(disk: nat, network: nat, compute: nat)

  datatype Limits = Limits(most: Resources, cost: Resources)

  function Minus(a: Resources, b: Resources): Resources
    requires Within(b, a)
  {
    Resources(a.disk - b.disk, a.network - b.network, a.compute - b.compute)
  }

  function Sum(a: Resources, b: Resources): Resources {
    Resources(a.disk + b.disk, a.network + b.network, a.compute + b.compute)
  }

  predicate Within(a: Resources, b: Resources) {
    a.disk <= b.disk && a.network <= b.network && a.compute <= b.compute
  }

  function Price(cost: nat, amount: nat): nat {
    cost * amount
  }

  /** The amounts weighted by their costs. */
  function Weighted(cost: Resources, used: Resources): nat {
    Price(cost.disk, used.disk) + Price(cost.network, used.network) + Price(cost.compute, used.compute)
  }

  lemma PriceIs(cost: nat, amount: nat)
    ensures Price(cost, amount) == cost * amount
  {
  }

  lemma PriceSum(cost: nat, a: nat, b: nat)
    ensures Price(cost, a + b) == Price(cost, a) + Price(cost, b)
  {
  }

  lemma WeightedSum(cost: Resources, a: Resources, b: Resources)
    ensures Weighted(cost, Sum(a, b)) == Weighted(cost, a) + Weighted(cost, b)
  {
    hide Price;
    PriceSum(cost.disk, a.disk, b.disk);
    PriceSum(cost.network, a.network, b.network);
    PriceSum(cost.compute, a.compute, b.compute);
  }

  /** The test before the multiplication catches exactly the products that do not fit 64 bits. */
  lemma OverflowTest(cost: nat, amount: nat)
    requires cost > 0
    ensures U64_MAX / cost < amount <==> Price(cost, amount) > U64_MAX
  {
    var q, r := U64_MAX / cost, U64_MAX % cost;
    assert U64_MAX == cost * q + r && r < cost;
    if q < amount {
      Grows(cost, q + 1, amount);
      assert cost * (q + 1) == cost * q + cost;
    } else {
      Grows(cost, amount, q);
    }
  }

  lemma Grows(cost: nat, a: nat, b: nat)
    requires a <= b
    ensures Price(cost, a) <= Price(cost, b)
  {
    PriceSum(cost, a, b - a);
  }

  // ------------------------------------------------------------------- books

  datatype Use = Disk(bytes: nat) | Network(bytes: nat) | Compute(ticks: nat)

  function Amounts(u: Use): Resources {
    match u
    case Disk(n) => Resources(n, 0, 0)
    case Network(n) => Resources(0, n, 0)
    case Compute(n) => Resources(0, 0, n)
  }

  /** Disk and network can never be used up to the last byte; compute can, to the last tick. */
  predicate Exceeds(left: Resources, u: Use) {
    match u
    case Disk(n) => n >= left.disk
    case Network(n) => n >= left.network
    case Compute(n) => n > left.compute
  }

  function LimitCode(u: Use): Code {
    match u
    case Disk(_) => DiskStorageLimitExceeded
    case Network(_) => NetworkBandwidthLimitExceeded
    case Compute(_) => ComputeBandwidthLimitExceeded
  }

  /** What is left of the block's resources, and of the session's. */
  datatype Books = Books(left: Resources, funds: nat)

  /** A use is paid for on both sides, or refused on both. */
  function Charge(cost: Resources, b: Books, u: Use): (Books, Code) {
    if Exceeds(b.left, u) then (b, LimitCode(u))
    else if Weighted(cost, Amounts(u)) > b.funds then (b, InsufficientResources)
    else (Books(Minus(b.left, Amounts(u)), b.funds - Weighted(cost, Amounts(u))), Success)
  }

  /** A charge in numbers, resource by resource. */
  lemma ChargeIs(cost: Resources, b: Books, n: nat)
    ensures Charge(cost, b, Disk(n)) ==
      if n >= b.left.disk then (b, DiskStorageLimitExceeded)
      else if cost.disk * n > b.funds then (b, InsufficientResources)
      else (Books(b.left.(disk := b.left.disk - n), b.funds - cost.disk * n), Success)
    ensures Charge(cost, b, Network(n)) ==
      if n >= b.left.network then (b, NetworkBandwidthLimitExceeded)
      else if cost.network * n > b.funds then (b, InsufficientResources)
      else (Books(b.left.(network := b.left.network - n), b.funds - cost.network * n), Success)
    ensures Charge(cost, b, Compute(n)) ==
      if n > b.left.compute then (b, ComputeBandwidthLimitExceeded)
      else if cost.compute * n > b.funds then (b, InsufficientResources)
      else (Books(b.left.(compute := b.left.compute - n), b.funds - cost.compute * n), Success)
  {
    WeightedUse(cost, n);
    hide Weighted;
  }

  /** A list of uses, whose refusals are ignored. */
  function ChargeAll(cost: Resources, b: Books, us: seq<Use>): Books {
    if us == [] then b else Charge(cost, ChargeAll(cost, b, us[..|us| - 1]), us[|us| - 1]).0
  }

  lemma ChargeOne(cost: Resources, b: Books, u: Use)
    ensures ChargeAll(cost, b, [u]) == Charge(cost, b, u).0
  {
    hide Charge;
    assert [u][..0] == [];
  }

  /** Whatever is used and whatever is refused, the session pays exactly the weighted use. */
  lemma {:induction false} ChargesBalance(cost: Resources, start: Resources, b: Books, us: seq<Use>)
    requires Within(b.left, start)
    ensures var c := ChargeAll(cost, b, us);
            && Within(c.left, start)
            && c.funds + Weighted(cost, Minus(start, c.left)) == b.funds + Weighted(cost, Minus(start, b.left))
    decreases |us|
  {
    if us != [] {
      var n := |us| - 1;
      ChargesBalance(cost, start, b, us[..n]);
      ChargeBalances(cost, start, ChargeAll(cost, b, us[..n]), us[n]);
    }
  }

  lemma ChargeBalances(cost: Resources, start: Resources, b: Books, u: Use)
    requires Within(b.left, start)
    ensures var c := Charge(cost, b, u).0;
            && Within(c.left, start)
            && c.funds + Weighted(cost, Minus(start, c.left)) == b.funds + Weighted(cost, Minus(start, b.left))
  {
    hide Price;
    if !Exceeds(b.left, u) {
      assert Minus(start, Minus(b.left, Amounts(u))) == Sum(Minus(start, b.left), Amounts(u));
      WeightedSum(cost, Minus(start, b.left), Amounts(u));
    }
  }

  lemma FreeOfCharge(cost: Resources)
    ensures Price(cost.disk, 0) == Price(cost.network, 0) == Price(cost.compute, 0) == 0
  {
  }

  lemma WeightedUse(cost: Resources, n: nat)
    ensures Weighted(cost, Amounts(Disk(n))) == Price(cost.disk, n)
    ensures Weighted(cost, Amounts(Network(n))) == Price(cost.network, n)
    ensures Weighted(cost, Amounts(Compute(n))) == Price(cost.compute, n)
  {
    hide Price;
    FreeOfCharge(cost);
  }

  // ------------------------------------------------------- session and meter

  class ResourceSession {
    const initial: nat
    var remaining: nat

    constructor (initial: nat)
      ensures this.initial == initial && remaining == initial
    {
      this.initial := initial;
      remaining := initial;
    }

    function Used(): int
      reads this
    {
      initial - remaining
    }

    method UseResources(resources: nat) returns (code: Code)
      modifies this
      ensures code == Success <==> resources <= old(remaining)
      ensures code == Success ==> remaining == old(remaining) - resources
      ensures code != Success ==> code == InsufficientResources && remaining == old(remaining)
    {
      if resources > remaining {
        return InsufficientResources;
      }
      remaining := remaining - resources;
      return Success;
    }
  }

  class ResourceMeter {
    var limits: Limits
    var remaining: Resources
    var systemUse: Resources
    var session: ResourceSession?

    /** No limit at all, as long as none is set. */
    constructor ()
      ensures session == null && remaining == limits.most == Resources(U64_MAX, U64_MAX, U64_MAX)
    {
      limits := Limits(Resources(U64_MAX, U64_MAX, U64_MAX), Resources(0, 0, 0));
      remaining := Resources(U64_MAX, U64_MAX, U64_MAX);
      systemUse := Resources(0, 0, 0);
      session := null;
    }

    method SetResourceLimits(r: Limits)
      modifies this
      ensures limits == r && remaining == r.most && systemUse == Resources(0, 0, 0) && session == old(session)
    {
      limits := r;
      systemUse := Resources(0, 0, 0);
      remaining := r.most;
    }

    /** Costs are positive, and buying everything there is never overflows. */
    predicate Safe()
      reads this
    {
      var cost, most := limits.cost, limits.most;
      && cost.disk > 0 && cost.network > 0 && cost.compute > 0
      && Price(cost.disk, most.disk) <= U64_MAX
      && Price(cost.network, most.network) <= U64_MAX
      && Price(cost.compute, most.compute) <= U64_MAX
      && Within(remaining, most)
    }

    /** The meter together with the running session. */
    ghost function TheBooks(): Books
      reads this, session
      requires session != null
    {
      Books(remaining, session.remaining)
    }

    /** What a use does: to the books of a session, or to the system's account. */
    twostate predicate Accounted(u: Use, status: Status)
      reads this, session
    {
      && limits == old(limits) && session == old(session)
      && (status == Threw <==>
            session != null && !Exceeds(old(remaining), u) && Weighted(limits.cost, Amounts(u)) > U64_MAX)
      && (status == Threw ==> remaining == old(remaining) && session.remaining == old(session.remaining))
      && (session != null ==> systemUse == old(systemUse))
      && (session != null && status.Returned? ==>
            (TheBooks(), status.code) == Charge(limits.cost, old(TheBooks()), u))
      && (session == null ==>
            if Exceeds(old(remaining), u) then
              status == Returned(LimitCode(u)) && remaining == old(remaining) && systemUse == old(systemUse)
            else
              status == Returned(Success) && remaining == Minus(old(remaining), Amounts(u)) &&
              systemUse == Sum(old(systemUse), Amounts(u)))
    }

    /** Charges the running session, if there is one. */
    method ChargeSession(cost: nat, amount: nat) returns (status: Status)
      requires session != null ==> cost > 0
      modifies session
      ensures session == null ==> status == Returned(Success)
      ensures session != null ==>
        if Price(cost, amount) > U64_MAX then status == Threw && session.remaining == old(session.remaining)
        else if Price(cost, amount) > old(session.remaining) then
          status == Returned(InsufficientResources) && session.remaining == old(session.remaining)
        else status == Returned(Success) && session.remaining == old(session.remaining) - Price(cost, amount)
    {
      if session != null {
        OverflowTest(cost, amount);
        if U64_MAX / cost < amount {
          return Threw;
        }
        hide Price;
        var code := session.UseResources(Price(cost, amount));
        return Returned(code);
      }
      return Returned(Success);
    }

    method UseDiskStorage(bytes: nat) returns (status: Status)
      requires session != null ==> limits.cost.disk > 0
      modifies this, session
      ensures Accounted(Disk(bytes), status)
      ensures status == Threw <==>
        session != null && bytes < old(remaining.disk) && limits.cost.disk * bytes >= 0x1_0000_0000_0000_0000
      ensures session != null && status.Returned? ==>
        (TheBooks(), status.code) == Charge(limits.cost, old(TheBooks()), Disk(bytes))
      ensures session == null ==>
        if bytes >= old(remaining.disk) then
          && status == Returned(DiskStorageLimitExceeded)
          && remaining == old(remaining) && systemUse == old(systemUse)
        else
          && status == Returned(Success) && remaining == old(remaining).(disk := old(remaining.disk) - bytes)
          && systemUse == old(systemUse).(disk := old(systemUse.disk) + bytes)
      ensures old(Safe()) ==> Safe() && status != Threw
    {
      hide Price, Weighted;
      if bytes >= remaining.disk {
        return Returned(DiskStorageLimitExceeded);
      }
      WeightedUse(limits.cost, bytes);
      PriceIs(limits.cost.disk, bytes);
      if Safe() {
        Grows(limits.cost.disk, bytes, limits.most.disk);
      }
      status := ChargeSession(limits.cost.disk, bytes);
      if status != Returned(Success) {
        return;
      }
      if session == null {
        systemUse := systemUse.(disk := systemUse.disk + bytes);
      }
      remaining := remaining.(disk := remaining.disk - bytes);
    }

    method UseNetworkBandwidth(bytes: nat) returns (status: Status)
      requires session != null ==> limits.cost.network > 0
      modifies this, session
      ensures Accounted(Network(bytes), status)
      ensures status == Threw <==>
        session != null && bytes < old(remaining.network) && limits.cost.network * bytes >= 0x1_0000_0000_0000_0000
      ensures session != null && status.Returned? ==>
        (TheBooks(), status.code) == Charge(limits.cost, old(TheBooks()), Network(bytes))
      ensures session == null ==>
        if bytes >= old(remaining.network) then
          && status == Returned(NetworkBandwidthLimitExceeded)
          && remaining == old(remaining) && systemUse == old(systemUse)
        else
          && status == Returned(Success) && remaining == old(remaining).(network := old(remaining.network) - bytes)
          && systemUse == old(systemUse).(network := old(systemUse.network) + bytes)
      ensures old(Safe()) ==> Safe() && status != Threw
    {
      hide Price, Weighted;
      if bytes >= remaining.network {
        return Returned(NetworkBandwidthLimitExceeded);
      }
      WeightedUse(limits.cost, bytes);
      PriceIs(limits.cost.network, bytes);
      if Safe() {
        Grows(limits.cost.network, bytes, limits.most.network);
      }
      status := ChargeSession(limits.cost.network, bytes);
      if status != Returned(Success) {
        return;
      }
      if session == null {
        systemUse := systemUse.(network := systemUse.network + bytes);
      }
      remaining := remaining.(network := remaining.network - bytes);
    }

    method UseComputeBandwidth(ticks: nat) returns (status: Status)
      requires session != null ==> limits.cost.compute > 0
      modifies this, session
      ensures Accounted(Compute(ticks), status)
      ensures status == Threw <==>
        session != null && ticks <= old(remaining.compute) && limits.cost.compute * ticks >= 0x1_0000_0000_0000_0000
      ensures session != null && status.Returned? ==>
        (TheBooks(), status.code) == Charge(limits.cost, old(TheBooks()), Compute(ticks))
      ensures session == null ==>
        if ticks > old(remaining.compute) then
          && status == Returned(ComputeBandwidthLimitExceeded)
          && remaining == old(remaining) && systemUse == old(systemUse)
        else
          && status == Returned(Success) && remaining == old(remaining).(compute := old(remaining.compute) - ticks)
          && systemUse == old(systemUse).(compute := old(systemUse.compute) + ticks)
      ensures old(Safe()) ==> Safe() && status != Threw
    {
      hide Price, Weighted;
      if ticks > remaining.compute {
        return Returned(ComputeBandwidthLimitExceeded);
      }
      WeightedUse(limits.cost, ticks);
      PriceIs(limits.cost.compute, ticks);
      if Safe() {
        Grows(limits.cost.compute, ticks, limits.most.compute);
      }
      status := ChargeSession(limits.cost.compute, ticks);
      if status != Returned(Success) {
        return;
      }
      if session == null {
        systemUse := systemUse.(compute := systemUse.compute + ticks);
      }
      remaining := remaining.(compute := remaining.compute - ticks);
    }

    method OpenSession(resources: nat) returns (s: ResourceSession)
      modifies this
      ensures fresh(s) && s.initial == s.remaining == resources && session == s
      ensures remaining == old(remaining) && limits == old(limits)
      ensures old(Safe()) ==> Safe()
    {
      s := new ResourceSession(resources);
      session := s;
    }

    /** The meter holds the session weakly: it ends with its owner. */
    method DropSession()
      modifies this
      ensures session == null && remaining == old(remaining) && limits == old(limits)
      ensures old(Safe()) ==> Safe()
    {
      session := null;
    }
  }
}
