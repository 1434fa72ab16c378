/**
 * The FTP gateway's allocator of one-use passive data ports
 * (adapters/ftp-ftps/src/lib.rs, PassivePortAllocator).
 */
module PassivePorts {
  import opened Prelude

  /** The last instant the clock type can hold. */
  const LATEST: nat := 0x7fff_ffff_ffff_ffff

  type Id = seq<Byte>

  datatype Session = Session(id: Id, principalId: Id, deviceId: Option<Id>)

  datatype Binding = Binding(
    port: nat, sessionId: Id, principalId: Id, deviceId: Option<Id>, transferId: Id, expiresAt: nat)

  datatype GatewayError = InvalidPassiveRange | PassivePortsExhausted | DataChannelRejected

  /** Bindings that have not expired. */
  function Reaped(active: map<nat, Binding>, now: nat): map<nat, Binding> {
    map port | port in active && active[port].expiresAt > now :: active[port]
  }

  /** The k-th port in cyclic order from `next`, for k below the number of ports. */
  function CyclicPort(start: nat, end: nat, next: nat, k: nat): nat
    requires start <= next <= end && k <= end - start
  {
    if next + k <= end then next + k else next + k - (end - start + 1)
  }

  function Successor(start: nat, end: nat, port: nat): nat { if port == end then start else port + 1 }

  /** Ports of a full turn are all the ports of the range. */
  lemma CyclicIsOnto(start: nat, end: nat, next: nat, port: nat) returns (k: nat)
    requires start <= next <= end && start <= port <= end
    ensures k <= end - start && CyclicPort(start, end, next, k) == port
  {
    k := if next <= port then port - next else port + (end - start + 1) - next;
  }

  /** Active bindings lie in the range, hold different tickets, and no ticket is claimed twice. */
  ghost predicate Books(start: nat, end: nat, active: map<nat, Binding>,
                        issued: seq<Binding>, tickets: map<nat, nat>, claims: seq<nat>)
  {
    && tickets.Keys == active.Keys
    && (forall p | p in active ::
          && start <= p <= end && active[p].port == p
          && tickets[p] < |issued| && issued[tickets[p]] == active[p]
          && tickets[p] !in claims)
    && (forall p, q | p in active && q in active && p != q :: tickets[p] != tickets[q])
    && (forall t | t in claims :: t < |issued|)
    && (forall i, j | 0 <= i < j < |claims| :: claims[i] != claims[j])
  }

  lemma BindKeepsBooks(start: nat, end: nat, active: map<nat, Binding>,
                       issued: seq<Binding>, tickets: map<nat, nat>, claims: seq<nat>, b: Binding)
    requires Books(start, end, active, issued, tickets, claims)
    requires start <= b.port <= end && b.port !in active
    ensures Books(start, end, active[b.port := b], issued + [b], tickets[b.port := |issued|], claims)
  {
  }

  lemma ReleaseKeepsBooks(start: nat, end: nat, active: map<nat, Binding>,
                          issued: seq<Binding>, tickets: map<nat, nat>, claims: seq<nat>, port: nat)
    requires Books(start, end, active, issued, tickets, claims) && port in active
    ensures Books(start, end, active - {port}, issued, tickets - {port}, claims)
    ensures Books(start, end, active - {port}, issued, tickets - {port}, claims + [tickets[port]])
  {
  }

  class Allocator {
    const start: nat
    const end: nat
    var next: nat
    var active: map<nat, Binding>

    /** Every binding ever handed out, in order; its index is its ticket. */
    ghost var issued: seq<Binding>
    /** The ticket behind each active binding. */
    ghost var tickets: map<nat, nat>
    /** The tickets of the successful claims, in order. */
    ghost var claims: seq<nat>

    ghost predicate Valid()
      reads this
    {
      RangeIsValid(start, end) && start <= next <= end && Books(start, end, active, issued, tickets, claims)
    }

    /** `new` after its range check; RangeIsValid is that check. */
    constructor (start: nat, end: nat)
      requires RangeIsValid(start, end)
      ensures Valid() && this.start == start && this.end == end && next == start && active == map[]
      ensures issued == [] && claims == []
    {
      this.start, this.end, next, active := start, end, start, map[];
      issued, tickets, claims := [], map[], [];
    }

    method Reap(now: nat)
      requires Valid()
      modifies this`active, this`tickets
      ensures Valid() && active == Reaped(old(active), now)
      ensures forall p :: p in active <==> p in old(active) && now < old(active)[p].expiresAt
      ensures forall p | p in active :: active[p] == old(active)[p]
      ensures forall p | p in active :: tickets[p] == old(tickets)[p]
    {
      active := Reaped(active, now);
      tickets := map p | p in active :: tickets[p];
    }

    /** The loop of `allocate`: the first free port in cyclic order from `next`, if there is one. */
    method Scan() returns (found: bool, port: nat)
      requires Valid()
      modifies this`next
      ensures Valid()
      ensures !found ==> next == old(next) && forall p | start <= p <= end :: p in active
      ensures found ==>
        && start <= port <= end
        && next == Successor(start, end, port)
        && exists k | 0 <= k <= end - start :: FirstFree(active, start, end, old(next), k, port)
    {
      ghost var from := next;
      var width := end - start + 1;
      for k := 0 to width
        invariant start <= next <= end
        invariant next == if k == width then from else CyclicPort(start, end, from, k)
        invariant forall i | 0 <= i < k :: CyclicPort(start, end, from, i) in active
      {
        port := next;
        next := if port == end then start else port + 1;
        if port !in active {
          assert FirstFree(active, start, end, from, k, port);
          return true, port;
        }
      }
      forall p | start <= p <= end ensures p in active {
        var i := CyclicIsOnto(start, end, from, p);
      }
      return false, start;
    }

    method Allocate(session: Session, transferId: Id, now: nat, ttl: nat) returns (r: Result<Binding, GatewayError>)
      requires Valid()
      modifies this
      ensures Valid() && claims == old(claims)
      // Exhaustion is reported iff every port still has an unexpired binding.
      ensures r == Err(PassivePortsExhausted) <==> forall p | start <= p <= end ::
        p in old(active) && now < old(active)[p].expiresAt
      ensures r == Err(PassivePortsExhausted) ==> next == old(next)
      // Otherwise the first free port in cyclic order is taken, unless the expiry overflows.
      ensures r != Err(PassivePortsExhausted) ==>
        exists k, port | 0 <= k <= end - start ::
          && FirstFree(Reaped(old(active), now), start, end, old(next), k, port)
          && next == Successor(start, end, port)
          && r == if now + ttl > LATEST then Err(InvalidPassiveRange)
                  else Ok(Binding(port, session.id, session.principalId, session.deviceId, transferId, now + ttl))
      ensures r.Ok? ==>
        && active == Reaped(old(active), now)[r.value.port := r.value]
        && issued == old(issued) + [r.value] && r.value.port in tickets && tickets[r.value.port] == |old(issued)|
      ensures r.Err? ==> active == Reaped(old(active), now) && issued == old(issued)
    {
      Reap(now);
      var found, port := Scan();
      if !found { return Err(PassivePortsExhausted); }
      if now + ttl > LATEST { return Err(InvalidPassiveRange); }
      var binding := Binding(port, session.id, session.principalId, session.deviceId, transferId, now + ttl);
      BindKeepsBooks(start, end, active, issued, tickets, claims, binding);
      active := active[port := binding];
      tickets := tickets[port := |issued|];
      issued := issued + [binding];
      return Ok(binding);
    }

    /**
     * A claim succeeds iff the port holds an unexpired binding of the same
     * session, principal, device and transfer.  Either way the binding is gone,
     * and a successful claim uses up a ticket that was never claimed before.
     */
    method Claim(port: nat, session: Session, transferId: Id, now: nat) returns (r: Result<Binding, GatewayError>)
      requires Valid()
      modifies this
      ensures Valid() && next == old(next) && issued == old(issued)
      ensures active == old(active) - {port}
      ensures r.Ok? <==>
        && port in old(active) && now < old(active)[port].expiresAt
        && old(active)[port].sessionId == session.id && old(active)[port].principalId == session.principalId
        && old(active)[port].deviceId == session.deviceId && old(active)[port].transferId == transferId
      ensures r.Ok? ==>
        r.value == old(active)[port]
        && claims == old(claims) + [old(tickets)[port]] && old(tickets)[port] !in old(claims)
      ensures r.Err? ==> r.error == DataChannelRejected && claims == old(claims)
    {
      if port !in active { return Err(DataChannelRejected); }
      var binding := active[port];
      ghost var ticket := tickets[port];
      ReleaseKeepsBooks(start, end, active, issued, tickets, claims, port);
      active := active - {port};
      tickets := tickets - {port};
      if binding.expiresAt <= now
         || binding.sessionId != session.id
         || binding.principalId != session.principalId
         || binding.deviceId != session.deviceId
         || binding.transferId != transferId
      {
        return Err(DataChannelRejected);
      }
      claims := claims + [ticket];
      return Ok(binding);
    }
  }

  /** PassivePortAllocator::new */
  method NewAllocator(start: nat, end: nat) returns (r: Result<Allocator, GatewayError>)
    requires start < 0x1_0000 && end < 0x1_0000
    ensures r.Ok? <==> 0 < start <= end
    ensures r.Err? ==> r.error == InvalidPassiveRange
    ensures r.Ok? ==> fresh(r.value) && r.value.Valid() && r.value.start == start && r.value.end == end
    ensures r.Ok? ==> r.value.next == start && r.value.active == map[] && r.value.claims == []
  {
    if start == 0 || end < start { return Err(InvalidPassiveRange); }
    var allocator := new Allocator(start, end);
    return Ok(allocator);
  }

  /** The range check of `new`: 16-bit ports, not zero, not reversed. */
  predicate RangeIsValid(start: nat, end: nat) { 0 < start <= end < 0x1_0000 }

  /** The k-th port in cyclic order is free and all before it are not. */
  predicate FirstFree(active: map<nat, Binding>, start: nat, end: nat, next: nat, k: nat, port: nat)
    requires start <= next <= end && k <= end - start
  {
    && port == CyclicPort(start, end, next, k) && port !in active
    && forall i | 0 <= i < k :: CyclicPort(start, end, next, i) in active
  }

  // ---- Runs -------------------------------------------------------------------------------

  datatype Request =
    | AllocateRequest(session: Session, transferId: Id, ttl: nat)
    | ClaimRequest(port: nat, session: Session, transferId: Id)
    | ReapRequest

  datatype Event = Event(request: Request, now: nat)

  /**
   * Any run of allocations, claims and reaps: the live bindings have different ports
   * and tickets at all times, every successful claim returns a binding that was
   * issued, and no issued binding is claimed twice.
   */
  method Serve(allocator: Allocator, events: seq<Event>) returns (granted: seq<Binding>)
    requires allocator.Valid() && allocator.claims == []
    modifies allocator
    ensures allocator.Valid()
    ensures |granted| == |allocator.claims|
    ensures forall i | 0 <= i < |granted| ::
      allocator.claims[i] < |allocator.issued| && granted[i] == allocator.issued[allocator.claims[i]]
    ensures forall i, j | 0 <= i < j < |granted| :: allocator.claims[i] != allocator.claims[j]
    ensures |granted| <= |allocator.issued|
  {
    granted := [];
    for k := 0 to |events|
      invariant allocator.Valid() && |granted| == |allocator.claims|
      invariant forall i | 0 <= i < |granted| ::
        allocator.claims[i] < |allocator.issued| && granted[i] == allocator.issued[allocator.claims[i]]
    {
      match events[k].request
      case AllocateRequest(session, transferId, ttl) =>
        var _ := allocator.Allocate(session, transferId, events[k].now, ttl);
      case ClaimRequest(port, session, transferId) =>
        var r := allocator.Claim(port, session, transferId, events[k].now);
        if r.Ok? { granted := granted + [r.value]; }
      case ReapRequest => allocator.Reap(events[k].now);
    }
    DistinctBelow(allocator.claims, |allocator.issued|);
  }

  /** Different numbers below n are at most n. */
  lemma {:induction false} DistinctBelow(s: seq<nat>, n: nat)
    requires forall i | 0 <= i < |s| :: s[i] < n
    requires forall i, j | 0 <= i < j < |s| :: s[i] != s[j]
    ensures |s| <= n
    decreases n
  {
    if s != [] {
      assert s[0] < n;
      if n - 1 in s {
        var i :| 0 <= i < |s| && s[i] == n - 1;
        var rest := s[..i] + s[i + 1..];
        assert forall j | 0 <= j < |rest| :: rest[j] == if j < i then s[j] else s[j + 1];
        DistinctBelow(rest, n - 1);
      } else {
        assert forall i | 0 <= i < |s| :: s[i] != n - 1;
        DistinctBelow(s, n - 1);
      }
    }
  }
}
