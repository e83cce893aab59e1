/** Content-free delivery counters. */
module Metrics {
  import opened Models

  function Counted(reasons: map<ReceiptState, nat>, s: ReceiptState): nat {
    if s in reasons then reasons[s] else 0
  }

  function Total(reasons: map<ReceiptState, nat>): nat {
    Counted(reasons, Queued) + Counted(reasons, Held) + Counted(reasons, Refused) + Counted(reasons, Unreachable)
    + Counted(reasons, Expired) + Counted(reasons, Invalid) + Counted(reasons, RateLimited)
    + Counted(reasons, OverCapacity) + Counted(reasons, Incompatible) + Counted(reasons, Ambiguous)
  }

  function Hit(s: ReceiptState, k: ReceiptState): nat { if k == s then 1 else 0 }

  lemma OneHit(s: ReceiptState)
    ensures Hit(s, Queued) + Hit(s, Held) + Hit(s, Refused) + Hit(s, Unreachable) + Hit(s, Expired) + Hit(s, Invalid)
            + Hit(s, RateLimited) + Hit(s, OverCapacity) + Hit(s, Incompatible) + Hit(s, Ambiguous) == 1
  {
  }

  lemma CountedAfterBump(reasons: map<ReceiptState, nat>, s: ReceiptState, bumped: map<ReceiptState, nat>)
    requires bumped == reasons[s := Counted(reasons, s) + 1]
    ensures forall k :: Counted(bumped, k) == Counted(reasons, k) + Hit(s, k)
  {
  }

  lemma TotalAfterBump(reasons: map<ReceiptState, nat>, s: ReceiptState)
    ensures Total(reasons[s := Counted(reasons, s) + 1]) == Total(reasons) + 1
  {
    CountedAfterBump(reasons, s, reasons[s := Counted(reasons, s) + 1]);
    OneHit(s);
  }

  class MetricsRegistry {
    var delivered: nat
    var failed: nat
    var reasons: map<ReceiptState, nat>
    var heldDepth: nat

    constructor ()
      ensures delivered == failed == heldDepth == 0 && reasons == map[]
    {
      delivered, failed, heldDepth, reasons := 0, 0, 0, map[];
    }

    method RecordDelivery(sent: bool, reason: ReceiptState)
      modifies this
      ensures delivered == old(delivered) + (if sent then 1 else 0) && failed == old(failed) + (if sent then 0 else 1)
      ensures reasons == if sent then old(reasons) else old(reasons)[reason := Counted(old(reasons), reason) + 1]
      ensures Total(reasons) == Total(old(reasons)) + if sent then 0 else 1
      ensures heldDepth == old(heldDepth)
    {
      if sent {
        delivered := delivered + 1;
      } else {
        failed := failed + 1;
        TotalAfterBump(reasons, reason);
        reasons := reasons[reason := Counted(reasons, reason) + 1];
      }
    }

    method RecordHeld(depth: nat)
      modifies this
      ensures heldDepth == depth
      ensures delivered == old(delivered) && failed == old(failed) && reasons == old(reasons)
    {
      heldDepth := depth;
    }
  }
}

/** The decision on one inbound envelope: expiry, hops, rate, capacity, then the policy. */
module PolicyEngines {
  import opened Models
  import opened RateLimiting

  const RATE_DEFAULTS := Limits(5, 20, 60.0)
  const MAX_HOP_COUNT := 4

  /** The fields of an envelope that the inbound pipeline reads. */
  datatype Message = Message(id: string, sender: string, senderName: string, recipient: string, content: string,
                             createdAt: int, expiresAt: int, hopCount: int)

  /** What the checks in front of the policy say: `admitted` is the rate limiter's answer. */
  function Decide(policy: Policy, capacity: int, m: Message, now: int, admitted: bool, pending: nat): Decision {
    if m.expiresAt <= now then DropIt(DropExpired)
    else if m.hopCount >= MAX_HOP_COUNT then DropIt(DropInvalid)
    else if !admitted then DropIt(DropRateLimited)
    else if pending >= capacity then DropIt(DropOverCapacity)
    else match policy
      case Hold => HoldIt
      case Refuse => RefuseIt
      case Accept => Forward
  }

  /** The order of the checks, each decision with the one case that leads to it. */
  ghost predicate Judged(d: Decision, policy: Policy, m: Message, now: int, admitted: bool, room: bool) {
    var expired, tooFar := m.expiresAt <= now, m.hopCount >= 4;
    var passes := !expired && !tooFar && admitted && room;
    && (d == DropIt(DropExpired) <==> expired)
    && (d == DropIt(DropInvalid) <==> !expired && tooFar)
    && (d == DropIt(DropRateLimited) <==> !expired && !tooFar && !admitted)
    && (d == DropIt(DropOverCapacity) <==> !expired && !tooFar && admitted && !room)
    && (d == HoldIt <==> passes && policy == Hold)
    && (d == RefuseIt <==> passes && policy == Refuse)
    && (d == Forward <==> passes && policy == Accept)
  }

  predicate ReachesLimiter(m: Message, now: int) { m.expiresAt > now && m.hopCount < MAX_HOP_COUNT }

  class PolicyEngine {
    const capacity: int
    const limiter: RateLimiter
    var policy: Policy
    var pending: map<string, nat>

    constructor (policy: Policy, capacity: int)
      ensures this.policy == policy && this.capacity == capacity && pending == map[]
      ensures fresh(limiter) && limiter.Valid() && limiter.limits == RATE_DEFAULTS
      ensures limiter.history == map[] && limiter.latest == map[]
    {
      this.policy, this.capacity := policy, capacity;
      pending := map[];
      limiter := new RateLimiter(RATE_DEFAULTS);
    }

    method RegisterPending(recipient: string, count: nat)
      modifies this
      ensures pending == old(pending)[recipient := count] && policy == old(policy)
    {
      pending := pending[recipient := count];
    }

    /** `clock` is the monotonic clock that the limiter reads. */
    method Evaluate(m: Message, now: int, clock: real) returns (d: Decision)
      requires limiter.Valid()
      requires forall p <- limiter.latest :: limiter.latest[p] <= clock
      modifies limiter
      ensures limiter.Valid()
      ensures var admitted := Admits(limiter.limits, old(EventsOf(limiter.history, (m.sender, m.recipient))), clock);
              var count := if m.recipient in pending then pending[m.recipient] else 0;
              d == Decide(policy, capacity, m, now, admitted, count) && Judged(d, policy, m, now, admitted, count < capacity)
      ensures forall p <- limiter.latest :: limiter.latest[p] <= clock
      ensures !ReachesLimiter(m, now) ==> limiter.history == old(limiter.history)
    {
      if m.expiresAt <= now {
        return DropIt(DropExpired);
      }
      if m.hopCount >= MAX_HOP_COUNT {
        return DropIt(DropInvalid);
      }
      var admitted := limiter.Allow(m.sender, m.recipient, clock);
      if !admitted {
        return DropIt(DropRateLimited);
      }
      var count := if m.recipient in pending then pending[m.recipient] else 0;
      if count >= capacity {
        return DropIt(DropOverCapacity);
      }
      match policy
      case Hold => return HoldIt;
      case Refuse => return RefuseIt;
      case Accept => return Forward;
    }
  }
}

/** The inbound side of the session manager, one call at a time: claim, evaluate, act; then the
    explicit release and refuse of held messages. */
module Inbound {
  import opened Models
  import opened Store
  import opened Metrics
  import opened PolicyEngines
  import opened RateLimiting
  import Markers

  /** One message handed to the host, wrapped as `HostText`, and the host's answer. */
  datatype Injection = Injection(message: Message, accepted: bool)

  function HostText(e: Injection): string {
    var m := e.message;
    Markers.PeerMessageMarker(m.content, if m.senderName == "" then "unknown" else m.senderName, m.sender, m.id)
  }

  /** Messages whose header fields hold no `<` reach the host inside one well-formed boundary. */
  lemma HostTextIsWellBounded(e: Injection)
    requires '<' !in e.message.senderName && '<' !in e.message.sender && '<' !in e.message.id
    ensures Markers.WellBounded(HostText(e), Markers.PEER_OPEN, Markers.PEER_CLOSE)
  {
    var m := e.message;
    Markers.PlainHeadersSuffice(m.content, if m.senderName == "" then "unknown" else m.senderName, m.sender, m.id);
  }

  /** The host reads the sender's name, peer id and message id off the first lines, and then the content. */
  lemma HostReadsTheHeader(e: Injection)
    requires '\n' !in e.message.sender && '\n' !in e.message.id
    ensures var m := e.message;
            var name := Markers.SanitiseName(if m.senderName == "" then "unknown" else m.senderName);
            Markers.SplitLines(HostText(e)) ==
            ["<peer_message>", "From: " + name, "Peer ID: " + m.sender, "Message ID: " + m.id, ""]
            + Markers.SplitLines(Markers.Escape(m.content, Markers.MESSAGE_TAGS)) + ["</peer_message>"]
  {
    var m := e.message;
    Markers.MessageHeaderReadsBack(m.content, if m.senderName == "" then "unknown" else m.senderName, m.sender, m.id);
  }

  function Accepted(log: seq<Injection>, id: string): nat {
    if log == [] then 0
    else Accepted(log[..|log| - 1], id) + if log[|log| - 1].message.id == id && log[|log| - 1].accepted then 1 else 0
  }

  lemma AcceptedAppend(log: seq<Injection>, e: Injection, id: string)
    ensures Accepted(log + [e], id) == Accepted(log, id) + if e.message.id == id && e.accepted then 1 else 0
  {
    assert (log + [e])[..|log|] == log;
  }

  function NewRow(m: Message): Row {
    Row(m.recipient, m.sender, m.content, Queued, m.createdAt, m.hopCount, None)
  }

  /** Where a claimed message ends up. */
  function Disposition(d: Decision, host: Host): ReceiptState {
    match d
    case DropIt(reason) => StateOf(reason)
    case RefuseIt => Refused
    case HoldIt => Held
    case Forward => if host.Accepts? then Queued else Held
  }

  function FinalRow(m: Message, d: Decision, host: Host, stamp: int): Row {
    Row(m.recipient, m.sender, if d.RefuseIt? then "" else m.content, Disposition(d, host), m.createdAt, m.hopCount, Some(stamp))
  }

  // ---------------------------------------------------------------------------
  // Invariants of the table and the host's log
  // ---------------------------------------------------------------------------

  /** Queued means accepted by the host, exactly once; every other message was never accepted. */
  ghost predicate QueuedIsAccepted(rows: Table, log: seq<Injection>) {
    forall id :: AcceptedOnceIfQueued(rows, log, id)
  }

  ghost predicate AcceptedOnceIfQueued(rows: Table, log: seq<Injection>, id: string) {
    Accepted(log, id) == if id in rows && rows[id].state == Queued then 1 else 0
  }

  /** The claim counts itself, so a capacity of `c` leaves room for `c - 1` messages. */
  function Room(capacity: int): nat { if capacity <= 1 then 0 else capacity - 1 }

  ghost predicate HasRoom(rows: Table, capacity: int, recipient: string) {
    |Pending(rows, recipient)| <= Room(capacity)
  }

  /** Nobody has as many messages waiting as the capacity, if anything waits at all. */
  lemma WithinCapacityMeans(rows: Table, capacity: int)
    requires WithinCapacity(rows, capacity)
    ensures forall r :: |Pending(rows, r)| == 0 || |Pending(rows, r)| < capacity
  {
    forall r ensures |Pending(rows, r)| == 0 || |Pending(rows, r)| < capacity {
      assert HasRoom(rows, capacity, r);
    }
  }

  ghost predicate WithinCapacity(rows: Table, capacity: int) {
    forall r :: HasRoom(rows, capacity, r)
  }

  /** From one moment to a later one: rows stay, and only held messages change state, to held,
      queued or refused. */
  ghost predicate Evolves(before: Table, after: Table) {
    forall id <- before :: id in after && EvolvesRow(before[id], after[id])
  }

  ghost predicate EvolvesRow(a: Row, b: Row) {
    && b == a.(state := b.state, deliveredAt := b.deliveredAt)
    && (b == a || (a.state == Held && b.state in {Held, Queued, Refused}))
  }

  ghost predicate SameStates(before: Table, after: Table) {
    before.Keys == after.Keys && forall id <- after :: before[id].state == after[id].state
  }

  lemma EvolvesComposes(a: Table, b: Table, c: Table)
    requires Evolves(a, b) && Evolves(b, c)
    ensures Evolves(a, c)
  {
    forall id <- a ensures id in c && EvolvesRow(a[id], c[id]) {
      assert EvolvesRow(a[id], b[id]) && EvolvesRow(b[id], c[id]);
    }
  }

  lemma PendingAfterWrite(rows: Table, id: string, row: Row, r: string)
    ensures Pending(rows[id := row], r) ==
            if row.recipient == r && IsPending(row.state) then Pending(rows, r) + {id} else Pending(rows, r) - {id}
  {
  }

  /** A fresh message joins the pending ones only if, itself included, they are below the capacity. */
  lemma CapacityAfterInbound(rows: Table, m: Message, row: Row, capacity: int)
    requires WithinCapacity(rows, capacity) && m.id !in rows && row.recipient == m.recipient
    requires IsPending(row.state) ==> |Pending(rows[m.id := NewRow(m)], m.recipient)| < capacity
    ensures WithinCapacity(rows[m.id := row], capacity)
  {
    PendingAfterWrite(rows, m.id, NewRow(m), m.recipient);
    var after := rows[m.id := row];
    forall r ensures HasRoom(after, capacity, r) {
      PendingAfterWrite(rows, m.id, row, r);
      assert m.id !in Pending(rows, r);
      assert HasRoom(rows, capacity, r);
    }
  }

  /** Releasing or refusing a held message never adds a pending one. */
  lemma CapacityAfterHandling(rows: Table, id: string, row: Row, capacity: int)
    requires WithinCapacity(rows, capacity) && id in rows && IsPending(rows[id].state)
    requires row.recipient == rows[id].recipient
    ensures WithinCapacity(rows[id := row], capacity)
  {
    var after := rows[id := row];
    forall r ensures HasRoom(after, capacity, r) {
      PendingAfterWrite(rows, id, row, r);
      SubsetCardinality(Pending(rows[id := row], r), Pending(rows, r));
      assert HasRoom(rows, capacity, r);
    }
  }

  lemma AcceptedAfterInbound(rows: Table, log: seq<Injection>, m: Message, d: Decision, host: Host, stamp: int)
    requires QueuedIsAccepted(rows, log) && m.id !in rows
    ensures QueuedIsAccepted(rows[m.id := FinalRow(m, d, host, stamp)], Logged(log, m, d, host))
  {
    var after := rows[m.id := FinalRow(m, d, host, stamp)];
    forall id ensures AcceptedOnceIfQueued(after, Logged(log, m, d, host), id) {
      assert AcceptedOnceIfQueued(rows, log, id);
      LoggedCount(log, m, d, host, id);
    }
  }

  /** The log grows by an acceptance of `m` exactly if the message ends up queued. */
  lemma LoggedCount(log: seq<Injection>, m: Message, d: Decision, host: Host, id: string)
    ensures Accepted(Logged(log, m, d, host), id) ==
            Accepted(log, id) + if id == m.id && Disposition(d, host) == Queued then 1 else 0
  {
    AcceptedAppend(log, Injection(m, host.Accepts?), id);
  }

  lemma AcceptedAfterHandling(rows: Table, log: seq<Injection>, id: string, row: Row, grown: seq<Injection>)
    requires QueuedIsAccepted(rows, log) && id in rows && rows[id].state == Held
    requires (grown == log && row.state != Queued)
             || (exists e: Injection :: grown == log + [e] && e.message.id == id && (e.accepted <==> row.state == Queued))
    ensures QueuedIsAccepted(rows[id := row], grown)
  {
    var after := rows[id := row];
    forall x ensures AcceptedOnceIfQueued(after, grown, x) {
      assert AcceptedOnceIfQueued(rows, log, x);
      if grown != log || row.state == Queued {
        var e: Injection :| grown == log + [e] && e.message.id == id && (e.accepted <==> row.state == Queued);
        AcceptedAppend(log, e, x);
      }
    }
  }

  lemma ClaimCountsItself(rows: Table, m: Message)
    requires m.id !in rows
    ensures NewRow(m).state == Queued && NewRow(m).deliveredAt == None
    ensures |Pending(rows[m.id := NewRow(m)], m.recipient)| == |Pending(rows, m.recipient)| + 1
  {
    PendingAfterWrite(rows, m.id, NewRow(m), m.recipient);
    assert m.id !in Pending(rows, m.recipient);
  }

  lemma LastWriteWins(rows: Table, id: string, first: Row, last: Row)
    ensures rows[id := first][id := last] == rows[id := last]
  {
  }

  lemma EvolvesByInsertion(rows: Table, id: string, row: Row)
    requires id !in rows
    ensures Evolves(rows, rows[id := row])
  {
  }

  /** The two invariants together. */
  ghost predicate Sound(rows: Table, log: seq<Injection>, capacity: int) {
    QueuedIsAccepted(rows, log) && WithinCapacity(rows, capacity)
  }

  lemma SoundAfterInbound(rows: Table, log: seq<Injection>, capacity: int, m: Message, d: Decision, host: Host,
          stamp: int)
    requires Sound(rows, log, capacity) && m.id !in rows
    requires d.HoldIt? || d.Forward? ==> |Pending(rows, m.recipient)| + 1 < capacity
    ensures Sound(rows[m.id := FinalRow(m, d, host, stamp)], Logged(log, m, d, host), capacity)
  {
    AcceptedAfterInbound(rows, log, m, d, host, stamp);
    ClaimCountsItself(rows, m);
    CapacityAfterInbound(rows, m, FinalRow(m, d, host, stamp), capacity);
  }

  /** A claim followed by the final write, as one step from the table before the claim. */
  lemma InboundStep(rows: Table, log: seq<Injection>, capacity: int, m: Message, d: Decision, host: Host,
          stamp: int, after: Table)
    requires Sound(rows, log, capacity) && m.id !in rows
    requires d.HoldIt? || d.Forward? ==> |Pending(rows, m.recipient)| + 1 < capacity
    requires after == rows[m.id := NewRow(m)][m.id := FinalRow(m, d, host, stamp)]
    ensures after == rows[m.id := FinalRow(m, d, host, stamp)]
    ensures Sound(after, Logged(log, m, d, host), capacity) && Evolves(rows, after)
    ensures after[m.id].state == Disposition(d, host)
  {
    LastWriteWins(rows, m.id, NewRow(m), FinalRow(m, d, host, stamp));
    EvolvesByInsertion(rows, m.id, FinalRow(m, d, host, stamp));
    SoundAfterInbound(rows, log, capacity, m, d, host, stamp);
  }

  lemma SoundAfterHandling(rows: Table, log: seq<Injection>, capacity: int, id: string, row: Row, grown: seq<Injection>)
    requires Sound(rows, log, capacity) && id in rows && rows[id].state == Held && row.recipient == rows[id].recipient
    requires (grown == log && row.state != Queued)
             || (exists e: Injection :: grown == log + [e] && e.message.id == id && (e.accepted <==> row.state == Queued))
    ensures Sound(rows[id := row], grown, capacity)
  {
    AcceptedAfterHandling(rows, log, id, row, grown);
    CapacityAfterHandling(rows, id, row, capacity);
  }

  /** What one inbound call adds to the host's log. */
  function Logged(log: seq<Injection>, m: Message, d: Decision, host: Host): seq<Injection> {
    if d.Forward? && !host.NoTarget? then log + [Injection(m, host.Accepts?)] else log
  }

  /** The claim is counted, so a message passes the capacity check only while at most `capacity - 2`
      others are pending: a capacity of one or less lets nothing through. */
  lemma CapacityIsOneLess(policy: Policy, capacity: int, m: Message, now: int, admitted: bool, rows: Table)
    requires m.id !in rows && ReachesLimiter(m, now) && admitted
    ensures var pending := |Pending(rows[m.id := NewRow(m)], m.recipient)|;
            Decide(policy, capacity, m, now, admitted, pending) == DropIt(DropOverCapacity) <==>
            |Pending(rows, m.recipient)| > capacity - 2
  {
    ClaimCountsItself(rows, m);
  }

  /** A session with its own policy is never rate limited: its engine starts with an empty history. */
  lemma SessionPolicyIsNeverRateLimited(policy: Policy, capacity: int, m: Message, now: int, at: real, pending: nat)
    ensures Decide(policy, capacity, m, now, Admits(RATE_DEFAULTS, [], at), pending) != DropIt(DropRateLimited)
  {
    assert Recent([], at - RATE_DEFAULTS.window) == [];
  }

  /** What a fresh message with this policy comes to: its receipt, its row, and what the host is handed. */
  ghost predicate Handled(m: Message, policy: Policy, now: int, admitted: bool, room: bool, host: Host, stamp: int,
          s: ReceiptState, row: Row, handed: seq<Injection>) {
    var passes := m.expiresAt > now && m.hopCount < 4 && admitted && room;
    && (m.expiresAt <= now ==> s == Expired)
    && (m.expiresAt > now && m.hopCount >= 4 ==> s == Invalid)
    && (m.expiresAt > now && m.hopCount < 4 && !admitted ==> s == RateLimited)
    && (m.expiresAt > now && m.hopCount < 4 && admitted && !room ==> s == OverCapacity)
    && (passes && policy == Hold ==> s == Held)
    && (passes && policy == Refuse ==> s == Refused)
    && (passes && policy == Accept && host == Accepts ==> s == Queued)
    && (passes && policy == Accept && host != Accepts ==> s == Held)
    && row == Row(m.recipient, m.sender, if s == Refused then "" else m.content, s, m.createdAt, m.hopCount, Some(stamp))
    && (!passes || policy != Accept || host == NoTarget ==> handed == [])
    && (passes && policy == Accept && host != NoTarget ==> handed == [Injection(m, host == Accepts)])
  }

  lemma DecisionIsHandled(m: Message, policy: Policy, now: int, admitted: bool, pending: nat, capacity: int, host: Host,
          stamp: int, log: seq<Injection>)
    ensures var d := Decide(policy, capacity, m, now, admitted, pending);
            var handed := Logged([], m, d, host);
            && Logged(log, m, d, host) == log + handed
            && Handled(m, policy, now, admitted, pending < capacity, host, stamp, Disposition(d, host),
                       FinalRow(m, d, host, stamp), handed)
  {
  }

  // ---------------------------------------------------------------------------
  // The manager
  // ---------------------------------------------------------------------------

  datatype Fault = AmbiguousSession | NoSuchSession

  /** A stored message with what its row holds; the sender's name is not among it. */
  ghost predicate RebuiltFrom(m: Message, id: string, row: Row) {
    && m.id == id && m.sender == row.sender && m.senderName == "peer" && m.recipient == row.recipient
    && m.content == row.content && m.createdAt == row.createdAt && m.hopCount == row.hopCount
    && m.expiresAt == row.createdAt + 1_000_000
  }

  lemma OnlyOne(peers: map<string, string>, id: string)
    requires |peers| == 1 && id in peers
    ensures peers == map[id := peers[id]]
  {
    SubsetCardinality({id}, peers.Keys);
    assert |peers.Keys| == |peers|;
  }

  class SessionInbox {
    const store: MessageStore
    const metrics: MetricsRegistry
    const engine: PolicyEngine
    const capacity: int
    var sessionPolicies: map<string, Policy>
    /** session id -> peer id of the sessions registered in this process */
    var peers: map<string, string>
    /** Everything handed to the host, the number of inbound calls, and the latest clock reading. */
    ghost var log: seq<Injection>
    ghost var calls: nat
    ghost var clock: real

    ghost predicate Valid()
      reads this, store, metrics, engine, engine.limiter
    {
      && engine.capacity == capacity
      && engine.limiter.limits == RATE_DEFAULTS
      && engine.limiter.Valid()
      && (forall p <- engine.limiter.latest :: engine.limiter.latest[p] <= clock)
      && Sound(store.rows, log, capacity)
      && metrics.delivered + metrics.failed == calls
      && metrics.failed == Total(metrics.reasons)
    }

    constructor (policy: Policy, capacity: int)
      ensures Valid() && store.rows == map[] && log == [] && calls == 0
    {
      this.capacity := capacity;
      store := new MessageStore();
      metrics := new MetricsRegistry();
      engine := new PolicyEngine(policy, capacity);
      sessionPolicies, peers := map[], map[];
      log, calls, clock := [], 0, 0.0;
      new;
      assert forall r :: Pending(store.rows, r) == {};
      assert forall r :: HasRoom(store.rows, capacity, r);
    }

    /** The policy engine's answer for `m` in this state; a session with its own policy gets an
        engine of its own, whose limiter has seen nothing. */
    ghost function DecisionFor(m: Message, now: int, at: real, pending: nat): Decision
      reads this`sessionPolicies, engine, engine.limiter
    {
      if m.recipient in sessionPolicies
      then Decide(sessionPolicies[m.recipient], capacity, m, now, Admits(RATE_DEFAULTS, [], at), pending)
      else Decide(engine.policy, capacity, m, now,
                  Admits(engine.limiter.limits, EventsOf(engine.limiter.history, (m.sender, m.recipient)), at), pending)
    }

    /** `_policy_engine_for`, the pending count, and `evaluate`. */
    method Evaluate(m: Message, now: int, at: real) returns (d: Decision)
      requires engine.capacity == capacity && engine.limiter.Valid()
      requires forall p <- engine.limiter.latest :: engine.limiter.latest[p] <= at
      modifies engine, engine.limiter
      ensures d == old(DecisionFor(m, now, at, |Pending(store.rows, m.recipient)|))
      ensures engine.policy == old(engine.policy) && engine.limiter.Valid()
      ensures forall p <- engine.limiter.latest :: engine.limiter.latest[p] <= at
    {
      var count := store.CountPending(m.recipient);
      if m.recipient in sessionPolicies {
        var own := new PolicyEngine(sessionPolicies[m.recipient], capacity);
        own.RegisterPending(m.recipient, count);
        d := own.Evaluate(m, now, at);
      } else {
        engine.RegisterPending(m.recipient, count);
        d := engine.Evaluate(m, now, at);
      }
    }

    /** `DeliveryAdapter.deliver`: the duplicate guard, the injection, and the row that follows it. */
    method Deliver(m: Message, force: bool, host: Host, stamp: int) returns (accepted: bool)
      modifies this`log, store
      ensures host.NoTarget? || (m.id in old(store.rows) && !force) ==>
                !accepted && store.rows == old(store.rows) && log == old(log)
      ensures !host.NoTarget? && (m.id !in old(store.rows) || force) ==>
                && accepted == host.Accepts?
                && log == old(log) + [Injection(m, host.Accepts?)]
                && store.rows == (if m.id in old(store.rows) then old(store.rows)[m.id :=
                                      old(store.rows)[m.id].(state := if accepted then Queued else Held, deliveredAt := Some(stamp))]
                                  else old(store.rows)[m.id :=
                                      if accepted then NewRow(m) else NewRow(m).(state := Held, deliveredAt := Some(stamp))])
    {
      if host.NoTarget? {
        return false;
      }
      var existing := m.id in store.rows;
      if existing && !force {
        return false;
      }
      if !existing {
        var _, _ := store.Claim(m.id, NewRow(m));
      }
      accepted := host.Accepts?;
      log := log + [Injection(m, accepted)];
      if !accepted {
        var _ := store.Transition(m.id, Held, stamp);
      } else if existing {
        var _ := store.Transition(m.id, Queued, stamp);
      }
    }

    /** Acting on the decision for a message this call has just claimed. */
    method Act(m: Message, d: Decision, host: Host, stamp: int) returns (s: ReceiptState)
      requires m.id in store.rows && store.rows[m.id] == NewRow(m)
      modifies this`log, store, metrics
      ensures s == Disposition(d, host)
      ensures store.rows == old(store.rows)[m.id := FinalRow(m, d, host, stamp)]
      ensures log == Logged(old(log), m, d, host)
      ensures metrics.delivered == old(metrics.delivered) + (if s == Queued then 1 else 0)
      ensures metrics.failed == old(metrics.failed) + (if s == Queued then 0 else 1)
      ensures Total(metrics.reasons) == Total(old(metrics.reasons)) + if s == Queued then 0 else 1
    {
      match d {
      case DropIt(reason) =>
        s := StateOf(reason);
        var _ := store.Transition(m.id, s, stamp);
      case RefuseIt =>
        s := Refused;
        var _ := store.Transition(m.id, Refused, stamp);
        store.BlankContent(m.id);
      case HoldIt =>
        s := Held;
        HoldClaimed(m, stamp);
      case Forward =>
        var accepted := Deliver(m, true, host, stamp);
        s := if accepted then Queued else Held;
        if !accepted {
          HoldClaimed(m, stamp);
        }
      }
      metrics.RecordDelivery(s == Queued, s);
    }

    method HoldClaimed(m: Message, stamp: int)
      requires m.id in store.rows
      modifies store, metrics
      ensures store.rows == old(store.rows)[m.id := old(store.rows)[m.id].(state := Held, deliveredAt := Some(stamp))]
      ensures metrics.delivered == old(metrics.delivered) && metrics.failed == old(metrics.failed)
      ensures metrics.reasons == old(metrics.reasons)
    {
      var _ := store.Transition(m.id, Held, stamp);
      var depth := store.CountPending(m.recipient);
      metrics.RecordHeld(depth);
    }

    /** Everything after the claim. */
    method Process(m: Message, now: int, at: real, stamp: int, host: Host) returns (s: ReceiptState, ghost d: Decision)
      requires engine.capacity == capacity && engine.limiter.Valid()
      requires forall p <- engine.limiter.latest :: engine.limiter.latest[p] <= at
      requires m.id in store.rows && store.rows[m.id] == NewRow(m)
      modifies this`log, store, metrics, engine, engine.limiter
      ensures d == old(DecisionFor(m, now, at, |Pending(store.rows, m.recipient)|)) && s == Disposition(d, host)
      ensures store.rows == old(store.rows)[m.id := FinalRow(m, d, host, stamp)]
      ensures log == Logged(old(log), m, d, host)
      ensures engine.limiter.Valid() && forall p <- engine.limiter.latest :: engine.limiter.latest[p] <= at
      ensures metrics.delivered == old(metrics.delivered) + (if s == Queued then 1 else 0)
      ensures metrics.failed == old(metrics.failed) + (if s == Queued then 0 else 1)
      ensures Total(metrics.reasons) == Total(old(metrics.reasons)) + if s == Queued then 0 else 1
    {
      var decision := Evaluate(m, now, at);
      d := decision;
      s := Act(m, decision, host, stamp);
    }

    /** A session with a policy of its own is always admitted; the others are judged by their pair's history. */
    ghost predicate AdmittedFor(m: Message, at: real)
      reads this`sessionPolicies, engine, engine.limiter
    {
      || m.recipient in sessionPolicies
      || Admits(RATE_DEFAULTS, EventsOf(engine.limiter.history, (m.sender, m.recipient)), at)
    }

    /** The decision in the words of `Handled`. */
    lemma JudgedOutcome(m: Message, now: int, at: real, pending: nat, stamp: int, host: Host)
      requires engine.limiter.limits == RATE_DEFAULTS
      ensures var policy := if m.recipient in sessionPolicies then sessionPolicies[m.recipient] else engine.policy;
              var d := DecisionFor(m, now, at, pending);
              var handed := Logged([], m, d, host);
              && Logged(log, m, d, host) == log + handed
              && Handled(m, policy, now, AdmittedFor(m, at), pending < capacity, host, stamp, Disposition(d, host),
                         FinalRow(m, d, host, stamp), handed)
    {
      var policy := if m.recipient in sessionPolicies then sessionPolicies[m.recipient] else engine.policy;
      assert Recent([], at - RATE_DEFAULTS.window) == [];
      DecisionIsHandled(m, policy, now, AdmittedFor(m, at), pending, capacity, host, stamp, log);
    }

    /** The rest of the call that won the claim on a table `before`. */
    method HandleFresh(m: Message, now: int, at: real, stamp: int, host: Host, ghost before: Table)
      returns (s: ReceiptState, ghost handed: seq<Injection>)
      requires engine.capacity == capacity && engine.limiter.Valid() && engine.limiter.limits == RATE_DEFAULTS
      requires forall p <- engine.limiter.latest :: engine.limiter.latest[p] <= at
      requires Sound(before, log, capacity) && m.id !in before && store.rows == before[m.id := NewRow(m)]
      modifies this`log, store, metrics, engine, engine.limiter
      ensures var policy := if m.recipient in sessionPolicies then sessionPolicies[m.recipient] else old(engine.policy);
              && m.id in store.rows && store.rows == before[m.id := store.rows[m.id]] && log == old(log) + handed
              && Handled(m, policy, now, old(AdmittedFor(m, at)), |Pending(before, m.recipient)| + 1 < capacity, host, stamp,
                         s, store.rows[m.id], handed)
      ensures store.rows[m.id].state == s
      ensures Sound(store.rows, log, capacity) && Evolves(before, store.rows)
      ensures engine.limiter.Valid() && forall p <- engine.limiter.latest :: engine.limiter.latest[p] <= at
      ensures metrics.delivered == old(metrics.delivered) + (if s == Queued then 1 else 0)
      ensures metrics.failed == old(metrics.failed) + (if s == Queued then 0 else 1)
      ensures Total(metrics.reasons) == Total(old(metrics.reasons)) + if s == Queued then 0 else 1
    {
      ClaimCountsItself(before, m);
      JudgedOutcome(m, now, at, |Pending(before, m.recipient)| + 1, stamp, host);
      ghost var d;
      s, d := Process(m, now, at, stamp, host);
      InboundStep(before, old(log), capacity, m, d, host, stamp, store.rows);
      handed := Logged([], m, d, host);
    }

    /** `now` is the wall clock, `at` the monotonic clock, `stamp` the time written to the row. */
    method OnInbound(m: Message, now: int, at: real, stamp: int, host: Host) returns (s: ReceiptState)
      requires Valid() && clock <= at
      modifies this`log, this`calls, this`clock, store, metrics, engine, engine.limiter
      ensures Valid() && calls == old(calls) + 1
      ensures Evolves(old(store.rows), store.rows)
      ensures m.id in store.rows && store.rows[m.id].state == s
      ensures m.id in old(store.rows) ==>
                && store.rows == old(store.rows) && log == old(log)
                && engine.policy == old(engine.policy) && engine.pending == old(engine.pending)
                && engine.limiter.history == old(engine.limiter.history)
                && metrics.delivered == old(metrics.delivered)
      ensures m.id !in old(store.rows) ==>
                var policy := if m.recipient in sessionPolicies then sessionPolicies[m.recipient] else old(engine.policy);
                && store.rows == old(store.rows)[m.id := store.rows[m.id]] && old(log) <= log
                && Handled(m, policy, now, old(AdmittedFor(m, at)), |Pending(old(store.rows), m.recipient)| + 1 < capacity,
                           host, stamp, s, store.rows[m.id], log[|old(log)|..])
                && metrics.delivered == old(metrics.delivered) + if s == Queued then 1 else 0
    {
      ghost var before := store.rows;
      calls := calls + 1;
      clock := at;
      var existing, created := store.Claim(m.id, NewRow(m));
      if !created {
        s := existing.value.state;
        metrics.RecordDelivery(false, s);
        return;
      }
      ghost var handed;
      s, handed := HandleFresh(m, now, at, stamp, host, before);
      assert log[|old(log)|..] == handed;
    }

    /** A session is registered in this process, or its registration ends. */
    method Attach(session: string, peer: string)
      requires Valid()
      modifies this`peers
      ensures Valid() && peers == old(peers)[session := peer]
    {
      peers := peers[session := peer];
    }

    method Detach(session: string)
      requires Valid()
      modifies this`peers, this`sessionPolicies
      ensures Valid() && peers == old(peers) - {session}
      ensures sessionPolicies == if session in old(peers) then old(sessionPolicies) - {old(peers)[session]} else old(sessionPolicies)
    {
      if session in peers {
        sessionPolicies := sessionPolicies - {peers[session]};
      }
      peers := peers - {session};
    }

    /** The peer of the session named, or of the only one there is. */
    ghost function Selected(session: Option<string>): (r: Result<string, Fault>)
      reads this
      ensures session.None? && r.Ok? ==> exists id :: id in peers && peers == map[id := r.value]
    {
      match session
      case Some(id) => if id in peers then Ok(peers[id]) else Err(NoSuchSession)
      case None =>
        if |peers| != 1 then Err(AmbiguousSession)
        else
          var id :| id in peers;
          OnlyOne(peers, id);
          Ok(peers[id])
    }

    method SelectPeer(session: Option<string>) returns (r: Result<string, Fault>)
      ensures r == Selected(session)
    {
      match session
      case Some(id) =>
        return if id in peers then Ok(peers[id]) else Err(NoSuchSession);
      case None =>
        if |peers| != 1 {
          return Err(AmbiguousSession);
        }
        var id :| id in peers;
        OnlyOne(peers, id);
        return Ok(peers[id]);
    }

    /** Is `id` a held message of the selected session's peer? */
    predicate Releasable(id: string, peer: string)
      reads store
    {
      id in store.rows && store.rows[id].state == Held && store.rows[id].recipient == peer
    }

    /** A stored message is rebuilt without its sender's name. */
    function Rebuilt(id: string): Message
      requires id in store.rows
      reads store
    {
      var row := store.rows[id];
      Message.Message(id, row.sender, "peer", row.recipient, row.content, row.createdAt, row.createdAt + 1_000_000, row.hopCount)
    }

    /** Hand a held message to the host. */
    method ReleaseHeld(id: string, host: Host, stamp: int) returns (accepted: bool)
      requires Valid() && id in store.rows && store.rows[id].state == Held
      modifies this`log, store
      ensures Valid() && Evolves(old(store.rows), store.rows) && accepted == host.Accepts?
      ensures !accepted ==> SameStates(old(store.rows), store.rows)
      ensures accepted ==>
                && store.rows == old(store.rows)[id := old(store.rows)[id].(state := Queued, deliveredAt := Some(stamp))]
                && log == old(log) + [Injection(old(Rebuilt(id)), true)]
    {
      ghost var before := store.rows;
      accepted := Deliver(Rebuilt(id), true, host, stamp);
      SoundAfterHandling(before, old(log), capacity, id, store.rows[id], log);
      assert store.rows == before[id := store.rows[id]];
    }

    /** Only a held message of the selected session's peer is handed to the host. */
    method ReleaseMessage(id: string, session: Option<string>, host: Host, stamp: int) returns (r: Result<bool, Fault>)
      requires Valid()
      modifies this`log, store
      ensures Valid() && Evolves(old(store.rows), store.rows)
      ensures Selected(session).Err? ==> r == Err(Selected(session).error)
      ensures Selected(session).Ok? ==>
                (r == Ok(true) <==> && id in old(store.rows) && old(store.rows)[id].state == Held && host == Accepts
                                    && old(store.rows)[id].recipient == Selected(session).value)
      ensures Selected(session).Ok? ==> r == Ok(old(Releasable(id, Selected(session).value)) && host.Accepts?)
      ensures Selected(session).Err? || !old(Releasable(id, Selected(session).value)) ==> store.rows == old(store.rows) && log == old(log)
      ensures r != Ok(true) ==> SameStates(old(store.rows), store.rows)
      ensures r == Ok(true) ==>
                && id in old(store.rows)
                && store.rows == old(store.rows)[id := old(store.rows)[id].(state := Queued, deliveredAt := Some(stamp))]
                && log == old(log) + [Injection(old(Rebuilt(id)), true)]
                && RebuiltFrom(log[|old(log)|].message, id, old(store.rows)[id])
    {
      var peer := SelectPeer(session);
      if peer.Err? {
        return Err(peer.error);
      }
      if !Releasable(id, peer.value) {
        return Ok(false);
      }
      var accepted := ReleaseHeld(id, host, stamp);
      return Ok(accepted);
    }

    method RefuseMessage(id: string, session: Option<string>, stamp: int) returns (r: Result<bool, Fault>)
      requires Valid()
      modifies store
      ensures Valid() && Evolves(old(store.rows), store.rows)
      ensures r == match Selected(session)
                   case Err(e) => Err(e)
                   case Ok(peer) => Ok(id in old(store.rows) && old(store.rows)[id].state == Held && old(store.rows)[id].recipient == peer)
      ensures store.rows == if r == Ok(true) && id in old(store.rows)
                            then old(store.rows)[id := old(store.rows)[id].(state := Refused, deliveredAt := Some(stamp))]
                            else old(store.rows)
    {
      ghost var before := store.rows;
      var peer := SelectPeer(session);
      if peer.Err? {
        return Err(peer.error);
      }
      if !Releasable(id, peer.value) {
        return Ok(false);
      }
      var ok := store.Transition(id, Refused, stamp);
      SoundAfterHandling(before, log, capacity, id, store.rows[id], log);
      return Ok(ok);
    }

    method SetPolicy(policy: Policy, session: Option<string>) returns (r: Result<bool, Fault>)
      requires Valid()
      modifies this`sessionPolicies
      ensures Valid()
      ensures match Selected(session)
              case Err(e) => r == Err(e) && sessionPolicies == old(sessionPolicies)
              case Ok(peer) => r == Ok(true) && sessionPolicies == old(sessionPolicies)[peer := policy]
    {
      var peer := SelectPeer(session);
      if peer.Err? {
        return Err(peer.error);
      }
      sessionPolicies := sessionPolicies[peer.value := policy];
      return Ok(true);
    }
  }
}
