/** The strict decision table of request states. */
module Workflows {
  import opened Models

  datatype RequestState = Created | Enqueued | Accepted | InProgress | Completed | Failed | Refused | Cancelled | Expired

  const TRANSITIONS: set<(RequestState, RequestState)> :=
    {(Created, Enqueued), (Created, Cancelled), (Created, RequestState.Expired),
     (Enqueued, Accepted), (Enqueued, RequestState.Refused), (Enqueued, Cancelled), (Enqueued, RequestState.Expired),
     (Accepted, InProgress), (Accepted, Cancelled), (Accepted, Failed), (Accepted, RequestState.Expired),
     (InProgress, Completed), (InProgress, Failed), (InProgress, Cancelled), (InProgress, RequestState.Expired)}

  predicate CanTransition(s: RequestState, t: RequestState) { (s, t) in TRANSITIONS }

  predicate IsTerminal(s: RequestState) { s in {Completed, Failed, RequestState.Refused, Cancelled,
          RequestState.Expired} }

  /** The text a state is stored under. */
  function Text(s: RequestState): string {
    match s
    case Created => "created"
    case Enqueued => "queued"
    case Accepted => "accepted"
    case InProgress => "in_progress"
    case Completed => "completed"
    case Failed => "failed"
    case Refused => "refused"
    case Cancelled => "cancelled"
    case Expired => "expired"
  }

  function Parse(text: string): Option<RequestState> {
    if text == "created" then Some(Created)
    else if text == "queued" then Some(Enqueued)
    else if text == "accepted" then Some(Accepted)
    else if text == "in_progress" then Some(InProgress)
    else if text == "completed" then Some(Completed)
    else if text == "failed" then Some(Failed)
    else if text == "refused" then Some(RequestState.Refused)
    else if text == "cancelled" then Some(Cancelled)
    else if text == "expired" then Some(RequestState.Expired)
    else None
  }

  lemma ParseInvertsText(s: RequestState, text: string)
    ensures Parse(text) == Some(s) <==> text == Text(s)
  {
  }

  function Rank(s: RequestState): nat {
    match s
    case Created => 0
    case Enqueued => 1
    case Accepted => 2
    case InProgress => 3
    case _ => 4
  }

  lemma TransitionsClimb(s: RequestState, t: RequestState)
    requires CanTransition(s, t)
    ensures Rank(s) < Rank(t) && !IsTerminal(s)
  {
  }

  /** What the table allows: one step along created, queued, accepted, in progress, completed; failure
      once accepted; refusal only while queued; cancellation and expiry until terminal. */
  lemma TableAllows(s: RequestState, t: RequestState)
    ensures CanTransition(s, t) <==>
            match t
            case Created => false
            case Failed => s == Accepted || s == InProgress
            case Refused => s == Enqueued
            case Cancelled => !IsTerminal(s)
            case Expired => !IsTerminal(s)
            case _ => !IsTerminal(s) && Rank(t) == Rank(s) + 1
  {
  }

  lemma OnlyCreatedEnqueues(s: RequestState)
    ensures CanTransition(s, Enqueued) <==> s == Created
  {
  }

  /** The terminal states are exactly those without a way out; every other one may expire or be
      cancelled at once. */
  lemma TerminalIffStuck(s: RequestState)
    ensures IsTerminal(s) <==> forall t :: !CanTransition(s, t)
    ensures !IsTerminal(s) ==> CanTransition(s, RequestState.Expired) && CanTransition(s, Cancelled)
  {
    if !IsTerminal(s) {
      assert CanTransition(s, Cancelled);
    }
  }

  /** A legal history. */
  ghost predicate LegalPath(p: seq<RequestState>) {
    p != [] && p[0] == Created && forall i :: 0 < i < |p| ==> CanTransition(p[i - 1], p[i])
  }

  lemma {:induction false} RankAlongPath(p: seq<RequestState>, i: nat, j: nat)
    requires LegalPath(p) && i <= j < |p|
    ensures Rank(p[i]) + (j - i) <= Rank(p[j])
  {
    if i < j {
      RankAlongPath(p, i, j - 1);
      TransitionsClimb(p[j - 1], p[j]);
    }
  }

  /** At most five states, none twice, and only the last may be terminal. */
  lemma PathsAreShort(p: seq<RequestState>)
    requires LegalPath(p)
    ensures |p| <= 5
    ensures forall i, j :: 0 <= i < j < |p| ==> Rank(p[i]) < Rank(p[j]) && p[i] != p[j] && !IsTerminal(p[i])
  {
    RankAlongPath(p, 0, |p| - 1);
    forall i, j | 0 <= i < j < |p| ensures Rank(p[i]) < Rank(p[j]) && p[i] != p[j] && !IsTerminal(p[i]) {
      RankAlongPath(p, i, j);
    }
  }

  lemma PathExtends(p: seq<RequestState>, t: RequestState)
    requires LegalPath(p) && CanTransition(p[|p| - 1], t)
    ensures LegalPath(p + [t])
  {
  }
}

/** The request store with its event log, and the manager operations on it. */
module Requests {
  import opened Models
  import opened Workflows

  datatype Request = Request(id: string, sender: string, recipient: string, state: RequestState, summary: string,
                             createdAt: string, deadline: string, key: string)

  datatype Event = Event(requestId: string, state: RequestState, detail: string)

  datatype Fault = ValidationError | UnknownRequest | NotTheRecipient | UnknownAction

  type Table = map<string, Request>

  /** What the constructor of a request insists on; a stored row need not satisfy it. */
  predicate WellFormed(r: Request) { r.id != "" && r.sender != "" && r.recipient != "" }

  function AsRequest(r: Request): Result<Request, Fault> { if WellFormed(r) then Ok(r) else Err(ValidationError) }

  /** The states logged for one request, oldest first. */
  function StatesOf(events: seq<Event>, id: string): seq<RequestState> {
    if events == [] then []
    else
      var last := events[|events| - 1];
      StatesOf(events[..|events| - 1], id) + if last.requestId == id then [last.state] else []
  }

  lemma StatesOfAppend(events: seq<Event>, e: Event, id: string)
    ensures StatesOf(events + [e], id) == StatesOf(events, id) + if e.requestId == id then [e.state] else []
  {
    assert (events + [e])[..|events|] == events;
  }

  lemma {:induction false} NoStates(events: seq<Event>, id: string)
    requires forall e <- events :: e.requestId != id
    ensures StatesOf(events, id) == []
  {
    if events != [] {
      assert events[|events| - 1] in events;
      NoStates(events[..|events| - 1], id);
    }
  }

  ghost predicate LoggedRow(rows: Table, events: seq<Event>, id: string)
    requires id in rows
  {
    var p := StatesOf(events, id);
    rows[id].id == id && LegalPath(p) && p[|p| - 1] == rows[id].state
  }

  /** Each request's events are a legal path from `created` to its current state. */
  ghost predicate Logged(rows: Table, events: seq<Event>) {
    && (forall e <- events :: e.requestId in rows)
    && forall id {:trigger LoggedRow(rows, events, id)} :: id in rows ==> LoggedRow(rows, events, id)
  }

  predicate Owns(r: Request, sender: string, key: string) { r.sender == sender && r.key == key }

  /** A sender and a non-empty key own at most one request. */
  ghost predicate Keyed(rows: Table) {
    forall a, b :: Distinct(rows, a, b)
  }

  ghost predicate Distinct(rows: Table, a: string, b: string) {
    a in rows && b in rows && rows[a].key != "" && Owns(rows[b], rows[a].sender, rows[a].key) ==> a == b
  }

  /** From one moment to a later one: requests stay, only their state changes, never downwards and
      never once terminal, and the log only grows. */
  ghost predicate Evolves(rows: Table, events: seq<Event>, later: Table, longer: seq<Event>) {
    events <= longer && forall id <- rows :: id in later && Advanced(rows[id], later[id])
  }

  ghost predicate Advanced(a: Request, b: Request) {
    && b == a.(state := b.state)
    && (a.state == b.state || (Rank(a.state) < Rank(b.state) && !IsTerminal(a.state)))
  }

  lemma EvolvesComposes(rows: Table, events: seq<Event>, rows1: Table, events1: seq<Event>, rows2: Table,
          events2: seq<Event>)
    requires Evolves(rows, events, rows1, events1) && Evolves(rows1, events1, rows2, events2)
    ensures Evolves(rows, events, rows2, events2)
  {
    forall id <- rows ensures id in rows2 && Advanced(rows[id], rows2[id]) {
      assert Advanced(rows[id], rows1[id]) && Advanced(rows1[id], rows2[id]);
    }
  }

  /** In every state a store can reach, each request has at most five events, in strictly rising rank. */
  lemma HistoryIsShort(rows: Table, events: seq<Event>, id: string)
    requires Logged(rows, events) && id in rows
    ensures var p := StatesOf(events, id);
            && 1 <= |p| <= 5 && p[0] == Created && p[|p| - 1] == rows[id].state
            && (forall i, j :: 0 <= i < j < |p| ==> Rank(p[i]) < Rank(p[j]) && !IsTerminal(p[i]))
  {
    assert LoggedRow(rows, events, id);
    PathsAreShort(StatesOf(events, id));
  }

  lemma LoggedElsewhere(rows: Table, events: seq<Event>, x: string, after: Table, e: Event)
    requires x in rows && x in after && after[x] == rows[x] && e.requestId != x && LoggedRow(rows, events, x)
    ensures LoggedRow(after, events + [e], x)
  {
    StatesOfAppend(events, e, x);
  }

  lemma LoggedHere(rows: Table, events: seq<Event>, after: Table, e: Event)
    requires var id := e.requestId;
             && id in rows && id in after && after[id] == rows[id].(state := e.state)
             && LoggedRow(rows, events, id) && CanTransition(rows[id].state, e.state)
    ensures LoggedRow(after, events + [e], e.requestId)
  {
    StatesOfAppend(events, e, e.requestId);
    PathExtends(StatesOf(events, e.requestId), e.state);
  }

  lemma LoggedFirst(events: seq<Event>, r: Request, after: Table, e: Event)
    requires (forall x <- events :: x.requestId != r.id) && e.requestId == r.id && e.state == r.state == Created
    requires r.id in after && after[r.id] == r
    ensures LoggedRow(after, events + [e], r.id)
  {
    NoStates(events, r.id);
    StatesOfAppend(events, e, r.id);
  }

  lemma LoggedAfterCreate(rows: Table, events: seq<Event>, r: Request, e: Event)
    requires Logged(rows, events) && r.id !in rows && e.requestId == r.id && e.state == r.state == Created
    ensures Logged(rows[r.id := r], events + [e])
  {
    var after := rows[r.id := r];
    LoggedFirst(events, r, after, e);
    forall x <- after ensures LoggedRow(after, events + [e], x) {
      if x != r.id {
        LoggedElsewhere(rows, events, x, after, e);
      }
    }
  }

  lemma LoggedAfterMove(rows: Table, events: seq<Event>, e: Event)
    requires Logged(rows, events) && e.requestId in rows && CanTransition(rows[e.requestId].state, e.state)
    ensures var after := rows[e.requestId := rows[e.requestId].(state := e.state)];
            Logged(after, events + [e]) && Evolves(rows, events, after, events + [e])
  {
    var after := rows[e.requestId := rows[e.requestId].(state := e.state)];
    TransitionsClimb(rows[e.requestId].state, e.state);
    LoggedHere(rows, events, after, e);
    forall x <- after ensures LoggedRow(after, events + [e], x) {
      if x != e.requestId {
        LoggedElsewhere(rows, events, x, after, e);
      }
    }
  }

  lemma KeyedAfterMove(rows: Table, id: string, t: RequestState)
    requires Keyed(rows) && id in rows
    ensures Keyed(rows[id := rows[id].(state := t)])
  {
    var after := rows[id := rows[id].(state := t)];
    forall a, b ensures Distinct(after, a, b) {
      assert Distinct(rows, a, b);
    }
  }

  lemma KeyedAfterCreate(rows: Table, r: Request)
    requires Keyed(rows) && r.id !in rows
    requires r.key == "" || forall x <- rows :: !Owns(rows[x], r.sender, r.key)
    ensures Keyed(rows[r.id := r])
  {
    var after := rows[r.id := r];
    forall a, b ensures Distinct(after, a, b) {
      assert Distinct(rows, a, b);
    }
  }

  // ---------------------------------------------------------------------------
  // Expiry
  // ---------------------------------------------------------------------------

  /** The order in which SQLite compares text. */
  predicate TextBefore(a: string, b: string) {
    if a == [] then b != []
    else b != [] && (a[0] < b[0] || (a[0] == b[0] && TextBefore(a[1..], b[1..])))
  }

  /** Text that precedes another one is a proper beginning of it, or smaller at the first difference. */
  ghost predicate Precedes(a: string, b: string) {
    exists k :: 0 <= k <= |a| && PrecedesAt(a, b, k)
  }

  ghost predicate PrecedesAt(a: string, b: string, k: nat)
    requires k <= |a|
  {
    k < |b| && a[..k] == b[..k] && (k == |a| || a[k] < b[k])
  }

  lemma {:induction false} TextBeforeIff(a: string, b: string)
    ensures TextBefore(a, b) <==> Precedes(a, b)
  {
    if a == "" {
      assert b != "" ==> PrecedesAt(a, b, 0);
    } else if b != "" {
      TextBeforeIff(a[1..], b[1..]);
      if TextBefore(a, b) {
        if a[0] < b[0] {
          assert PrecedesAt(a, b, 0);
        } else {
          var k :| 0 <= k <= |a[1..]| && PrecedesAt(a[1..], b[1..], k);
          assert a[..k + 1] == [a[0]] + a[1..][..k] && b[..k + 1] == [b[0]] + b[1..][..k];
          assert PrecedesAt(a, b, k + 1);
        }
      }
      if Precedes(a, b) {
        var k :| 0 <= k <= |a| && PrecedesAt(a, b, k);
        if k > 0 {
          assert a[..k][0] == a[0] && b[..k][0] == b[0];
          assert a[..k][1..] == a[1..][..k - 1] && b[..k][1..] == b[1..][..k - 1];
          assert PrecedesAt(a[1..], b[1..], k - 1);
        }
      }
    }
  }

  /** What one pass of expiry makes of a request. */
  ghost predicate ExpiredIfOverdue(before: Request, after: Request, now: string) {
    if before.state in {Created, Enqueued, Accepted, InProgress} && Precedes(before.deadline, now)
    then after == before.(state := RequestState.Expired)
    else after == before
  }

  lemma ExpiryByDeadline(rows: Table, now: string)
    ensures forall id <- rows :: ExpiredIfOverdue(rows[id], WithExpired(rows, Overdue(rows, now))[id], now)
  {
    forall id <- rows ensures ExpiredIfOverdue(rows[id], WithExpired(rows, Overdue(rows, now))[id], now) {
      TextBeforeIff(rows[id].deadline, now);
    }
  }

  predicate IsActive(s: RequestState) { s in {Created, Enqueued, Accepted, InProgress} }

  function Active(rows: Table): set<string> { set id | id in rows && IsActive(rows[id].state) }

  function Overdue(rows: Table, now: string): set<string> {
    set id | id in rows && IsActive(rows[id].state) && TextBefore(rows[id].deadline, now)
  }

  function WithExpired(rows: Table, ids: set<string>): Table {
    map id | id in rows :: if id in ids then rows[id].(state := RequestState.Expired) else rows[id]
  }

  /** A move takes a request out of the active ones exactly if it ends in a terminal state. */
  lemma ActiveCountAfterMove(rows: Table, id: string, t: RequestState)
    requires id in rows && CanTransition(rows[id].state, t)
    ensures |Active(rows[id := rows[id].(state := t)])| == |Active(rows)| - if IsTerminal(t) then 1 else 0
  {
    var after := Active(rows[id := rows[id].(state := t)]);
    TransitionsClimb(rows[id].state, t);
    assert after == if IsTerminal(t) then Active(rows) - {id} else Active(rows);
  }

  /** A new request is one more active one. */
  lemma ActiveCountAfterCreate(rows: Table, r: Request)
    requires r.id !in rows && r.state == Created
    ensures |Active(rows[r.id := r])| == |Active(rows)| + 1
  {
    assert Active(rows[r.id := r]) == Active(rows) + {r.id};
  }

  lemma WithExpiredStep(rows: Table, done: set<string>, id: string)
    requires id in rows && id !in done
    ensures var mid := WithExpired(rows, done);
            && id in mid && mid[id] == rows[id]
            && mid[id := mid[id].(state := RequestState.Expired)] == WithExpired(rows, done + {id})
  {
  }

  lemma OneFewer(all: set<string>, rest: set<string>, id: string)
    requires rest <= all && id in rest
    ensures (all - rest) + {id} == all - (rest - {id}) && |rest - {id}| == |rest| - 1
  {
  }

  /** One pass leaves nothing overdue, and takes exactly the overdue requests from the active ones. */
  lemma ExpiryIsExact(rows: Table, now: string)
    ensures Overdue(WithExpired(rows, Overdue(rows, now)), now) == {}
    ensures Active(WithExpired(rows, Overdue(rows, now))) == Active(rows) - Overdue(rows, now)
  {
  }

  /** So an expiry lowers the active count by the number of overdue requests. */
  lemma ActiveCountAfterExpiry(rows: Table, now: string)
    ensures |Active(WithExpired(rows, Overdue(rows, now)))| == |Active(rows)| - |Overdue(rows, now)|
  {
    ExpiryIsExact(rows, now);
    CardinalityOfDifference(Active(rows), Overdue(rows, now));
  }

  lemma CardinalityOfDifference(a: set<string>, b: set<string>)
    requires b <= a
    ensures |a - b| == |a| - |b|
  {
    assert a == (a - b) + b;
  }

  function WithEnqueued(r: Request): Request { if r.state.Created? then r.(state := Enqueued) else r }

  lemma SameRows(rows: Table)
    ensures forall x <- rows :: rows[x := rows[x]] == rows
  {
  }

  /** What the recipient's actions do. */
  ghost predicate Moves(s: RequestState, action: string, t: RequestState) {
    || (action == "accept" && s == Enqueued && t == Accepted)
    || (action == "progress" && s == Accepted && t == InProgress)
    || (action == "complete" && s == InProgress && t == Completed)
    || (action == "fail" && s in {Accepted, InProgress} && t == Failed)
    || (action == "refuse" && s == Enqueued && t == RequestState.Refused)
  }

  class RequestStore {
    var rows: Table
    /** The event table in insertion order. */
    var events: seq<Event>

    ghost predicate Valid()
      reads this
    {
      Logged(rows, events) && Keyed(rows)
    }

    constructor ()
      ensures Valid() && rows == map[] && events == []
    {
      rows, events := map[], [];
    }

    method FindByKey(sender: string, key: string) returns (found: Option<string>)
      ensures found.Some? ==> found.value in rows && Owns(rows[found.value], sender, key)
      ensures found.None? ==> forall id <- rows :: !Owns(rows[id], sender, key)
    {
      if id :| id in rows && Owns(rows[id], sender, key) {
        return Some(id);
      }
      return None;
    }

    /** `id` is the fresh request id.  The row and its event are committed before the request is
        constructed, so a request that fails validation leaves its row behind. */
    method Create(id: string, sender: string, recipient: string, summary: string, now: string, deadline: string,
            key: string)
      returns (r: Result<Request, Fault>)
      requires Valid() && id !in rows && id != ""
      modifies this
      ensures Valid() && Evolves(old(rows), old(events), rows, events)
      ensures forall x <- old(rows) :: key != "" && Owns(old(rows)[x], sender, key) ==>
                rows == old(rows) && events == old(events) && r == AsRequest(old(rows)[x])
      ensures (key == "" || forall x <- old(rows) :: !Owns(old(rows)[x], sender, key)) ==>
                var made := Request(id, sender, recipient, Created, summary, now, deadline, key);
                && rows == old(rows)[id := made] && events == old(events) + [Event(id, Created, "request created")]
                && r == if sender == "" || recipient == "" then Err(ValidationError) else Ok(made)
    {
      if key != "" {
        var existing := FindByKey(sender, key);
        if existing.Some? {
          assert forall x <- rows :: Distinct(rows, x, existing.value);
          return AsRequest(rows[existing.value]);
        }
      }
      var made := Request(id, sender, recipient, Created, summary, now, deadline, key);
      LoggedAfterCreate(rows, events, made, Event(id, Created, "request created"));
      KeyedAfterCreate(rows, made);
      rows := rows[id := made];
      events := events + [Event(id, Created, "request created")];
      return AsRequest(made);
    }

    /** The target state, if the move is legal. */
    function Target(id: string, target: string): Option<RequestState>
      requires id in rows
      reads this
    {
      match Parse(target)
      case Some(t) => if CanTransition(rows[id].state, t) then Some(t) else None
      case None => None
    }

    /** An unknown id is reported as nothing, an illegal or unknown target changes nothing.  A row
        that is no valid request is moved all the same; only reading it back fails. */
    method Transition(id: string, target: string, detail: string) returns (r: Result<Option<Request>, Fault>)
      requires Valid()
      modifies this
      ensures Valid() && Evolves(old(rows), old(events), rows, events)
      ensures id !in old(rows) ==> r == Ok(None)
      ensures id in old(rows) && old(Target(id, target)).None? ==> rows == old(rows) && events == old(events)
      ensures id !in old(rows) ==> rows == old(rows) && events == old(events)
      ensures id in old(rows) && old(Target(id, target)).Some? ==>
                var t := old(Target(id, target)).value;
                && rows == old(rows)[id := old(rows)[id].(state := t)]
                && events == old(events) + [Event(id, t, detail)]
      ensures id in old(rows) ==> id in rows && r == if WellFormed(rows[id]) then Ok(Some(rows[id])) else Err(ValidationError)
    {
      if id !in rows {
        return Ok(None);
      }
      var current := rows[id].state;
      TerminalIffStuck(current);
      if !IsTerminal(current) {
        var t := Target(id, target);
        if t.Some? {
          LoggedAfterMove(rows, events, Event(id, t.value, detail));
          KeyedAfterMove(rows, id, t.value);
          rows := rows[id := rows[id].(state := t.value)];
          events := events + [Event(id, t.value, detail)];
        }
      }
      return if WellFormed(rows[id]) then Ok(Some(rows[id])) else Err(ValidationError);
    }

    /** Select the overdue requests, then expire them one by one. */
    method ExpireOverdue(now: string) returns (count: nat)
      requires Valid()
      modifies this
      ensures Valid() && Evolves(old(rows), old(events), rows, events)
      ensures rows == WithExpired(old(rows), Overdue(old(rows), now))
      ensures rows.Keys == old(rows).Keys && forall id <- rows :: ExpiredIfOverdue(old(rows)[id], rows[id], now)
      ensures count == |Overdue(old(rows), now)| == |events| - |old(events)|
    {
      ExpiryByDeadline(rows, now);
      ghost var before, all := rows, Overdue(rows, now);
      var rest := Overdue(rows, now);
      count := 0;
      assert WithExpired(before, all - rest) == before;
      while rest != {}
        invariant Valid() && Evolves(before, old(events), rows, events)
        invariant rest <= all && rows == WithExpired(before, all - rest)
        invariant count == |all| - |rest| == |events| - |old(events)|
        decreases |rest|
      {
        var id :| id in rest;
        ExpireOne(id, "deadline passed", before, old(events), all - rest);
        OneFewer(all, rest, id);
        rest := rest - {id};
        count := count + 1;
      }
      assert all - rest == all;
    }

    method ExpireOne(id: string, detail: string, ghost before: Table, ghost logged: seq<Event>, ghost done: set<string>)
      requires Valid() && id in before && id !in done && IsActive(before[id].state)
      requires Evolves(before, logged, rows, events) && rows == WithExpired(before, done)
      modifies this
      ensures Valid() && Evolves(before, logged, rows, events)
      ensures rows == WithExpired(before, done + {id}) && |events| == |old(events)| + 1
    {
      ghost var rows0, events0 := rows, events;
      WithExpiredStep(before, done, id);
      LoggedAfterMove(rows, events, Event(id, RequestState.Expired, detail));
      KeyedAfterMove(rows, id, RequestState.Expired);
      rows := rows[id := rows[id].(state := RequestState.Expired)];
      events := events + [Event(id, RequestState.Expired, detail)];
      EvolvesComposes(before, logged, rows0, events0, rows, events);
    }

    method CountActive() returns (n: nat)
      ensures n == |Active(rows)|
    {
      n := |Active(rows)|;
    }

    // -------------------------------------------------------------------------
    // The manager's operations
    // -------------------------------------------------------------------------

    /** The move to `queued`, which changes only a request that is still `created`. */
    method Enqueue(id: string)
      requires Valid() && id in rows && rows[id].id == id
      modifies this
      ensures Valid() && Evolves(old(rows), old(events), rows, events)
      ensures rows == old(rows)[id := WithEnqueued(old(rows)[id])]
      ensures events == if old(rows)[id].state == Created then old(events) + [Event(id, Enqueued, "")] else old(events)
    {
      var s := rows[id].state;
      OnlyCreatedEnqueues(s);
      assert rows[id := rows[id]] == rows;
      var _ := Transition(id, "queued", "");
    }

    /** Create, then enqueue; the state reported is the one before enqueueing. */
    method CreateRequest(id: string, sender: string, recipient: string, summary: string, now: string,
            deadline: string, key: string)
      returns (r: Result<Request, Fault>)
      requires Valid() && id !in rows && id != ""
      modifies this
      ensures Valid() && Evolves(old(rows), old(events), rows, events)
      ensures r.Ok? ==> r.value.id in rows && rows[r.value.id] == WithEnqueued(r.value)
      ensures forall x <- old(rows) :: key != "" && Owns(old(rows)[x], sender, key) ==>
                && r == AsRequest(old(rows)[x]) && rows == old(rows)[x := Requeued(old(rows)[x])]
      ensures (key == "" || forall x <- old(rows) :: !Owns(old(rows)[x], sender, key)) ==>
                var made := Request(id, sender, recipient, Created, summary, now, deadline, key);
                var valid := sender != "" && recipient != "";
                && r == (if valid then Ok(made) else Err(ValidationError))
                && rows == old(rows)[id := if valid then made.(state := Enqueued) else made]
                && events == old(events) + [Event(id, Created, "request created")] + (if valid then [Event(id, Enqueued, "")] else [])
    {
      ghost var rows0, events0 := rows, events;
      r := Create(id, sender, recipient, summary, now, deadline, key);
      ghost var rows1, events1 := rows, events;
      assert forall x <- rows0 :: rows0[x].id == x by {
        assert forall x <- rows0 :: LoggedRow(rows0, events0, x);
      }
      if r.Err? {
        SameRows(rows0);
        return;
      }
      Enqueue(r.value.id);
      EvolvesComposes(rows0, events0, rows1, events1, rows, events);
    }

    /** A request that can be read and still is `created` is queued. */
    function Requeued(r: Request): Request {
      if r.id != "" && r.sender != "" && r.recipient != "" && r.state == Created then r.(state := Enqueued) else r
    }

    function ActionTarget(action: string): Option<string> {
      if action == "accept" then Some("accepted")
      else if action == "progress" then Some("in_progress")
      else if action == "complete" then Some("completed")
      else if action == "fail" then Some("failed")
      else if action == "refuse" then Some("refused")
      else None
    }

    lemma ActionsMove(s: RequestState, action: string)
      requires ActionTarget(action).Some?
      ensures Parse(ActionTarget(action).value).Some?
      ensures var t := Parse(ActionTarget(action).value).value;
              && (CanTransition(s, t) <==> Moves(s, action, t))
              && forall u :: Moves(s, action, u) ==> u == t
    {
    }

    /** The recipient's agent or peer id may act on the request; nobody else. */
    method Respond(id: string, action: string, detail: string, agent: string, peer: string)
      returns (r: Result<RequestState, Fault>)
      requires Valid()
      modifies this
      ensures Valid() && Evolves(old(rows), old(events), rows, events)
      ensures r == if id !in old(rows) then Err(UnknownRequest)
                   else if !WellFormed(old(rows)[id]) then Err(ValidationError)
                   else if old(rows)[id].recipient !in {agent, peer} then Err(NotTheRecipient)
                   else if action !in {"accept", "progress", "complete", "fail", "refuse"} then Err(UnknownAction)
                   else if id in rows then Ok(rows[id].state) else r
      ensures r.Ok? ==> forall t :: Moves(old(rows)[id].state, action, t) ==>
                rows == old(rows)[id := old(rows)[id].(state := t)] && events == old(events) + [Event(id, t, detail)]
      ensures r.Err? || (forall t :: !Moves(old(rows)[id].state, action, t)) ==> rows == old(rows) && events == old(events)
      ensures r.Ok? ==> id in rows
    {
      if id !in rows {
        return Err(UnknownRequest);
      }
      if !WellFormed(rows[id]) {
        return Err(ValidationError);
      }
      if agent != rows[id].recipient && peer != rows[id].recipient {
        return Err(NotTheRecipient);
      }
      var target := ActionTarget(action);
      if target.None? {
        return Err(UnknownAction);
      }
      ActionsMove(rows[id].state, action);
      var _ := Transition(id, target.value, detail);
      return Ok(rows[id].state);
    }
  }
}
