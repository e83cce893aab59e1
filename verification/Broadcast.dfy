/** One broadcast and any number of concurrent `fan_out` callers and pool workers.  The gate on the
    parent row, the child rows, the sends with their retries and the result slots are single steps;
    callers and workers interleave freely. */
module Broadcast {
  import opened Models
  import JsonTexts

  /** Group members in the order `groups.members` returns them; ids stand for agent ids in the
      order in which SQLite sorts them. */
  datatype Member = Member(agent: int, pin: Option<string>)

  datatype Entry = Entry(agent: int, peer: string, childId: string, state: string, detail: string)

  /** One attempt to send: an exception with its text, or a receipt. */
  datatype Attempt = Threw(text: string) | Answered(state: string, detail: string)

  /** Everything outside the engine: whom each member resolves to, what attempt `k` at member `i`
      meets, and the deterministic child ids. */
  datatype Config = Config(
    members: seq<Member>, sender: int, maxRetries: int,
    resolve: nat -> Option<string>, send: (nat, nat) -> Attempt,
    childId: (int, string) -> string)

  /** The group table's primary key makes agent ids distinct, and `members` sorts by them. */
  ghost predicate ValidConfig(c: Config) {
    forall i, j :: 0 <= i < j < |c.members| ==> c.members[i].agent < c.members[j].agent
  }

  /** Is there anyone to resolve?  The sender is skipped without asking. */
  ghost predicate Resolves(c: Config) {
    exists i :: 0 <= i < |c.members| && c.members[i].agent != c.sender
  }

  const QUEUED := "queued"
  const SKIPPED := "skipped"
  const UNREACHABLE := "unreachable"
  const TIMEOUT := "timeout"

  predicate Retryable(state: string) { state == UNREACHABLE || state == TIMEOUT }

  // ---------------------------------------------------------------------------
  // One member on its own
  // ---------------------------------------------------------------------------

  /** The row inserted for member `i` before any send. */
  function Planned(c: Config, i: nat): Entry
    requires i < |c.members|
  {
    var m := c.members[i];
    if m.agent == c.sender then Entry(m.agent, "", c.childId(m.agent, ""), SKIPPED, "sender excluded")
    else match c.resolve(i)
      case None => Entry(m.agent, "", c.childId(m.agent, ""), UNREACHABLE, "no live session")
      case Some(peer) => Entry(m.agent, peer, c.childId(m.agent, peer), QUEUED, "")
  }

  /** State and detail after attempt `k` at member `i`. */
  function AfterAttempt(c: Config, i: nat, k: nat): (string, string) {
    match c.send(i, k)
    case Threw(text) => (UNREACHABLE, "attempt " + JsonTexts.Decimal(k + 1) + ": " + text)
    case Answered(state, detail) => (state, detail)
  }

  /** The attempt that settles member `i`: the first one not answered `unreachable` or `timeout`,
      counted from `k`, or the last one allowed. */
  function Settling(c: Config, i: nat, k: nat): (last: nat)
    requires k <= c.maxRetries
    ensures k <= last <= c.maxRetries
    ensures forall a :: k <= a < last ==> Retryable(AfterAttempt(c, i, a).0)
    ensures last == c.maxRetries || !Retryable(AfterAttempt(c, i, last).0)
    decreases c.maxRetries - k
  {
    if Retryable(AfterAttempt(c, i, k).0) && k < c.maxRetries then Settling(c, i, k + 1) else k
  }

  /** How often member `i` is sent to. */
  function Attempts(c: Config, i: nat): nat
    requires i < |c.members|
  {
    if Planned(c, i).state != QUEUED || c.maxRetries < 0 then 0 else Settling(c, i, 0) + 1
  }

  /** What becomes of member `i`, whatever happens to the others. */
  function Outcome(c: Config, i: nat): Entry
    requires i < |c.members|
  {
    var p := Planned(c, i);
    if Attempts(c, i) == 0 then p
    else
      var (state, detail) := AfterAttempt(c, i, Attempts(c, i) - 1);
      p.(state := state, detail := detail)
  }

  lemma {:induction false} SettlingIsFirst(c: Config, i: nat, k: nat, last: nat)
    requires k <= last <= c.maxRetries
    requires forall a :: k <= a < last ==> Retryable(AfterAttempt(c, i, a).0)
    requires last == c.maxRetries || !Retryable(AfterAttempt(c, i, last).0)
    ensures Settling(c, i, k) == last
    decreases last - k
  {
    if k < last {
      SettlingIsFirst(c, i, k + 1, last);
    }
  }

  /** The worker's retry loop; with a negative retry limit it sends nothing and keeps `queued`. */
  method SendWithRetries(c: Config, i: nat) returns (state: string, detail: string, attempts: nat)
    requires i < |c.members| && Planned(c, i).state == QUEUED
    ensures attempts == Attempts(c, i)
    ensures Planned(c, i).(state := state, detail := detail) == Outcome(c, i)
  {
    state, detail, attempts := QUEUED, "", 0;
    while attempts <= c.maxRetries
      invariant attempts > 0 ==> attempts <= c.maxRetries + 1 && (state, detail) == AfterAttempt(c, i, attempts - 1)
      invariant attempts == 0 ==> state == QUEUED && detail == ""
      invariant forall a :: 0 <= a < attempts ==> Retryable(AfterAttempt(c, i, a).0)
      decreases c.maxRetries - attempts
    {
      var result := AfterAttempt(c, i, attempts);
      state, detail, attempts := result.0, result.1, attempts + 1;
      if !Retryable(state) {
        break;
      }
    }
    if attempts > 0 {
      SettlingIsFirst(c, i, 0, attempts - 1);
    }
  }

  // ---------------------------------------------------------------------------
  // The interleaved system
  // ---------------------------------------------------------------------------

  datatype Status = Created | InFlight | Completed

  /** A pool worker: before its member, before attempt `k`, before the row update, before the result
      slot, done. */
  datatype Worker = Idle | Sending(k: nat) | Writing(state: string, detail: string) | Storing(state: string, detail: string) | Finished

  /** A `fan_out` call: before reading the parent, before the gate, past it before the children are
      inserted, waiting for the pool, about to read the recorded rows, and the two ways to end. */
  datatype Caller = Start | AtGate | Resolving | Running | Reading | Returned(entries: seq<Entry>) | Raised

  /** `winner` records who passed the gate; `sends[i]` counts the attempts at member `i`. */
  datatype State = State(
    status: Status, rows: map<int, Entry>, callers: seq<Caller>, winner: Option<nat>,
    workers: seq<Worker>, sends: seq<nat>, results: seq<Option<Entry>>)

  function Initial(c: Config): State {
    var n := |c.members|;
    State(Created, map[], [], None, seq(n, i => Idle), seq(n, i => 0), seq(n, i => None))
  }

  /** `fails` is an unknown or foreign sender at the start, a raising `resolve` later; `listing` is
      what a read of the child rows returns. */
  datatype Action = Arrive | Call(caller: nat, fails: bool, listing: seq<Entry>) | Work(i: nat)

  function Agents(es: seq<Entry>): seq<int> { seq(|es|, k requires 0 <= k < |es| => es[k].agent) }

  ghost predicate Ascending(xs: seq<int>) { forall i, j :: 0 <= i < j < |xs| ==> xs[i] < xs[j] }

  /** The child rows ordered by agent id. */
  ghost predicate IsListing(rows: map<int, Entry>, es: seq<Entry>) {
    && Ascending(Agents(es))
    && (forall a :: a in rows <==> a in Agents(es))
    && forall k :: 0 <= k < |es| ==> es[k].agent in rows && es[k] == rows[es[k].agent]
  }

  function AllPlanned(c: Config): map<int, Entry>
    requires ValidConfig(c)
  {
    map i | 0 <= i < |c.members| :: c.members[i].agent := Planned(c, i)
  }

  ghost predicate Enabled(c: Config, s: State, a: Action) {
    match a
    case Arrive => true
    case Call(k, fails, listing) =>
      && k < |s.callers|
      && (s.callers[k].Reading? ==> IsListing(s.rows, listing))
      && (s.callers[k].Resolving? && fails ==> Resolves(c))
      && (s.callers[k].Running? ==> forall i :: 0 <= i < |s.workers| ==> s.workers[i].Finished?)
    case Work(i) => i < |s.workers| && exists k :: 0 <= k < |s.callers| && s.callers[k].Running?
  }

  function Put(s: State, k: nat, to: Caller): State
    requires k < |s.callers|
  {
    s.(callers := s.callers[k := to])
  }

  function MoveCaller(c: Config, s: State, k: nat, fails: bool, listing: seq<Entry>): State
    requires ValidConfig(c) && k < |s.callers|
  {
    match s.callers[k]
    case Start =>
      Put(s, k, if fails then Raised else if !s.status.Created? then Reading else if c.members == [] then Raised else AtGate)
    case AtGate =>
      if s.status.Created? then Put(s, k, Resolving).(status := InFlight, winner := Some(k)) else Put(s, k, Reading)
    case Resolving =>
      if fails then Put(s, k, Raised) else Put(s, k, Running).(rows := AllPlanned(c))
    case Running =>
      Put(s, k, Returned(Filled(s.results))).(status := Completed)
    case Reading => Put(s, k, Returned(listing))
    case _ => s
  }

  /** The result slots that are filled. */
  function Filled(results: seq<Option<Entry>>): seq<Entry> {
    if results == [] then []
    else (if results[0].Some? then [results[0].value] else []) + Filled(results[1..])
  }

  function MoveWorker(c: Config, s: State, i: nat): State
    requires i < |s.workers| == |c.members| == |s.sends| == |s.results|
  {
    var agent := c.members[i].agent;
    match s.workers[i]
    case Idle =>
      if Planned(c, i).state != QUEUED
      then s.(workers := s.workers[i := Finished], results := s.results[i := Some(Planned(c, i))])
      else s.(workers := s.workers[i := if c.maxRetries < 0 then Writing(QUEUED, "") else Sending(0)])
    case Sending(k) =>
      var result := AfterAttempt(c, i, k);
      s.(sends := s.sends[i := s.sends[i] + 1],
         workers := s.workers[i := if Retryable(result.0) && k < c.maxRetries then Sending(k + 1) else Writing(result.0, result.1)])
    case Writing(state, detail) =>
      s.(workers := s.workers[i := Storing(state, detail)],
         rows := if agent in s.rows then s.rows[agent := s.rows[agent].(state := state, detail := detail)] else s.rows)
    case Storing(state, detail) =>
      s.(workers := s.workers[i := Finished],
         results := s.results[i := Some(Planned(c, i).(state := state, detail := detail))])
    case Finished => s
  }

  ghost predicate WellShaped(c: Config, s: State) {
    |s.workers| == |c.members| == |s.sends| == |s.results|
  }

  function Apply(c: Config, s: State, a: Action): State
    requires ValidConfig(c) && WellShaped(c, s)
    requires a.Call? ==> a.caller < |s.callers|
    requires a.Work? ==> a.i < |s.workers|
  {
    match a
    case Arrive => s.(callers := s.callers + [Start])
    case Call(k, fails, listing) => MoveCaller(c, s, k, fails, listing)
    case Work(i) => MoveWorker(c, s, i)
  }

  ghost predicate Runs(c: Config, s: State, acts: seq<Action>, t: State)
    requires ValidConfig(c) && WellShaped(c, s)
    decreases |acts|
  {
    if acts == [] then s == t
    else Enabled(c, s, acts[0]) && Runs(c, Apply(c, s, acts[0]), acts[1..], t)
  }

  ghost predicate Reachable(c: Config, s: State)
    requires ValidConfig(c)
  {
    exists acts: seq<Action> :: Runs(c, Initial(c), acts, s)
  }

  // ---------------------------------------------------------------------------
  // What every interleaving keeps
  // ---------------------------------------------------------------------------

  /** Member `i`: what its worker has done so far fits its row, its sends and its result slot. */
  ghost predicate WorkerInv(c: Config, s: State, i: nat)
    requires WellShaped(c, s) && i < |c.members|
  {
    var a, p, n := c.members[i].agent, Planned(c, i), s.sends[i];
    a in s.rows &&
    match s.workers[i]
    case Idle => n == 0 && s.rows[a] == p && s.results[i] == None
    case Sending(k) =>
      && p.state == QUEUED && n == k <= c.maxRetries && s.rows[a] == p && s.results[i] == None
      && forall b :: 0 <= b < k ==> Retryable(AfterAttempt(c, i, b).0)
    case Writing(state, detail) =>
      n == Attempts(c, i) && s.rows[a] == p && s.results[i] == None && p.(state := state, detail := detail) == Outcome(c, i)
    case Storing(state, detail) =>
      n == Attempts(c, i) && s.rows[a] == Outcome(c, i) && s.results[i] == None && p.(state := state, detail := detail) == Outcome(c, i)
    case Finished => n == Attempts(c, i) && s.rows[a] == Outcome(c, i) && s.results[i] == Some(Outcome(c, i))
  }

  ghost predicate Untouched(c: Config, s: State)
    requires WellShaped(c, s)
  {
    s.rows == map[] && forall i :: 0 <= i < |c.members| ==> s.workers[i].Idle? && s.sends[i] == 0 && s.results[i] == None
  }

  predicate PastGate(x: Caller) { x.Resolving? || x.Running? }

  function Expected(c: Config): seq<Entry> {
    seq(|c.members|, i requires 0 <= i < |c.members| => Outcome(c, i))
  }

  ghost predicate Inserted(c: Config, s: State)
    requires WellShaped(c, s)
  {
    && (forall a :: a in s.rows <==> exists i :: 0 <= i < |c.members| && c.members[i].agent == a)
    && forall i :: 0 <= i < |c.members| ==> WorkerInv(c, s, i)
  }

  ghost predicate Inv(c: Config, s: State) {
    && WellShaped(c, s)
    && (s.status.Created? <==> s.winner.None?)
    && (forall k :: 0 <= k < |s.callers| && PastGate(s.callers[k]) ==> s.winner == Some(k))
    && (s.winner.None? ==> Untouched(c, s))
    && (s.winner.Some? ==>
          && s.winner.value < |s.callers|
          && match s.callers[s.winner.value]
             case Resolving => s.status.InFlight? && Untouched(c, s)
             case Raised => s.status.InFlight? && Untouched(c, s)
             case Running => s.status.InFlight? && Inserted(c, s)
             case Returned(es) =>
               && s.status.Completed? && Inserted(c, s) && es == Expected(c)
               && forall i :: 0 <= i < |c.members| ==> s.workers[i].Finished?
             case _ => false)
  }

  lemma InitialInv(c: Config)
    requires ValidConfig(c)
    ensures Inv(c, Initial(c))
  {
  }

  lemma WorkerKeepsOwn(c: Config, s: State, i: nat)
    requires WellShaped(c, s) && i < |c.members| && WorkerInv(c, s, i)
    ensures WorkerInv(c, MoveWorker(c, s, i), i)
  {
    if s.workers[i].Sending? {
      var k := s.workers[i].k;
      if !(Retryable(AfterAttempt(c, i, k).0) && k < c.maxRetries) {
        SettlingIsFirst(c, i, 0, k);
      }
    }
  }

  lemma WorkerKeepsOthers(c: Config, s: State, i: nat, j: nat)
    requires ValidConfig(c) && WellShaped(c, s) && i < |c.members| && j < |c.members| && i != j
    requires WorkerInv(c, s, j)
    ensures WorkerInv(c, MoveWorker(c, s, i), j)
  {
    assert c.members[i].agent != c.members[j].agent;
  }

  lemma WorkStep(c: Config, s: State, i: nat)
    requires ValidConfig(c) && Inv(c, s) && Enabled(c, s, Work(i))
    ensures Inv(c, MoveWorker(c, s, i))
  {
    var t := MoveWorker(c, s, i);
    assert s.callers[s.winner.value].Running? && Inserted(c, s);
    forall j | 0 <= j < |c.members| ensures WorkerInv(c, t, j) {
      assert WorkerInv(c, s, j);
      if j == i {
        WorkerKeepsOwn(c, s, i);
      } else {
        WorkerKeepsOthers(c, s, i, j);
      }
    }
    assert WorkerInv(c, s, i);
    assert t.rows.Keys == s.rows.Keys;
    assert Inserted(c, t);
  }

  lemma FilledIsExpected(c: Config, results: seq<Option<Entry>>, es: seq<Entry>)
    requires |results| == |es| && forall i :: 0 <= i < |es| ==> results[i] == Some(es[i])
    ensures Filled(results) == es
  {
    if results != [] {
      FilledIsExpected(c, results[1..], es[1..]);
      assert es == [es[0]] + es[1..];
    }
  }

  lemma CallStep(c: Config, s: State, k: nat, fails: bool, listing: seq<Entry>)
    requires ValidConfig(c) && Inv(c, s) && Enabled(c, s, Call(k, fails, listing))
    ensures Inv(c, MoveCaller(c, s, k, fails, listing))
  {
    var t := MoveCaller(c, s, k, fails, listing);
    match s.callers[k]
    case Resolving =>
      if !fails {
        PlannedIsInserted(c, s, t);
      }
    case Running =>
      forall i | 0 <= i < |c.members| ensures s.results[i] == Some(Expected(c)[i]) {
        assert WorkerInv(c, s, i);
      }
      FilledIsExpected(c, s.results, Expected(c));
      forall i | 0 <= i < |c.members| ensures WorkerInv(c, t, i) {
        assert WorkerInv(c, s, i);
      }
      assert Inserted(c, t);
    case _ =>
      CallerOnly(c, s, t, k);
  }

  lemma PlannedIsInserted(c: Config, s: State, t: State)
    requires ValidConfig(c) && WellShaped(c, s) && Untouched(c, s)
    requires t.rows == AllPlanned(c) && t.workers == s.workers && t.sends == s.sends && t.results == s.results
    ensures Inserted(c, t)
  {
    forall i | 0 <= i < |c.members| ensures WorkerInv(c, t, i) {
      assert c.members[i].agent in t.rows;
    }
  }

  /** A caller that has not passed the gate, or is already done, changes nothing but itself. */
  lemma CallerOnly(c: Config, s: State, t: State, k: nat)
    requires ValidConfig(c) && Inv(c, s) && k < |s.callers| && !PastGate(s.callers[k])
    requires t.rows == s.rows && t.workers == s.workers && t.sends == s.sends && t.results == s.results
    requires |t.callers| == |s.callers| && forall j :: 0 <= j < |s.callers| && j != k ==> t.callers[j] == s.callers[j]
    requires || (t.status == s.status && t.winner == s.winner && !PastGate(t.callers[k])
                 && (s.winner == Some(k) ==> t.callers[k] == s.callers[k]))
             || (s.status.Created? && t.status.InFlight? && t.winner == Some(k) && t.callers[k].Resolving?)
    ensures Inv(c, t)
  {
    if s.winner.Some? && Inserted(c, s) {
      forall i | 0 <= i < |c.members| ensures WorkerInv(c, t, i) {
        assert WorkerInv(c, s, i);
      }
      assert Inserted(c, t);
    }
  }

  lemma ArriveStep(c: Config, s: State)
    requires ValidConfig(c) && Inv(c, s)
    ensures Inv(c, s.(callers := s.callers + [Start]))
  {
    var t := s.(callers := s.callers + [Start]);
    if s.winner.Some? && Inserted(c, s) {
      forall i | 0 <= i < |c.members| ensures WorkerInv(c, t, i) {
        assert WorkerInv(c, s, i);
      }
      assert Inserted(c, t);
    }
  }

  lemma StepInv(c: Config, s: State, a: Action)
    requires ValidConfig(c) && Inv(c, s) && Enabled(c, s, a)
    ensures Inv(c, Apply(c, s, a))
  {
    match a {
      case Arrive => ArriveStep(c, s);
      case Call(k, fails, listing) => CallStep(c, s, k, fails, listing);
      case Work(i) => WorkStep(c, s, i);
    }
  }

  lemma {:induction false} InvRuns(c: Config, s: State, acts: seq<Action>, t: State)
    requires ValidConfig(c) && Inv(c, s) && Runs(c, s, acts, t)
    ensures Inv(c, t)
    decreases |acts|
  {
    if acts != [] {
      StepInv(c, s, acts[0]);
      InvRuns(c, Apply(c, s, acts[0]), acts[1..], t);
    }
  }

  lemma ReachableInv(c: Config, s: State)
    requires ValidConfig(c) && Reachable(c, s)
    ensures Inv(c, s)
  {
    var acts :| Runs(c, Initial(c), acts, s);
    InitialInv(c);
    InvRuns(c, Initial(c), acts, s);
  }

  // ---------------------------------------------------------------------------
  // Safety
  // ---------------------------------------------------------------------------

  /** The parent moves only from created to in flight to completed. */
  lemma StatusOnlyAdvances(c: Config, s: State, a: Action)
    requires ValidConfig(c) && Reachable(c, s) && Enabled(c, s, a)
    requires a.Call? ==> a.caller < |s.callers|
    requires WellShaped(c, s)
    ensures var t := Apply(c, s, a);
            t.status == s.status || (s.status.Created? && t.status.InFlight?) || (s.status.InFlight? && t.status.Completed?)
  {
    ReachableInv(c, s);
  }

  /** Does this step take a caller through the gate? */
  predicate Passes(s: State, a: Action) {
    a.Call? && a.caller < |s.callers| && s.callers[a.caller].AtGate? && s.status.Created?
  }

  function CountPasses(c: Config, s: State, acts: seq<Action>): nat
    requires ValidConfig(c) && WellShaped(c, s)
    decreases |acts|
  {
    if acts == [] || (acts[0].Call? && acts[0].caller >= |s.callers|) || (acts[0].Work? && acts[0].i >= |s.workers|) then 0
    else (if Passes(s, acts[0]) then 1 else 0) + CountPasses(c, Apply(c, s, acts[0]), acts[1..])
  }

  /** In a whole run at most one step takes a caller through the gate, none before and none after the
      parent has left `created`; who it was never changes. */
  lemma {:induction false} GateIsPassedOnce(c: Config, s: State, acts: seq<Action>, t: State)
    requires ValidConfig(c) && Inv(c, s) && Runs(c, s, acts, t)
    ensures CountPasses(c, s, acts) == (if s.status.Created? && !t.status.Created? then 1 else 0)
    ensures s.winner.Some? ==> t.winner == s.winner && !t.status.Created?
    ensures t.winner.Some? <==> !t.status.Created?
    decreases |acts|
  {
    if acts != [] {
      var next := Apply(c, s, acts[0]);
      StepInv(c, s, acts[0]);
      GateIsPassedOnce(c, next, acts[1..], t);
    }
  }

  /** Every run from the start, as one statement: the callers past the gate, returned or raised after it
      are one caller; all child rows exist before any send; a member is sent to at most `maxRetries + 1`
      times, and again only after `unreachable` or `timeout`. */
  lemma FanOutSafety(c: Config, acts: seq<Action>, s: State, i: nat)
    requires ValidConfig(c) && Runs(c, Initial(c), acts, s) && i < |c.members|
    ensures WellShaped(c, s) && CountPasses(c, Initial(c), acts) == if s.status.Created? then 0 else 1
    ensures s.winner.Some? <==> !s.status.Created?
    ensures forall j :: 0 <= j < |s.callers| && PastGate(s.callers[j]) ==> s.winner == Some(j)
    ensures s.sends[i] > 0 ==> forall j :: 0 <= j < |c.members| ==> c.members[j].agent in s.rows
    ensures c.maxRetries < 0 ==> s.sends[i] == 0
    ensures c.maxRetries >= 0 ==> s.sends[i] <= c.maxRetries + 1
    ensures forall a: nat :: a + 1 < s.sends[i] ==> Retryable(AfterAttempt(c, i, a).0)
  {
    InitialInv(c);
    GateIsPassedOnce(c, Initial(c), acts, s);
    InvRuns(c, Initial(c), acts, s);
    if s.winner.Some? && Inserted(c, s) {
      assert WorkerInv(c, s, i);
    }
  }

  // ---------------------------------------------------------------------------
  // Who completes
  // ---------------------------------------------------------------------------

  /** The call that passed the gate has raised. */
  predicate Stranded(s: State) {
    s.winner.Some? && s.winner.value < |s.callers| && s.callers[s.winner.value].Raised?
  }

  /** Once the call past the gate has raised, every run leaves the parent in flight, without children and
      without a single send. */
  lemma {:induction false} StrandedRuns(c: Config, s: State, acts: seq<Action>, t: State)
    requires ValidConfig(c) && Inv(c, s) && Stranded(s) && Runs(c, s, acts, t)
    ensures Stranded(t) && t.status.InFlight? && t.rows == map[] && t.winner == s.winner && Inv(c, t)
    ensures forall i :: 0 <= i < |t.sends| ==> t.sends[i] == 0
    decreases |acts|
  {
    if acts != [] {
      StepInv(c, s, acts[0]);
      StrandedRuns(c, Apply(c, s, acts[0]), acts[1..], t);
    }
  }

  /** How many steps a worker may still take. */
  function Remaining(c: Config, w: Worker): nat {
    match w
    case Idle => 4 + if c.maxRetries < 0 then 0 else c.maxRetries
    case Sending(k) => 3 + if k > c.maxRetries then 0 else c.maxRetries - k
    case Writing(_, _) => 2
    case Storing(_, _) => 1
    case Finished => 0
  }

  function TotalRemaining(c: Config, ws: seq<Worker>): nat {
    if ws == [] then 0 else Remaining(c, ws[0]) + TotalRemaining(c, ws[1..])
  }

  lemma {:induction false} RemainingAfterUpdate(c: Config, ws: seq<Worker>, i: nat, w: Worker)
    requires i < |ws|
    ensures TotalRemaining(c, ws[i := w]) == TotalRemaining(c, ws) - Remaining(c, ws[i]) + Remaining(c, w)
  {
    if i == 0 {
      assert ws[0 := w][1..] == ws[1..];
    } else {
      assert ws[i := w][1..] == ws[1..][i - 1 := w];
      RemainingAfterUpdate(c, ws[1..], i - 1, w);
    }
  }

  /** A worker that is not finished gets closer to the end with each of its steps. */
  lemma WorkIsProgress(c: Config, s: State, i: nat)
    requires ValidConfig(c) && Inv(c, s) && i < |s.workers| && !s.workers[i].Finished?
    requires s.winner.Some? && s.callers[s.winner.value].Running?
    ensures TotalRemaining(c, MoveWorker(c, s, i).workers) < TotalRemaining(c, s.workers)
  {
    var t := MoveWorker(c, s, i);
    assert Inserted(c, s) && WorkerInv(c, s, i);
    assert t.workers == s.workers[i := t.workers[i]];
    RemainingAfterUpdate(c, s.workers, i, t.workers[i]);
  }

  ghost predicate CanComplete(c: Config, s: State)
    requires ValidConfig(c) && WellShaped(c, s)
  {
    exists acts: seq<Action>, t :: Runs(c, s, acts, t) && t.status.Completed?
  }

  lemma StepFirst(c: Config, s: State, a: Action)
    requires ValidConfig(c) && Inv(c, s) && Enabled(c, s, a)
    requires Inv(c, Apply(c, s, a)) && CanComplete(c, Apply(c, s, a))
    ensures CanComplete(c, s)
  {
    var acts: seq<Action>, t :| Runs(c, Apply(c, s, a), acts, t) && t.status.Completed?;
    assert ([a] + acts)[1..] == acts;
    assert Runs(c, s, [a] + acts, t);
  }

  lemma {:induction false} RunningCompletes(c: Config, s: State)
    requires ValidConfig(c) && Inv(c, s) && s.winner.Some? && s.callers[s.winner.value].Running?
    ensures CanComplete(c, s)
    decreases TotalRemaining(c, s.workers)
  {
    var k := s.winner.value;
    if i: nat :| i < |s.workers| && !s.workers[i].Finished? {
      assert Enabled(c, s, Work(i));
      WorkStep(c, s, i);
      WorkIsProgress(c, s, i);
      RunningCompletes(c, MoveWorker(c, s, i));
      StepFirst(c, s, Work(i));
    } else {
      CallStep(c, s, k, false, []);
      var t := MoveCaller(c, s, k, false, []);
      assert Runs(c, t, [], t) && t.status.Completed?;
      StepFirst(c, s, Call(k, false, []));
    }
  }

  /** A broadcast in flight can still complete exactly if the call past the gate has not raised. */
  lemma CompletesIff(c: Config, s: State)
    requires ValidConfig(c) && Reachable(c, s) && s.status.InFlight?
    ensures WellShaped(c, s) && (CanComplete(c, s) <==> !Stranded(s))
  {
    ReachableInv(c, s);
    if Stranded(s) {
      forall acts: seq<Action>, t | Runs(c, s, acts, t) ensures !t.status.Completed? {
        StrandedRuns(c, s, acts, t);
      }
    } else {
      FlightCompletes(c, s);
    }
  }

  lemma FlightCompletes(c: Config, s: State)
    requires ValidConfig(c) && Inv(c, s) && s.status.InFlight? && !Stranded(s)
    ensures CanComplete(c, s)
  {
    var k := s.winner.value;
    if s.callers[k].Resolving? {
      CallStep(c, s, k, false, []);
      RunningCompletes(c, MoveCaller(c, s, k, false, []));
      StepFirst(c, s, Call(k, false, []));
    } else {
      RunningCompletes(c, s);
    }
  }

  /** A first caller that passes the gate. */
  function FirstAtGate(c: Config): State { Initial(c).(callers := [AtGate]) }

  function FirstThrough(c: Config): State {
    Initial(c).(callers := [Resolving], status := InFlight, winner := Some(0))
  }

  lemma FirstThroughIsReachable(c: Config)
    requires ValidConfig(c) && c.members != []
    ensures Reachable(c, FirstThrough(c)) && Inv(c, FirstThrough(c))
  {
    var s0 := Initial(c);
    var s1 := Apply(c, s0, Arrive);
    assert s1 == s0.(callers := [Start]);
    var call := Call(0, false, []);
    var s2 := Apply(c, s1, call);
    assert s2 == FirstAtGate(c);
    var s3 := Apply(c, s2, call);
    assert s3 == FirstThrough(c);
    assert Runs(c, s3, [], s3);
    assert [call][1..] == [] && Runs(c, s2, [call], s3);
    assert [call, call][1..] == [call] && Runs(c, s1, [call, call], s3);
    assert [Arrive, call, call][1..] == [call, call] && Runs(c, s0, [Arrive, call, call], s3);
    ReachableInv(c, s3);
  }

  lemma {:induction false} RunsOneMore(c: Config, s: State, acts: seq<Action>, t: State, a: Action)
    requires ValidConfig(c) && Inv(c, s) && Runs(c, s, acts, t) && Enabled(c, t, a)
    ensures Inv(c, t) && Runs(c, s, acts + [a], Apply(c, t, a))
    decreases |acts|
  {
    if acts == [] {
      assert acts + [a] == [a] && [a][1..] == [];
      StepInv(c, s, a);
      assert Runs(c, Apply(c, s, a), [], Apply(c, t, a));
    } else {
      StepInv(c, s, acts[0]);
      RunsOneMore(c, Apply(c, s, acts[0]), acts[1..], t, a);
      assert (acts + [a])[1..] == acts[1..] + [a];
    }
  }

  /** Some run strands the broadcast exactly if some member is not the sender, so that there is somebody
      to resolve. */
  lemma StrandedIsReachableIff(c: Config)
    requires ValidConfig(c)
    ensures (exists s :: Reachable(c, s) && Stranded(s)) <==> Resolves(c)
  {
    if Resolves(c) {
      var s := FirstThrough(c);
      FirstThroughIsReachable(c);
      var acts: seq<Action> :| Runs(c, Initial(c), acts, s);
      InitialInv(c);
      RunsOneMore(c, Initial(c), acts, s, Call(0, true, []));
      assert Reachable(c, Apply(c, s, Call(0, true, []))) && Stranded(Apply(c, s, Call(0, true, [])));
    } else {
      forall s | Reachable(c, s) ensures !Stranded(s) {
        var acts: seq<Action> :| Runs(c, Initial(c), acts, s);
        InitialInv(c);
        NeverStranded(c, Initial(c), acts, s);
      }
    }
  }

  lemma {:induction false} NeverStranded(c: Config, s: State, acts: seq<Action>, t: State)
    requires ValidConfig(c) && Inv(c, s) && Runs(c, s, acts, t) && !Resolves(c) && !Stranded(s)
    ensures !Stranded(t)
    decreases |acts|
  {
    if acts != [] {
      StepInv(c, s, acts[0]);
      NeverStranded(c, Apply(c, s, acts[0]), acts[1..], t);
    }
  }

  // ---------------------------------------------------------------------------
  // Agreement
  // ---------------------------------------------------------------------------

  /** The last element is the largest, so two ascending sequences of the same elements end alike. */
  lemma SameLast(xs: seq<int>, ys: seq<int>)
    requires Ascending(xs) && Ascending(ys) && xs != [] && forall a :: a in xs <==> a in ys
    ensures ys != [] && ys[|ys| - 1] == xs[|xs| - 1]
  {
    assert xs[|xs| - 1] in xs && ys != [];
    assert ys[|ys| - 1] in ys;
  }

  lemma WithoutLast(xs: seq<int>)
    requires Ascending(xs) && xs != []
    ensures var n := |xs| - 1;
            && Ascending(xs[..n]) && xs == xs[..n] + [xs[n]]
            && forall a :: a in xs[..n] <==> a in xs && a != xs[n]
  {
    var n := |xs| - 1;
    forall a ensures a in xs[..n] <==> a in xs && a != xs[n] {
      assert xs == xs[..n] + [xs[n]];
    }
  }

  lemma {:induction false} AscendingIsUnique(xs: seq<int>, ys: seq<int>)
    requires Ascending(xs) && Ascending(ys) && forall a :: a in xs <==> a in ys
    ensures xs == ys
    decreases |xs|
  {
    assert ys != [] ==> ys[0] in ys;
    if xs != [] {
      SameLast(xs, ys);
      WithoutLast(xs);
      WithoutLast(ys);
      AscendingIsUnique(xs[..|xs| - 1], ys[..|ys| - 1]);
    }
  }

  lemma ListingIsUnique(rows: map<int, Entry>, a: seq<Entry>, b: seq<Entry>)
    requires IsListing(rows, a) && IsListing(rows, b)
    ensures a == b
  {
    AscendingIsUnique(Agents(a), Agents(b));
    forall k | 0 <= k < |a| ensures a[k] == b[k] {
      assert Agents(a)[k] == Agents(b)[k];
    }
  }

  lemma ExpectedIsListing(c: Config, s: State)
    requires ValidConfig(c) && WellShaped(c, s) && Inserted(c, s)
    requires forall i :: 0 <= i < |c.members| ==> s.workers[i].Finished?
    ensures IsListing(s.rows, Expected(c))
  {
    var es := Expected(c);
    forall k | 0 <= k < |es| ensures es[k].agent in s.rows && es[k] == s.rows[es[k].agent] && es[k].agent == c.members[k].agent {
      assert WorkerInv(c, s, k);
    }
    forall a ensures a in s.rows <==> a in Agents(es) {
      if a in s.rows {
        var i :| 0 <= i < |c.members| && c.members[i].agent == a;
        assert Agents(es)[i] == a;
      }
    }
  }

  /** Once completed, the winner's result is member by member what that member's own resolution and
      sends decide, and every later read of the child rows is the same sequence. */
  lemma CompletedAgreement(c: Config, s: State, listing: seq<Entry>)
    requires ValidConfig(c) && Reachable(c, s) && s.status.Completed?
    ensures s.winner.Some? && s.winner.value < |s.callers| && s.callers[s.winner.value] == Returned(Expected(c))
    ensures IsListing(s.rows, listing) <==> listing == Expected(c)
  {
    ReachableInv(c, s);
    ExpectedIsListing(c, s);
    if IsListing(s.rows, listing) {
      ListingIsUnique(s.rows, listing, Expected(c));
    }
  }

  /** In a completed broadcast a child that is reported `queued` was sent to exactly if the retry limit is
      not negative, and every child was sent to as often as its own outcomes demand. */
  lemma QueuedMeansSent(c: Config, s: State, i: nat)
    requires ValidConfig(c) && Reachable(c, s) && s.status.Completed? && i < |c.members|
    ensures WellShaped(c, s) && c.members[i].agent in s.rows && s.sends[i] == Attempts(c, i)
    ensures s.rows[c.members[i].agent].state == QUEUED ==> (s.sends[i] > 0 <==> c.maxRetries >= 0)
  {
    ReachableInv(c, s);
    assert WorkerInv(c, s, i);
  }

  // ---------------------------------------------------------------------------
  // What becomes of a member, from its sends alone
  // ---------------------------------------------------------------------------

  /** An attempt after which the engine tries again if it may. */
  predicate Missed(a: Attempt) { a.Threw? || a.state == "unreachable" || a.state == "timeout" }

  lemma MissedIsRetryable(c: Config, i: nat, k: nat)
    ensures Retryable(AfterAttempt(c, i, k).0) <==> Missed(c.send(i, k))
  {
  }

  ghost predicate HasRow(c: Config, s: State, i: nat, peer: string, state: string, detail: string, sends: nat)
    requires i < |c.members|
  {
    var agent := c.members[i].agent;
    && agent in s.rows && s.rows[agent] == Entry(agent, peer, c.childId(agent, peer), state, detail)
    && i < |s.sends| && s.sends[i] == sends
  }

  /** The first attempt with a final answer decides. */
  lemma FinalAnswerDecides(c: Config, s: State, i: nat, peer: string, k: nat)
    requires ValidConfig(c) && Reachable(c, s) && s.status.Completed? && i < |c.members|
    requires c.members[i].agent != c.sender && c.resolve(i) == Some(peer) && k <= c.maxRetries
    requires (forall a: nat :: a < k ==> Missed(c.send(i, a))) && !Missed(c.send(i, k))
    ensures HasRow(c, s, i, peer, c.send(i, k).state, c.send(i, k).detail, k + 1)
  {
    ReachableInv(c, s);
    assert WorkerInv(c, s, i);
    forall a | 0 <= a < k ensures Retryable(AfterAttempt(c, i, a).0) {
      MissedIsRetryable(c, i, a);
    }
    MissedIsRetryable(c, i, k);
    SettlingIsFirst(c, i, 0, k);
  }

  /** Without one the last attempt decides: a send that raised counts as unreachable. */
  lemma LastAttemptDecides(c: Config, s: State, i: nat, peer: string)
    requires ValidConfig(c) && Reachable(c, s) && s.status.Completed? && i < |c.members|
    requires c.members[i].agent != c.sender && c.resolve(i) == Some(peer) && 0 <= c.maxRetries
    requires forall a: nat :: a <= c.maxRetries ==> Missed(c.send(i, a))
    ensures match c.send(i, c.maxRetries)
            case Threw(text) => HasRow(c, s, i, peer, "unreachable", "attempt " + JsonTexts.Decimal(c.maxRetries + 1) + ": " + text, c.maxRetries + 1)
            case Answered(state, detail) => HasRow(c, s, i, peer, state, detail, c.maxRetries + 1)
  {
    ReachableInv(c, s);
    assert WorkerInv(c, s, i);
    forall a | 0 <= a < c.maxRetries ensures Retryable(AfterAttempt(c, i, a).0) {
      MissedIsRetryable(c, i, a);
    }
    SettlingIsFirst(c, i, 0, c.maxRetries);
  }

  /** The sender, an unresolved member, and everybody under a negative retry limit are never sent to. */
  lemma NobodyToSendTo(c: Config, s: State, i: nat)
    requires ValidConfig(c) && Reachable(c, s) && s.status.Completed? && i < |c.members|
    ensures c.members[i].agent == c.sender ==> HasRow(c, s, i, "", "skipped", "sender excluded", 0)
    ensures c.members[i].agent != c.sender && c.resolve(i) == None ==> HasRow(c, s, i, "", "unreachable", "no live session", 0)
    ensures c.members[i].agent != c.sender && c.resolve(i).Some? && c.maxRetries < 0 ==>
              HasRow(c, s, i, c.resolve(i).value, "queued", "", 0)
  {
    ReachableInv(c, s);
    assert WorkerInv(c, s, i);
  }

  // ---------------------------------------------------------------------------
  // Summaries
  // ---------------------------------------------------------------------------

  const DELIVERED_STATES: set<string> := {"queued", "held", "accepted", "in_progress", "completed"}

  /** The `failures` items of the call that fanned out. */
  function WinnerFailures(es: seq<Entry>): seq<Entry> {
    if es == [] then [] else (if es[0].state in DELIVERED_STATES then [] else [es[0]]) + WinnerFailures(es[1..])
  }

  /** The `failures` items of a call that only reads. */
  function ReaderFailures(es: seq<Entry>): seq<Entry> {
    if es == [] then [] else (if es[0].state == UNREACHABLE then [es[0]] else []) + ReaderFailures(es[1..])
  }

  /** The failures of the call that fanned out are the entries in none of five
      states, those of a reader the unreachable ones. */
  lemma {:induction false} FailuresAre(es: seq<Entry>, e: Entry)
    ensures multiset(WinnerFailures(es))[e] ==
            if e.state in {"queued", "held", "accepted", "in_progress", "completed"} then 0 else multiset(es)[e]
    ensures multiset(ReaderFailures(es))[e] == if e.state == "unreachable" then multiset(es)[e] else 0
  {
    if es != [] {
      FailuresAre(es[1..], e);
      assert es == [es[0]] + es[1..];
    }
  }

  predicate PlainState(state: string) { state in DELIVERED_STATES || state == UNREACHABLE }

  lemma {:induction false} ReaderFailuresAreFewer(es: seq<Entry>)
    ensures |ReaderFailures(es)| <= |WinnerFailures(es)|
    ensures |ReaderFailures(es)| == |WinnerFailures(es)| <==> forall k :: 0 <= k < |es| ==> PlainState(es[k].state)
    ensures |ReaderFailures(es)| == |WinnerFailures(es)| ==> ReaderFailures(es) == WinnerFailures(es)
  {
    if es != [] {
      ReaderFailuresAreFewer(es[1..]);
      assert es == [es[0]] + es[1..];
    }
  }

  /** The call that fanned out and every later reader report the same failures exactly when every member
      was delivered or unreachable: a skipped, refused or expired member is a failure only for the former. */
  lemma {:induction false} FailuresAgreeIff(c: Config, s: State, listing: seq<Entry>)
    requires ValidConfig(c) && Reachable(c, s) && s.status.Completed? && IsListing(s.rows, listing)
    ensures s.winner.Some? && s.winner.value < |s.callers| && s.callers[s.winner.value].Returned?
    ensures WinnerFailures(s.callers[s.winner.value].entries) == ReaderFailures(listing) <==>
            forall i :: 0 <= i < |c.members| ==> PlainState(Outcome(c, i).state)
  {
    CompletedAgreement(c, s, listing);
    ReaderFailuresAreFewer(Expected(c));
    assert forall i :: 0 <= i < |c.members| ==> Expected(c)[i] == Outcome(c, i);
  }

  /** So a sender who is a member of the group always makes them differ. */
  lemma SenderInGroupMakesFailuresDiffer(c: Config, s: State, listing: seq<Entry>, i: nat)
    requires ValidConfig(c) && i < |c.members| && c.members[i].agent == c.sender
    requires Reachable(c, s) && s.status.Completed? && IsListing(s.rows, listing)
    ensures s.winner.Some? && s.winner.value < |s.callers| && s.callers[s.winner.value].Returned?
    ensures WinnerFailures(s.callers[s.winner.value].entries) != ReaderFailures(listing)
  {
    FailuresAgreeIff(c, s, listing);
    assert Outcome(c, i).state == SKIPPED;
  }

  /** Every broadcast to a group with members can complete. */
  lemma CompletedIsReachable(c: Config)
    requires ValidConfig(c) && c.members != []
    ensures exists s :: Reachable(c, s) && s.status.Completed?
  {
    FirstThroughIsReachable(c);
    FlightCompletes(c, FirstThrough(c));
    var first: seq<Action> :| Runs(c, Initial(c), first, FirstThrough(c));
    var more: seq<Action>, t :| Runs(c, FirstThrough(c), more, t) && t.status.Completed?;
    InitialInv(c);
    RunsCompose(c, Initial(c), first, FirstThrough(c), more, t);
    assert Reachable(c, t);
  }

  lemma {:induction false} RunsCompose(c: Config, s: State, first: seq<Action>, m: State, more: seq<Action>, t: State)
    requires ValidConfig(c) && Inv(c, s) && Runs(c, s, first, m) && WellShaped(c, m) && Runs(c, m, more, t)
    ensures Runs(c, s, first + more, t)
    decreases |first|
  {
    if first == [] {
      assert first + more == more;
    } else {
      StepInv(c, s, first[0]);
      RunsCompose(c, Apply(c, s, first[0]), first[1..], m, more, t);
      assert (first + more)[1..] == first[1..] + more;
    }
  }
}
