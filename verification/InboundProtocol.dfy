/** One message id, any number of concurrent calls.  `on_inbound` claims the row atomically; every
    later step of every inbound, release and refuse call interleaves freely with the others. */
module InboundProtocol {
  import opened Models

  /** Where one call stands.  `Injected` has the host's answer but has not yet written the row;
      `Undelivered` has returned from `deliver` and still has to hold the message. */
  datatype Call =
    | InboundStart
    | Evaluating
    | Acting(decision: Decision)
    | Blanking
    | Injected(accepted: bool)
    | Undelivered
    | InboundDone(receipt: ReceiptState, won: bool)
    | ReleaseStart
    | Releasing
    | Released(accepted: bool)
    | ReleaseDone(ok: bool)
    | RefuseStart
    | Refusing
    | RefuseDone(ok: bool)

  datatype Row = Row(state: ReceiptState, content: bool)

  /** `winner`, `evaluations`, `inboundInjections` and `accepted` record the history of the run. */
  datatype State = State(
    row: Option<Row>, calls: seq<Call>,
    winner: Option<nat>, evaluations: nat, inboundInjections: nat, accepted: nat)

  const INITIAL := State(None, [], None, 0, 0, 0)

  datatype Action = Arrive(call: Call) | Advance(i: nat, decision: Decision, host: Host)

  /** Which overlaps a deployment rules out before it lets a call read the row. */
  datatype Guard = Guard(releasesExclude: bool, releaseWaits: bool, duplicateWaits: bool,
                         refuseWaits: bool, refuseExcludes: bool)

  // ---------------------------------------------------------------------------
  // Steps
  // ---------------------------------------------------------------------------

  function Put(s: State, i: nat, c: Call): State
    requires i < |s.calls|
  {
    s.(calls := s.calls[i := c])
  }

  /** `store.transition`: sets the state of the row if the row exists. */
  function Write(s: State, state: ReceiptState): State {
    if s.row.Some? then s.(row := Some(s.row.value.(state := state))) else s
  }

  function Move(s: State, i: nat, d: Decision, h: Host): State
    requires i < |s.calls|
  {
    match s.calls[i]
    case InboundStart =>
      if s.row.None? then Put(s, i, Evaluating).(row := Some(Row(Queued, true)), winner := Some(i))
      else Put(s, i, InboundDone(s.row.value.state, false))
    case Evaluating => Put(s, i, Acting(d)).(evaluations := s.evaluations + 1)
    case Acting(DropIt(reason)) => Put(Write(s, StateOf(reason)), i, InboundDone(StateOf(reason), true))
    case Acting(RefuseIt) => Put(Write(s, Refused), i, Blanking)
    case Acting(HoldIt) => Put(Write(s, Held), i, InboundDone(Held, true))
    case Acting(Forward) =>
      if h.NoTarget? then Put(s, i, Undelivered)
      else Put(s, i, Injected(h.Accepts?)).(inboundInjections := s.inboundInjections + 1,
                                            accepted := s.accepted + if h.Accepts? then 1 else 0)
    case Blanking =>
      var blank := if s.row.Some? then Some(s.row.value.(content := false)) else None;
      Put(s, i, InboundDone(Refused, true)).(row := blank)
    case Injected(true) => Put(Write(s, Queued), i, InboundDone(Queued, true))
    case Injected(false) => Put(Write(s, Held), i, Undelivered)
    case Undelivered => Put(Write(s, Held), i, InboundDone(Held, true))
    case ReleaseStart => Put(s, i, if IsHeld(s) then Releasing else ReleaseDone(false))
    case Releasing =>
      if h.NoTarget? then Put(s, i, ReleaseDone(false))
      else Put(s, i, Released(h.Accepts?)).(accepted := s.accepted + if h.Accepts? then 1 else 0)
    case Released(ok) => Put(Write(s, if ok then Queued else Held), i, ReleaseDone(ok))
    case RefuseStart => Put(s, i, if IsHeld(s) then Refusing else RefuseDone(false))
    case Refusing => Put(Write(s, Refused), i, RefuseDone(true))
    case _ => s
  }

  predicate IsHeld(s: State) { s.row.Some? && s.row.value.state == Held }

  predicate InboundInFlight(c: Call) {
    c.Evaluating? || c.Acting? || c.Blanking? || c.Injected? || c.Undelivered?
  }

  predicate ReleaseInFlight(c: Call) { c.Releasing? || c.Released? }

  /** No call is under way. */
  ghost predicate Quiet(s: State) {
    forall i :: 0 <= i < |s.calls| ==> !InboundInFlight(s.calls[i]) && !ReleaseInFlight(s.calls[i]) && !s.calls[i].Refusing?
  }

  predicate Enabled(g: Guard, s: State, a: Action) {
    match a
    case Arrive(c) => c.InboundStart? || c.ReleaseStart? || c.RefuseStart?
    case Advance(i, d, h) =>
      && i < |s.calls|
      && (s.calls[i].ReleaseStart? && g.releasesExclude ==> forall c <- s.calls :: !ReleaseInFlight(c))
      && (s.calls[i].ReleaseStart? && g.releaseWaits ==> forall c <- s.calls :: !InboundInFlight(c))
      && (s.calls[i].ReleaseStart? && g.refuseExcludes ==> forall c <- s.calls :: !c.Refusing?)
      && (s.calls[i].RefuseStart? && g.refuseExcludes ==> forall c <- s.calls :: !ReleaseInFlight(c))
      && (s.calls[i].RefuseStart? && g.refuseWaits ==> forall c <- s.calls :: !InboundInFlight(c))
      && (s.calls[i].InboundStart? && g.duplicateWaits ==> forall c <- s.calls :: !InboundInFlight(c))
  }

  function Apply(s: State, a: Action): State
    requires a.Advance? ==> a.i < |s.calls|
  {
    match a
    case Arrive(c) => s.(calls := s.calls + [c])
    case Advance(i, d, h) => Move(s, i, d, h)
  }

  /** `acts` can happen from `s`, one after the other, and end in `t`. */
  predicate Runs(g: Guard, s: State, acts: seq<Action>, t: State)
    decreases |acts|
  {
    if acts == [] then s == t
    else Enabled(g, s, acts[0]) && Runs(g, Apply(s, acts[0]), acts[1..], t)
  }

  ghost predicate Reachable(g: Guard, s: State) {
    exists acts: seq<Action> :: Runs(g, INITIAL, acts, s)
  }

  lemma {:induction false} RunsOneMore(g: Guard, s: State, acts: seq<Action>, t: State, a: Action)
    requires Runs(g, s, acts, t) && Enabled(g, t, a)
    ensures Runs(g, s, acts + [a], Apply(t, a))
    decreases |acts|
  {
    if acts == [] {
      assert acts + [a] == [a];
      assert Runs(g, Apply(s, a), [], Apply(t, a));
    } else {
      RunsOneMore(g, Apply(s, acts[0]), acts[1..], t, a);
      assert (acts + [a])[1..] == acts[1..] + [a];
    }
  }

  lemma ReachOneMore(g: Guard, s: State, a: Action)
    requires Reachable(g, s) && Enabled(g, s, a)
    ensures Reachable(g, Apply(s, a))
  {
    var acts :| Runs(g, INITIAL, acts, s);
    RunsOneMore(g, INITIAL, acts, s, a);
  }

  lemma InitialIsReachable(g: Guard)
    ensures Reachable(g, INITIAL)
  {
    assert Runs(g, INITIAL, [], INITIAL);
  }

  // ---------------------------------------------------------------------------
  // Any interleaving: one winner, one evaluation, one injection
  // ---------------------------------------------------------------------------

  predicate Owning(c: Call) { InboundInFlight(c) || (c.InboundDone? && c.won) }

  /** What the history and the row look like while the winner stands at `c`. */
  ghost predicate WinnerProgress(s: State, c: Call) {
    && s.evaluations == (if c.Evaluating? then 0 else 1)
    && s.inboundInjections <= 1
    && (c.Evaluating? || c.Acting? || c.Blanking? ==> s.inboundInjections == 0)
    && (c.Evaluating? || c.Acting? || c.Injected? ==> s.row == Some(Row(Queued, true)))
    && (c.Blanking? ==> s.row == Some(Row(Refused, true)))
    && (c.InboundDone? && c.receipt == Refused ==> s.row == Some(Row(Refused, false)))
    && (c.InboundDone? && c.receipt !in {Queued, Held, Refused} ==> s.row == Some(Row(c.receipt, true)))
    && (StillUntouched(c) ==> s.accepted == if c == Injected(true) then 1 else 0)
  }

  /** Before the winner has held the message nobody can be releasing or refusing it. */
  predicate StillUntouched(c: Call) {
    c.Evaluating? || c.Acting? || c.Injected? || c.Blanking? || (c.InboundDone? && c.receipt !in {Queued, Held})
  }

  predicate Handling(c: Call) { ReleaseInFlight(c) || c.Refusing? }

  ghost predicate OnceInv(s: State) {
    && (s.row.Some? <==> s.winner.Some?)
    && (forall i :: 0 <= i < |s.calls| ==> (Owning(s.calls[i]) <==> s.winner == Some(i)))
    && (s.winner.Some? ==>
          && s.winner.value < |s.calls|
          && WinnerProgress(s, s.calls[s.winner.value])
          && (StillUntouched(s.calls[s.winner.value]) ==> forall c <- s.calls :: !Handling(c)))
    && (s.winner.None? ==> s.evaluations == s.inboundInjections == s.accepted == 0)
    && (s.winner.None? ==> forall c <- s.calls :: !c.InboundDone? && !Handling(c))
  }

  /** One call moves from `s.calls[i]` to `c`; the others stay where they are. */
  lemma OnceReplaced(s: State, t: State, i: nat, c: Call)
    requires OnceInv(s) && i < |s.calls| && t.calls == s.calls[i := c]
    requires t.row.Some? <==> t.winner.Some?
    requires t.winner == (if Owning(c) then Some(i) else s.winner)
    requires Owning(s.calls[i]) ==> Owning(c)
    requires Owning(c) && s.winner.Some? ==> s.winner == Some(i)
    requires t.winner.Some? ==>
               && WinnerProgress(t, t.calls[t.winner.value])
               && (Handling(c) ==> !StillUntouched(t.calls[t.winner.value]))
               && (StillUntouched(t.calls[t.winner.value]) ==>
                     s.winner.None? || StillUntouched(s.calls[t.winner.value]))
    requires t.winner.None? ==> t.evaluations == t.inboundInjections == t.accepted == 0 && !c.InboundDone? && !Handling(c)
    ensures OnceInv(t)
  {
    assert forall k :: 0 <= k < |s.calls| && k != i ==> t.calls[k] == s.calls[k];
  }

  lemma OnceWinnerMoves(s: State, i: nat, d: Decision, h: Host)
    requires OnceInv(s) && i < |s.calls| && InboundInFlight(s.calls[i])
    ensures OnceInv(Move(s, i, d, h))
  {
    OnceReplaced(s, Move(s, i, d, h), i, Move(s, i, d, h).calls[i]);
  }

  lemma OnceClaim(s: State, i: nat, d: Decision, h: Host)
    requires OnceInv(s) && i < |s.calls| && s.calls[i].InboundStart?
    ensures OnceInv(Move(s, i, d, h))
  {
    OnceReplaced(s, Move(s, i, d, h), i, Move(s, i, d, h).calls[i]);
  }

  lemma OnceHandlingMoves(s: State, i: nat, d: Decision, h: Host)
    requires OnceInv(s) && i < |s.calls|
    requires s.calls[i].ReleaseStart? || s.calls[i].RefuseStart? || Handling(s.calls[i])
    ensures OnceInv(Move(s, i, d, h))
  {
    assert s.calls[i] in s.calls;
    OnceReplaced(s, Move(s, i, d, h), i, Move(s, i, d, h).calls[i]);
  }

  lemma OnceStep(g: Guard, s: State, a: Action)
    requires OnceInv(s) && Enabled(g, s, a)
    ensures OnceInv(Apply(s, a))
  {
    if a.Advance? {
      if InboundInFlight(s.calls[a.i]) {
        OnceWinnerMoves(s, a.i, a.decision, a.host);
      } else if s.calls[a.i].InboundStart? {
        OnceClaim(s, a.i, a.decision, a.host);
      } else if s.calls[a.i].ReleaseStart? || s.calls[a.i].RefuseStart? || Handling(s.calls[a.i]) {
        OnceHandlingMoves(s, a.i, a.decision, a.host);
      }
    }
  }

  lemma {:induction false} OnceRuns(g: Guard, s: State, acts: seq<Action>, t: State)
    requires OnceInv(s) && Runs(g, s, acts, t)
    ensures OnceInv(t)
    decreases |acts|
  {
    if acts != [] {
      OnceStep(g, s, acts[0]);
      OnceRuns(g, Apply(s, acts[0]), acts[1..], t);
    }
  }

  lemma ReachableOnce(g: Guard, s: State)
    requires Reachable(g, s)
    ensures OnceInv(s)
  {
    var acts :| Runs(g, INITIAL, acts, s);
    OnceRuns(g, INITIAL, acts, s);
  }

  /** In every interleaving, releases and refusals included: at most one call wins the claim, and
      exactly one has won as soon as any inbound call has returned; policy is evaluated at most
      once; `on_inbound` injects at most once. */
  lemma OneWinnerOneInjection(g: Guard, s: State)
    requires Reachable(g, s)
    ensures s.evaluations <= 1 && s.inboundInjections <= 1
    ensures forall i, j :: 0 <= i < |s.calls| && 0 <= j < |s.calls| && Owning(s.calls[i]) && Owning(s.calls[j]) ==> i == j
    ensures forall i :: 0 <= i < |s.calls| && s.calls[i].InboundDone? ==> exists w :: 0 <= w < |s.calls| && Owning(s.calls[w])
  {
    ReachableOnce(g, s);
    if s.winner.Some? {
      assert Owning(s.calls[s.winner.value]);
    }
  }

  /** A duplicate only reads: its one step leaves the row, the policy and the host alone, and its
      receipt is the persisted state of that moment. */
  lemma DuplicateOnlyReads(g: Guard, s: State, a: Action)
    requires Enabled(g, s, a) && a.Advance? && s.calls[a.i].InboundStart? && s.row.Some?
    ensures Apply(s, a) == s.(calls := s.calls[a.i := InboundDone(s.row.value.state, false)])
  {
  }

  /** The winner returns exactly what it leaves in the row. */
  lemma WinnersReceiptIsPersisted(g: Guard, s: State, i: nat, d: Decision, h: Host)
    requires Reachable(g, s) && i < |s.calls| && InboundInFlight(s.calls[i])
    ensures var t := Move(s, i, d, h);
            t.calls[i].InboundDone? ==> t.row.Some? && t.row.value.state == t.calls[i].receipt
  {
    ReachableOnce(g, s);
  }

  /** A message that the policy dropped or refused stays so whatever is called afterwards; it was
      never injected, and a refused one has lost its content. */
  lemma DropsAndRefusalsAreFinal(g: Guard, s: State, w: nat)
    requires Reachable(g, s) && w < |s.calls|
    requires s.calls[w].InboundDone? && s.calls[w].won && s.calls[w].receipt !in {Queued, Held}
    ensures s.row == Some(Row(s.calls[w].receipt, s.calls[w].receipt != Refused)) && s.accepted == 0
  {
    ReachableOnce(g, s);
  }

  // ---------------------------------------------------------------------------
  // When is a message accepted at most once?
  // ---------------------------------------------------------------------------

  ghost predicate AtMostOnce(g: Guard) {
    forall s :: Reachable(g, s) ==> s.accepted <= 1
  }

  /** A call that can still hold the message again, or inject it. */
  predicate BringsBack(c: Call) {
    c.Releasing? || c == Released(false) || c.Undelivered? || c == Injected(false) || c.Evaluating? || c.Acting?
  }

  ghost predicate SafeInv(s: State) {
    && OnceInv(s)
    && (forall i, j :: 0 <= i < |s.calls| && 0 <= j < |s.calls| && ReleaseInFlight(s.calls[i]) && ReleaseInFlight(s.calls[j]) ==> i == j)
    && (forall i, j :: 0 <= i < |s.calls| && 0 <= j < |s.calls| && ReleaseInFlight(s.calls[i]) ==> !InboundInFlight(s.calls[j]))
    && s.accepted <= 1
    && (s.accepted == 1 ==> forall i :: 0 <= i < |s.calls| ==> !BringsBack(s.calls[i]))
    && (s.accepted == 1 && IsHeld(s) ==> exists i :: 0 <= i < |s.calls| && s.calls[i] == Released(true))
  }

  lemma SafeArrive(g: Guard, s: State, c: Call)
    requires SafeInv(s) && Enabled(g, s, Arrive(c))
    ensures SafeInv(Apply(s, Arrive(c)))
  {
    OnceStep(g, s, Arrive(c));
    var t := Apply(s, Arrive(c));
    if i :| 0 <= i < |s.calls| && s.calls[i] == Released(true) {
      assert t.calls[i] == Released(true);
    }
  }

  ghost predicate NoneReleasing(s: State) {
    forall k :: 0 <= k < |s.calls| ==> !ReleaseInFlight(s.calls[k])
  }

  ghost predicate NoneInbound(s: State) {
    forall k :: 0 <= k < |s.calls| ==> !InboundInFlight(s.calls[k])
  }

  ghost predicate NoOtherBringsBack(s: State, i: nat) {
    forall k :: 0 <= k < |s.calls| && k != i ==> !BringsBack(s.calls[k])
  }

  lemma SafeReplaced(s: State, t: State, i: nat, c: Call)
    requires SafeInv(s) && i < |s.calls| && t.calls == s.calls[i := c] && OnceInv(t)
    requires ReleaseInFlight(c) ==> ReleaseInFlight(s.calls[i]) || (NoneReleasing(s) && NoneInbound(s))
    requires InboundInFlight(c) ==> InboundInFlight(s.calls[i]) || NoneReleasing(s)
    requires t.accepted <= 1
    requires t.accepted == 1 ==> !BringsBack(c) && (s.accepted == 1 || NoOtherBringsBack(s, i))
    requires t.accepted == 1 && IsHeld(t) ==>
               c == Released(true) || (s.accepted == 1 && IsHeld(s) && s.calls[i] != Released(true))
    ensures SafeInv(t)
  {
    assert forall k :: 0 <= k < |s.calls| && k != i ==> t.calls[k] == s.calls[k];
    assert t.calls[i] == c;
    if t.accepted == 1 && IsHeld(t) && c != Released(true) {
      var k :| 0 <= k < |s.calls| && s.calls[k] == Released(true);
      assert t.calls[k] == Released(true);
    }
  }

  lemma OnlyWinnerBringsBack(s: State, i: nat)
    requires OnceInv(s) && i < |s.calls| && InboundInFlight(s.calls[i]) && StillUntouched(s.calls[i])
    ensures NoOtherBringsBack(s, i) && NoneReleasing(s)
  {
    assert Owning(s.calls[i]);
    assert forall k :: 0 <= k < |s.calls| ==> s.calls[k] in s.calls;
  }

  lemma SafeInbound(s: State, i: nat, d: Decision, h: Host)
    requires SafeInv(s) && i < |s.calls| && InboundInFlight(s.calls[i])
    requires OnceInv(Move(s, i, d, h))
    ensures SafeInv(Move(s, i, d, h))
  {
    if StillUntouched(s.calls[i]) {
      OnlyWinnerBringsBack(s, i);
    }
    assert BringsBack(s.calls[i]) ==> s.accepted == 0;
    SafeReplaced(s, Move(s, i, d, h), i, Move(s, i, d, h).calls[i]);
  }

  lemma SafeClaim(s: State, i: nat, d: Decision, h: Host)
    requires SafeInv(s) && i < |s.calls| && s.calls[i].InboundStart?
    requires OnceInv(Move(s, i, d, h))
    ensures SafeInv(Move(s, i, d, h))
  {
    if s.row.None? {
      assert forall k :: 0 <= k < |s.calls| ==> s.calls[k] in s.calls;
      assert NoneReleasing(s);
    }
    SafeReplaced(s, Move(s, i, d, h), i, Move(s, i, d, h).calls[i]);
  }

  lemma SafeReleaseStart(g: Guard, s: State, i: nat, d: Decision, h: Host)
    requires g.releasesExclude && g.releaseWaits
    requires SafeInv(s) && Enabled(g, s, Advance(i, d, h)) && s.calls[i].ReleaseStart?
    requires OnceInv(Move(s, i, d, h))
    ensures SafeInv(Move(s, i, d, h))
  {
    assert forall k :: 0 <= k < |s.calls| ==> s.calls[k] in s.calls;
    assert NoneReleasing(s) && NoneInbound(s);
    assert s.accepted == 1 ==> !IsHeld(s);
    SafeReplaced(s, Move(s, i, d, h), i, Move(s, i, d, h).calls[i]);
  }

  lemma SafeReleaseMoves(s: State, i: nat, d: Decision, h: Host)
    requires SafeInv(s) && i < |s.calls| && ReleaseInFlight(s.calls[i])
    requires OnceInv(Move(s, i, d, h))
    ensures SafeInv(Move(s, i, d, h))
  {
    assert BringsBack(s.calls[i]) ==> s.accepted == 0;
    assert NoOtherBringsBack(s, i);
    SafeReplaced(s, Move(s, i, d, h), i, Move(s, i, d, h).calls[i]);
  }

  lemma SafeRefuse(s: State, i: nat, d: Decision, h: Host)
    requires SafeInv(s) && i < |s.calls|
    requires s.calls[i].RefuseStart? || s.calls[i].Refusing?
    requires OnceInv(Move(s, i, d, h))
    ensures SafeInv(Move(s, i, d, h))
  {
    SafeReplaced(s, Move(s, i, d, h), i, Move(s, i, d, h).calls[i]);
  }

  lemma SafeStep(g: Guard, s: State, a: Action)
    requires g.releasesExclude && g.releaseWaits && SafeInv(s) && Enabled(g, s, a)
    ensures SafeInv(Apply(s, a))
  {
    OnceStep(g, s, a);
    if a.Arrive? {
      SafeArrive(g, s, a.call);
    } else {
      var c := s.calls[a.i];
      if InboundInFlight(c) {
        SafeInbound(s, a.i, a.decision, a.host);
      } else if c.InboundStart? {
        SafeClaim(s, a.i, a.decision, a.host);
      } else if c.ReleaseStart? {
        SafeReleaseStart(g, s, a.i, a.decision, a.host);
      } else if ReleaseInFlight(c) {
        SafeReleaseMoves(s, a.i, a.decision, a.host);
      } else if c.RefuseStart? || c.Refusing? {
        SafeRefuse(s, a.i, a.decision, a.host);
      }
    }
  }

  lemma {:induction false} SafeRuns(g: Guard, s: State, acts: seq<Action>, t: State)
    requires g.releasesExclude && g.releaseWaits && SafeInv(s) && Runs(g, s, acts, t)
    ensures SafeInv(t)
    decreases |acts|
  {
    if acts != [] {
      SafeStep(g, s, acts[0]);
      SafeRuns(g, Apply(s, acts[0]), acts[1..], t);
    }
  }

  /** A state whose winner is the first call and whose policy has been evaluated. */
  function At(state: ReceiptState, calls: seq<Call>, injections: nat, accepted: nat): State {
    State(Some(Row(state, true)), calls, Some(0), 1, injections, accepted)
  }

  /** One step of call `i`, as a step between reachable states. */
  lemma Go(g: Guard, s: State, i: nat, d: Decision, h: Host) returns (t: State)
    requires Reachable(g, s) && Enabled(g, s, Advance(i, d, h))
    ensures Reachable(g, t) && t == Move(s, i, d, h)
  {
    t := Move(s, i, d, h);
    ReachOneMore(g, s, Advance(i, d, h));
  }

  /** A lone inbound call whose policy has decided. */
  lemma LoneDecided(g: Guard, d: Decision) returns (s: State)
    ensures Reachable(g, s) && s == At(Queued, [Acting(d)], 0, 0)
  {
    InitialIsReachable(g);
    ReachOneMore(g, INITIAL, Arrive(InboundStart));
    s := Apply(INITIAL, Arrive(InboundStart));
    s := Go(g, s, 0, d, Accepts);
    s := Go(g, s, 0, d, Accepts);
  }

  /** Dropped: expired, invalid, rate limited or over capacity, and not handed to the host. */
  lemma LoneDrop(g: Guard, reason: Drop) returns (s: State)
    ensures Reachable(g, s)
    ensures reason == DropExpired ==> s == At(Expired, [InboundDone(Expired, true)], 0, 0)
    ensures reason == DropInvalid ==> s == At(Invalid, [InboundDone(Invalid, true)], 0, 0)
    ensures reason == DropRateLimited ==> s == At(RateLimited, [InboundDone(RateLimited, true)], 0, 0)
    ensures reason == DropOverCapacity ==> s == At(OverCapacity, [InboundDone(OverCapacity, true)], 0, 0)
  {
    s := LoneDecided(g, DropIt(reason));
    s := Go(g, s, 0, DropIt(reason), Accepts);
  }

  lemma LoneHold(g: Guard) returns (s: State)
    ensures Reachable(g, s) && s == At(Held, [InboundDone(Held, true)], 0, 0)
  {
    s := LoneDecided(g, HoldIt);
    s := Go(g, s, 0, HoldIt, Accepts);
  }

  /** Refused, with the content gone. */
  lemma LoneRefuse(g: Guard) returns (s: State)
    ensures Reachable(g, s) && s == At(Refused, [InboundDone(Refused, true)], 0, 0).(row := Some(Row(Refused, false)))
  {
    s := LoneDecided(g, RefuseIt);
    s := Go(g, s, 0, RefuseIt, Accepts);
    s := Go(g, s, 0, RefuseIt, Accepts);
  }

  /** Handed to the host: queued if it accepts, held otherwise; without a target nothing is handed over. */
  lemma LoneForward(g: Guard, h: Host) returns (s: State)
    ensures Reachable(g, s)
    ensures h == Accepts ==> s == At(Queued, [InboundDone(Queued, true)], 1, 1)
    ensures h == Rejects ==> s == At(Held, [InboundDone(Held, true)], 1, 0)
    ensures h == NoTarget ==> s == At(Held, [InboundDone(Held, true)], 0, 0)
  {
    s := LoneDecided(g, Forward);
    s := Go(g, s, 0, Forward, h);
    s := Go(g, s, 0, Forward, h);
    if h.Rejects? {
      s := Go(g, s, 0, Forward, h);
    }
  }

  lemma HeldWithOne(g: Guard, c: Call) returns (s: State)
    requires c.ReleaseStart? || c.RefuseStart?
    ensures Reachable(g, s) && s == At(Held, [InboundDone(Held, true), c], 0, 0)
  {
    var s1 := LoneHold(g);
    ReachOneMore(g, s1, Arrive(c));
    s := Apply(s1, Arrive(c));
    assert s.calls == [InboundDone(Held, true), c];
  }

  lemma LoneReleasing(g: Guard) returns (s: State)
    ensures Reachable(g, s) && s == At(Held, [InboundDone(Held, true), Releasing], 0, 0)
  {
    s := HeldWithOne(g, ReleaseStart);
    s := Go(g, s, 1, HoldIt, Accepts);
  }

  /** A release of a held message, undisturbed: queued if the host accepts, held otherwise. */
  lemma LoneRelease(g: Guard, h: Host) returns (s: State)
    ensures Reachable(g, s)
    ensures h == Accepts ==> s == At(Queued, [InboundDone(Held, true), ReleaseDone(true)], 0, 1)
    ensures h != Accepts ==> s == At(Held, [InboundDone(Held, true), ReleaseDone(false)], 0, 0)
  {
    s := LoneReleasing(g);
    s := Go(g, s, 1, HoldIt, h);
    if h != NoTarget {
      s := Go(g, s, 1, HoldIt, h);
    }
  }

  lemma LoneRefusal(g: Guard) returns (s: State)
    ensures Reachable(g, s) && s == At(Refused, [InboundDone(Held, true), RefuseDone(true)], 0, 0)
  {
    s := HeldWithOne(g, RefuseStart);
    s := Go(g, s, 1, HoldIt, Accepts);
    s := Go(g, s, 1, HoldIt, Accepts);
  }

  /** An inbound call that has not started, and two others behind it. */
  lemma ThreeCalls(g: Guard, second: Call, third: Call) returns (s: State)
    requires (second.ReleaseStart? || second.RefuseStart?) && (third.ReleaseStart? || third.RefuseStart?)
    ensures Reachable(g, s) && s == INITIAL.(calls := [InboundStart, second, third])
  {
    InitialIsReachable(g);
    ReachOneMore(g, INITIAL, Arrive(InboundStart));
    var s1 := Apply(INITIAL, Arrive(InboundStart));
    ReachOneMore(g, s1, Arrive(second));
    var s2 := Apply(s1, Arrive(second));
    ReachOneMore(g, s2, Arrive(third));
    s := Apply(s2, Arrive(third));
  }

  /** The first call claims, and the policy decides. */
  lemma Decided(g: Guard, second: Call, third: Call, d: Decision) returns (s: State)
    requires (second.ReleaseStart? || second.RefuseStart?) && (third.ReleaseStart? || third.RefuseStart?)
    ensures Reachable(g, s) && s == At(Queued, [Acting(d), second, third], 0, 0)
  {
    s := ThreeCalls(g, second, third);
    s := Go(g, s, 0, d, Accepts);
    s := Go(g, s, 0, d, Accepts);
  }

  /** The policy holds the message, and two others wait to handle it. */
  lemma HeldWithTwo(g: Guard, second: Call, third: Call) returns (s: State)
    requires (second.ReleaseStart? || second.RefuseStart?) && (third.ReleaseStart? || third.RefuseStart?)
    ensures Reachable(g, s) && s == At(Held, [InboundDone(Held, true), second, third], 0, 0)
  {
    s := Decided(g, second, third, HoldIt);
    s := Go(g, s, 0, HoldIt, Accepts);
  }

  /** The host has rejected the message, which is held, and the inbound call will hold it once more. */
  lemma RejectedWithTwo(g: Guard, second: Call, third: Call) returns (s: State)
    requires (second.ReleaseStart? || second.RefuseStart?) && (third.ReleaseStart? || third.RefuseStart?)
    ensures Reachable(g, s) && s == At(Held, [Undelivered, second, third], 1, 0)
  {
    s := Decided(g, second, third, Forward);
    s := Go(g, s, 0, Forward, Rejects);
    assert s == At(Queued, [Injected(false), second, third], 1, 0);
    s := Go(g, s, 0, Forward, Rejects);
  }

  /** A release that has read the held row is accepted and queues the message. */
  lemma Releases(g: Guard, s: State, i: nat) returns (t: State)
    requires Reachable(g, s) && i < |s.calls| && s.calls[i].Releasing? && s.row.Some?
    ensures Reachable(g, t) && t == Write(Put(s, i, ReleaseDone(true)).(accepted := s.accepted + 1), Queued)
  {
    t := Go(g, s, i, HoldIt, Accepts);
    t := Go(g, t, i, HoldIt, Accepts);
    assert s.calls[i := Released(true)][i := ReleaseDone(true)] == s.calls[i := ReleaseDone(true)];
  }

  /** Two overlapping releases of one held message are both accepted by the host. */
  lemma OverlappingReleases(g: Guard)
    requires !g.releasesExclude
    ensures exists s :: Reachable(g, s) && s.accepted == 2 && Quiet(s)
  {
    var s := HeldWithTwo(g, ReleaseStart, ReleaseStart);
    s := Go(g, s, 1, HoldIt, Accepts);
    s := Go(g, s, 2, HoldIt, Accepts);
    assert s == At(Held, [InboundDone(Held, true), Releasing, Releasing], 0, 0);
    BothRelease(g, s);
  }

  lemma BothRelease(g: Guard, s: State)
    requires Reachable(g, s) && s == At(Held, [InboundDone(Held, true), Releasing, Releasing], 0, 0)
    ensures exists t :: Reachable(g, t) && t.accepted == 2 && Quiet(t)
  {
    var t := Releases(g, s, 1);
    t := Releases(g, t, 2);
    assert t.calls == [InboundDone(Held, true), ReleaseDone(true), ReleaseDone(true)] && t.accepted == 2;
  }

  /** A release that overtakes the inbound call of a message the host has just rejected: the message
      is accepted, then held again by the inbound call, then accepted a second time. */
  lemma ReleaseOvertakesInbound(g: Guard)
    requires !g.releaseWaits
    ensures exists s :: Reachable(g, s) && s.accepted == 2 && Quiet(s)
  {
    var s := RejectedWithTwo(g, ReleaseStart, ReleaseStart);
    s := Go(g, s, 1, Forward, Accepts);
    s := Releases(g, s, 1);
    assert s == At(Queued, [Undelivered, ReleaseDone(true), ReleaseStart], 1, 1);
    AcceptedAgain(g, s);
  }

  lemma AcceptedAgain(g: Guard, s0: State)
    requires Reachable(g, s0) && s0 == At(Queued, [Undelivered, ReleaseDone(true), ReleaseStart], 1, 1)
    ensures exists s :: Reachable(g, s) && s.accepted == 2 && Quiet(s)
  {
    var s := Go(g, s0, 0, Forward, Accepts);
    assert s == At(Held, [InboundDone(Held, true), ReleaseDone(true), ReleaseStart], 1, 1);
    s := Go(g, s, 2, Forward, Accepts);
    s := Releases(g, s, 2);
    assert s.calls == [InboundDone(Held, true), ReleaseDone(true), ReleaseDone(true)] && s.accepted == 2;
  }

  /** The host accepts a message at most once in every run exactly when a release starts only while
      no other release and no inbound call of that message is in flight. */
  lemma AtMostOnceIff(g: Guard)
    ensures AtMostOnce(g) <==> g.releasesExclude && g.releaseWaits
  {
    if g.releasesExclude && g.releaseWaits {
      forall s | Reachable(g, s) ensures s.accepted <= 1 {
        var acts :| Runs(g, INITIAL, acts, s);
        SafeRuns(g, INITIAL, acts, s);
      }
    } else if !g.releasesExclude {
      OverlappingReleases(g);
    } else {
      ReleaseOvertakesInbound(g);
    }
  }

  // ---------------------------------------------------------------------------
  // When do concurrent duplicates return one state?
  // ---------------------------------------------------------------------------

  ghost predicate InboundOnly(s: State) {
    forall c <- s.calls :: InboundInFlight(c) || c.InboundStart? || c.InboundDone?
  }

  ghost predicate BothDone(s: State, i: nat, j: nat) {
    i < |s.calls| && j < |s.calls| && s.calls[i].InboundDone? && s.calls[j].InboundDone?
  }

  ghost predicate Converges(g: Guard) {
    forall s, i: nat, j: nat :: Reachable(g, s) && InboundOnly(s) && BothDone(s, i, j) ==> s.calls[i].receipt == s.calls[j].receipt
  }

  /** Every receipt so far is the persisted state, and nobody who could change it is under way. */
  ghost predicate Agreed(s: State) {
    forall i :: 0 <= i < |s.calls| && s.calls[i].InboundDone? ==>
      s.row.Some? && s.calls[i].receipt == s.row.value.state && NoneInbound(s)
  }

  ghost predicate AgreeInv(s: State) {
    OnceInv(s) && (InboundOnly(s) ==> Agreed(s))
  }

  lemma MoveChangesOneCall(s: State, i: nat, d: Decision, h: Host)
    requires i < |s.calls|
    ensures var t := Move(s, i, d, h);
            |t.calls| == |s.calls| && forall k :: 0 <= k < |s.calls| && k != i ==> t.calls[k] == s.calls[k]
  {
    assert Move(s, i, d, h).calls == s.calls[i := Move(s, i, d, h).calls[i]];
  }

  lemma AgreeMove(g: Guard, s: State, i: nat, d: Decision, h: Host)
    requires g.duplicateWaits && OnceInv(s) && InboundOnly(s) && Agreed(s) && Enabled(g, s, Advance(i, d, h))
    ensures Agreed(Move(s, i, d, h))
  {
    var t := Move(s, i, d, h);
    assert s.calls[i] in s.calls;
    assert forall k :: 0 <= k < |s.calls| ==> s.calls[k] in s.calls;
    MoveChangesOneCall(s, i, d, h);
    if s.calls[i].InboundStart? {
      assert NoneInbound(s);
    } else if InboundInFlight(s.calls[i]) {
      assert Owning(s.calls[i]);
    }
  }

  lemma AgreeStep(g: Guard, s: State, a: Action)
    requires g.duplicateWaits && AgreeInv(s) && Enabled(g, s, a)
    ensures AgreeInv(Apply(s, a))
  {
    OnceStep(g, s, a);
    var t := Apply(s, a);
    if InboundOnly(t) {
      if a.Advance? {
        InboundOnlyBackwards(s, a.i, a.decision, a.host);
        AgreeMove(g, s, a.i, a.decision, a.host);
      } else {
        assert forall k :: 0 <= k < |s.calls| ==> t.calls[k] == s.calls[k] && t.calls[k] in t.calls;
        assert InboundOnly(s);
      }
    }
  }

  lemma InboundOnlyBackwards(s: State, i: nat, d: Decision, h: Host)
    requires i < |s.calls| && InboundOnly(Move(s, i, d, h))
    ensures InboundOnly(s)
  {
    var t := Move(s, i, d, h);
    MoveChangesOneCall(s, i, d, h);
    forall c | c in s.calls ensures InboundInFlight(c) || c.InboundStart? || c.InboundDone? {
      var k :| 0 <= k < |s.calls| && s.calls[k] == c;
      assert t.calls[k] in t.calls;
    }
  }

  lemma {:induction false} AgreeRuns(g: Guard, s: State, acts: seq<Action>, t: State)
    requires g.duplicateWaits && AgreeInv(s) && Runs(g, s, acts, t)
    ensures AgreeInv(t)
    decreases |acts|
  {
    if acts != [] {
      AgreeStep(g, s, acts[0]);
      AgreeRuns(g, Apply(s, acts[0]), acts[1..], t);
    }
  }

  /** A duplicate that arrives before the policy has been evaluated is told `queued`, whatever the
      policy then decides. */
  lemma EarlyDuplicate(g: Guard)
    requires !g.duplicateWaits
    ensures exists s :: Reachable(g, s) && InboundOnly(s)
                        && s.calls == [InboundDone(Expired, true), InboundDone(Queued, false)]
  {
    InitialIsReachable(g);
    ReachOneMore(g, INITIAL, Arrive(InboundStart));
    var s := Apply(INITIAL, Arrive(InboundStart));
    ReachOneMore(g, s, Arrive(InboundStart));
    s := Apply(s, Arrive(InboundStart));
    assert s.calls == [InboundStart, InboundStart];
    s := Go(g, s, 0, DropIt(DropExpired), Accepts);
    s := Go(g, s, 1, DropIt(DropExpired), Accepts);
    s := Go(g, s, 0, DropIt(DropExpired), Accepts);
    s := Go(g, s, 0, DropIt(DropExpired), Accepts);
    assert s.calls == [InboundDone(Expired, true), InboundDone(Queued, false)];
  }

  /** Without releases and refusals, all calls for one message return one state exactly when a
      duplicate claims only after the winner has returned. */
  lemma ConvergesIff(g: Guard)
    ensures Converges(g) <==> g.duplicateWaits
  {
    if g.duplicateWaits {
      forall s, i: nat, j: nat | Reachable(g, s) && InboundOnly(s) && BothDone(s, i, j)
        ensures s.calls[i].receipt == s.calls[j].receipt
      {
        var acts :| Runs(g, INITIAL, acts, s);
        AgreeRuns(g, INITIAL, acts, s);
      }
    } else {
      EarlyDuplicate(g);
      var s :| Reachable(g, s) && InboundOnly(s) && s.calls == [InboundDone(Expired, true), InboundDone(Queued, false)];
      assert BothDone(s, 0, 1) && s.calls[0].receipt != s.calls[1].receipt;
    }
  }
}
