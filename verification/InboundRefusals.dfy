/** Explicit refusals among the concurrent calls for one message id: when a refusal that returned true
    is the last word, and when `queued` in the row means accepted by the host. */
module InboundRefusals {
  import opened Models
  import opened InboundProtocol

  // ---------------------------------------------------------------------------
  // When is a refusal final?
  // ---------------------------------------------------------------------------

  predicate Refuser(c: Call) { c.Refusing? || c == RefuseDone(true) }

  predicate IsRefused(s: State) { s.row.Some? && s.row.value.state == Refused }

  ghost predicate RefusalsAreFinal(g: Guard) {
    forall s, i: nat :: Reachable(g, s) && i < |s.calls| && s.calls[i] == RefuseDone(true) ==> IsRefused(s)
  }

  /** While somebody refuses, or has refused, nobody else is under way who could write the row. */
  ghost predicate FinalInv(s: State) {
    && OnceInv(s)
    && (forall i :: 0 <= i < |s.calls| && Refuser(s.calls[i]) ==> NoneReleasing(s) && NoneInbound(s))
    && (forall i :: 0 <= i < |s.calls| && s.calls[i] == RefuseDone(true) ==> IsRefused(s))
  }

  lemma FinalReplaced(s: State, t: State, i: nat, c: Call)
    requires FinalInv(s) && i < |s.calls| && t.calls == s.calls[i := c] && OnceInv(t)
    requires Refuser(c) || (exists k :: 0 <= k < |s.calls| && k != i && Refuser(s.calls[k])) ==>
               NoneReleasing(s) && NoneInbound(s) && !ReleaseInFlight(c) && !InboundInFlight(c)
    requires c == RefuseDone(true) || (exists k :: 0 <= k < |s.calls| && k != i && s.calls[k] == RefuseDone(true)) ==> IsRefused(t)
    ensures FinalInv(t)
  {
    assert forall k :: 0 <= k < |s.calls| && k != i ==> t.calls[k] == s.calls[k];
    assert t.calls[i] == c;
    if k :| 0 <= k < |t.calls| && Refuser(t.calls[k]) {
      assert k != i ==> Refuser(s.calls[k]);
      assert NoneReleasing(t) && NoneInbound(t);
    }
  }

  ghost predicate NoRefuser(s: State) {
    forall k :: 0 <= k < |s.calls| ==> !Refuser(s.calls[k])
  }

  /** As long as nobody refuses there is nothing to keep. */
  lemma FinalWithoutRefuser(s: State, t: State, i: nat, c: Call)
    requires NoRefuser(s) && i < |s.calls| && t.calls == s.calls[i := c] && OnceInv(t) && !Refuser(c)
    ensures FinalInv(t)
  {
    assert forall k :: 0 <= k < |t.calls| ==> t.calls[k] == if k == i then c else s.calls[k];
    assert NoRefuser(t);
  }

  lemma FinalInFlight(s: State, i: nat, d: Decision, h: Host)
    requires FinalInv(s) && i < |s.calls| && OnceInv(Move(s, i, d, h)) && InboundInFlight(s.calls[i])
    ensures FinalInv(Move(s, i, d, h))
  {
    assert !NoneInbound(s);
    assert NoRefuser(s);
    FinalWithoutRefuser(s, Move(s, i, d, h), i, Move(s, i, d, h).calls[i]);
  }

  lemma FinalClaim(s: State, i: nat, d: Decision, h: Host)
    requires FinalInv(s) && i < |s.calls| && OnceInv(Move(s, i, d, h)) && s.calls[i].InboundStart?
    ensures FinalInv(Move(s, i, d, h))
  {
    assert forall k :: 0 <= k < |s.calls| ==> s.calls[k] in s.calls;
    if s.row.None? {
      assert NoRefuser(s);
      FinalWithoutRefuser(s, Move(s, i, d, h), i, Move(s, i, d, h).calls[i]);
    } else {
      FinalReplaced(s, Move(s, i, d, h), i, Move(s, i, d, h).calls[i]);
    }
  }

  lemma FinalRelease(g: Guard, s: State, i: nat, d: Decision, h: Host)
    requires g.refuseExcludes && FinalInv(s) && Enabled(g, s, Advance(i, d, h)) && OnceInv(Move(s, i, d, h))
    requires s.calls[i].ReleaseStart?
    ensures FinalInv(Move(s, i, d, h))
  {
    assert forall k :: 0 <= k < |s.calls| ==> s.calls[k] in s.calls;
    FinalReplaced(s, Move(s, i, d, h), i, Move(s, i, d, h).calls[i]);
  }

  lemma FinalReleasing(s: State, i: nat, d: Decision, h: Host)
    requires FinalInv(s) && i < |s.calls| && OnceInv(Move(s, i, d, h)) && ReleaseInFlight(s.calls[i])
    ensures FinalInv(Move(s, i, d, h))
  {
    assert !NoneReleasing(s);
    assert NoRefuser(s);
    FinalWithoutRefuser(s, Move(s, i, d, h), i, Move(s, i, d, h).calls[i]);
  }

  lemma FinalRefuse(g: Guard, s: State, i: nat, d: Decision, h: Host)
    requires g.refuseWaits && g.refuseExcludes && FinalInv(s) && Enabled(g, s, Advance(i, d, h)) && OnceInv(Move(s, i, d, h))
    requires s.calls[i].Refusing? || s.calls[i].RefuseStart?
    ensures FinalInv(Move(s, i, d, h))
  {
    assert forall k :: 0 <= k < |s.calls| ==> s.calls[k] in s.calls;
    FinalReplaced(s, Move(s, i, d, h), i, Move(s, i, d, h).calls[i]);
  }

  lemma FinalStep(g: Guard, s: State, a: Action)
    requires g.refuseWaits && g.refuseExcludes && FinalInv(s) && Enabled(g, s, a)
    ensures FinalInv(Apply(s, a))
  {
    OnceStep(g, s, a);
    if a.Arrive? {
      var t := Apply(s, a);
      assert forall k :: 0 <= k < |s.calls| ==> t.calls[k] == s.calls[k];
    } else {
      var c := s.calls[a.i];
      if InboundInFlight(c) {
        FinalInFlight(s, a.i, a.decision, a.host);
      } else if c.InboundStart? {
        FinalClaim(s, a.i, a.decision, a.host);
      } else if ReleaseInFlight(c) {
        FinalReleasing(s, a.i, a.decision, a.host);
      } else if c.ReleaseStart? {
        FinalRelease(g, s, a.i, a.decision, a.host);
      } else if c.Refusing? || c.RefuseStart? {
        FinalRefuse(g, s, a.i, a.decision, a.host);
      }
    }
  }

  lemma {:induction false} FinalRuns(g: Guard, s: State, acts: seq<Action>, t: State)
    requires g.refuseWaits && g.refuseExcludes && FinalInv(s) && Runs(g, s, acts, t)
    ensures FinalInv(t)
    decreases |acts|
  {
    if acts != [] {
      FinalStep(g, s, acts[0]);
      FinalRuns(g, Apply(s, acts[0]), acts[1..], t);
    }
  }

  /** The host rejects, the row is held, a refusal returns true, and then the inbound call holds the
      message once more. */
  lemma RefusalIsHeldAgain(g: Guard)
    requires !g.refuseWaits
    ensures exists s :: Reachable(g, s) && |s.calls| == 3 && s.calls[1] == RefuseDone(true) && !IsRefused(s)
  {
    var s := RejectedWithTwo(g, RefuseStart, RefuseStart);
    s := Go(g, s, 1, Forward, Rejects);
    assert s == At(Held, [Undelivered, Refusing, RefuseStart], 1, 0);
    s := Go(g, s, 1, Forward, Rejects);
    assert s == At(Refused, [Undelivered, RefuseDone(true), RefuseStart], 1, 0);
    s := Go(g, s, 0, Forward, Rejects);
    assert s == At(Held, [InboundDone(Held, true), RefuseDone(true), RefuseStart], 1, 0);
  }

  /** A held message, a release and a refusal that have both read it. */
  lemma BothHandling(g: Guard) returns (s: State)
    requires !g.refuseExcludes
    ensures Reachable(g, s) && s == At(Held, [InboundDone(Held, true), Releasing, Refusing], 0, 0)
  {
    s := HeldWithTwo(g, ReleaseStart, RefuseStart);
    s := Go(g, s, 1, HoldIt, Accepts);
    assert s == At(Held, [InboundDone(Held, true), Releasing, RefuseStart], 0, 0);
    s := Go(g, s, 2, HoldIt, Accepts);
  }

  /** The refusal returns true first, and then the release queues the message. */
  lemma RefusalIsOverruled(g: Guard)
    requires !g.refuseExcludes
    ensures exists s :: Reachable(g, s) && |s.calls| == 3 && s.calls[2] == RefuseDone(true) && !IsRefused(s)
  {
    var s := BothHandling(g);
    s := Go(g, s, 2, HoldIt, Accepts);
    assert s == At(Refused, [InboundDone(Held, true), Releasing, RefuseDone(true)], 0, 0);
    s := Releases(g, s, 1);
    assert s == At(Queued, [InboundDone(Held, true), ReleaseDone(true), RefuseDone(true)], 0, 1);
  }

  /** In every run a refusal that returned true stays in the row exactly when a refusal waits for the
      inbound call, and refusals and releases exclude each other. */
  lemma RefusalsAreFinalIff(g: Guard)
    ensures RefusalsAreFinal(g) <==> g.refuseWaits && g.refuseExcludes
  {
    if g.refuseWaits && g.refuseExcludes {
      forall s, i: nat | Reachable(g, s) && i < |s.calls| && s.calls[i] == RefuseDone(true) ensures IsRefused(s) {
        var acts :| Runs(g, INITIAL, acts, s);
        FinalRuns(g, INITIAL, acts, s);
      }
    } else if !g.refuseWaits {
      RefusalIsHeldAgain(g);
      var s :| Reachable(g, s) && |s.calls| == 3 && s.calls[1] == RefuseDone(true) && !IsRefused(s);
    } else {
      RefusalIsOverruled(g);
      var s :| Reachable(g, s) && |s.calls| == 3 && s.calls[2] == RefuseDone(true) && !IsRefused(s);
    }
  }

  // ---------------------------------------------------------------------------
  // When does queued mean accepted?
  // ---------------------------------------------------------------------------

  predicate IsQueued(s: State) { s.row.Some? && s.row.value.state == Queued }

  ghost predicate QueuedIsAccepted(g: Guard) {
    forall s :: Reachable(g, s) && Quiet(s) ==> s.accepted == if IsQueued(s) then 1 else 0
  }

  ghost predicate SomeReleased(s: State) {
    exists i :: 0 <= i < |s.calls| && s.calls[i] == Released(true)
  }

  ghost predicate SomeRefusing(s: State) {
    exists i :: 0 <= i < |s.calls| && s.calls[i].Refusing?
  }

  /** An acceptance is in the row, or about to be; a queued row is accepted, or not yet decided; and
      nobody refuses an accepted message. */
  ghost predicate CountInv(s: State) {
    && SafeInv(s)
    && (s.accepted == 1 ==> IsQueued(s) || SomeReleased(s))
    && (SomeReleased(s) ==> s.accepted == 1)
    && (IsQueued(s) ==> s.accepted == 1 || !NoneInbound(s))
    && (SomeRefusing(s) ==> s.accepted == 0 && NoneReleasing(s))
  }

  /** What a step must show about the call that moved; the others stay. */
  lemma CountReplaced(s: State, t: State, i: nat, c: Call)
    requires CountInv(s) && i < |s.calls| && t.calls == s.calls[i := c] && SafeInv(t)
    requires t.accepted == 1 ==> IsQueued(t) || c == Released(true) || (s.accepted == 1 && !IsQueued(s) && s.calls[i] != Released(true))
    requires IsQueued(t) ==>
               t.accepted == 1 || InboundInFlight(c) || (IsQueued(s) && s.accepted == 0 && !InboundInFlight(s.calls[i]))
    requires t.accepted >= s.accepted && (c == Released(true) ==> t.accepted == 1)
    requires c.Refusing? ==> t.accepted == 0 && NoneReleasing(s)
    requires SomeRefusing(s) ==> t.accepted == 0 && !ReleaseInFlight(c)
    ensures CountInv(t)
  {
    assert forall k :: 0 <= k < |s.calls| && k != i ==> t.calls[k] == s.calls[k];
    assert t.calls[i] == c;
    if t.accepted == 1 && !IsQueued(t) && c != Released(true) {
      var k :| 0 <= k < |s.calls| && s.calls[k] == Released(true);
      assert t.calls[k] == Released(true);
    }
    if k :| 0 <= k < |t.calls| && t.calls[k] == Released(true) {
      assert k != i ==> s.calls[k] == Released(true);
    }
    if IsQueued(t) && t.accepted != 1 && !InboundInFlight(c) {
      var k :| 0 <= k < |s.calls| && InboundInFlight(s.calls[k]);
      assert InboundInFlight(t.calls[k]);
    }
    if k :| 0 <= k < |t.calls| && t.calls[k].Refusing? {
      assert k != i ==> s.calls[k].Refusing?;
      assert NoneReleasing(t);
    }
  }

  lemma CountInFlight(s: State, i: nat, d: Decision, h: Host)
    requires CountInv(s) && i < |s.calls| && SafeInv(Move(s, i, d, h)) && InboundInFlight(s.calls[i])
    ensures CountInv(Move(s, i, d, h))
  {
    assert BringsBack(s.calls[i]) ==> s.accepted == 0;
    assert Owning(s.calls[i]);
    if StillUntouched(s.calls[i]) {
      UntouchedIsNotRefused(s, i);
    }
    CountReplaced(s, Move(s, i, d, h), i, Move(s, i, d, h).calls[i]);
  }

  lemma UntouchedIsNotRefused(s: State, i: nat)
    requires OnceInv(s) && i < |s.calls| && Owning(s.calls[i]) && StillUntouched(s.calls[i])
    ensures !SomeRefusing(s)
  {
    assert forall k :: 0 <= k < |s.calls| ==> s.calls[k] in s.calls;
  }

  lemma CountClaim(s: State, i: nat, d: Decision, h: Host)
    requires CountInv(s) && i < |s.calls| && SafeInv(Move(s, i, d, h)) && s.calls[i].InboundStart?
    ensures CountInv(Move(s, i, d, h))
  {
    assert forall k :: 0 <= k < |s.calls| ==> s.calls[k] in s.calls;
    CountReplaced(s, Move(s, i, d, h), i, Move(s, i, d, h).calls[i]);
  }

  lemma CountReleasing(s: State, i: nat, d: Decision, h: Host)
    requires CountInv(s) && i < |s.calls| && SafeInv(Move(s, i, d, h)) && ReleaseInFlight(s.calls[i])
    ensures CountInv(Move(s, i, d, h))
  {
    assert BringsBack(s.calls[i]) ==> s.accepted == 0;
    assert !NoneReleasing(s) && !SomeRefusing(s);
    CountReplaced(s, Move(s, i, d, h), i, Move(s, i, d, h).calls[i]);
  }

  lemma CountReleaseStart(g: Guard, s: State, i: nat, d: Decision, h: Host)
    requires g.refuseExcludes && CountInv(s) && Enabled(g, s, Advance(i, d, h)) && SafeInv(Move(s, i, d, h))
    requires s.calls[i].ReleaseStart?
    ensures CountInv(Move(s, i, d, h))
  {
    assert forall k :: 0 <= k < |s.calls| ==> s.calls[k] in s.calls;
    assert !SomeRefusing(s);
    CountReplaced(s, Move(s, i, d, h), i, Move(s, i, d, h).calls[i]);
  }

  lemma HeldIsUnaccepted(s: State)
    requires CountInv(s) && IsHeld(s) && NoneReleasing(s)
    ensures s.accepted == 0
  {
  }

  lemma NoReleaseAtRefusal(g: Guard, s: State, i: nat, d: Decision, h: Host)
    requires g.refuseExcludes && Enabled(g, s, Advance(i, d, h)) && s.calls[i].RefuseStart?
    ensures NoneReleasing(s)
  {
    assert forall k :: 0 <= k < |s.calls| ==> s.calls[k] in s.calls;
  }

  lemma CountRefuseStart(s: State, i: nat, d: Decision, h: Host)
    requires CountInv(s) && i < |s.calls| && s.calls[i].RefuseStart? && NoneReleasing(s) && SafeInv(Move(s, i, d, h))
    ensures CountInv(Move(s, i, d, h))
  {
    if IsHeld(s) {
      HeldIsUnaccepted(s);
    }
    CountReplaced(s, Move(s, i, d, h), i, Move(s, i, d, h).calls[i]);
  }

  lemma CountRefusing(s: State, i: nat, d: Decision, h: Host)
    requires CountInv(s) && i < |s.calls| && SafeInv(Move(s, i, d, h)) && s.calls[i].Refusing?
    ensures CountInv(Move(s, i, d, h))
  {
    assert SomeRefusing(s);
    CountReplaced(s, Move(s, i, d, h), i, Move(s, i, d, h).calls[i]);
  }

  lemma CountStep(g: Guard, s: State, a: Action)
    requires g.releasesExclude && g.releaseWaits && g.refuseExcludes && CountInv(s) && Enabled(g, s, a)
    ensures CountInv(Apply(s, a))
  {
    SafeStep(g, s, a);
    if a.Arrive? {
      CountArrive(g, s, a.call);
    } else {
      var c := s.calls[a.i];
      if InboundInFlight(c) {
        CountInFlight(s, a.i, a.decision, a.host);
      } else if c.InboundStart? {
        CountClaim(s, a.i, a.decision, a.host);
      } else if ReleaseInFlight(c) {
        CountReleasing(s, a.i, a.decision, a.host);
      } else if c.ReleaseStart? {
        CountReleaseStart(g, s, a.i, a.decision, a.host);
      } else if c.RefuseStart? {
        NoReleaseAtRefusal(g, s, a.i, a.decision, a.host);
        CountRefuseStart(s, a.i, a.decision, a.host);
      } else if c.Refusing? {
        CountRefusing(s, a.i, a.decision, a.host);
      }
    }
  }

  lemma CountArrive(g: Guard, s: State, c: Call)
    requires CountInv(s) && Enabled(g, s, Arrive(c)) && SafeInv(Apply(s, Arrive(c)))
    ensures CountInv(Apply(s, Arrive(c)))
  {
    var t := Apply(s, Arrive(c));
    assert forall k :: 0 <= k < |s.calls| ==> t.calls[k] == s.calls[k];
    if i :| 0 <= i < |s.calls| && s.calls[i] == Released(true) {
      assert t.calls[i] == Released(true);
    }
    if i :| 0 <= i < |t.calls| && t.calls[i] == Released(true) {
      assert s.calls[i] == Released(true);
    }
    if i :| 0 <= i < |s.calls| && InboundInFlight(s.calls[i]) {
      assert InboundInFlight(t.calls[i]);
    }
    if i :| 0 <= i < |t.calls| && t.calls[i].Refusing? {
      assert s.calls[i].Refusing?;
    }
  }

  lemma {:induction false} CountRuns(g: Guard, s: State, acts: seq<Action>, t: State)
    requires g.releasesExclude && g.releaseWaits && g.refuseExcludes && CountInv(s) && Runs(g, s, acts, t)
    ensures CountInv(t)
    decreases |acts|
  {
    if acts != [] {
      CountStep(g, s, acts[0]);
      CountRuns(g, Apply(s, acts[0]), acts[1..], t);
    }
  }

  /** The host accepts a message that ends refused. */
  lemma AcceptedIsRefused(g: Guard)
    requires !g.refuseExcludes
    ensures exists s :: Reachable(g, s) && Quiet(s) && s.accepted == 1 && !IsQueued(s)
  {
    var s := BothHandling(g);
    s := Releases(g, s, 1);
    assert s == At(Queued, [InboundDone(Held, true), ReleaseDone(true), Refusing], 0, 1);
    s := Go(g, s, 2, HoldIt, Accepts);
    assert s == At(Refused, [InboundDone(Held, true), ReleaseDone(true), RefuseDone(true)], 0, 1);
  }

  /** Whenever no call is under way, the row is queued exactly if the host accepted the message, once, in
      every run exactly when releases exclude each other, wait for the inbound call, and exclude refusals. */
  lemma QueuedIsAcceptedIff(g: Guard)
    ensures QueuedIsAccepted(g) <==> g.releasesExclude && g.releaseWaits && g.refuseExcludes
  {
    if g.releasesExclude && g.releaseWaits && g.refuseExcludes {
      forall s | Reachable(g, s) && Quiet(s) ensures s.accepted == if IsQueued(s) then 1 else 0 {
        var acts :| Runs(g, INITIAL, acts, s);
        CountRuns(g, INITIAL, acts, s);
      }
    } else if !g.refuseExcludes {
      AcceptedIsRefused(g);
    } else if !g.releasesExclude {
      OverlappingReleases(g);
    } else {
      ReleaseOvertakesInbound(g);
    }
  }
}
