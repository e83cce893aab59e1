/** Any number of concurrent inbound calls with different message ids for one recipient: the claim,
    the pending count, its registration with the policy engine, and the evaluation are single steps
    that interleave freely.  Sessions with a policy of their own get an engine of their own for each
    call; all others share one engine, and with it one pending field. */
module ConcurrentCapacity {

  /** A call after its claim, after counting, after registering the count, and its two ends: still
      pending, queued or held, or out for good.  `n` is the count it took. */
  datatype Call = Claimed | Counted(n: nat) | Registered(n: nat) | Kept(n: nat) | Gone

  /** The calls in the order of their claims, and the pending field of the shared engine. */
  datatype State = State(calls: seq<Call>, field: nat)

  const INITIAL := State([], 0)

  /** Is the engine shared, and does nobody else register between a registration and its evaluation? */
  datatype Guard = Guard(shared: bool, exclusive: bool)

  /** `admit` is false when the policy refuses, or an earlier check drops, the message. */
  datatype Action = Claim | Count(i: nat) | Register(i: nat) | Evaluate(i: nat, admit: bool) | Refuse(i: nat)

  /** Rows that are queued or held. */
  function Pending(calls: seq<Call>): nat {
    if calls == [] then 0 else Pending(calls[..|calls| - 1]) + if calls[|calls| - 1].Gone? then 0 else 1
  }

  function KeptCount(calls: seq<Call>): nat {
    if calls == [] then 0 else KeptCount(calls[..|calls| - 1]) + if calls[|calls| - 1].Kept? then 1 else 0
  }

  predicate Enabled(g: Guard, s: State, a: Action) {
    match a
    case Claim => true
    case Count(i) => i < |s.calls| && s.calls[i].Claimed?
    case Register(i) => i < |s.calls| && s.calls[i].Counted? && (g.exclusive ==> forall c <- s.calls :: !c.Registered?)
    case Evaluate(i, _) => i < |s.calls| && s.calls[i].Registered?
    case Refuse(i) => i < |s.calls| && s.calls[i].Kept?
  }

  function Apply(g: Guard, capacity: int, s: State, a: Action): State
    requires Enabled(g, s, a)
  {
    match a
    case Claim => s.(calls := s.calls + [Claimed])
    case Count(i) => s.(calls := s.calls[i := Counted(Pending(s.calls))])
    case Register(i) => s.(calls := s.calls[i := Registered(s.calls[i].n)], field := s.calls[i].n)
    case Evaluate(i, admit) =>
      var seen := if g.shared then s.field else s.calls[i].n;
      s.(calls := s.calls[i := if admit && seen < capacity then Kept(s.calls[i].n) else Gone])
    case Refuse(i) => s.(calls := s.calls[i := Gone])
  }

  predicate Runs(g: Guard, capacity: int, s: State, acts: seq<Action>, t: State)
    decreases |acts|
  {
    if acts == [] then s == t
    else Enabled(g, s, acts[0]) && Runs(g, capacity, Apply(g, capacity, s, acts[0]), acts[1..], t)
  }

  ghost predicate Reachable(g: Guard, capacity: int, s: State) {
    exists acts: seq<Action> :: Runs(g, capacity, INITIAL, acts, s)
  }

  lemma {:induction false} RunsOneMore(g: Guard, capacity: int, s: State, acts: seq<Action>, t: State, a: Action)
    requires Runs(g, capacity, s, acts, t) && Enabled(g, t, a)
    ensures Runs(g, capacity, s, acts + [a], Apply(g, capacity, t, a))
    decreases |acts|
  {
    if acts == [] {
      assert acts + [a] == [a];
      assert Runs(g, capacity, Apply(g, capacity, s, a), [], Apply(g, capacity, t, a));
    } else {
      RunsOneMore(g, capacity, Apply(g, capacity, s, acts[0]), acts[1..], t, a);
      assert (acts + [a])[1..] == acts[1..] + [a];
    }
  }

  lemma ReachOneMore(g: Guard, capacity: int, s: State, a: Action)
    requires Reachable(g, capacity, s) && Enabled(g, s, a)
    ensures Reachable(g, capacity, Apply(g, capacity, s, a))
  {
    var acts :| Runs(g, capacity, INITIAL, acts, s);
    RunsOneMore(g, capacity, INITIAL, acts, s, a);
  }

  // ---------------------------------------------------------------------------
  // Why a count that is read as it was taken is enough
  // ---------------------------------------------------------------------------

  predicate HasCount(c: Call) { c.Counted? || c.Registered? || c.Kept? }

  /** A count covers every row up to its own that is still pending. */
  predicate Covers(calls: seq<Call>, i: nat)
    requires i < |calls|
  {
    HasCount(calls[i]) ==> Pending(calls[..i + 1]) <= calls[i].n
  }

  ghost predicate AllCovered(calls: seq<Call>) {
    forall i :: 0 <= i < |calls| ==> Covers(calls, i)
  }

  predicate BelowCapacity(capacity: int, c: Call) { c.Kept? ==> c.n < capacity }

  /** Only one call is between registering and evaluating, and the shared field is its own count. */
  predicate FieldIsOwn(s: State, i: nat)
    requires i < |s.calls|
  {
    s.calls[i].Registered? ==> s.field == s.calls[i].n && forall j :: 0 <= j < |s.calls| && s.calls[j].Registered? ==> j == i
  }

  ghost predicate Inv(g: Guard, capacity: int, s: State) {
    && AllCovered(s.calls)
    && (forall i :: 0 <= i < |s.calls| ==> BelowCapacity(capacity, s.calls[i]))
    && (g.exclusive ==> forall i :: 0 <= i < |s.calls| ==> FieldIsOwn(s, i))
  }

  lemma {:induction false} PendingAfterUpdate(calls: seq<Call>, i: nat, c: Call)
    requires i < |calls|
    ensures Pending(calls[i := c]) == Pending(calls) + (if c.Gone? then 0 else 1) - (if calls[i].Gone? then 0 else 1)
  {
    var n, after := |calls| - 1, calls[i := c];
    if i == n {
      assert after[..n] == calls[..n];
    } else {
      assert after[..n] == calls[..n][i := c];
      PendingAfterUpdate(calls[..n], i, c);
    }
  }

  lemma {:induction false} KeptAfterUpdate(calls: seq<Call>, i: nat, c: Call)
    requires i < |calls|
    ensures KeptCount(calls[i := c]) == KeptCount(calls) + (if c.Kept? then 1 else 0) - (if calls[i].Kept? then 1 else 0)
  {
    var n, after := |calls| - 1, calls[i := c];
    if i == n {
      assert after[..n] == calls[..n];
    } else {
      assert after[..n] == calls[..n][i := c];
      KeptAfterUpdate(calls[..n], i, c);
    }
  }

  lemma {:induction false} PendingOfPrefix(calls: seq<Call>, k: nat)
    requires k <= |calls|
    ensures Pending(calls[..k]) <= Pending(calls)
  {
    if k < |calls| {
      var n := |calls| - 1;
      PendingOfPrefix(calls[..n], k);
      assert calls[..n][..k] == calls[..k];
    } else {
      assert calls[..k] == calls;
    }
  }

  lemma PrefixAfterUpdate(calls: seq<Call>, i: nat, c: Call, k: nat)
    requires i < |calls| && k <= |calls| && (calls[i].Gone? ==> c.Gone?)
    ensures Pending(calls[i := c][..k]) <= Pending(calls[..k])
  {
    if i < k {
      assert calls[i := c][..k] == calls[..k][i := c];
      PendingAfterUpdate(calls[..k], i, c);
    } else {
      assert calls[i := c][..k] == calls[..k];
    }
  }

  /** One call moves on, to a state with the count it had or one just taken, or out for good. */
  lemma CoversAfterUpdate(calls: seq<Call>, i: nat, c: Call)
    requires i < |calls| && !calls[i].Gone? && AllCovered(calls)
    requires HasCount(c) ==> c.n == Pending(calls) || (HasCount(calls[i]) && c.n == calls[i].n)
    ensures AllCovered(calls[i := c])
  {
    var after := calls[i := c];
    forall k | 0 <= k < |calls| ensures Covers(after, k) {
      assert Covers(calls, k);
      PrefixAfterUpdate(calls, i, c, k + 1);
      PendingOfPrefix(calls, k + 1);
    }
  }

  lemma InvAfterClaim(g: Guard, capacity: int, s: State)
    requires Inv(g, capacity, s)
    ensures Inv(g, capacity, s.(calls := s.calls + [Claimed]))
  {
    var t := s.(calls := s.calls + [Claimed]);
    forall i | 0 <= i < |t.calls| ensures Covers(t.calls, i) && BelowCapacity(capacity, t.calls[i]) && (g.exclusive ==> FieldIsOwn(t, i)) {
      if i < |s.calls| {
        assert Covers(s.calls, i) && t.calls[..i + 1] == s.calls[..i + 1];
        assert g.exclusive ==> FieldIsOwn(s, i);
      }
    }
  }

  lemma InvStep(g: Guard, capacity: int, s: State, a: Action)
    requires Inv(g, capacity, s) && Enabled(g, s, a) && (!g.shared || g.exclusive)
    ensures Inv(g, capacity, Apply(g, capacity, s, a))
  {
    var t := Apply(g, capacity, s, a);
    if a.Claim? {
      InvAfterClaim(g, capacity, s);
    } else {
      var i := a.i;
      CoversAfterUpdate(s.calls, i, t.calls[i]);
      assert g.exclusive ==> FieldIsOwn(s, i);
      assert BelowCapacity(capacity, t.calls[i]);
      forall k | 0 <= k < |t.calls| ensures BelowCapacity(capacity, t.calls[k]) && (g.exclusive ==> FieldIsOwn(t, k)) {
        assert BelowCapacity(capacity, s.calls[k]);
        assert g.exclusive ==> FieldIsOwn(s, k);
      }
    }
  }

  lemma {:induction false} InvRuns(g: Guard, capacity: int, s: State, acts: seq<Action>, t: State)
    requires Inv(g, capacity, s) && Runs(g, capacity, s, acts, t) && (!g.shared || g.exclusive)
    ensures Inv(g, capacity, t)
    decreases |acts|
  {
    if acts != [] {
      InvStep(g, capacity, s, acts[0]);
      InvRuns(g, capacity, Apply(g, capacity, s, acts[0]), acts[1..], t);
    }
  }

  /** The kept rows up to the last one are covered by its count. */
  lemma {:induction false} KeptBelowCapacity(capacity: int, calls: seq<Call>)
    requires AllCovered(calls)
    requires forall i :: 0 <= i < |calls| ==> BelowCapacity(capacity, calls[i])
    ensures KeptCount(calls) == 0 || KeptCount(calls) < capacity
  {
    if calls != [] {
      var n := |calls| - 1;
      if calls[n].Kept? {
        assert Covers(calls, n) && calls[..n + 1] == calls && BelowCapacity(capacity, calls[n]);
        KeptIsPending(calls);
      } else {
        var rest := calls[..n];
        forall i | 0 <= i < n ensures Covers(rest, i) && BelowCapacity(capacity, rest[i]) {
          assert Covers(calls, i) && rest[..i + 1] == calls[..i + 1] && BelowCapacity(capacity, calls[i]);
        }
        KeptBelowCapacity(capacity, rest);
      }
    }
  }

  lemma {:induction false} KeptIsPending(calls: seq<Call>)
    ensures KeptCount(calls) <= Pending(calls)
  {
    if calls != [] {
      KeptIsPending(calls[..|calls| - 1]);
    }
  }

  // ---------------------------------------------------------------------------
  // Why a shared field is not
  // ---------------------------------------------------------------------------

  lemma Go(g: Guard, capacity: int, s: State, a: Action) returns (t: State)
    requires Reachable(g, capacity, s) && Enabled(g, s, a)
    ensures t == Apply(g, capacity, s, a) && Reachable(g, capacity, t)
  {
    t := Apply(g, capacity, s, a);
    ReachOneMore(g, capacity, s, a);
  }

  /** A call that has counted only itself, and `k` kept ones after it. */
  function OneWaiting(k: nat): seq<Call> {
    if k == 0 then [Counted(1)] else OneWaiting(k - 1) + [Kept(k + 1)]
  }

  lemma {:induction false} OneWaitingCounts(k: nat)
    ensures |OneWaiting(k)| == k + 1 && OneWaiting(k)[0] == Counted(1)
    ensures Pending(OneWaiting(k)) == k + 1 && KeptCount(OneWaiting(k)) == k
    ensures forall c <- OneWaiting(k) :: !c.Registered?
  {
    if k == 0 {
      assert OneWaiting(0)[..0] == [];
    } else {
      OneWaitingCounts(k - 1);
      assert OneWaiting(k)[..k] == OneWaiting(k - 1);
    }
  }

  lemma PendingOneMore(calls: seq<Call>, c: Call)
    ensures Pending(calls + [c]) == Pending(calls) + if c.Gone? then 0 else 1
    ensures KeptCount(calls + [c]) == KeptCount(calls) + if c.Kept? then 1 else 0
  {
    assert (calls + [c])[..|calls|] == calls;
  }

  /** The next call claims and counts. */
  lemma ClaimAndCount(g: Guard, capacity: int, s: State) returns (t: State)
    requires Reachable(g, capacity, s)
    ensures Reachable(g, capacity, t) && t == s.(calls := s.calls + [Counted(Pending(s.calls) + 1)])
  {
    var n := |s.calls|;
    t := Go(g, capacity, s, Claim);
    PendingOneMore(s.calls, Claimed);
    t := Go(g, capacity, t, Count(n));
    assert (s.calls + [Claimed])[n := Counted(Pending(s.calls) + 1)] == s.calls + [Counted(Pending(s.calls) + 1)];
  }

  /** The next call runs to its end without interruption, and is kept. */
  lemma KeepNext(g: Guard, capacity: int, s: State) returns (t: State)
    requires Reachable(g, capacity, s) && Pending(s.calls) + 1 < capacity && forall c <- s.calls :: !c.Registered?
    ensures Reachable(g, capacity, t) && t.calls == s.calls + [Kept(Pending(s.calls) + 1)]
  {
    var n, count := |s.calls|, Pending(s.calls) + 1;
    t := ClaimAndCount(g, capacity, s);
    t := Go(g, capacity, t, Register(n));
    assert t == State(s.calls + [Registered(count)], count);
    t := Go(g, capacity, t, Evaluate(n, true));
    assert t.calls == s.calls + [Kept(count)];
  }

  lemma {:induction false} FillUp(g: Guard, capacity: int, k: nat) returns (t: State)
    requires k + 1 < capacity
    ensures Reachable(g, capacity, t) && t.calls == OneWaiting(k)
  {
    if k == 0 {
      assert Runs(g, capacity, INITIAL, [], INITIAL);
      t := ClaimAndCount(g, capacity, INITIAL);
    } else {
      t := FillUp(g, capacity, k - 1);
      OneWaitingCounts(k - 1);
      t := KeepNext(g, capacity, t);
    }
  }

  /** The first call's count, one, is registered just after the last call registered the true count:
      both pass, and the recipient has as many pending messages as the whole capacity. */
  lemma StaleCountOverfills(g: Guard, capacity: int) returns (t: State)
    requires g.shared && !g.exclusive && capacity >= 2
    ensures Reachable(g, capacity, t) && KeptCount(t.calls) == capacity
  {
    var k := capacity - 2;
    t := FillUp(g, capacity, k);
    OneWaitingCounts(k);
    var last := k + 1;
    PendingOneMore(t.calls, Counted(capacity));
    t := ClaimAndCount(g, capacity, t);
    var calls := t.calls;
    assert KeptCount(calls) == k && !calls[0].Kept? && !calls[last].Kept?;
    t := Go(g, capacity, t, Register(last));
    t := Go(g, capacity, t, Register(0));
    t := Go(g, capacity, t, Evaluate(last, true));
    t := Go(g, capacity, t, Evaluate(0, true));
    var n := calls[last].n;
    assert t.calls == calls[last := Kept(n)][0 := Kept(1)];
    KeptAfterUpdate(calls, last, Kept(n));
    KeptAfterUpdate(calls[last := Kept(n)], 0, Kept(1));
  }

  // ---------------------------------------------------------------------------
  // A capacity of one or less admits nobody, whatever the field says
  // ---------------------------------------------------------------------------

  predicate CountsItself(c: Call) { HasCount(c) ==> c.n >= 1 && !c.Kept? }

  ghost predicate Barred(s: State) {
    && (forall i :: 0 <= i < |s.calls| ==> CountsItself(s.calls[i]))
    && ((exists i :: 0 <= i < |s.calls| && s.calls[i].Registered?) ==> s.field >= 1)
  }

  lemma {:induction false} PendingSome(calls: seq<Call>, i: nat)
    requires i < |calls| && !calls[i].Gone?
    ensures Pending(calls) >= 1
  {
    if i < |calls| - 1 {
      PendingSome(calls[..|calls| - 1], i);
    }
  }

  lemma BarredStep(g: Guard, capacity: int, s: State, a: Action)
    requires Barred(s) && Enabled(g, s, a) && capacity <= 1
    ensures Barred(Apply(g, capacity, s, a))
  {
    var t := Apply(g, capacity, s, a);
    if a.Count? {
      PendingSome(s.calls, a.i);
    }
    assert !a.Claim? ==> CountsItself(s.calls[a.i]);
    forall i | 0 <= i < |t.calls| ensures CountsItself(t.calls[i]) && (t.calls[i].Registered? ==> t.field >= 1) {
      assert i < |s.calls| ==> CountsItself(s.calls[i]);
    }
  }

  lemma {:induction false} BarredRuns(g: Guard, capacity: int, s: State, acts: seq<Action>, t: State)
    requires Barred(s) && Runs(g, capacity, s, acts, t) && capacity <= 1
    ensures Barred(t)
    decreases |acts|
  {
    if acts != [] {
      BarredStep(g, capacity, s, acts[0]);
      BarredRuns(g, capacity, Apply(g, capacity, s, acts[0]), acts[1..], t);
    }
  }

  lemma {:induction false} NoneKept(calls: seq<Call>)
    requires forall i :: 0 <= i < |calls| ==> CountsItself(calls[i])
    ensures KeptCount(calls) == 0
  {
    if calls != [] {
      var n := |calls| - 1;
      assert CountsItself(calls[n]);
      assert forall i :: 0 <= i < n ==> calls[..n][i] == calls[i];
      NoneKept(calls[..n]);
    }
  }

  // ---------------------------------------------------------------------------
  // The exact condition
  // ---------------------------------------------------------------------------

  ghost predicate NeverFull(g: Guard, capacity: int) {
    forall s :: Reachable(g, capacity, s) ==> KeptCount(s.calls) == 0 || KeptCount(s.calls) < capacity
  }

  /** Whatever the interleaving, fewer messages than the capacity are kept pending, exactly when the
      engine is not shared, or nobody registers between a registration and its evaluation, or the
      capacity is too small to admit anyone. */
  lemma NeverFullIff(g: Guard, capacity: int)
    ensures NeverFull(g, capacity) <==> !g.shared || g.exclusive || capacity <= 1
  {
    if capacity <= 1 {
      forall s | Reachable(g, capacity, s) ensures KeptCount(s.calls) == 0 {
        var acts :| Runs(g, capacity, INITIAL, acts, s);
        BarredRuns(g, capacity, INITIAL, acts, s);
        NoneKept(s.calls);
      }
    } else if !g.shared || g.exclusive {
      forall s | Reachable(g, capacity, s) ensures KeptCount(s.calls) == 0 || KeptCount(s.calls) < capacity {
        var acts :| Runs(g, capacity, INITIAL, acts, s);
        InvRuns(g, capacity, INITIAL, acts, s);
        KeptBelowCapacity(capacity, s.calls);
      }
    } else {
      var s := StaleCountOverfills(g, capacity);
    }
  }
}
