/** The sliding-window rate limiter: one deque of acceptance times per (sender, recipient) pair.
    Times are reals; floating-point rounding is not the point here. */
module RateLimiting {

  type Pair = (string, string)

  /** `burst`, `sustained` and `window` as the constructor takes them, unchecked. */
  datatype Limits = Limits(burst: int, sustained: int, window: real)

  function EventsOf(m: map<Pair, seq<real>>, p: Pair): seq<real> {
    if p in m then m[p] else []
  }

  // ---------------------------------------------------------------------------
  // The decision as a function of the whole accepted history
  // ---------------------------------------------------------------------------

  ghost predicate Ascending(h: seq<real>) {
    forall i, j :: 0 <= i <= j < |h| ==> h[i] <= h[j]
  }

  /** The acceptances after `cut`, oldest first. */
  function Recent(h: seq<real>, cut: real): seq<real> {
    if h != [] && h[0] <= cut then Recent(h[1..], cut) else h
  }

  lemma {:induction false} RecentIsTheWindow(h: seq<real>, cut: real)
    requires Ascending(h)
    ensures |Recent(h, cut)| <= |h| && Recent(h, cut) == h[|h| - |Recent(h, cut)|..]
    ensures forall i :: 0 <= i < |h| ==> (h[i] > cut <==> i >= |h| - |Recent(h, cut)|)
  {
    if h != [] && h[0] <= cut {
      RecentIsTheWindow(h[1..], cut);
      forall i | 0 <= i < |h| ensures h[i] > cut <==> i >= |h| - |Recent(h, cut)| {
        if i > 0 {
          assert h[i] == h[1..][i - 1];
        }
      }
    }
  }

  predicate Admits(l: Limits, h: seq<real>, now: real) {
    var r := Recent(h, now - l.window);
    && |r| < l.sustained
    && !(|r| >= l.burst && r != [] && now - r[0] < 1.0)
  }

  /** How many acceptances are less than `span` ago. */
  function CountWithin(h: seq<real>, now: real, span: real): nat {
    if h == [] then 0 else (if now - h[0] < span then 1 else 0) + CountWithin(h[1..], now, span)
  }

  lemma {:induction false} CountsTheWindow(h: seq<real>, now: real, span: real)
    requires Ascending(h)
    ensures CountWithin(h, now, span) == |Recent(h, now - span)|
  {
    if h != [] {
      assert forall i :: 0 <= i < |h[1..]| ==> h[1..][i] == h[i + 1];
      CountsTheWindow(h[1..], now, span);
      if h[0] > now - span && |h| > 1 {
        assert h[1] >= h[0] && h[1..][0] == h[1];
      }
    }
  }

  /** In the words of the limits: fewer than `sustained` acceptances in the window, and not as many as
      `burst` of them that all lie within the last second. */
  lemma AdmitsIff(l: Limits, h: seq<real>, now: real)
    requires Ascending(h)
    ensures var n := CountWithin(h, now, l.window);
            Admits(l, h, now) <==>
            n < l.sustained && (n < l.burst || n == 0 || exists t <- h :: 1.0 <= now - t < l.window)
  {
    var r := Recent(h, now - l.window);
    RecentIsTheWindow(h, now - l.window);
    CountsTheWindow(h, now, l.window);
    var first := |h| - |r|;
    if r != [] {
      assert r[0] == h[first] && h[first] in h;
      assert forall t <- h :: now - t < l.window ==> t >= r[0];
    }
  }

  /** The deque that a call at `now` leaves, and the history it makes. */
  function DequeAfter(l: Limits, h: seq<real>, now: real): seq<real> {
    if Admits(l, h, now) then Recent(h, now - l.window) + [now] else Recent(h, now - l.window)
  }

  function HistoryAfter(l: Limits, h: seq<real>, now: real): seq<real> {
    if Admits(l, h, now) then h + [now] else h
  }

  /** Acceptance `i` of `h` was admitted on the acceptances before it. */
  ghost predicate AdmittedAt(l: Limits, h: seq<real>, i: nat)
    requires i < |h|
  {
    Admits(l, h[..i], h[i])
  }

  /** The acceptance histories that the limiter can produce for one pair. */
  ghost predicate Legal(l: Limits, h: seq<real>) {
    && Ascending(h)
    && forall i :: 0 <= i < |h| ==> AdmittedAt(l, h, i)
  }

  // ---------------------------------------------------------------------------
  // The limiter
  // ---------------------------------------------------------------------------

  /** `deque` is the history `h` without a prefix that had left the window by `latest`. */
  ghost predicate Faithful(l: Limits, h: seq<real>, deque: seq<real>, latest: real) {
    && Legal(l, h)
    && |deque| <= |h| && deque == h[|h| - |deque|..]
    && (forall i :: 0 <= i < |h| ==> h[i] <= latest)
    && (forall i :: 0 <= i < |h| - |deque| ==> h[i] <= latest - l.window)
  }

  lemma {:induction false} RecentOfSuffix(h: seq<real>, k: nat, cut: real)
    requires k <= |h| && forall i :: 0 <= i < k ==> h[i] <= cut
    ensures Recent(h[k..], cut) == Recent(h, cut)
  {
    if k > 0 {
      forall i | 0 <= i < k - 1 ensures h[1..][i] <= cut {
        assert h[1..][i] == h[i + 1];
      }
      RecentOfSuffix(h[1..], k - 1, cut);
      assert h[k..] == h[1..][k - 1..];
    } else {
      assert h[0..] == h;
    }
  }

  lemma FaithfulAfterCall(l: Limits, h: seq<real>, deque: seq<real>, latest: real, now: real)
    requires Faithful(l, h, deque, latest) && latest <= now
    ensures Recent(deque, now - l.window) == Recent(h, now - l.window)
    ensures Faithful(l, h, Recent(h, now - l.window), now)
    ensures Admits(l, h, now) ==> Faithful(l, h + [now], Recent(h, now - l.window) + [now], now)
  {
    var cut := now - l.window;
    RecentOfSuffix(h, |h| - |deque|, cut);
    RecentIsTheWindow(h, cut);
    if Admits(l, h, now) {
      LegalAppend(l, h, now);
    }
  }

  ghost predicate FaithfulAt(l: Limits, history: map<Pair, seq<real>>, events: map<Pair, seq<real>>,
          latest: map<Pair, real>, p: Pair)
    requires p in history && p in events && p in latest
  {
    Faithful(l, history[p], events[p], latest[p])
  }

  /** Triggered by name only, so that callers carry it along without unfolding it. */
  ghost predicate AllFaithful(l: Limits, history: map<Pair, seq<real>>, events: map<Pair, seq<real>>,
          latest: map<Pair, real>) {
    && events.Keys == history.Keys == latest.Keys
    && forall p {:trigger FaithfulAt(l, history, events, latest, p)} :: p in latest ==> FaithfulAt(l, history, events, latest, p)
  }

  /** The whole effect of one call on the three maps. */
  lemma CallKeepsFaithful(l: Limits, history: map<Pair, seq<real>>, events: map<Pair, seq<real>>, latest: map<Pair, real>,
                          p: Pair, now: real)
    requires AllFaithful(l, history, events, latest)
    requires p in latest ==> latest[p] <= now
    ensures var h, cut := EventsOf(history, p), now - l.window;
            && Recent(EventsOf(events, p), cut) == Recent(h, cut)
            && AllFaithful(l, history[p := HistoryAfter(l, h, now)], events[p := DequeAfter(l, h, now)], latest[p := now])
  {
    var h := EventsOf(history, p);
    assert p in latest ==> FaithfulAt(l, history, events, latest, p);
    FaithfulAfterCall(l, h, EventsOf(events, p), if p in latest then latest[p] else now, now);
    var history', events', latest' := history[p := HistoryAfter(l, h, now)], events[p := DequeAfter(l, h, now)], latest[p := now];
    forall q | q in latest' ensures FaithfulAt(l, history', events', latest', q) {
      if q != p {
        assert FaithfulAt(l, history, events, latest, q);
      }
    }
  }

  class RateLimiter {
    const limits: Limits
    var events: map<Pair, seq<real>>
    /** Every acceptance ever, and the time of the latest call, per pair. */
    ghost var history: map<Pair, seq<real>>
    ghost var latest: map<Pair, real>

    ghost predicate Valid()
      reads this
    {
      AllFaithful(limits, history, events, latest)
    }

    constructor (limits: Limits)
      ensures Valid() && this.limits == limits && history == map[] && latest == map[]
    {
      this.limits := limits;
      events := map[];
      history := map[];
      latest := map[];
    }

    /** The loop that pops expired times off the left end. */
    method PopExpired(queue: seq<real>, cut: real) returns (deque: seq<real>)
      ensures deque == Recent(queue, cut)
    {
      deque := queue;
      while deque != [] && deque[0] <= cut
        invariant Recent(deque, cut) == Recent(queue, cut)
        decreases |deque|
      {
        deque := deque[1..];
      }
    }

    /** `now` comes from a monotonic clock. */
    method Allow(sender: string, recipient: string, now: real) returns (ok: bool)
      requires Valid()
      requires (sender, recipient) in latest ==> latest[(sender, recipient)] <= now
      modifies this
      ensures Valid()
      ensures var p, h := (sender, recipient), old(EventsOf(history, (sender, recipient)));
              && ok == Admits(limits, h, now)
              && history == old(history)[p := HistoryAfter(limits, h, now)]
              && latest == old(latest)[p := now]
              && events == old(events)[p := DequeAfter(limits, h, now)]
    {
      var p := (sender, recipient);
      ghost var h := EventsOf(history, p);
      ghost var cut := now - limits.window;
      var deque := PopExpired(EventsOf(events, p), now - limits.window);
      assert deque == Recent(h, cut) by {
        CallKeepsFaithful(limits, history, events, latest, p, now);
      }
      if |deque| >= limits.sustained {
        ok := false;
      } else if |deque| >= limits.burst && deque != [] && now - deque[0] < 1.0 {
        ok := false;
      } else {
        ok := true;
      }
      assert ok == Admits(limits, h, now);
      if ok {
        deque := deque + [now];
      }
      assert deque == DequeAfter(limits, h, now);
      assert AllFaithful(limits, history[p := HistoryAfter(limits, h, now)], events[p := deque], latest[p := now]) by {
        CallKeepsFaithful(limits, history, events, latest, p, now);
      }
      events := events[p := deque];
      history := history[p := HistoryAfter(limits, h, now)];
      latest := latest[p := now];
    }
  }

  lemma LegalAppend(l: Limits, h: seq<real>, now: real)
    requires Legal(l, h) && Admits(l, h, now)
    requires forall i :: 0 <= i < |h| ==> h[i] <= now
    ensures Legal(l, h + [now])
  {
    var g := h + [now];
    assert g[..|h|] == h;
    forall i | 0 <= i < |g| ensures AdmittedAt(l, g, i) {
      if i < |h| {
        assert AdmittedAt(l, h, i) && g[..i] == h[..i];
      }
    }
  }

  /** After a call the deque holds exactly the acceptances inside `(now - window, now]`. */
  lemma {:induction false} DequeIsTheWindow(h: seq<real>, now: real, window: real)
    requires window > 0.0
    ensures Recent(h, now - window) + [now] == Recent(h + [now], now - window)
  {
    if h == [] {
      assert h + [now] == [now];
    } else if h[0] <= now - window {
      DequeIsTheWindow(h[1..], now, window);
      assert (h + [now])[1..] == h[1..] + [now];
    }
  }

  // ---------------------------------------------------------------------------
  // What every run guarantees
  // ---------------------------------------------------------------------------

  /** Acceptances `i..j-1` are all in the window in which `j` is decided. */
  lemma WindowHolds(l: Limits, h: seq<real>, i: nat, j: nat)
    requires Legal(l, h) && i <= j < |h| && h[j] - h[i] < l.window
    ensures var r := Recent(h[..j], h[j] - l.window);
            && |r| >= j - i
            && (|r| == j - i > 0 ==> r[0] == h[i])
            && (|r| > j - i ==> |r| <= j)
  {
    RecentIsTheWindow(h[..j], h[j] - l.window);
    if i < j {
      assert h[..j][i] == h[i];
    }
  }

  /** No half-open window of the configured length holds more than `sustained` acceptances. */
  lemma SustainedBound(l: Limits, h: seq<real>, i: nat, j: nat)
    requires Legal(l, h) && i <= j < |h| && h[j] - h[i] < l.window
    ensures j - i + 1 <= l.sustained
  {
    WindowHolds(l, h, i, j);
    assert AdmittedAt(l, h, j);
  }

  /** A burst limit below one still lets one message through. */
  function EffectiveBurst(l: Limits): int { if l.burst < 1 then 1 else l.burst }

  /** In the first second after an empty window at most `burst` messages are accepted. */
  lemma BurstAfterQuiet(l: Limits, h: seq<real>, i: nat, j: nat)
    requires Legal(l, h) && i <= j < |h| && l.window >= 1.0
    requires i > 0 ==> h[i - 1] <= h[i] - l.window
    requires h[j] - h[i] < 1.0
    ensures j - i + 1 <= EffectiveBurst(l)
  {
    WindowHolds(l, h, i, j);
    RecentIsTheWindow(h[..j], h[j] - l.window);
    assert AdmittedAt(l, h, j);
    assert i > 0 ==> h[..j][..i] == h[..i] && h[..i][i - 1] == h[i - 1];
  }

  /** The documented burst limit: never more than `burst` acceptances within one second. */
  ghost predicate BurstEverywhere(l: Limits) {
    forall h: seq<real>, i: nat, j: nat :: Legal(l, h) && i <= j < |h| && h[j] - h[i] < 1.0 ==> j - i + 1 <= EffectiveBurst(l)
  }

  /** One early message, then `n` at the same instant one second later. */
  function LateBurst(n: nat): seq<real> {
    seq(n + 1, i => if i == 0 then 0.0 else 1.0)
  }

  lemma LateBurstIsLegal(l: Limits, n: nat)
    requires l.window > 1.0 && n < l.sustained
    ensures Legal(l, LateBurst(n))
  {
    var h := LateBurst(n);
    forall k | 0 <= k < |h| ensures AdmittedAt(l, h, k) {
      assert Recent(h[..k], h[k] - l.window) == h[..k];
    }
  }

  // Windows of at most one second

  function Min(a: int, b: int): int { if a < b then a else b }

  /** `n` windows, one after the other. */
  function Times(n: nat, window: real): real {
    if n == 0 then 0.0 else Times(n - 1, window) + window
  }

  lemma {:induction false} TimesIsProduct(n: nat, window: real)
    ensures Times(n, window) == n as real * window
  {
    if n > 0 {
      TimesIsProduct(n - 1, window);
      assert n as real == (n - 1) as real + 1.0;
      assert ((n - 1) as real + 1.0) * window == (n - 1) as real * window + window;
    }
  }

  lemma Scaled(a: real, b: real, w: real)
    requires w > 0.0
    ensures a < b ==> a * w < b * w
    ensures a <= b ==> a * w <= b * w
  {
  }

  /** The windows that begin within one second, counted. */
  ghost predicate FillsASecond(k: nat, window: real) {
    k >= 1 && Times(k - 1, window) < 1.0 <= Times(k, window)
  }

  lemma CeilingFills(window: real, x: real, k: nat)
    requires window > 0.0 && x * window == 1.0 && k >= 1 && (k - 1) as real < x <= k as real
    ensures FillsASecond(k, window)
  {
    TimesIsProduct(k, window);
    TimesIsProduct(k - 1, window);
    Scaled((k - 1) as real, x, window);
    Scaled(x, k as real, window);
  }

  lemma Reciprocal(window: real)
    requires window > 0.0
    ensures (1.0 / window) * window == 1.0 && 1.0 / window > 0.0
  {
  }

  lemma SomeNumberFills(window: real) returns (k: nat)
    requires window > 0.0
    ensures FillsASecond(k, window)
  {
    Reciprocal(window);
    var x := 1.0 / window;
    var c := -(-x).Floor;
    assert c as real - 1.0 < x <= c as real;
    k := c;
    CeilingFills(window, x, k);
  }

  /** In a window of at most a second the burst gate never opens again: both limits bound it. */
  lemma ShortWindowHolds(l: Limits, h: seq<real>, i: nat)
    requires Legal(l, h) && 0.0 < l.window <= 1.0 && 1 <= l.sustained
    requires i + Min(l.sustained, EffectiveBurst(l)) < |h|
    ensures h[i + Min(l.sustained, EffectiveBurst(l))] - h[i] >= l.window
  {
    var j := i + Min(l.sustained, EffectiveBurst(l));
    assert AdmittedAt(l, h, j);
    RecentIsTheWindow(h[..j], h[j] - l.window);
    if h[j] - h[i] < l.window {
      WindowHolds(l, h, i, j);
    }
  }

  lemma {:induction false} ShortWindowsAddUp(l: Limits, h: seq<real>, i: nat, n: nat)
    requires Legal(l, h) && 0.0 < l.window <= 1.0 && 1 <= l.sustained
    requires i + Copies(n, Min(l.sustained, EffectiveBurst(l))) < |h|
    ensures h[i + Copies(n, Min(l.sustained, EffectiveBurst(l)))] - h[i] >= Times(n, l.window)
  {
    if n > 0 {
      ShortWindowsAddUp(l, h, i, n - 1);
      ShortWindowHolds(l, h, i + Copies(n - 1, Min(l.sustained, EffectiveBurst(l))));
    }
  }

  /** `n` times `m`. */
  function Copies(n: nat, m: nat): nat { if n == 0 then 0 else Copies(n - 1, m) + m }

  lemma {:induction false} CopiesIsProduct(n: nat, m: nat)
    ensures Copies(n, m) == n * m
  {
    if n > 0 {
      CopiesIsProduct(n - 1, m);
      assert n * m == (n - 1) * m + m;
    }
  }

  function Repeated(n: nat, t: real): seq<real> { seq(n, _ => t) }

  /** `m` messages at the start of each of `n` windows. */
  function Stair(m: nat, n: nat, window: real): seq<real> {
    if n == 0 then [] else Stair(m, n - 1, window) + Repeated(m, Times(n - 1, window))
  }

  lemma {:induction false} RecentSkips(h: seq<real>, tail: seq<real>, cut: real)
    requires (forall i :: 0 <= i < |h| ==> h[i] <= cut) && (tail != [] ==> tail[0] > cut)
    ensures Recent(h + tail, cut) == tail
  {
    if h == [] {
      assert h + tail == tail;
    } else {
      assert (h + tail)[1..] == h[1..] + tail;
      RecentSkips(h[1..], tail, cut);
    }
  }

  /** One more message on a step of a stair. */
  lemma OneMoreIsLegal(l: Limits, h: seq<real>, c: nat, t: real)
    requires Legal(l, h + Repeated(c, t)) && 0.0 < l.window <= 1.0 && c < Min(l.sustained, EffectiveBurst(l))
    requires forall i :: 0 <= i < |h| ==> h[i] <= t - l.window
    ensures Legal(l, h + Repeated(c + 1, t))
  {
    RecentSkips(h, Repeated(c, t), t - l.window);
    LegalAppend(l, h + Repeated(c, t), t);
    OneMoreRepeated(h, c, t);
  }

  lemma OneMoreRepeated(h: seq<real>, c: nat, t: real)
    ensures h + Repeated(c + 1, t) == (h + Repeated(c, t)) + [t]
  {
  }

  lemma {:induction false} StepIsLegal(l: Limits, h: seq<real>, c: nat, t: real)
    requires Legal(l, h) && 0.0 < l.window <= 1.0 && c <= Min(l.sustained, EffectiveBurst(l))
    requires forall i :: 0 <= i < |h| ==> h[i] <= t - l.window
    ensures Legal(l, h + Repeated(c, t))
  {
    if c == 0 {
      assert h + Repeated(0, t) == h;
    } else {
      StepIsLegal(l, h, c - 1, t);
      OneMoreIsLegal(l, h, c - 1, t);
    }
  }

  lemma {:induction false} StairIsLegal(l: Limits, n: nat)
    requires 0.0 < l.window <= 1.0 && 1 <= l.sustained
    ensures var m := Min(l.sustained, EffectiveBurst(l));
            var h := Stair(m, n, l.window);
            && Legal(l, h) && |h| == Copies(n, m)
            && (forall i :: 0 <= i < |h| ==> h[i] <= Times(n, l.window) - l.window)
            && (n > 0 ==> |h| > 0 && h[0] == 0.0)
  {
    var m := Min(l.sustained, EffectiveBurst(l));
    if n > 0 {
      StairIsLegal(l, n - 1);
      StepIsLegal(l, Stair(m, n - 1, l.window), m, Times(n - 1, l.window));
    }
  }

  /** With a window of at most a second, more than one burst fits into a second as soon as several
      windows begin in it, unless the sustained limit keeps all of them together below the burst. */
  lemma BurstWithShortWindowIff(l: Limits, k: nat)
    requires 0.0 < l.window <= 1.0 && 1 <= l.sustained && FillsASecond(k, l.window)
    ensures BurstEverywhere(l) <==> k * Min(l.sustained, EffectiveBurst(l)) <= EffectiveBurst(l)
  {
    var m := Min(l.sustained, EffectiveBurst(l));
    CopiesIsProduct(k, m);
    if Copies(k, m) > EffectiveBurst(l) {
      StairIsLegal(l, k);
      var h := Stair(m, k, l.window);
      assert h[|h| - 1] - h[0] < 1.0;
      assert !BurstEverywhere(l);
    } else {
      forall h: seq<real>, i: nat, j: nat | Legal(l, h) && i <= j < |h| && h[j] - h[i] < 1.0
        ensures j - i + 1 <= EffectiveBurst(l)
      {
        SecondHolds(l, h, i, j, k);
      }
    }
  }

  lemma SecondHolds(l: Limits, h: seq<real>, i: nat, j: nat, k: nat)
    requires 0.0 < l.window <= 1.0 && 1 <= l.sustained && FillsASecond(k, l.window)
    requires Legal(l, h) && i <= j < |h| && h[j] - h[i] < 1.0
    ensures j - i < Copies(k, Min(l.sustained, EffectiveBurst(l)))
  {
    var far := i + Copies(k, Min(l.sustained, EffectiveBurst(l)));
    if far < |h| {
      ShortWindowsAddUp(l, h, i, k);
      assert h[far] > h[j];
    }
  }

  /** Without a window nothing is remembered. */
  lemma BurstWithoutWindowIff(l: Limits)
    requires l.window <= 0.0 && 1 <= l.sustained
    ensures !BurstEverywhere(l)
  {
    var h := Repeated(EffectiveBurst(l) + 1, 0.0);
    forall k | 0 <= k < |h| ensures AdmittedAt(l, h, k) {
      RecentSkips(h[..k], [], h[k] - l.window);
      assert h[..k] + [] == h[..k];
    }
    assert h[EffectiveBurst(l)] - h[0] < 1.0;
  }

  /** A sustained limit below one accepts nothing at all. */
  lemma NothingIsLegal(l: Limits, h: seq<real>)
    requires l.sustained <= 0 && Legal(l, h)
    ensures h == []
  {
    assert h != [] ==> AdmittedAt(l, h, 0);
  }

  lemma BurstWithLongWindowIff(l: Limits)
    requires l.window > 1.0
    ensures BurstEverywhere(l) <==> l.sustained <= EffectiveBurst(l) + 1
  {
    var b := EffectiveBurst(l);
    if l.sustained > b + 1 {
      var h := LateBurst(b + 1);
      LateBurstIsLegal(l, b + 1);
      assert h[b + 1] - h[1] < 1.0;
      assert !BurstEverywhere(l);
    } else {
      forall h: seq<real>, i: nat, j: nat | Legal(l, h) && i <= j < |h| && h[j] - h[i] < 1.0
        ensures j - i + 1 <= b
      {
        var k := if j - i < b then j else i + b;
        WindowHolds(l, h, i, k);
        assert AdmittedAt(l, h, k);
      }
    }
  }

  /** What the limits must satisfy for the documented burst limit: with a window of more than a second
      the sustained limit must leave room for at most one message beyond a burst; with a shorter one all
      the windows that begin in a second together must stay below it. */
  ghost predicate BurstLimitsFit(l: Limits) {
    if l.sustained <= 0 then true
    else if l.window > 1.0 then l.sustained <= EffectiveBurst(l) + 1
    else if l.window > 0.0 then
      exists k: nat :: FillsASecond(k, l.window) && k * Min(l.sustained, EffectiveBurst(l)) <= EffectiveBurst(l)
    else false
  }

  /** The documented burst limit holds of every run exactly for these limits; the defaults, 5 and 20 in a
      minute, are not among them. */
  lemma BurstEverywhereIff(l: Limits)
    ensures BurstEverywhere(l) <==> BurstLimitsFit(l)
    ensures !BurstLimitsFit(Limits(5, 20, 60.0))
  {
    if l.sustained <= 0 {
      forall h: seq<real> | Legal(l, h) ensures h == [] {
        NothingIsLegal(l, h);
      }
    } else if l.window > 1.0 {
      BurstWithLongWindowIff(l);
    } else if l.window > 0.0 {
      var k := SomeNumberFills(l.window);
      BurstWithShortWindowIff(l, k);
      forall k: nat | FillsASecond(k, l.window)
        ensures BurstEverywhere(l) <==> k * Min(l.sustained, EffectiveBurst(l)) <= EffectiveBurst(l)
      {
        BurstWithShortWindowIff(l, k);
      }
    } else {
      BurstWithoutWindowIff(l);
    }
  }
}
