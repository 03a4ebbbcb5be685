/** The circuit breaker of the HTTP middleware.

    `Execute` updates three fields; the class proves that they are always a function of the
    history of calls (`Failures`, `StateAfter`, `LastFailureEnd`), and the lemmas after it
    bound the load such a history can put on the guarded function. */
module CircuitBreaking {

  /** How the guarded function ends.  A panic unwinds through `Execute`, which only
      releases the lock. */
  datatype Outcome = Success | Failure | Panic

  datatype BreakerState = Closed | Open | HalfOpen

  /** One call as it happened. */
  datatype Event =
    | Rejected(begin: real)
    | Ran(begin: real, end: real, outcome: Outcome)
  {
    function Finish(): real {
      if Ran? then end else begin
    }

    predicate Fails() {
      Ran? && outcome == Failure
    }
  }

  datatype Verdict = Unavailable | Returned(outcome: Outcome)

  /** The clock's zero value, which `lastFailure` holds before any failure. */
  const ZERO_TIME := 0.0

  /** The length of the trailing run of failed executions; rejections and panics are passed over. */
  function Failures(h: seq<Event>): nat {
    if h == [] then 0
    else
      var before, last := h[..|h| - 1], h[|h| - 1];
      match last
      case Rejected(_) => Failures(before)
      case Ran(_, _, Success) => 0
      case Ran(_, _, Failure) => Failures(before) + 1
      case Ran(_, _, Panic) => Failures(before)
  }

  /** When the last failed execution ended. */
  function LastFailureEnd(h: seq<Event>): real {
    if h == [] then ZERO_TIME
    else if h[|h| - 1].Fails() then h[|h| - 1].end
    else LastFailureEnd(h[..|h| - 1])
  }

  /** Whether some execution panicked after the last one that returned. */
  function PanickedSinceReturn(h: seq<Event>): bool {
    if h == [] then false
    else
      match h[|h| - 1]
      case Rejected(_) => PanickedSinceReturn(h[..|h| - 1])
      case Ran(_, _, outcome) => outcome == Panic
  }

  /** Failures in a row that open the circuit: the test runs only after a failure, so a
      limit below one acts as one. */
  function Threshold(maxFailures: int): nat {
    if maxFailures < 1 then 1 else maxFailures
  }

  function StateAfter(maxFailures: int, h: seq<Event>): BreakerState {
    if Failures(h) < Threshold(maxFailures) then Closed
    else if PanickedSinceReturn(h) then HalfOpen
    else Open
  }

  /** The calls a breaker with this history turns away. */
  predicate Refuses(maxFailures: int, timeout: real, h: seq<Event>, begin: real) {
    StateAfter(maxFailures, h) == Open && begin - LastFailureEnd(h) <= timeout
  }

  function FinishOf(h: seq<Event>): real
    requires h != []
  {
    h[|h| - 1].Finish()
  }

  /** Calls that do not overlap, each run or rejected as the history before it demands. */
  ghost predicate Lawful(maxFailures: int, timeout: real, h: seq<Event>) {
    h != [] ==>
      var before, last := h[..|h| - 1], h[|h| - 1];
      && Lawful(maxFailures, timeout, before)
      && last.begin <= last.Finish()
      && (before != [] ==> FinishOf(before) <= last.begin)
      && (last.Rejected? <==> Refuses(maxFailures, timeout, before, last.begin))
  }

  class CircuitBreaker {
    const maxFailures: int
    const timeout: real
    const enabled: bool
    var failures: int
    var lastFailure: real
    var state: BreakerState

    ghost var history: seq<Event>

    ghost predicate Valid()
      reads this
    {
      && Lawful(maxFailures, timeout, history)
      && failures == Failures(history)
      && lastFailure == LastFailureEnd(history)
      && state == StateAfter(maxFailures, history)
    }

    /** The three fields in terms of this breaker's own history h: the failures since the last
        success, at i; the last failure, if any; and the limit. */
    lemma FieldsAreHistory(h: seq<Event>) returns (i: nat)
      requires Valid() && history == h
      ensures i <= |h| && (i > 0 ==> h[i - 1].Ran? && h[i - 1].outcome == Success)
      ensures forall j :: i <= j < |h| ==> !(h[j].Ran? && h[j].outcome == Success)
      ensures failures == |set j | i <= j < |h| && h[j].Ran? && h[j].outcome == Failure|
      ensures (forall j :: 0 <= j < |h| ==> !(h[j].Ran? && h[j].outcome == Failure)) ==> lastFailure == 0.0
      ensures forall j :: 0 <= j < |h| && h[j].Ran? && h[j].outcome == Failure ==>
        (forall k :: j < k < |h| ==> !(h[k].Ran? && h[k].outcome == Failure)) ==> lastFailure == h[j].end
      ensures state == Closed <==> failures == 0 || failures < maxFailures
      ensures forall j :: 0 <= j < |h| && h[j].Ran? && state != Closed ==>
        (forall k :: j < k < |h| ==> h[k].Rejected?) ==> (state == HalfOpen <==> h[j].outcome == Panic)
    {
      i := FailuresAreTrailing(h);
      FailuresAreCounted(h, i, |h|);
      LastFailureIsLast(h);
      StateInPlainTerms(maxFailures, timeout, h, 0.0);
      forall j | 0 <= j < |h| && h[j].Ran? && state != Closed && forall k :: j < k < |h| ==> h[k].Rejected?
        ensures state == HalfOpen <==> h[j].outcome == Panic
      {
        LastRunDecides(h, j);
      }
    }

    constructor (maxFailures: int, timeout: real, enabled: bool)
      ensures Valid() && history == []
      ensures this.maxFailures == maxFailures && this.timeout == timeout && this.enabled == enabled
    {
      this.maxFailures := maxFailures;
      this.timeout := timeout;
      this.enabled := enabled;
      failures := 0;
      lastFailure := ZERO_TIME;
      state := Closed;
      history := [];
    }

    /** `begin` is the clock once the lock is held; `outcome` and `end` are what the guarded
        function does if it is run at all. */
    method Execute(begin: real, outcome: Outcome, end: real) returns (verdict: Verdict)
      requires Valid()
      requires begin <= end
      requires history != [] ==> FinishOf(history) <= begin
      modifies this`failures, this`lastFailure, this`state, this`history
      ensures Valid()
      ensures !enabled ==> verdict == Returned(outcome) && unchanged(this)
      ensures enabled ==>
        if old(Refuses(maxFailures, timeout, history, begin))
        then verdict == Unavailable && history == old(history) + [Rejected(begin)]
        else verdict == Returned(outcome) && history == old(history) + [Ran(begin, end, outcome)]
      ensures enabled ==> (verdict == Unavailable <==> old(state) == Open && begin - old(lastFailure) <= timeout)
      ensures verdict == Unavailable ==> state == Open && failures == old(failures) && lastFailure == old(lastFailure)
      ensures enabled && verdict == Returned(Failure) ==>
        && failures == old(failures) + 1 && lastFailure == end
        && (state == Open <==> failures >= maxFailures)
        && (state != Open ==> state == if old(state) == Open then HalfOpen else old(state))
      ensures enabled && verdict == Returned(Success) ==>
        state == Closed && failures == 0 && lastFailure == old(lastFailure)
      ensures enabled && verdict == Returned(Panic) ==>
        && failures == old(failures) && lastFailure == old(lastFailure)
        && state == if old(state) == Open then HalfOpen else old(state)
    {
      if !enabled {
        return Returned(outcome);
      }
      ghost var before := history;
      if state == Open {
        if begin - lastFailure > timeout {
          state := HalfOpen;
        } else {
          RejectionIsLawful(maxFailures, timeout, before, begin);
          history := before + [Rejected(begin)];
          return Unavailable;
        }
      }
      AppendLawful(maxFailures, timeout, before, Ran(begin, end, outcome));
      history := before + [Ran(begin, end, outcome)];
      if outcome == Panic {
        return Returned(Panic);
      }
      if outcome == Failure {
        failures := failures + 1;
        lastFailure := end;
        if failures >= maxFailures {
          state := Open;
        }
        return Returned(Failure);
      }
      if state == HalfOpen {
        state := Closed;
      }
      failures := 0;
      return Returned(Success);
    }
  }

  // ---- What a history can look like ----

  /** The trailing count is the number of failures after the last success. */
  lemma {:induction false} FailuresAreTrailing(h: seq<Event>) returns (i: nat)
    ensures i <= |h| && (i > 0 ==> h[i - 1].Ran? && h[i - 1].outcome == Success)
    ensures forall j :: i <= j < |h| ==> !(h[j].Ran? && h[j].outcome == Success)
    ensures Failures(h) == FailuresIn(h, i, |h|)
  {
    if h == [] || (h[|h| - 1].Ran? && h[|h| - 1].outcome == Success) {
      i := |h|;
    } else {
      var g := h[..|h| - 1];
      i := FailuresAreTrailing(g);
      FailuresOfPrefix(g, h, i, |g|);
    }
  }

  lemma {:induction false} FailuresOfPrefix(g: seq<Event>, h: seq<Event>, i: nat, j: nat)
    requires i <= j <= |g| <= |h| && g == h[..|g|]
    ensures FailuresIn(g, i, j) == FailuresIn(h, i, j)
    decreases j - i
  {
    if i < j {
      FailuresOfPrefix(g, h, i, j - 1);
      assert g[j - 1] == h[j - 1];
    }
  }

  function FailedAt(h: seq<Event>, i: nat, j: nat): (r: set<int>)
    requires i <= j <= |h|
    ensures forall k :: k in r <==> i <= k < j && h[k].Ran? && h[k].outcome == Failure
  {
    set k | i <= k < j && h[k].Ran? && h[k].outcome == Failure
  }

  lemma FailuresAreCounted(h: seq<Event>, i: nat, j: nat)
    requires i <= j <= |h|
    ensures FailuresIn(h, i, j) == |set k | i <= k < j && h[k].Ran? && h[k].outcome == Failure|
  {
    FailuresAt(h, i, j);
    assert FailedAt(h, i, j) == set k | i <= k < j && h[k].Ran? && h[k].outcome == Failure;
  }

  lemma {:induction false} FailuresAt(h: seq<Event>, i: nat, j: nat)
    requires i <= j <= |h|
    ensures FailuresIn(h, i, j) == |FailedAt(h, i, j)|
    decreases j - i
  {
    if i < j {
      FailuresAt(h, i, j - 1);
      assert FailedAt(h, i, j) == if h[j - 1].Fails() then FailedAt(h, i, j - 1) + {j - 1} else FailedAt(h, i, j - 1);
    } else {
      assert FailedAt(h, i, j) == {};
    }
  }

  lemma {:induction false} RunsAreCounted(h: seq<Event>, i: nat, j: nat)
    requires i <= j <= |h|
    ensures RunsIn(h, i, j) == |set k | i <= k < j && h[k].Ran?|
    decreases j - i
  {
    if i < j {
      RunsAreCounted(h, i, j - 1);
      var before := set k | i <= k < j - 1 && h[k].Ran?;
      assert (set k | i <= k < j && h[k].Ran?) == if h[j - 1].Ran? then before + {j - 1} else before;
    }
  }

  /** The last failure's end, or the clock's zero value. */
  lemma {:induction false} LastFailureIsLast(h: seq<Event>)
    ensures (forall j :: 0 <= j < |h| ==> !(h[j].Ran? && h[j].outcome == Failure)) ==> LastFailureEnd(h) == 0.0
    ensures forall j :: 0 <= j < |h| && h[j].Ran? && h[j].outcome == Failure ==>
      (forall k :: j < k < |h| ==> !(h[k].Ran? && h[k].outcome == Failure)) ==> LastFailureEnd(h) == h[j].end
  {
    if h != [] {
      LastFailureIsLast(h[..|h| - 1]);
    }
  }

  /** The last execution, if there is one, decides whether a panic came after the last return. */
  lemma {:induction false} LastRunDecides(h: seq<Event>, j: nat)
    requires j < |h| && h[j].Ran? && forall k :: j < k < |h| ==> h[k].Rejected?
    ensures PanickedSinceReturn(h) <==> h[j].outcome == Panic
  {
    if j < |h| - 1 {
      LastRunDecides(h[..|h| - 1], j);
    }
  }

  /** Where the circuit stands after a history, with the limit written out. */
  lemma StateInPlainTerms(maxFailures: int, timeout: real, h: seq<Event>, begin: real)
    ensures StateAfter(maxFailures, h) == Closed <==> Failures(h) == 0 || Failures(h) < maxFailures
    ensures NoPanic(h) ==> StateAfter(maxFailures, h) != HalfOpen
    ensures Refuses(maxFailures, timeout, h, begin) <==>
      StateAfter(maxFailures, h) == Open && begin - LastFailureEnd(h) <= timeout
  {
    if NoPanic(h) {
      NothingPanicked(h);
    }
  }

  ghost predicate NoPanic(h: seq<Event>) {
    forall i :: 0 <= i < |h| ==> !(h[i].Ran? && h[i].outcome == Panic)
  }

  /** While the guarded function never panics, a breaker at rest is closed or open, and it
      is open exactly when the failures after the last success have reached the limit; with a limit
      below one, as soon as there is one. */
  lemma {:induction false} NeverHalfOpenAtRest(maxFailures: int, h: seq<Event>, i: nat)
    requires forall j :: 0 <= j < |h| ==> !(h[j].Ran? && h[j].outcome == Panic)
    requires i <= |h| && (i > 0 ==> h[i - 1].Ran? && h[i - 1].outcome == Success)
    requires forall j :: i <= j < |h| ==> !(h[j].Ran? && h[j].outcome == Success)
    ensures var k := |set j | i <= j < |h| && h[j].Ran? && h[j].outcome == Failure|;
      && (maxFailures >= 1 ==> StateAfter(maxFailures, h) == if k >= maxFailures then Open else Closed)
      && (maxFailures < 1 ==> StateAfter(maxFailures, h) == if k >= 1 then Open else Closed)
  {
    NothingPanicked(h);
    var m := FailuresAreTrailing(h);
    assert m == i;
    FailuresAreCounted(h, i, |h|);
  }

  lemma {:induction false} NothingPanicked(h: seq<Event>)
    requires NoPanic(h)
    ensures !PanickedSinceReturn(h)
  {
    if h != [] {
      NothingPanicked(h[..|h| - 1]);
    }
  }

  lemma {:induction false} PrefixIsLawful(maxFailures: int, timeout: real, h: seq<Event>, n: nat)
    requires Lawful(maxFailures, timeout, h) && n <= |h|
    ensures Lawful(maxFailures, timeout, h[..n])
    decreases |h|
  {
    if n < |h| {
      var g := h[..|h| - 1];
      PrefixIsLawful(maxFailures, timeout, g, n);
      assert g[..n] == h[..n];
    } else {
      assert h[..n] == h;
    }
  }

  /** A panic that leaves a tripped breaker half-open came more than `timeout` after the last failure. */
  lemma {:induction false} HalfOpenIsLate(maxFailures: int, timeout: real, h: seq<Event>)
    requires Lawful(maxFailures, timeout, h) && StateAfter(maxFailures, h) == HalfOpen
    ensures FinishOf(h) > LastFailureEnd(h) + timeout
  {
    var g := h[..|h| - 1];
    if StateAfter(maxFailures, g) == HalfOpen {
      HalfOpenIsLate(maxFailures, timeout, g);
    }
  }

  /** A tripped breaker runs a call only when more than `timeout` has passed since the last failure. */
  lemma TrippedRunsLate(maxFailures: int, timeout: real, h: seq<Event>, begin: real)
    requires Lawful(maxFailures, timeout, h) && Failures(h) >= Threshold(maxFailures)
    requires h != [] ==> FinishOf(h) <= begin
    requires !Refuses(maxFailures, timeout, h, begin)
    ensures begin > LastFailureEnd(h) + timeout
  {
    if StateAfter(maxFailures, h) == HalfOpen {
      HalfOpenIsLate(maxFailures, timeout, h);
    }
  }

  function FailuresIn(h: seq<Event>, i: nat, j: nat): nat
    requires i <= j <= |h|
    decreases j - i
  {
    if i == j then 0 else FailuresIn(h, i, j - 1) + (if h[j - 1].Fails() then 1 else 0)
  }

  ghost predicate NoSuccess(h: seq<Event>, i: nat, j: nat)
    requires i <= j <= |h|
  {
    forall k :: i <= k < j ==> !(h[k].Ran? && h[k].outcome == Success)
  }

  /** The time n waits of `timeout` take. */
  function Waits(timeout: real, n: nat): real {
    if n == 0 then 0.0 else Waits(timeout, n - 1) + timeout
  }

  lemma {:induction false} WaitsIsProduct(timeout: real, n: nat)
    ensures Waits(timeout, n) == n as real * timeout
  {
    if n > 0 {
      WaitsIsProduct(timeout, n - 1);
      assert (n - 1) as real * timeout == n as real * timeout - timeout;
    }
  }

  /** k calls above the limit take more than k - limit timeouts. */
  predicate SpreadOut(maxFailures: int, timeout: real, elapsed: real, k: nat) {
    k > Threshold(maxFailures) ==> elapsed > Waits(timeout, k - Threshold(maxFailures))
  }

  /** The stretch [a, n) opens with a failure and has no success: by its last failure, at b,
      the trailing count is at least the stretch's own and the gap has been kept. */
  ghost predicate Spaced(maxFailures: int, timeout: real, h: seq<Event>, a: nat, b: nat, n: nat)
    requires a <= b < n <= |h|
  {
    var k := FailuresIn(h, a, n);
    && k >= 1
    && h[b].Fails() && LastFailureEnd(h[..n]) == h[b].end
    && Failures(h[..n]) >= k
    && h[a].begin <= h[b].begin
    && SpreadOut(maxFailures, timeout, h[b].begin - h[a].begin, k)
  }

  lemma {:induction false} BeginsAreOrdered(maxFailures: int, timeout: real, h: seq<Event>, i: nat, j: nat)
    requires Lawful(maxFailures, timeout, h) && i <= j < |h|
    ensures h[i].begin <= h[j].begin
    ensures i < j ==> h[i].Finish() <= h[j].begin
    decreases |h|, j
  {
    if j < |h| - 1 {
      BeginsAreOrdered(maxFailures, timeout, h[..|h| - 1], i, j);
    } else if i < j {
      var g := h[..|h| - 1];
      BeginsAreOrdered(maxFailures, timeout, g, i, j - 1);
      assert g[j - 1].begin <= g[j - 1].Finish();
    }
  }

  lemma {:induction false} StretchIsSpaced(maxFailures: int, timeout: real, h: seq<Event>, a: nat, n: nat) returns (b: nat)
    requires Lawful(maxFailures, timeout, h) && a < n <= |h| && h[a].Fails() && NoSuccess(h, a, n)
    ensures a <= b < n && Spaced(maxFailures, timeout, h, a, b, n)
    ensures h[n - 1].Fails() ==> b == n - 1
    decreases n
  {
    var m := n - 1;
    var g := h[..m];
    assert h[..n][..m] == g;
    if m == a {
      b := a;
      assert FailuresIn(h, a, n) == 1;
    } else {
      var c := StretchIsSpaced(maxFailures, timeout, h, a, m);
      if h[m].Fails() {
        b := m;
        SpacingGrows(maxFailures, timeout, h, a, c, m);
      } else {
        b := c;
      }
    }
  }

  lemma SpacingGrows(maxFailures: int, timeout: real, h: seq<Event>, a: nat, c: nat, m: nat)
    requires Lawful(maxFailures, timeout, h) && a <= c < m < |h|
    requires h[m].Fails() && Spaced(maxFailures, timeout, h, a, c, m)
    ensures Spaced(maxFailures, timeout, h, a, m, m + 1)
  {
    var g, k := h[..m], FailuresIn(h, a, m);
    assert h[..m + 1][..m] == g;
    PrefixIsLawful(maxFailures, timeout, h, m + 1);
    BeginsAreOrdered(maxFailures, timeout, h, a, m);
    BeginsAreOrdered(maxFailures, timeout, h, c, c);
    EventIsTimed(maxFailures, timeout, h, c);
    if k >= Threshold(maxFailures) {
      TrippedRunsLate(maxFailures, timeout, g, h[m].begin);
      assert h[m].begin > h[c].begin + timeout;
    }
  }

  lemma EventIsTimed(maxFailures: int, timeout: real, h: seq<Event>, i: nat)
    requires Lawful(maxFailures, timeout, h) && i < |h|
    ensures h[i].begin <= h[i].Finish()
  {
    PrefixIsLawful(maxFailures, timeout, h, i + 1);
  }

  /** k calls above the limit in so much time, with the limit and the waits written out. */
  lemma SpreadInPlainTerms(maxFailures: int, timeout: real, elapsed: real, k: nat)
    requires SpreadOut(maxFailures, timeout, elapsed, k)
    ensures maxFailures >= 1 && k > maxFailures ==> elapsed > (k - maxFailures) as real * timeout
    ensures maxFailures < 1 && k > 1 ==> elapsed > (k - 1) as real * timeout
  {
    if k > Threshold(maxFailures) {
      WaitsIsProduct(timeout, k - Threshold(maxFailures));
    }
  }

  /** The load bound.  In any stretch of a run that opens and closes with a failed execution
      and has no successful one, k failures above the limit are spread over more than
      (k - limit) * timeout, whatever was rejected or panicked in between. */
  lemma LoadBound(maxFailures: int, timeout: real, h: seq<Event>, a: nat, b: nat, k: nat)
    requires Lawful(maxFailures, timeout, h) && a <= b < |h|
    requires h[a].Ran? && h[a].outcome == Failure && h[b].Ran? && h[b].outcome == Failure
    requires forall i :: a <= i <= b ==> !(h[i].Ran? && h[i].outcome == Success)
    requires k == |set i | a <= i < b + 1 && h[i].Ran? && h[i].outcome == Failure|
    ensures maxFailures >= 1 && k > maxFailures ==> h[b].begin - h[a].begin > (k - maxFailures) as real * timeout
    ensures maxFailures < 1 && k > 1 ==> h[b].begin - h[a].begin > (k - 1) as real * timeout
  {
    FailuresAreCounted(h, a, b + 1);
    FailuresAreSpread(maxFailures, timeout, h, a, b);
    SpreadInPlainTerms(maxFailures, timeout, h[b].begin - h[a].begin, k);
  }

  lemma FailuresAreSpread(maxFailures: int, timeout: real, h: seq<Event>, a: nat, b: nat)
    requires Lawful(maxFailures, timeout, h) && a <= b < |h|
    requires h[a].Fails() && h[b].Fails() && NoSuccess(h, a, b + 1)
    ensures SpreadOut(maxFailures, timeout, h[b].begin - h[a].begin, FailuresIn(h, a, b + 1))
  {
    var c := StretchIsSpaced(maxFailures, timeout, h, a, b + 1);
  }

  function RunsIn(h: seq<Event>, i: nat, j: nat): nat
    requires i <= j <= |h|
    decreases j - i
  {
    if i == j then 0 else RunsIn(h, i, j - 1) + (if h[j - 1].Ran? then 1 else 0)
  }

  ghost predicate NoPanicIn(h: seq<Event>, i: nat, j: nat)
    requires i <= j <= |h|
  {
    forall k :: i <= k < j ==> !(h[k].Ran? && h[k].outcome == Panic)
  }

  lemma {:induction false} EveryRunFails(h: seq<Event>, i: nat, j: nat)
    requires i <= j <= |h| && NoPanicIn(h, i, j) && NoSuccess(h, i, j)
    ensures RunsIn(h, i, j) == FailuresIn(h, i, j)
    decreases j - i
  {
    if i < j {
      EveryRunFails(h, i, j - 1);
    }
  }

  lemma RunsAreFailures(h: seq<Event>, a: nat, b: nat)
    requires a <= b < |h| && h[a].Ran? && h[b].Ran? && NoPanicIn(h, a, b + 1) && NoSuccess(h, a, b + 1)
    ensures h[a].Fails() && h[b].Fails() && RunsIn(h, a, b + 1) == FailuresIn(h, a, b + 1)
  {
    EveryRunFails(h, a, b + 1);
  }

  /** In a stretch in which the guarded function always returns and never succeeds, the bound is
      on executions: k of them are spread over more than k - limit timeouts. */
  lemma ExecutionBound(maxFailures: int, timeout: real, h: seq<Event>, a: nat, b: nat, k: nat)
    requires Lawful(maxFailures, timeout, h) && a <= b < |h|
    requires h[a].Ran? && h[b].Ran? && forall i :: a <= i <= b ==> h[i].Ran? ==> h[i].outcome == Failure
    requires k == |set i | a <= i < b + 1 && h[i].Ran?|
    ensures maxFailures >= 1 && k > maxFailures ==> h[b].begin - h[a].begin > (k - maxFailures) as real * timeout
    ensures maxFailures < 1 && k > 1 ==> h[b].begin - h[a].begin > (k - 1) as real * timeout
  {
    RunsAreCounted(h, a, b + 1);
    RunsAreSpread(maxFailures, timeout, h, a, b);
    SpreadInPlainTerms(maxFailures, timeout, h[b].begin - h[a].begin, k);
  }

  lemma RunsAreSpread(maxFailures: int, timeout: real, h: seq<Event>, a: nat, b: nat)
    requires Lawful(maxFailures, timeout, h) && a <= b < |h|
    requires h[a].Ran? && h[b].Ran? && NoPanicIn(h, a, b + 1) && NoSuccess(h, a, b + 1)
    ensures SpreadOut(maxFailures, timeout, h[b].begin - h[a].begin, RunsIn(h, a, b + 1))
  {
    RunsAreFailures(h, a, b);
    FailuresAreSpread(maxFailures, timeout, h, a, b);
  }

  /** A panic leaves the breaker half-open, and then executions are not spread out: after one
      failure three panics can follow each other at the same instant. */
  lemma PanicsEscapeTheExecutionBound()
    ensures var h := [Ran(0.0, 0.0, Failure), Ran(11.0, 11.0, Panic), Ran(11.0, 11.0, Panic), Ran(11.0, 11.0, Panic)];
      Lawful(1, 10.0, h) && !(h[3].begin - h[0].begin > (4 - 1) as real * 10.0)
  {
    var a, p := Ran(0.0, 0.0, Failure), Ran(11.0, 11.0, Panic);
    var h := [a, p, p, p];
    AppendLawful(1, 10.0, [], a);
    AppendLawful(1, 10.0, [a], p);
    AppendLawful(1, 10.0, [a, p], p);
    AppendLawful(1, 10.0, [a, p, p], p);
    assert [] + [a] == [a] && [a] + [p] == [a, p] && [a, p] + [p] == [a, p, p] && [a, p, p] + [p] == h;
  }

  function PanicsIn(h: seq<Event>, i: nat, j: nat): nat
    requires i <= j <= |h|
    decreases j - i
  {
    if i == j then 0 else PanicsIn(h, i, j - 1) + (if h[j - 1].Ran? && h[j - 1].outcome == Panic then 1 else 0)
  }

  lemma {:induction false} NoPanicsCounted(h: seq<Event>, i: nat, j: nat)
    requires i <= j <= |h| && PanicsIn(h, i, j) == 0
    ensures NoPanicIn(h, i, j)
    decreases j - i
  {
    if i < j {
      NoPanicsCounted(h, i, j - 1);
    }
  }

  /** A stretch of a run that opens and closes with an execution and has no success. */
  ghost predicate Stretch(maxFailures: int, timeout: real, h: seq<Event>, a: nat, b: nat) {
    a <= b < |h| && Lawful(maxFailures, timeout, h) && h[a].Ran? && h[b].Ran? && NoSuccess(h, a, b + 1)
  }

  /** The bound on executions holds of every such stretch with at most p panics. */
  ghost predicate BoundsExecutions(maxFailures: int, timeout: real, p: nat) {
    forall h: seq<Event>, a: nat, b: nat :: Stretch(maxFailures, timeout, h, a, b) && PanicsIn(h, a, b + 1) <= p ==>
      SpreadOut(maxFailures, timeout, h[b].begin - h[a].begin, RunsIn(h, a, b + 1))
  }

  /** For every breaker the bound on executions holds exactly when no panic is allowed, or when
      there is nothing to wait for. */
  lemma ExecutionBoundIff(maxFailures: int, timeout: real, p: nat)
    ensures BoundsExecutions(maxFailures, timeout, p) <==> p == 0 || timeout < 0.0
  {
    var n := Threshold(maxFailures);
    var burst := PanicThenFailures(n);
    PanicThenFailuresIsLawful(maxFailures, timeout, n);
    CountsOfBurst(n, n + 1);
    assert Waits(timeout, 1) == timeout by {
      WaitsIsProduct(timeout, 1);
    }
    assert p > 0 && timeout >= 0.0 ==>
      Stretch(maxFailures, timeout, burst, 0, n) && !SpreadOut(maxFailures, timeout, 0.0, RunsIn(burst, 0, n + 1));
    if p == 0 || timeout < 0.0 {
      forall h: seq<Event>, a: nat, b: nat | Stretch(maxFailures, timeout, h, a, b) && PanicsIn(h, a, b + 1) <= p
        ensures SpreadOut(maxFailures, timeout, h[b].begin - h[a].begin, RunsIn(h, a, b + 1))
      {
        if p == 0 {
          NoPanicsCounted(h, a, b + 1);
          RunsAreSpread(maxFailures, timeout, h, a, b);
        } else {
          BeginsAreOrdered(maxFailures, timeout, h, a, b);
          NothingToWaitFor(maxFailures, timeout, h[b].begin - h[a].begin, RunsIn(h, a, b + 1));
        }
      }
    }
  }

  lemma {:induction false} NothingToWaitFor(maxFailures: int, timeout: real, elapsed: real, k: nat)
    requires timeout < 0.0 <= elapsed
    ensures SpreadOut(maxFailures, timeout, elapsed, k)
  {
    if k > Threshold(maxFailures) {
      NothingToWaitFor(maxFailures, timeout, elapsed, k - 1);
    }
  }

  /** One panic and then n failures, all at the same instant. */
  function PanicThenFailures(n: nat): seq<Event> {
    seq(n + 1, i => Ran(0.0, 0.0, if i == 0 then Panic else Failure))
  }

  lemma {:induction false} PanicThenFailuresIsLawful(maxFailures: int, timeout: real, n: nat)
    requires n <= Threshold(maxFailures)
    ensures Lawful(maxFailures, timeout, PanicThenFailures(n)) && Failures(PanicThenFailures(n)) == n
  {
    if n == 0 {
      AppendLawful(maxFailures, timeout, [], Ran(0.0, 0.0, Panic));
      assert PanicThenFailures(0) == [] + [Ran(0.0, 0.0, Panic)];
    } else {
      PanicThenFailuresIsLawful(maxFailures, timeout, n - 1);
      AppendLawful(maxFailures, timeout, PanicThenFailures(n - 1), Ran(0.0, 0.0, Failure));
      assert PanicThenFailures(n) == PanicThenFailures(n - 1) + [Ran(0.0, 0.0, Failure)];
    }
  }

  lemma {:induction false} CountsOfBurst(n: nat, j: nat)
    requires j <= n + 1
    ensures RunsIn(PanicThenFailures(n), 0, j) == j
    ensures PanicsIn(PanicThenFailures(n), 0, j) == if j == 0 then 0 else 1
  {
    if j > 0 {
      CountsOfBurst(n, j - 1);
    }
  }

  /** One more call that the history turns away. */
  lemma RejectionIsLawful(maxFailures: int, timeout: real, h: seq<Event>, begin: real)
    requires Lawful(maxFailures, timeout, h) && (h != [] ==> FinishOf(h) <= begin)
    requires Refuses(maxFailures, timeout, h, begin)
    ensures var g := h + [Rejected(begin)];
      && Lawful(maxFailures, timeout, g) && Failures(g) == Failures(h)
      && LastFailureEnd(g) == LastFailureEnd(h) && StateAfter(maxFailures, g) == StateAfter(maxFailures, h)
  {
    assert (h + [Rejected(begin)])[..|h|] == h;
  }

  /** One more execution that the history allows. */
  lemma AppendLawful(maxFailures: int, timeout: real, h: seq<Event>, e: Event)
    requires Lawful(maxFailures, timeout, h)
    requires e.Ran? && e.begin <= e.end && (h != [] ==> FinishOf(h) <= e.begin)
    requires !Refuses(maxFailures, timeout, h, e.begin)
    ensures Lawful(maxFailures, timeout, h + [e])
    ensures Failures(h + [e]) == (if e.Fails() then Failures(h) + 1 else if e.outcome == Success then 0 else Failures(h))
    ensures LastFailureEnd(h + [e]) == (if e.Fails() then e.end else LastFailureEnd(h))
    ensures PanickedSinceReturn(h + [e]) <==> e.outcome == Panic
  {
    assert (h + [e])[..|h|] == h;
  }
}
