/** The token-bucket limiter of the HTTP middleware.

    The bucket itself is a fold over the call times (`Play`).  The theorems say what a
    whole run of it admits: a closed form over windows of calls, and optimality among all
    sequences of decisions that keep every window within its allowance. */
module RateLimiting {

  /** What the limiter stores between calls. */
  datatype Bucket = Bucket(tokens: real, last: real)

  /** How many of the decisions numbered i..j-1 are acceptances. */
  function Accepted(d: seq<bool>, i: nat, j: nat): nat
    requires i <= j <= |d|
    decreases j - i
  {
    if i == j then 0 else Accepted(d, i, j - 1) + (if d[j - 1] then 1 else 0)
  }

  /** Tokens that accrue over some seconds. */
  function Earned(rate: int, seconds: real): real {
    seconds * rate as real
  }

  lemma EarnedAdds(rate: int, x: real, y: real)
    ensures Earned(rate, x + y) == Earned(rate, x) + Earned(rate, y)
    ensures Earned(rate, 0.0) == 0.0
  {
    var r := rate as real;
    assert (x + y) * r == x * r + y * r;
  }

  lemma EarnedGrows(rate: int, rate': int, x: real)
    requires x >= 0.0 && rate <= rate'
    ensures Earned(rate, x) <= Earned(rate', x)
  {
    var r, r' := rate as real, rate' as real;
    assert x * (r' - r) >= 0.0;
    assert x * (r' - r) == x * r' - x * r;
  }

  lemma EarnedIsNonnegative(rate: int, x: real)
    requires x >= 0.0 && rate >= 0
    ensures Earned(rate, x) >= 0.0
  {
    EarnedGrows(0, rate, x);
    assert x * 0.0 == 0.0;
  }

  /** What a window from time `from` to time `to` may accept. */
  function Allowance(rate: int, burst: int, from: real, to: real): real {
    burst as real + Earned(rate, to - from)
  }

  function Refill(rate: int, burst: int, b: Bucket, now: real): real {
    var tokens := b.tokens + Earned(rate, now - b.last);
    if tokens > burst as real then burst as real else tokens
  }

  /** One call on an enabled limiter: the bucket afterwards and the decision. */
  function Step(rate: int, burst: int, b: Bucket, now: real): (Bucket, bool) {
    var tokens := Refill(rate, burst, b, now);
    if tokens < 1.0 then (Bucket(tokens, now), false) else (Bucket(tokens - 1.0, now), true)
  }

  /** A whole run: the bucket after the calls at `times`, and every decision. */
  function Play(rate: int, burst: int, b: Bucket, times: seq<real>): (r: (Bucket, seq<bool>))
    ensures |r.1| == |times|
  {
    if times == [] then (b, [])
    else
      var (before, decisions) := Play(rate, burst, b, times[..|times| - 1]);
      var (after, ok) := Step(rate, burst, before, times[|times| - 1]);
      (after, decisions + [ok])
  }

  lemma PlayExtends(rate: int, burst: int, b: Bucket, times: seq<real>, now: real)
    ensures var (before, decisions) := Play(rate, burst, b, times);
      var (after, ok) := Step(rate, burst, before, now);
      Play(rate, burst, b, times + [now]) == (after, decisions + [ok])
  {
    assert (times + [now])[..|times|] == times;
  }

  /** Call times never decrease: the clock is read under the mutex. */
  ghost predicate Ordered(start: real, times: seq<real>) {
    && (forall i :: 0 <= i < |times| ==> start <= times[i])
    && (forall i, j :: 0 <= i <= j < |times| ==> times[i] <= times[j])
  }

  lemma OrderedExtends(start: real, times: seq<real>, now: real)
    requires Ordered(start, times) && (if times == [] then start else times[|times| - 1]) <= now
    ensures Ordered(start, times + [now])
  {
  }

  class RateLimiter {
    const rate: int
    const burst: int
    const enabled: bool
    var tokens: real
    var lastTime: real

    ghost const started: real
    ghost var times: seq<real>
    ghost var decisions: seq<bool>

    ghost predicate Valid()
      reads this
    {
      && Ordered(started, times)
      && lastTime == (if times == [] then started else times[|times| - 1])
      && Play(rate, burst, Bucket(burst as real, started), times) == (Bucket(tokens, lastTime), decisions)
    }

    constructor (rate: int, burst: int, enabled: bool, now: real)
      ensures Valid() && this.rate == rate && this.burst == burst && this.enabled == enabled
      ensures started == now && times == [] && decisions == []
    {
      this.rate := rate;
      this.burst := burst;
      this.enabled := enabled;
      tokens := burst as real;
      lastTime := now;
      started := now;
      times := [];
      decisions := [];
    }

    /** This limiter's own history, in plain arithmetic: with r and u its rate and burst, which of
        its calls t were accepted, what every window of them was held to, and what tokens are left. */
    lemma HistoryIsExact(r: int, u: int, t: seq<real>, d: seq<bool>)
      requires Valid() && rate == r >= 0 && burst == u >= 0 && times == t && decisions == d
      ensures |d| == |t|
      ensures forall n :: 0 <= n < |t| ==>
        (d[n] <==> forall i :: 0 <= i <= n ==>
          u as real + (t[n] - t[i]) * r as real - Accepted(d, i, n) as real >= 1.0)
      ensures forall i, j :: 0 <= i <= j < |t| ==>
        Accepted(d, i, j + 1) as real <= u as real + (t[j] - t[i]) * r as real
      ensures 0.0 <= tokens <= u as real && (t == [] ==> tokens == u as real)
      ensures forall i :: 0 <= i < |t| ==>
        tokens <= u as real + (t[|t| - 1] - t[i]) * r as real - Accepted(d, i, |t|) as real
      ensures t != [] ==> exists i ::
        0 <= i < |t| && tokens == u as real + (t[|t| - 1] - t[i]) * r as real - Accepted(d, i, |t|) as real
    {
      RunInPlainTerms(r, u, started, t, Bucket(tokens, lastTime), d);
    }

    /** `now` is what the clock shows once the mutex is held. */
    method Allow(now: real) returns (ok: bool)
      requires Valid()
      requires lastTime <= now
      modifies this`tokens, this`lastTime, this`times, this`decisions
      ensures Valid()
      ensures !enabled ==> ok && unchanged(this)
      ensures enabled ==> times == old(times) + [now] && decisions == old(decisions) + [ok]
    {
      if !enabled {
        return true;
      }
      ok := Take(now);
      PlayExtends(rate, burst, Bucket(burst as real, started), times, now);
      OrderedExtends(started, times, now);
      times := times + [now];
      decisions := decisions + [ok];
    }

    /** The section under the mutex: refill, cap, test, decrement. */
    method Take(now: real) returns (ok: bool)
      modifies this`tokens, this`lastTime
      ensures (Bucket(tokens, lastTime), ok) == Step(rate, burst, old(Bucket(tokens, lastTime)), now)
    {
      var elapsed := now - lastTime;
      lastTime := now;
      tokens := tokens + Earned(rate, elapsed);
      if tokens > burst as real {
        tokens := burst as real;
      }
      if tokens < 1.0 {
        return false;
      }
      tokens := tokens - 1.0;
      return true;
    }
  }

  // ---- What a run admits ----

  /** Room left, just before decision n, in the window that opens with call i. */
  function Slack(rate: int, burst: int, t: seq<real>, d: seq<bool>, i: nat, n: nat): real
    requires i <= n < |t| && n <= |d|
  {
    Allowance(rate, burst, t[i], t[n]) - Accepted(d, i, n) as real
  }

  /** Every window that call n closes has room for one more. */
  ghost predicate HasRoom(rate: int, burst: int, t: seq<real>, d: seq<bool>, n: nat)
    requires n < |t| && n <= |d|
  {
    forall i :: 0 <= i <= n ==> Slack(rate, burst, t, d, i, n) >= 1.0
  }

  /** A call is accepted exactly when every window it closes has room. */
  ghost predicate Exact(rate: int, burst: int, t: seq<real>, d: seq<bool>) {
    |d| == |t| && forall n :: 0 <= n < |t| ==> (d[n] <==> HasRoom(rate, burst, t, d, n))
  }

  /** Room left after the last call in the window that opens with call i. */
  function Remaining(rate: int, burst: int, t: seq<real>, d: seq<bool>, i: nat): real
    requires i < |t| == |d|
  {
    Allowance(rate, burst, t[i], t[|t| - 1]) - Accepted(d, i, |d|) as real
  }

  ghost predicate IsLeastRemaining(rate: int, burst: int, t: seq<real>, d: seq<bool>, tokens: real)
    requires |t| == |d|
  {
    && (forall i :: 0 <= i < |t| ==> tokens <= Remaining(rate, burst, t, d, i))
    && (exists i :: 0 <= i < |t| && tokens == Remaining(rate, burst, t, d, i))
  }

  /** Every window of consecutive calls accepts at most its allowance. */
  ghost predicate Conforming(rate: int, burst: int, t: seq<real>, d: seq<bool>) {
    && |d| == |t|
    && forall i, j :: 0 <= i <= j < |t| ==> Accepted(d, i, j + 1) as real <= Allowance(rate, burst, t[i], t[j])
  }

  /** Counting acceptances is the size of the set of accepted calls. */
  lemma {:induction false} AcceptedIsCount(d: seq<bool>, i: nat, j: nat)
    requires i <= j <= |d|
    ensures Accepted(d, i, j) == |set k | i <= k < j && d[k]|
    decreases j - i
  {
    if i < j {
      AcceptedIsCount(d, i, j - 1);
      var before := set k | i <= k < j - 1 && d[k];
      assert (set k | i <= k < j && d[k]) == if d[j - 1] then before + {j - 1} else before;
    }
  }

  lemma DecisionsInPlainTerms(rate: int, burst: int, t: seq<real>, d: seq<bool>)
    requires Exact(rate, burst, t, d)
    ensures forall n :: 0 <= n < |t| ==>
      (d[n] <==> forall i :: 0 <= i <= n ==>
        burst as real + (t[n] - t[i]) * rate as real - Accepted(d, i, n) as real >= 1.0)
  {
    forall n | 0 <= n < |t|
      ensures d[n] <==> forall i :: 0 <= i <= n ==>
        burst as real + (t[n] - t[i]) * rate as real - Accepted(d, i, n) as real >= 1.0
    {
      assert forall i :: 0 <= i <= n ==>
        Slack(rate, burst, t, d, i, n) == burst as real + (t[n] - t[i]) * rate as real - Accepted(d, i, n) as real;
    }
  }

  lemma WindowsInPlainTerms(rate: int, burst: int, t: seq<real>, d: seq<bool>)
    requires Conforming(rate, burst, t, d)
    ensures forall i, j :: 0 <= i <= j < |t| ==>
      Accepted(d, i, j + 1) as real <= burst as real + (t[j] - t[i]) * rate as real
  {
  }

  lemma TokensInPlainTerms(rate: int, burst: int, t: seq<real>, d: seq<bool>, tokens: real)
    requires |t| == |d| && t != [] && IsLeastRemaining(rate, burst, t, d, tokens)
    ensures forall i :: 0 <= i < |t| ==>
      tokens <= burst as real + (t[|t| - 1] - t[i]) * rate as real - Accepted(d, i, |t|) as real
    ensures exists i ::
      0 <= i < |t| && tokens == burst as real + (t[|t| - 1] - t[i]) * rate as real - Accepted(d, i, |t|) as real
  {
    assert forall i :: 0 <= i < |t| ==>
      Remaining(rate, burst, t, d, i) == burst as real + (t[|t| - 1] - t[i]) * rate as real - Accepted(d, i, |t|) as real;
  }

  lemma RunInPlainTerms(rate: int, burst: int, start: real, t: seq<real>, b: Bucket, d: seq<bool>)
    requires rate >= 0 && burst >= 0 && Ordered(start, t)
    requires Play(rate, burst, Bucket(burst as real, start), t) == (b, d)
    ensures |d| == |t|
    ensures forall n :: 0 <= n < |t| ==>
      (d[n] <==> forall i :: 0 <= i <= n ==>
        burst as real + (t[n] - t[i]) * rate as real - Accepted(d, i, n) as real >= 1.0)
    ensures forall i, j :: 0 <= i <= j < |t| ==>
      Accepted(d, i, j + 1) as real <= burst as real + (t[j] - t[i]) * rate as real
    ensures 0.0 <= b.tokens <= burst as real && (t == [] ==> b.tokens == burst as real)
    ensures forall i :: 0 <= i < |t| ==>
      b.tokens <= burst as real + (t[|t| - 1] - t[i]) * rate as real - Accepted(d, i, |t|) as real
    ensures t != [] ==> exists i ::
      0 <= i < |t| && b.tokens == burst as real + (t[|t| - 1] - t[i]) * rate as real - Accepted(d, i, |t|) as real
  {
    RunIsExact(rate, burst, start, t);
    RunConforms(rate, burst, start, t, d);
    DecisionsInPlainTerms(rate, burst, t, d);
    WindowsInPlainTerms(rate, burst, t, d);
    if t != [] {
      TokensInPlainTerms(rate, burst, t, d, b.tokens);
    }
  }

  lemma {:induction false} AcceptedOfPrefix(d: seq<bool>, e: seq<bool>, i: nat, j: nat)
    requires i <= j <= |d| <= |e| && d == e[..|d|]
    ensures Accepted(d, i, j) == Accepted(e, i, j)
    decreases j - i
  {
    if i < j {
      AcceptedOfPrefix(d, e, i, j - 1);
      assert d[j - 1] == e[j - 1];
    }
  }

  lemma {:induction false} AcceptedSplits(d: seq<bool>, i: nat, j: nat, k: nat)
    requires i <= j <= k <= |d|
    ensures Accepted(d, i, k) == Accepted(d, i, j) + Accepted(d, j, k)
    decreases k - j
  {
    if j < k {
      AcceptedSplits(d, i, j, k - 1);
    }
  }

  lemma AllowanceExtends(rate: int, burst: int, a: real, b: real, c: real)
    ensures Allowance(rate, burst, a, c) == Allowance(rate, burst, a, b) + Earned(rate, c - b)
    ensures rate >= 0 && b <= c ==> Allowance(rate, burst, a, b) <= Allowance(rate, burst, a, c)
  {
    EarnedAdds(rate, b - a, c - b);
    assert (b - a) + (c - b) == c - a;
    if rate >= 0 && b <= c {
      EarnedIsNonnegative(rate, c - b);
    }
  }

  /** Before decision n the refilled bucket holds the least slack of the windows n closes. */
  lemma RefillIsLeastSlack(rate: int, burst: int, b: Bucket, t: seq<real>, d: seq<bool>)
    requires rate >= 0 && burst >= 0
    requires |t| == |d| + 1
    requires d == [] ==> b.tokens == burst as real && b.last <= t[0]
    requires d != [] ==> b.last == t[|d| - 1] && IsLeastRemaining(rate, burst, t[..|d|], d, b.tokens)
    ensures forall i :: 0 <= i <= |d| ==> Refill(rate, burst, b, t[|d|]) <= Slack(rate, burst, t, d, i, |d|)
    ensures exists i :: 0 <= i <= |d| && Refill(rate, burst, b, t[|d|]) == Slack(rate, burst, t, d, i, |d|)
  {
    var n, now := |d|, t[|d|];
    EarnedAdds(rate, 0.0, 0.0);
    assert Slack(rate, burst, t, d, n, n) == burst as real;
    if d == [] {
      EarnedIsNonnegative(rate, now - b.last);
    } else {
      var s := t[..n];
      forall i | 0 <= i < n
        ensures Slack(rate, burst, t, d, i, n) == Remaining(rate, burst, s, d, i) + Earned(rate, now - b.last)
      {
        AllowanceExtends(rate, burst, t[i], t[n - 1], now);
      }
      var k :| 0 <= k < n && b.tokens == Remaining(rate, burst, s, d, k);
      assert Slack(rate, burst, t, d, k, n) == b.tokens + Earned(rate, now - b.last);
    }
  }

  /** One more call, decided by whether the windows it closes have room, keeps the closed form. */
  lemma ExactExtends(rate: int, burst: int, t: seq<real>, d: seq<bool>, ok: bool)
    requires |t| == |d| + 1
    requires Exact(rate, burst, t[..|d|], d)
    requires ok <==> HasRoom(rate, burst, t, d, |d|)
    ensures Exact(rate, burst, t, d + [ok])
  {
    var n, s, e := |d|, t[..|d|], d + [ok];
    forall m | 0 <= m < |t| ensures e[m] <==> HasRoom(rate, burst, t, e, m) {
      forall i | 0 <= i <= m ensures Slack(rate, burst, t, e, i, m) == Slack(rate, burst, t, d, i, m) {
        AcceptedOfPrefix(d, e, i, m);
      }
      if m < n {
        assert forall i :: 0 <= i <= m ==> Slack(rate, burst, t, d, i, m) == Slack(rate, burst, s, d, i, m);
        assert d[m] <==> HasRoom(rate, burst, s, d, m);
      }
    }
  }

  lemma RemainingAfterDecision(rate: int, burst: int, t: seq<real>, d: seq<bool>, ok: bool, i: nat)
    requires |t| == |d| + 1 && i <= |d|
    ensures Remaining(rate, burst, t, d + [ok], i) == Slack(rate, burst, t, d, i, |d|) - (if ok then 1.0 else 0.0)
  {
    var e := d + [ok];
    AcceptedOfPrefix(d, e, i, |d|);
    assert Accepted(e, i, |e|) == Accepted(e, i, |d|) + (if e[|d|] then 1 else 0);
  }

  /** In every run of an enabled limiter a call is accepted exactly when every window it
      closes has room for it, and the stored tokens are the least room left in any window. */
  lemma {:induction false} RunIsExact(rate: int, burst: int, start: real, t: seq<real>)
    requires rate >= 0 && burst >= 0 && Ordered(start, t)
    ensures var (b, d) := Play(rate, burst, Bucket(burst as real, start), t);
      && Exact(rate, burst, t, d)
      && 0.0 <= b.tokens <= burst as real
      && b.last == (if t == [] then start else t[|t| - 1])
      && (t == [] ==> b.tokens == burst as real)
      && (t != [] ==> IsLeastRemaining(rate, burst, t, d, b.tokens))
  {
    if t != [] {
      var n := |t| - 1;
      var s := t[..n];
      assert Ordered(start, s);
      RunIsExact(rate, burst, start, s);
      var (b, d) := Play(rate, burst, Bucket(burst as real, start), s);
      StepIsExact(rate, burst, b, t, d);
    }
  }

  lemma RefillIsBounded(rate: int, burst: int, b: Bucket, now: real)
    requires rate >= 0 && burst >= 0 && b.tokens >= 0.0 && b.last <= now
    ensures 0.0 <= Refill(rate, burst, b, now) <= burst as real
  {
    EarnedIsNonnegative(rate, now - b.last);
  }

  lemma StepIsExact(rate: int, burst: int, b: Bucket, t: seq<real>, d: seq<bool>)
    requires rate >= 0 && burst >= 0
    requires |t| == |d| + 1 && Exact(rate, burst, t[..|d|], d) && b.tokens >= 0.0 && b.last <= t[|d|]
    requires d == [] ==> b.tokens == burst as real
    requires d != [] ==> b.last == t[|d| - 1] && IsLeastRemaining(rate, burst, t[..|d|], d, b.tokens)
    ensures var (after, ok) := Step(rate, burst, b, t[|d|]);
      && Exact(rate, burst, t, d + [ok])
      && 0.0 <= after.tokens <= burst as real
      && after.last == t[|d|]
      && IsLeastRemaining(rate, burst, t, d + [ok], after.tokens)
  {
    var n := |d|;
    RefillIsLeastSlack(rate, burst, b, t, d);
    var tokens := Refill(rate, burst, b, t[n]);
    RefillIsBounded(rate, burst, b, t[n]);
    var (after, ok) := Step(rate, burst, b, t[n]);
    assert ok <==> HasRoom(rate, burst, t, d, n);
    var k :| 0 <= k <= n && tokens == Slack(rate, burst, t, d, k, n);
    ExactExtends(rate, burst, t, d, ok);
    forall i | 0 <= i <= n
      ensures Remaining(rate, burst, t, d + [ok], i) == Slack(rate, burst, t, d, i, n) - (if ok then 1.0 else 0.0)
    {
      RemainingAfterDecision(rate, burst, t, d, ok, i);
    }
    assert after.tokens == Remaining(rate, burst, t, d + [ok], k);
  }

  /** The limiter's own decisions keep every window within its allowance. */
  lemma {:induction false} RunConforms(rate: int, burst: int, start: real, t: seq<real>, d: seq<bool>)
    requires rate >= 0 && burst >= 0 && Ordered(start, t) && Exact(rate, burst, t, d)
    ensures Conforming(rate, burst, t, d)
  {
    forall i, j | 0 <= i <= j < |t|
      ensures Accepted(d, i, j + 1) as real <= Allowance(rate, burst, t[i], t[j])
    {
      WindowConforms(rate, burst, start, t, d, i, j);
    }
  }

  lemma {:induction false} WindowConforms(rate: int, burst: int, start: real, t: seq<real>, d: seq<bool>, i: nat, j: nat)
    requires rate >= 0 && burst >= 0 && Ordered(start, t) && Exact(rate, burst, t, d) && i <= j < |t|
    ensures Accepted(d, i, j + 1) as real <= Allowance(rate, burst, t[i], t[j])
    decreases j
  {
    if d[j] {
      assert Slack(rate, burst, t, d, i, j) >= 1.0;
    } else if i < j {
      WindowConforms(rate, burst, start, t, d, i, j - 1);
      AllowanceExtends(rate, burst, t[i], t[j - 1], t[j]);
    } else {
      assert Accepted(d, i, j + 1) == Accepted(d, i, i);
    }
  }

  /** Decisions that accept a call exactly when every window it closes stays within `bound`. */
  ghost predicate Greedy(bound: (nat, nat) -> real, d: seq<bool>) {
    forall n :: 0 <= n < |d| ==> (d[n] <==> forall i :: 0 <= i <= n ==> Accepted(d, i, n) as real + 1.0 <= bound(i, n))
  }

  /** Decisions that keep every window within `bound`. */
  ghost predicate Within(bound: (nat, nat) -> real, d: seq<bool>) {
    forall i, j :: 0 <= i <= j < |d| ==> Accepted(d, i, j + 1) as real <= bound(i, j)
  }

  /** Whatever the windows may hold, being greedy is optimal on every prefix. */
  lemma {:induction false} GreedyIsOptimal(bound: (nat, nat) -> real, d: seq<bool>, other: seq<bool>, n: nat)
    requires Greedy(bound, d) && Within(bound, other) && n <= |d| == |other|
    ensures Accepted(other, 0, n) <= Accepted(d, 0, n)
    decreases n
  {
    if n > 0 {
      var m := n - 1;
      GreedyIsOptimal(bound, d, other, m);
      if other[m] && !d[m] {
        // The window that stops the greedy decisions at m has `other` behind already before m.
        var i :| 0 <= i <= m && Accepted(d, i, m) as real + 1.0 > bound(i, m);
        assert Accepted(other, i, m + 1) as real <= bound(i, m);
        assert Accepted(other, i, m) < Accepted(d, i, m);
        GreedyIsOptimal(bound, d, other, i);
        AcceptedSplits(d, 0, i, m);
        AcceptedSplits(other, 0, i, m);
      }
    }
  }

  /** The allowance of the windows of these calls. */
  function Windows(rate: int, burst: int, t: seq<real>): (nat, nat) -> real {
    (i: nat, j: nat) => if i < |t| && j < |t| then Allowance(rate, burst, t[i], t[j]) else 0.0
  }

  lemma ExactIsGreedy(rate: int, burst: int, t: seq<real>, d: seq<bool>)
    requires Exact(rate, burst, t, d)
    ensures Greedy(Windows(rate, burst, t), d)
  {
    var bound := Windows(rate, burst, t);
    forall n | 0 <= n < |d|
      ensures d[n] <==> forall i :: 0 <= i <= n ==> Accepted(d, i, n) as real + 1.0 <= bound(i, n)
    {
      assert forall i :: 0 <= i <= n ==> Slack(rate, burst, t, d, i, n) == bound(i, n) - Accepted(d, i, n) as real;
    }
  }

  lemma ExactIsOptimal(rate: int, burst: int, t: seq<real>, d: seq<bool>, other: seq<bool>, n: nat)
    requires Exact(rate, burst, t, d) && Conforming(rate, burst, t, other) && n <= |t|
    ensures Accepted(other, 0, n) <= Accepted(d, 0, n)
  {
    ExactIsGreedy(rate, burst, t, d);
    GreedyIsOptimal(Windows(rate, burst, t), d, other, n);
  }

  /** No other decisions that hold every window of the calls to burst + rate * seconds are ahead
      of the limiter on any prefix. */
  lemma LimiterIsOptimal(rate: int, burst: int, start: real, t: seq<real>, other: seq<bool>, n: nat)
    requires rate >= 0 && burst >= 0 && Ordered(start, t) && |other| == |t| && n <= |t|
    requires forall i, j :: 0 <= i <= j < |t| ==>
      Accepted(other, i, j + 1) as real <= burst as real + (t[j] - t[i]) * rate as real
    ensures Accepted(other, 0, n) <= Accepted(Play(rate, burst, Bucket(burst as real, start), t).1, 0, n)
  {
    RunIsExact(rate, burst, start, t);
    ExactIsOptimal(rate, burst, t, Play(rate, burst, Bucket(burst as real, start), t).1, other, n);
  }

  /** Such decisions that keep up with the limiter on every prefix are its own. */
  lemma OptimumIsUnique(rate: int, burst: int, start: real, t: seq<real>, other: seq<bool>)
    requires rate >= 0 && burst >= 0 && Ordered(start, t) && |other| == |t|
    requires forall i, j :: 0 <= i <= j < |t| ==>
      Accepted(other, i, j + 1) as real <= burst as real + (t[j] - t[i]) * rate as real
    requires forall n :: 0 <= n <= |t| ==>
      Accepted(other, 0, n) >= Accepted(Play(rate, burst, Bucket(burst as real, start), t).1, 0, n)
    ensures other == Play(rate, burst, Bucket(burst as real, start), t).1
  {
    var d := Play(rate, burst, Bucket(burst as real, start), t).1;
    forall m | 0 <= m < |t| ensures other[m] == d[m] {
      LimiterIsOptimal(rate, burst, start, t, other, m);
      LimiterIsOptimal(rate, burst, start, t, other, m + 1);
      assert Accepted(other, 0, m + 1) == Accepted(d, 0, m + 1) && Accepted(other, 0, m) == Accepted(d, 0, m);
    }
  }

  lemma AllowanceGrows(rate: int, burst: int, rate': int, burst': int, a: real, b: real)
    requires rate <= rate' && burst <= burst' && a <= b
    ensures Allowance(rate, burst, a, b) <= Allowance(rate', burst', a, b)
  {
    EarnedGrows(rate, rate', b - a);
  }

  /** Raising the rate or the burst never lowers what any prefix of the same calls is granted. */
  lemma MoreGenerousAdmitsMore(rate: int, burst: int, rate': int, burst': int, start: real, t: seq<real>, n: nat)
    requires 0 <= rate <= rate' && 0 <= burst <= burst' && Ordered(start, t) && n <= |t|
    ensures var d := Play(rate, burst, Bucket(burst as real, start), t).1;
      var d' := Play(rate', burst', Bucket(burst' as real, start), t).1;
      Accepted(d, 0, n) <= Accepted(d', 0, n)
  {
    RunIsExact(rate, burst, start, t);
    RunIsExact(rate', burst', start, t);
    var d := Play(rate, burst, Bucket(burst as real, start), t).1;
    var d' := Play(rate', burst', Bucket(burst' as real, start), t).1;
    RunConforms(rate, burst, start, t, d);
    StaysConforming(rate, burst, rate', burst', start, t, d);
    ExactIsOptimal(rate', burst', t, d', d, n);
  }

  lemma StaysConforming(rate: int, burst: int, rate': int, burst': int, start: real, t: seq<real>, d: seq<bool>)
    requires rate <= rate' && burst <= burst' && Ordered(start, t) && Conforming(rate, burst, t, d)
    ensures Conforming(rate', burst', t, d)
  {
    forall i, j | 0 <= i <= j < |t|
      ensures Accepted(d, i, j + 1) as real <= Allowance(rate', burst', t[i], t[j])
    {
      AllowanceGrows(rate, burst, rate', burst', t[i], t[j]);
    }
  }
}
