/** The adaptive rate limiter and the controller around it (iris-sim/src/stability/rateLimiter.ts,
    iris-sim/src/stability/adaptiveController.ts), over real arithmetic. */
module RateLimiter {

  function AbsReal(x: real): real {
    if x < 0.0 then -x else x
  }

  /** The limits after the constructor has clamped them. */
  datatype Config = Config(windowSizeMs: real, maxActions: int, maxDelta: real, alpha: real)

  predicate Clamped(c: Config) {
    c.maxDelta >= 0.0 && 0.0 <= c.alpha <= 1.0
  }

  // ----- one guarded step -----

  const NEAR_ZERO: real := 0.0000000001

  predicate Above(v: real, d: real, floor: real) {
    v * d >= floor
  }

  /** Whether applyDeltaLimit caps at all: not without a limit, and not next to zero. */
  predicate Capping(c: Config, previous: real) {
    c.maxDelta > 0.0 && Above(AbsReal(previous), c.maxDelta, NEAR_ZERO)
  }

  function CapDelta(c: Config, previous: real, next: real): real {
    var bound := AbsReal(previous) * c.maxDelta;
    if !Capping(c, previous) || AbsReal(next - previous) <= bound then next
    else if next >= previous then previous + bound
    else previous - bound
  }

  function Smooth(c: Config, previous: real, next: real): real {
    c.alpha * next + (1.0 - c.alpha) * previous
  }

  // ----- the times of executions -----

  ghost predicate Nondecreasing(times: seq<real>) {
    forall i, j :: 0 <= i < j < |times| ==> times[i] <= times[j]
  }

  /** Any maxActions + 1 consecutive executions span at least the window. */
  ghost predicate Spaced(c: Config, times: seq<real>) {
    forall i :: c.maxActions <= i < |times| && c.maxActions > 0 ==> times[i] - times[i - c.maxActions] >= c.windowSizeMs
  }

  /** So no window of that length, wherever it ends, holds more than maxActions executions. */
  lemma WindowBound(c: Config, times: seq<real>, lo: nat, hi: nat, end: real)
    requires c.maxActions > 0 && Nondecreasing(times) && Spaced(c, times) && lo <= hi <= |times|
    requires InWindow(c, times, lo, hi, end)
    ensures hi - lo <= c.maxActions
  {
    if hi - lo > c.maxActions {
      SpacedAt(c, times, lo + c.maxActions);
    }
  }

  /** The executions from lo to hi all fall in the window that ends at the given time. */
  ghost predicate InWindow(c: Config, times: seq<real>, lo: nat, hi: nat, end: real)
    requires hi <= |times|
  {
    forall i :: lo <= i < hi ==> end - c.windowSizeMs < times[i] <= end
  }

  lemma SpacedAt(c: Config, times: seq<real>, i: nat)
    requires Spaced(c, times) && 0 < c.maxActions <= i < |times|
    ensures times[i] - times[i - c.maxActions] >= c.windowSizeMs
  {
  }

  function After(times: seq<real>, cutoff: real): (r: seq<real>)
    ensures |r| <= |times|
  {
    if |times| == 0 then []
    else if times[0] > cutoff then [times[0]] + After(times[1..], cutoff)
    else After(times[1..], cutoff)
  }

  /** On a nondecreasing list filtering cuts off a prefix. */
  lemma {:induction false} AfterIsSuffix(times: seq<real>, cutoff: real) returns (k: nat)
    requires Nondecreasing(times)
    ensures k <= |times| && After(times, cutoff) == times[k..] && forall i :: 0 <= i < k ==> times[i] <= cutoff
  {
    if |times| == 0 {
      k := 0;
    } else if times[0] > cutoff {
      AllAfter(times, cutoff);
      k := 0;
    } else {
      k := AfterIsSuffix(times[1..], cutoff);
      assert forall i :: 0 < i <= k ==> times[i] == times[1..][i - 1];
      k := k + 1;
    }
  }

  lemma {:induction false} AllAfter(times: seq<real>, cutoff: real)
    requires forall i :: 0 <= i < |times| ==> times[i] > cutoff
    ensures After(times, cutoff) == times
  {
    if |times| > 0 {
      AllAfter(times[1..], cutoff);
      assert times == [times[0]] + times[1..];
    }
  }

  /** The kept timestamps are the executions from some point on; everything before is out of the window. */
  ghost predicate Keeps(c: Config, executions: seq<real>, kept: seq<real>, dropped: nat, latest: real) {
    && dropped <= |executions| && kept == executions[dropped..]
    && (forall i :: 0 <= i < dropped ==> executions[i] <= latest - c.windowSizeMs)
    && Nondecreasing(executions) && (forall i :: 0 <= i < |executions| ==> executions[i] <= latest)
    && Spaced(c, executions)
  }

  lemma Prune(c: Config, executions: seq<real>, kept: seq<real>, dropped: nat, latest: real, now: real)
    returns (dropped': nat)
    requires Keeps(c, executions, kept, dropped, latest) && now >= latest
    ensures Keeps(c, executions, After(kept, now - c.windowSizeMs), dropped', now)
  {
    var k := AfterIsSuffix(kept, now - c.windowSizeMs);
    dropped' := dropped + k;
    forall i | 0 <= i < dropped'
      ensures executions[i] <= now - c.windowSizeMs
    {
      if i >= dropped {
        assert executions[i] == kept[i - dropped];
      }
    }
  }

  lemma Push(c: Config, executions: seq<real>, kept: seq<real>, dropped: nat, now: real)
    requires Keeps(c, executions, kept, dropped, now) && |kept| < c.maxActions
    ensures Keeps(c, executions + [now], kept + [now], dropped, now)
  {
    var all := executions + [now];
    forall i | c.maxActions <= i < |all|
      ensures all[i] - all[i - c.maxActions] >= c.windowSizeMs
    {
      if i == |executions| {
        assert i - c.maxActions < dropped;
      } else {
        assert all[i] == executions[i] && all[i - c.maxActions] == executions[i - c.maxActions];
      }
    }
  }

  // ----- the limiter -----

  class AdaptiveRateLimiter {
    const config: Config
    var actionTimestamps: seq<real>
    var lastOutputValue: real
    var rateLimitViolations: nat
    /** The times of all executions and of the latest call, and whether no call went back in time. */
    ghost var executions: seq<real>
    ghost var dropped: nat
    ghost var latest: real
    ghost var orderly: bool

    ghost predicate Valid()
      reads this
    {
      Clamped(config) && (orderly ==> Keeps(config, executions, actionTimestamps, dropped, latest))
    }

    /** Whether the window that ends now has room for one more execution. */
    predicate HasRoom(now: real)
      reads this
    {
      |After(actionTimestamps, now - config.windowSizeMs)| < config.maxActions
    }

    constructor (windowSizeMs: real, maxActions: int, maxDelta: real, smoothingAlpha: real, ghost start: real)
      ensures Valid() && executions == [] && lastOutputValue == 0.0 && latest == start && orderly
      ensures config.windowSizeMs == windowSizeMs && config.maxActions == maxActions
      ensures config.maxDelta >= 0.0 && (maxDelta >= 0.0 ==> config.maxDelta == maxDelta)
      ensures maxDelta < 0.0 ==> config.maxDelta == 0.0
      ensures 0.0 <= smoothingAlpha <= 1.0 ==> config.alpha == smoothingAlpha
      ensures (smoothingAlpha < 0.0 ==> config.alpha == 0.0) && (smoothingAlpha > 1.0 ==> config.alpha == 1.0)
    {
      config := Config(windowSizeMs, maxActions, if maxDelta > 0.0 then maxDelta else 0.0,
                       if smoothingAlpha < 0.0 then 0.0 else if smoothingAlpha > 1.0 then 1.0 else smoothingAlpha);
      actionTimestamps, lastOutputValue, rateLimitViolations := [], 0.0, 0;
      executions, dropped, latest, orderly := [], 0, start, true;
    }

    method PruneOldTimestamps(now: real)
      requires Valid()
      modifies this`actionTimestamps, this`dropped, this`latest, this`orderly
      ensures Valid() && latest == now && orderly == (old(orderly) && now >= old(latest))
      ensures actionTimestamps == After(old(actionTimestamps), now - config.windowSizeMs)
    {
      orderly := orderly && now >= latest;
      if orderly {
        dropped := Prune(config, executions, actionTimestamps, dropped, latest, now);
      }
      actionTimestamps := After(actionTimestamps, now - config.windowSizeMs);
      latest := now;
    }

    method CanExecute(now: real) returns (ok: bool)
      requires Valid()
      modifies this`actionTimestamps, this`dropped, this`latest, this`orderly
      ensures Valid() && latest == now && orderly == (old(orderly) && now >= old(latest))
      ensures actionTimestamps == After(old(actionTimestamps), now - config.windowSizeMs)
      ensures ok == (|actionTimestamps| < config.maxActions)
    {
      PruneOldTimestamps(now);
      ok := |actionTimestamps| < config.maxActions;
    }

    /** Counts the execution when the window has room. */
    method RegisterExecution(now: real)
      requires Valid()
      modifies this`actionTimestamps, this`dropped, this`latest, this`orderly, this`executions, this`rateLimitViolations
      ensures Valid() && latest == now && orderly == (old(orderly) && now >= old(latest))
      ensures var room := old(HasRoom(now));
        && executions == (if room then old(executions) + [now] else old(executions))
        && rateLimitViolations == old(rateLimitViolations) + if room then 0 else 1
    {
      PruneOldTimestamps(now);
      if |actionTimestamps| >= config.maxActions {
        rateLimitViolations := rateLimitViolations + 1;
        return;
      }
      if orderly {
        Push(config, executions, actionTimestamps, dropped, now);
      }
      actionTimestamps := actionTimestamps + [now];
      executions := executions + [now];
    }

    /** executeGuarded: inside the window budget the capped and smoothed value goes out, else the last
        one again. */
    method ExecuteGuarded(previous: real, next: real, now: real) returns (out: real)
      requires Valid()
      modifies this
      ensures Valid() && latest == now && orderly == (old(orderly) && now >= old(latest)) && out == lastOutputValue
      ensures var room := old(HasRoom(now));
        && out == (if room then Smooth(config, old(lastOutputValue), CapDelta(config, previous, next))
            else old(lastOutputValue))
        && executions == (if room then old(executions) + [now] else old(executions))
        && rateLimitViolations == old(rateLimitViolations) + if room then 0 else 1
    {
      var ok := CanExecute(now);
      if !ok {
        rateLimitViolations := rateLimitViolations + 1;
        return lastOutputValue;
      }
      PrunedTwice(old(actionTimestamps), now - config.windowSizeMs);
      out := LimitAndSmooth(previous, next);
      lastOutputValue := out;
      RegisterExecution(now);
    }

    method LimitAndSmooth(previous: real, next: real) returns (out: real)
      requires Clamped(config)
      ensures out == Smooth(config, lastOutputValue, CapDelta(config, previous, next))
    {
      var capped := ApplyDeltaLimit(previous, next);
      out := ApplySmoothing(lastOutputValue, capped);
    }

    method ApplyDeltaLimit(previous: real, next: real) returns (out: real)
      requires Clamped(config)
      ensures out == CapDelta(config, previous, next)
    {
      if config.maxDelta <= 0.0 {
        return next;
      }
      var delta := next - previous;
      var bound := AbsReal(previous) * config.maxDelta;
      if !Above(AbsReal(previous), config.maxDelta, NEAR_ZERO) || AbsReal(delta) <= bound {
        return next;
      }
      out := if delta >= 0.0 then previous + bound else previous - bound;
    }

    method ApplySmoothing(previous: real, next: real) returns (out: real)
      ensures out == Smooth(config, previous, next)
    {
      out := config.alpha * next + (1.0 - config.alpha) * previous;
    }

    /** There is room exactly when less than maxActions of all executions so far lie in that window, as long as no
        call went back in time. */
    lemma RoomExactly(now: real)
      requires Valid() && orderly && now >= latest
      ensures HasRoom(now) <==>
                |set i | 0 <= i < |executions| && now - config.windowSizeMs < executions[i]| < config.maxActions
    {
      KeptAreRecent(config, executions, actionTimestamps, dropped, latest, now);
    }

    /** In every reachable state of a limiter that was never called with a time before the last one, and for
        a positive budget, any window holds at most maxActions executions. */
    lemma WindowsHold(lo: nat, hi: nat, end: real)
      requires Valid() && orderly && config.maxActions > 0 && lo <= hi <= |executions|
      requires InWindow(config, executions, lo, hi, end)
      ensures hi - lo <= config.maxActions
    {
      WindowBound(config, executions, lo, hi, end);
    }
  }

  lemma KeptAreRecent(c: Config, executions: seq<real>, kept: seq<real>, dropped: nat, latest: real, now: real)
    requires Keeps(c, executions, kept, dropped, latest) && now >= latest
    ensures |After(kept, now - c.windowSizeMs)| ==
            |set i | 0 <= i < |executions| && now - c.windowSizeMs < executions[i]|
  {
    var cutoff := now - c.windowSizeMs;
    var k := AfterIsSuffix(kept, cutoff);
    AfterAll(kept, cutoff);
    DroppedTwice(executions, dropped, k);
    RecentIsSuffix(executions, cutoff, dropped, k);
  }

  lemma DroppedTwice(times: seq<real>, m: nat, n: nat)
    requires m + n <= |times|
    ensures times[m..][n..] == times[m + n..]
  {
  }

  ghost predicate AllBeyond(times: seq<real>, cutoff: real) {
    forall i :: 0 <= i < |times| ==> times[i] > cutoff
  }

  lemma RecentIsSuffix(executions: seq<real>, cutoff: real, dropped: nat, k: nat)
    requires dropped + k <= |executions|
    requires forall i :: 0 <= i < dropped ==> executions[i] <= cutoff
    requires forall i :: 0 <= i < k ==> executions[dropped..][i] <= cutoff
    requires AllBeyond(executions[dropped + k..], cutoff)
    ensures |set i | 0 <= i < |executions| && cutoff < executions[i]| == |executions| - dropped - k
  {
    var first := dropped + k;
    forall i | 0 <= i < |executions|
      ensures cutoff < executions[i] <==> first <= i
    {
      if i >= first {
        assert executions[i] == executions[first..][i - first];
      } else if i >= dropped {
        assert executions[i] == executions[dropped..][i - dropped];
      }
    }
    assert (set i | 0 <= i < |executions| && cutoff < executions[i]) == Interval(first, |executions|);
  }

  ghost function Interval(lo: nat, hi: nat): (s: set<int>)
    requires lo <= hi
    ensures |s| == hi - lo && forall i :: i in s <==> lo <= i < hi
  {
    if lo == hi then {} else Interval(lo, hi - 1) + {hi - 1}
  }

  lemma PrunedTwice(times: seq<real>, cutoff: real)
    ensures After(After(times, cutoff), cutoff) == After(times, cutoff)
  {
    AfterAll(times, cutoff);
    AllAfter(After(times, cutoff), cutoff);
  }

  lemma {:induction false} AfterAll(times: seq<real>, cutoff: real)
    ensures forall i :: 0 <= i < |After(times, cutoff)| ==> After(times, cutoff)[i] > cutoff
  {
    if |times| > 0 {
      AfterAll(times[1..], cutoff);
    }
  }

  // ----- the controller -----

  class AdaptiveController {
    const rateLimiter: AdaptiveRateLimiter
    var lastNumericValue: real

    /** Controller and limiter hold the same value. */
    ghost predicate Valid()
      reads this, rateLimiter
    {
      rateLimiter.Valid() && lastNumericValue == rateLimiter.lastOutputValue
    }

    constructor (windowSizeMs: real, maxActions: int, maxDelta: real, smoothingAlpha: real, ghost start: real)
      ensures Valid() && fresh(rateLimiter) && lastNumericValue == 0.0 && rateLimiter.latest == start
          && rateLimiter.orderly
    {
      rateLimiter := new AdaptiveRateLimiter(windowSizeMs, maxActions, maxDelta, smoothingAlpha, start);
      lastNumericValue := 0.0;
    }

    /** wrapNumericDecision: the value moves by one capped and smoothed step, or not at all. */
    method WrapNumericDecision(next: real, now: real) returns (out: real)
      requires Valid()
      modifies this, rateLimiter
      ensures Valid() && out == lastNumericValue && rateLimiter.latest == now
      ensures rateLimiter.orderly == old(rateLimiter.orderly && now >= rateLimiter.latest)
      ensures out == (if old(rateLimiter.HasRoom(now)) then Moved(rateLimiter.config, old(lastNumericValue), next)
          else old(lastNumericValue))
    {
      out := rateLimiter.ExecuteGuarded(lastNumericValue, next, now);
      lastNumericValue := out;
    }

    method SetLastNumericValue(value: real)
      requires Valid()
      modifies this, rateLimiter`lastOutputValue
      ensures Valid() && lastNumericValue == value
    {
      lastNumericValue := value;
      rateLimiter.lastOutputValue := value;
    }
  }

  /** One executed decision, from the common value of controller and limiter. */
  function Moved(c: Config, value: real, next: real): real {
    Smooth(c, value, CapDelta(c, value, next))
  }

  // ----- how far values can drift -----

  lemma MulNonneg(a: real, b: real)
    requires a >= 0.0 && b >= 0.0
    ensures a * b >= 0.0
  {
  }

  lemma MulMono(a: real, b: real, c: real)
    requires a <= b && c >= 0.0
    ensures c * a <= c * b && a * c <= b * c
  {
    MulNonneg(c, b - a);
  }

  lemma MoveIsScaled(a: real, value: real, next: real)
    ensures a * next + (1.0 - a) * value - value == a * (next - value)
  {
    assert (1.0 - a) * value == value - a * value;
    assert a * (next - value) == a * next - a * value;
  }

  lemma ScaledWithin(a: real, delta: real, bound: real)
    requires a >= 0.0 && AbsReal(delta) <= bound
    ensures AbsReal(a * delta) <= a * bound
  {
    MulMono(delta, bound, a);
    MulMono(-bound, delta, a);
    assert a * (-bound) == -(a * bound);
  }

  lemma CapWithin(c: Config, value: real, next: real)
    requires Clamped(c) && Capping(c, value)
    ensures AbsReal(CapDelta(c, value, next) - value) <= AbsReal(value) * c.maxDelta
  {
    MulNonneg(AbsReal(value), c.maxDelta);
  }

  /** How far a decision goes before smoothing: all the way to its input, but where there is a limit, and the bound
      is not next to zero, no farther than the bound in either direction. */
  function Stride(limit: real, bound: real, way: real): real {
    if limit <= 0.0 || bound < 0.0000000001 then way
    else if way > bound then bound
    else if way < -bound then -bound
    else way
  }

  /** The cap goes toward its input, at most the given part of the value's own size. */
  lemma CapExactly(c: Config, previous: real, next: real, bound: real)
    requires bound == AbsReal(previous) * c.maxDelta
    ensures CapDelta(c, previous, next) == previous + Stride(c.maxDelta, bound, next - previous)
  {
    AboveBound(AbsReal(previous), c.maxDelta, bound, NEAR_ZERO);
  }

  lemma AboveBound(v: real, d: real, bound: real, floor: real)
    requires bound == v * d
    ensures Above(v, d, floor) <==> bound >= floor
  {
  }

  lemma StrideBetween(limit: real, bound: real, way: real)
    ensures way >= 0.0 ==> 0.0 <= Stride(limit, bound, way) <= way
    ensures way <= 0.0 ==> way <= Stride(limit, bound, way) <= 0.0
  {
  }

  lemma ScaledBetween(a: real, x: real)
    requires 0.0 <= a <= 1.0
    ensures x >= 0.0 ==> 0.0 <= a * x <= x
    ensures x <= 0.0 ==> x <= a * x <= 0.0
  {
    if x >= 0.0 {
      MulNonneg(a, x);
      MulNonneg(1.0 - a, x);
      assert (1.0 - a) * x == x - a * x;
    } else {
      MulNonneg(a, -x);
      MulNonneg(1.0 - a, -x);
      assert (1.0 - a) * (-x) == -x + a * x;
    }
  }

  /** Smoothing goes the part alpha of the way. */
  lemma SmoothExactly(c: Config, last: real, next: real)
    ensures Smooth(c, last, next) == last + c.alpha * (next - last)
  {
    MoveIsScaled(c.alpha, last, next);
  }

  /** An executed decision moves the value by alpha times its stride; so it never overshoots its input and never
      moves away from it. */
  lemma MoveExactly(c: Config, value: real, next: real, stride: real)
    requires Clamped(c) && stride == Stride(c.maxDelta, AbsReal(value) * c.maxDelta, next - value)
    ensures Moved(c, value, next) == value + c.alpha * stride
    ensures value <= next ==> value <= Moved(c, value, next) <= next
    ensures next <= value ==> next <= Moved(c, value, next) <= value
  {
    CapExactly(c, value, next, AbsReal(value) * c.maxDelta);
    SmoothExactly(c, value, value + stride);
    StrideBetween(c.maxDelta, AbsReal(value) * c.maxDelta, next - value);
    Lands(c.alpha, value, next, stride);
  }

  lemma Lands(a: real, value: real, next: real, stride: real)
    requires 0.0 <= a <= 1.0
    requires next >= value ==> 0.0 <= stride <= next - value
    requires next <= value ==> next - value <= stride <= 0.0
    ensures value <= next ==> value <= value + a * stride <= next
    ensures next <= value ==> next <= value + a * stride <= value
  {
    ScaledBetween(a, stride);
  }

  /** Where the cap is active an executed decision moves the value by at most alpha * maxDelta of itself. */
  lemma MoveBound(c: Config, value: real, next: real)
    requires Clamped(c) && Capping(c, value)
    ensures AbsReal(Moved(c, value, next) - value) <= Reach(c, value)
  {
    CapWithin(c, value, next);
    var capped := CapDelta(c, value, next);
    MoveIsScaled(c.alpha, value, capped);
    ScaledWithin(c.alpha, capped - value, AbsReal(value) * c.maxDelta);
  }

  function Power(b: real, n: nat): real {
    if n == 0 then 1.0 else b * Power(b, n - 1)
  }

  lemma {:induction false} PowerNonneg(b: real, n: nat)
    requires b >= 0.0
    ensures Power(b, n) >= 0.0
  {
    if n > 0 {
      PowerNonneg(b, n - 1);
      MulNonneg(b, Power(b, n - 1));
    }
  }

  /** The values of a run of decisions: each stays or moves towards its input. */
  ghost predicate ValueRun(c: Config, values: seq<real>, inputs: seq<real>) {
    && |values| == |inputs| + 1
    && forall i :: 0 <= i < |inputs| ==> values[i + 1] == values[i] || values[i + 1] == Moved(c, values[i], inputs[i])
  }

  /** The factors by which a magnitude can grow and shrink in one decision. */
  function Up(c: Config): real {
    1.0 + c.alpha * c.maxDelta
  }

  function Down(c: Config): real {
    1.0 - c.alpha * c.maxDelta
  }

  predicate Grows(g: real, before: real, after: real) {
    after <= g * before
  }

  predicate Lasts(s: real, before: real, after: real) {
    after >= s * before
  }

  /** How far one decision can move a value under the cap. */
  function Reach(c: Config, value: real): real {
    c.alpha * (AbsReal(value) * c.maxDelta)
  }

  lemma DecisionReach(c: Config, value: real, after: real, next: real)
    requires Clamped(c) && Capping(c, value) && (after == value || after == Moved(c, value, next))
    ensures AbsReal(after - value) <= Reach(c, value)
  {
    StayBound(c.alpha, c.maxDelta, value);
    if after != value {
      MoveBound(c, value, next);
    }
  }

  lemma StepBounds(c: Config, value: real, after: real)
    requires AbsReal(after - value) <= Reach(c, value)
    ensures Grows(Up(c), AbsReal(value), AbsReal(after)) && Lasts(Down(c), AbsReal(value), AbsReal(after))
  {
    MoveFactors(c.alpha, c.maxDelta, value, after);
  }

  lemma StayBound(a: real, d: real, value: real)
    requires a >= 0.0 && d >= 0.0
    ensures AbsReal(value - value) <= a * (AbsReal(value) * d)
  {
    MulNonneg(AbsReal(value), d);
    MulNonneg(a, AbsReal(value) * d);
  }

  lemma MoveFactors(a: real, d: real, value: real, after: real)
    requires AbsReal(after - value) <= a * (AbsReal(value) * d)
    ensures Grows(1.0 + a * d, AbsReal(value), AbsReal(after)) && Lasts(1.0 - a * d, AbsReal(value), AbsReal(after))
  {
    FactorsApplied(a, d, AbsReal(value));
    Triangle(value, after, a * (AbsReal(value) * d));
  }

  lemma Triangle(value: real, after: real, x: real)
    requires AbsReal(after - value) <= x
    ensures AbsReal(value) - x <= AbsReal(after) <= AbsReal(value) + x
  {
  }

  lemma FactorsApplied(a: real, d: real, v: real)
    ensures (1.0 + a * d) * v == v + a * (v * d) && (1.0 - a * d) * v == v - a * (v * d)
  {
    assert a * (v * d) == (a * d) * v;
  }

  lemma Regroup(a: real, b: real, v: real)
    ensures a * (b * v) == (a * b) * v
  {
  }

  ghost predicate AtMost(m: seq<real>, g: real, i: nat) {
    i + 1 < |m| ==> Grows(g, m[i], m[i + 1])
  }

  ghost predicate AtLeast(m: seq<real>, s: real, i: nat) {
    i + 1 < |m| ==> Lasts(s, m[i], m[i + 1])
  }

  lemma {:induction false} GeometricUp(m: seq<real>, g: real)
    requires |m| > 0 && g >= 0.0 && forall i: nat :: i < |m| ==> AtMost(m, g, i)
    ensures Grows(Power(g, |m| - 1), m[0], m[|m| - 1])
  {
    var n := |m| - 1;
    if n > 0 {
      forall i: nat | i < n
        ensures AtMost(m[..n], g, i)
      {
        assert AtMost(m, g, i);
      }
      GeometricUp(m[..n], g);
      assert AtMost(m, g, n - 1);
      Compound(g, Power(g, n - 1), m[0], m[n - 1], m[n]);
    }
  }

  lemma Compound(g: real, p: real, first: real, before: real, after: real)
    requires g >= 0.0 && Grows(p, first, before) && Grows(g, before, after)
    ensures Grows(g * p, first, after)
  {
    MulMono(before, p * first, g);
    Regroup(g, p, first);
  }

  lemma Shrink(s: real, p: real, first: real, before: real, after: real)
    requires s >= 0.0 && Lasts(p, first, before) && Lasts(s, before, after)
    ensures Lasts(s * p, first, after)
  {
    MulMono(p * first, before, s);
    Regroup(s, p, first);
  }

  /** Shrinking by at most the factor s while above a floor: a start high enough stays above it. */
  lemma {:induction false} GeometricDown(m: seq<real>, s: real, d: real, floor: real, k: nat)
    requires k < |m| && 0.0 <= s <= 1.0 && d > 0.0 && m[0] >= 0.0
    requires forall i: nat :: i < |m| && Above(m[i], d, floor) ==> AtLeast(m, s, i)
    requires Floor(Power(s, k), m[0], d, floor)
    ensures Lasts(Power(s, k), m[0], m[k]) && Above(m[k], d, floor)
  {
    if k > 0 {
      EarlierFloor(s, k, m[0], d, floor);
      GeometricDown(m, s, d, floor, k - 1);
      assert AtLeast(m, s, k - 1);
      Shrink(s, Power(s, k - 1), m[0], m[k - 1], m[k]);
    } else {
      assert Power(s, 0) == 1.0;
    }
    FloorReached(Power(s, k), m[0], m[k], d, floor);
  }

  /** A magnitude of at least p times first is above the floor. */
  predicate Floor(p: real, first: real, d: real, floor: real) {
    Above(p * first, d, floor)
  }

  lemma FloorReached(p: real, first: real, after: real, d: real, floor: real)
    requires Floor(p, first, d, floor) && Lasts(p, first, after) && d > 0.0
    ensures Above(after, d, floor)
  {
    MulMono(p * first, after, d);
  }

  lemma PowerFalls(s: real, n: nat)
    requires 0.0 <= s <= 1.0 && n > 0
    ensures Power(s, n) <= Power(s, n - 1)
  {
    PowerNonneg(s, n - 1);
    MulMono(s, 1.0, Power(s, n - 1));
  }

  lemma EarlierFloor(s: real, n: nat, v: real, d: real, floor: real)
    requires 0.0 <= s <= 1.0 && n > 0 && v >= 0.0 && d > 0.0 && Floor(Power(s, n), v, d, floor)
    ensures Floor(Power(s, n - 1), v, d, floor)
  {
    PowerFalls(s, n);
    FloorMono(Power(s, n), Power(s, n - 1), v, d, floor);
  }

  lemma FloorMono(p: real, q: real, v: real, d: real, floor: real)
    requires p <= q && v >= 0.0 && d > 0.0 && Floor(p, v, d, floor)
    ensures Floor(q, v, d, floor)
  {
    MulMono(p, q, v);
    MulMono(p * v, q * v, d);
  }

  lemma {:induction false} FloorFalls(s: real, k: nat, n: nat, v: real, d: real, floor: real)
    requires 0.0 <= s <= 1.0 && k <= n && v >= 0.0 && d > 0.0 && Floor(Power(s, n), v, d, floor)
    ensures Floor(Power(s, k), v, d, floor)
  {
    if k < n {
      EarlierFloor(s, n, v, d, floor);
      FloorFalls(s, k, n - 1, v, d, floor);
    }
  }

  function Magnitudes(values: seq<real>): (m: seq<real>)
    ensures |m| == |values| && forall i :: 0 <= i < |m| ==> m[i] == AbsReal(values[i])
  {
    seq(|values|, i requires 0 <= i < |values| => AbsReal(values[i]))
  }

  lemma FactorsInRange(c: Config)
    requires Clamped(c)
    ensures Up(c) >= 1.0 && Down(c) <= 1.0
  {
    MulNonneg(c.alpha, c.maxDelta);
  }

  /** Geometric growth over any run along which the cap is active. */
  lemma GrowthBound(c: Config, values: seq<real>, inputs: seq<real>)
    requires Clamped(c) && ValueRun(c, values, inputs)
    requires forall i :: 0 <= i < |inputs| ==> Capping(c, values[i])
    ensures Grows(Power(Up(c), |inputs|), AbsReal(values[0]), AbsReal(values[|inputs|]))
  {
    var m := Magnitudes(values);
    forall i: nat | i < |m|
      ensures AtMost(m, Up(c), i)
    {
      if i < |inputs| {
        DecisionReach(c, values[i], values[i + 1], inputs[i]);
        StepBounds(c, values[i], values[i + 1]);
      }
    }
    FactorsInRange(c);
    GeometricUp(m, Up(c));
  }

  /** The cap cannot switch itself off too soon: a start value far enough from zero keeps it active, so
      both geometric bounds hold over the whole run, whatever the inputs are. */
  lemma CapStaysActive(c: Config, values: seq<real>, inputs: seq<real>)
    requires Clamped(c) && c.maxDelta > 0.0 && Down(c) >= 0.0 && ValueRun(c, values, inputs)
    requires Floor(Power(Down(c), |inputs|), AbsReal(values[0]), c.maxDelta, NEAR_ZERO)
    ensures forall i :: 0 <= i <= |inputs| ==> Capping(c, values[i])
    ensures Grows(Power(Up(c), |inputs|), AbsReal(values[0]), AbsReal(values[|inputs|]))
    ensures Lasts(Power(Down(c), |inputs|), AbsReal(values[0]), AbsReal(values[|inputs|]))
  {
    var m := Magnitudes(values);
    forall i: nat | i < |m| && Above(m[i], c.maxDelta, NEAR_ZERO)
      ensures AtLeast(m, Down(c), i)
    {
      if i < |inputs| {
        DecisionReach(c, values[i], values[i + 1], inputs[i]);
        StepBounds(c, values[i], values[i + 1]);
      }
    }
    FactorsInRange(c);
    forall i | 0 <= i <= |inputs|
      ensures Capping(c, values[i])
    {
      FloorFalls(Down(c), i, |inputs|, m[0], c.maxDelta, NEAR_ZERO);
      GeometricDown(m, Down(c), c.maxDelta, NEAR_ZERO, i);
    }
    GeometricDown(m, Down(c), c.maxDelta, NEAR_ZERO, |inputs|);
    GrowthBound(c, values, inputs);
  }

  /** Next to zero nothing is capped: there, for instance at the initial value 0, one decision can move
      the value by more than any bound. */
  lemma NearZeroUncapped(c: Config, value: real, bound: real) returns (next: real)
    requires Clamped(c) && !Capping(c, value) && c.alpha > 0.0
    ensures AbsReal(Moved(c, value, next) - value) > bound
  {
    var jump := (AbsReal(bound) + 1.0) / c.alpha;
    next := value + jump;
    MoveIsScaled(c.alpha, value, next);
    assert c.alpha * jump == AbsReal(bound) + 1.0;
  }
}
