/** The token-bucket limiter of internal/ratelimit/limiter.go, over real arithmetic. */
module RateLimit {

  /** Tokens left, and the tokens a clock running at the limiter's rate had earned at the last refill. */
  datatype Bucket = Bucket(tokens: real, earned: real)

  function Cap(x: real, burst: int): real {
    if x > burst as real then burst as real else x
  }

  /** Tokens available to a call, after the refill and the cap. */
  function Refilled(burst: int, b: Bucket, earned: real): real {
    Cap(b.tokens + (earned - b.earned), burst)
  }

  function AfterCall(burst: int, b: Bucket, earned: real): Bucket {
    var t := Refilled(burst, b, earned);
    Bucket(if t < 1.0 then t else t - 1.0, earned)
  }

  class Limiter {
    const rate: real
    const burst: int
    const disabled: bool
    var tokens: real
    var lastTime: real

    ghost function State(): Bucket
      reads this
    {
      Bucket(tokens, rate * lastTime)
    }

    /** NewLimiter: a rate that is not positive disables limiting. */
    constructor (rate: real, burst: int, now: real)
      ensures disabled <==> rate <= 0.0
      ensures !disabled ==> this.rate == rate && this.burst == burst
      ensures !disabled ==> State() == Bucket(burst as real, rate * now)
    {
      this.disabled := rate <= 0.0;
      this.rate := if rate <= 0.0 then 0.0 else rate;
      this.burst := if rate <= 0.0 then 0 else burst;
      this.tokens := if rate <= 0.0 then 0.0 else burst as real;
      this.lastTime := if rate <= 0.0 then 0.0 else now;
    }

    method Allow(now: real) returns (ok: bool)
      modifies this
      ensures disabled ==> ok && State() == old(State())
      ensures !disabled ==> ok == (Refilled(burst, old(State()), rate * now) >= 1.0)
      ensures !disabled ==> State() == AfterCall(burst, old(State()), rate * now)
    {
      if disabled {
        return true;
      }
      var elapsed := now - lastTime;
      tokens := tokens + elapsed * rate;
      if tokens > burst as real {
        tokens := burst as real;
      }
      lastTime := now;
      if tokens < 1.0 {
        return false;
      }
      tokens := tokens - 1.0;
      return true;
    }

    /** A limiter in the state `b` of some run takes the step the run functions below take. */
    method AllowStep(now: real, ghost earned: real, ghost b: Bucket) returns (ok: bool)
      requires !disabled && State() == b && earned == rate * now
      modifies this
      ensures ok == (Refilled(burst, b, earned) >= 1.0) && State() == AfterCall(burst, b, earned)
    {
      ok := Allow(now);
    }
  }

  /** A fresh limiter answers every sequence of calls as the run functions below say. */
  method Run(rate: real, burst: int, start: real, times: seq<real>) returns (answers: seq<bool>)
    requires rate > 0.0
    ensures |answers| == |times|
    ensures forall j :: 0 <= j < |times| ==> answers[j] == Allowed(burst, rate * start, Earned(rate, times), j)
  {
    var l := new Limiter(rate, burst, start);
    ghost var e, e0 := Earned(rate, times), rate * start;
    answers := [];
    for k := 0 to |times|
      invariant !l.disabled && l.rate == rate && l.burst == burst && |answers| == k
      invariant l.State() == After(burst, e0, e[..k])
      invariant forall j :: 0 <= j < k ==> answers[j] == Allowed(burst, e0, e, j)
    {
      var ok := l.AllowStep(times[k], e[k], After(burst, e0, e[..k]));
      AfterNext(burst, e0, e, k);
      answers := answers + [ok];
    }
  }

  // ----- Runs of calls on one enabled limiter -----

  /** The earned-token reading at each call time. */
  function Earned(rate: real, times: seq<real>): (e: seq<real>)
    ensures |e| == |times| && forall k :: 0 <= k < |times| ==> e[k] == rate * times[k]
  {
    seq(|times|, k requires 0 <= k < |times| => rate * times[k])
  }

  /** The state after the calls at readings `e`, from a limiter created full at reading `e0`. */
  function After(burst: int, e0: real, e: seq<real>): Bucket {
    if e == [] then
      Bucket(burst as real, e0)
    else
      AfterCall(burst, After(burst, e0, e[..|e| - 1]), e[|e| - 1])
  }

  lemma AfterNext(burst: int, e0: real, e: seq<real>, k: nat)
    requires k < |e|
    ensures After(burst, e0, e[..k + 1]) == AfterCall(burst, After(burst, e0, e[..k]), e[k])
  {
    assert e[..k + 1][..k] == e[..k];
  }

  /** The tokens call j finds. */
  function Available(burst: int, e0: real, e: seq<real>, j: nat): real
    requires j < |e|
  {
    Refilled(burst, After(burst, e0, e[..j]), e[j])
  }

  /** Call j of the run is let through. */
  predicate Allowed(burst: int, e0: real, e: seq<real>, j: nat)
    requires j < |e|
  {
    Available(burst, e0, e, j) >= 1.0
  }

  /** How many of the calls i, ..., j - 1 are let through. */
  function Granted(burst: int, e0: real, e: seq<real>, i: nat, j: nat): nat
    requires i <= j <= |e|
    decreases j
  {
    if i == j then 0
    else Granted(burst, e0, e, i, j - 1) + (if Allowed(burst, e0, e, j - 1) then 1 else 0)
  }

  ghost predicate Monotone(e0: real, e: seq<real>) {
    && (forall k :: 0 <= k < |e| ==> e0 <= e[k])
    && (forall k, l :: 0 <= k <= l < |e| ==> e[k] <= e[l])
  }

  /** What the budget of the window from call i to call j still holds just before call j. */
  function Slack(burst: int, e0: real, e: seq<real>, i: nat, j: nat): real
    requires i <= j < |e|
  {
    burst as real + (e[j] - e[i]) - Granted(burst, e0, e, i, j) as real
  }

  /** One call to the next: the bucket gives up what was granted and gains what the gap earned. */
  lemma AvailableNext(burst: int, e0: real, e: seq<real>, j: nat)
    requires j + 1 < |e|
    ensures Available(burst, e0, e, j + 1) ==
            Cap(Available(burst, e0, e, j) - (if Allowed(burst, e0, e, j) then 1.0 else 0.0) + (e[j + 1] - e[j]), burst)
  {
    AfterNext(burst, e0, e, j);
  }

  /** The tokens found by call j are the least slack over all windows that end at j. */
  lemma {:induction false} AvailableIsLeastSlack(burst: int, e0: real, e: seq<real>, j: nat)
    requires Monotone(e0, e) && j < |e|
    ensures forall i :: 0 <= i <= j ==> Available(burst, e0, e, j) <= Slack(burst, e0, e, i, j)
    ensures exists i :: 0 <= i <= j && Available(burst, e0, e, j) == Slack(burst, e0, e, i, j)
  {
    assert Slack(burst, e0, e, j, j) == burst as real;
    if j == 0 {
      assert e[..0] == [];
    } else {
      AvailableIsLeastSlack(burst, e0, e, j - 1);
      AvailableNext(burst, e0, e, j - 1);
      forall i | 0 <= i <= j - 1 ensures Available(burst, e0, e, j) <= Slack(burst, e0, e, i, j) {
        assert Available(burst, e0, e, j - 1) <= Slack(burst, e0, e, i, j - 1);
      }
      var w :| 0 <= w <= j - 1 && Available(burst, e0, e, j - 1) == Slack(burst, e0, e, w, j - 1);
      assert Available(burst, e0, e, j) == Slack(burst, e0, e, w, j)
             || Available(burst, e0, e, j) == Slack(burst, e0, e, j, j);
    }
  }

  /** A call is let through exactly when no window ending at it would go over its budget. */
  lemma AllowedIffEveryWindowFits(burst: int, e0: real, e: seq<real>, j: nat)
    requires Monotone(e0, e) && j < |e|
    ensures Allowed(burst, e0, e, j) <==>
            forall i :: 0 <= i <= j ==> Granted(burst, e0, e, i, j) as real + 1.0 <= burst as real + (e[j] - e[i])
  {
    AvailableIsLeastSlack(burst, e0, e, j);
    assert forall i :: 0 <= i <= j ==>
      (Slack(burst, e0, e, i, j) >= 1.0 <==> Granted(burst, e0, e, i, j) as real + 1.0 <= burst as real + (e[j] - e[i]));
  }

  lemma {:induction false} EarnedWindowBound(burst: int, e0: real, e: seq<real>, i: nat, j: nat)
    requires burst >= 0 && Monotone(e0, e) && i <= j < |e|
    ensures Granted(burst, e0, e, i, j + 1) as real <= burst as real + (e[j] - e[i])
    decreases j
  {
    AllowedIffEveryWindowFits(burst, e0, e, j);
    if !Allowed(burst, e0, e, j) && i < j {
      EarnedWindowBound(burst, e0, e, i, j - 1);
    }
  }

  lemma Scales(rate: real, a: real, b: real, ra: real, rb: real)
    requires rate > 0.0 && a <= b && ra == rate * a && rb == rate * b
    ensures ra <= rb
  {
    assert rate * (b - a) >= 0.0;
  }

  lemma EarnedMonotone(rate: real, start: real, times: seq<real>)
    requires rate > 0.0 && Monotone(start, times)
    ensures Monotone(rate * start, Earned(rate, times))
  {
    var e := Earned(rate, times);
    forall k | 0 <= k < |e| ensures rate * start <= e[k] {
      Scales(rate, start, times[k], rate * start, e[k]);
    }
    forall k, l | 0 <= k <= l < |e| ensures e[k] <= e[l] {
      Scales(rate, times[k], times[l], e[k], e[l]);
    }
  }

  /**
   * The bound over every window of every run with a monotone clock: of the calls from i to j at most
   * burst + rate * (tj - ti) are let through.
   */
  lemma WindowBound(rate: real, burst: int, start: real, times: seq<real>, i: nat, j: nat)
    requires rate > 0.0 && burst >= 0 && Monotone(start, times) && i <= j < |times|
    ensures Granted(burst, rate * start, Earned(rate, times), i, j + 1) as real
            <= burst as real + rate * (times[j] - times[i])
  {
    EarnedMonotone(rate, start, times);
    EarnedWindowBound(burst, rate * start, Earned(rate, times), i, j);
  }

  /** In every run the tokens stay between zero and the burst. */
  lemma {:induction false} TokensInRange(burst: int, e0: real, e: seq<real>)
    requires burst >= 0 && Monotone(e0, e)
    ensures 0.0 <= After(burst, e0, e).tokens <= burst as real
    ensures After(burst, e0, e).earned == if e == [] then e0 else e[|e| - 1]
    decreases |e|
  {
    if e == [] {
    } else {
      TokensInRange(burst, e0, e[..|e| - 1]);
    }
  }
}
