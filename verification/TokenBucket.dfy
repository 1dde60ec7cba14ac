/** The per-adapter rate limiter (internal/adapter/budget.go), with real numbers for its floats. */
module TokenBuckets {
  import opened Prelude

  /** Times are seconds since the zero time, which is 0.0. */
  datatype Bucket = Bucket(tokens: real, capacity: real, rate: real, last: real)

  predicate WellFormed(b: Bucket) {
    b.capacity > 0.0 && b.rate > 0.0 && 0.0 <= b.tokens <= b.capacity
  }

  function Cost(n: real): real { if n <= 0.0 then 1.0 else n }

  function MinReal(a: real, b: real): real { if a < b then a else b }

  /** Tokens that come in over a stretch of time. */
  function Refill(time: real, rate: real): real { time * rate }

  lemma {:induction false} RefillAdds(x: real, y: real, rate: real)
    ensures Refill(x + y, rate) == Refill(x, rate) + Refill(y, rate)
    ensures Refill(0.0, rate) == 0.0
  {}

  lemma {:induction false} RefillPositive(x: real, rate: real)
    requires x >= 0.0 && rate > 0.0
    ensures Refill(x, rate) >= 0.0 && (x > 0.0 ==> Refill(x, rate) > 0.0)
  {}

  /** Tokens a call at this time finds. */
  function Level(b: Bucket, now: real): real {
    if b.last != 0.0 && now - b.last > 0.0 then MinReal(b.capacity, b.tokens + Refill(now - b.last, b.rate)) else b.tokens
  }

  function AfterAllow(b: Bucket, n: real, now: real): (Bucket, bool) {
    var level := Level(b, now);
    if level < Cost(n) then (b.(tokens := level, last := now), false)
    else (b.(tokens := level - Cost(n), last := now), true)
  }

  class TokenBucket {
    var tokens: real
    const capacity: real
    const rate: real
    var last: real

    function Snapshot(): Bucket
      reads this
    {
      Bucket(tokens, capacity, rate, last)
    }

    /** NewTokenBucket: full, with unusable arguments replaced by one. */
    constructor (capacity: real, refillPerSec: real, now: real)
      ensures WellFormed(Snapshot()) && tokens == this.capacity && last == now
      ensures this.capacity == (if capacity > 0.0 then capacity else 1.0)
      ensures rate == if refillPerSec > 0.0 then refillPerSec else 1.0
    {
      var c, r := capacity, refillPerSec;
      if c <= 0.0 { c := 1.0; }
      if r <= 0.0 { r := 1.0; }
      tokens, this.capacity, rate, last := c, c, r, now;
    }

    method Allow(amount: real, now: real) returns (ok: bool)
      modifies `tokens, `last
      ensures (Snapshot(), ok) == AfterAllow(old(Snapshot()), amount, now)
    {
      var n := amount;
      if n <= 0.0 { n := 1.0; }
      if last != 0.0 {
        var elapsed := now - last;
        if elapsed > 0.0 {
          tokens := tokens + elapsed * rate;
          if tokens > capacity { tokens := capacity; }
        }
      }
      last := now;
      if tokens < n { return false; }
      tokens := tokens - n;
      return true;
    }
  }

  // ---- Runs -------------------------------------------------------------------------------------------------

  datatype Call = Call(n: real, now: real)

  function Run(b: Bucket, calls: seq<Call>): Bucket
    decreases |calls|
  {
    if calls == [] then b else Run(AfterAllow(b, calls[0].n, calls[0].now).0, calls[1..])
  }

  /** Tokens handed out. */
  function Granted(b: Bucket, calls: seq<Call>): real
    decreases |calls|
  {
    if calls == [] then 0.0
    else
      var (after, ok) := AfterAllow(b, calls[0].n, calls[0].now);
      (if ok then Cost(calls[0].n) else 0.0) + Granted(after, calls[1..])
  }

  function Forward(from: real, to: real): real { if to > from then to - from else 0.0 }

  /** Forward steps of the clock from one call to the next. */
  function ForwardTime(calls: seq<Call>): real {
    if |calls| < 2 then 0.0 else Forward(calls[0].now, calls[1].now) + ForwardTime(calls[1..])
  }

  lemma {:induction false} LevelInRange(b: Bucket, now: real)
    requires WellFormed(b)
    ensures b.tokens <= Level(b, now) <= b.capacity && Level(b, now) - b.tokens <= Refill(Forward(b.last, now), b.rate)
  {
    hide Refill;
    RefillAdds(0.0, 0.0, b.rate);
    if now > b.last { RefillPositive(now - b.last, b.rate); }
  }

  /** The tokens never leave 0..capacity. */
  lemma {:induction false} RunInRange(b: Bucket, calls: seq<Call>)
    requires WellFormed(b)
    ensures WellFormed(Run(b, calls)) && Run(b, calls).capacity == b.capacity && Run(b, calls).rate == b.rate
    decreases |calls|
  {
    hide Level, Refill;
    if calls != [] {
      LevelInRange(b, calls[0].now);
      RunInRange(AfterAllow(b, calls[0].n, calls[0].now).0, calls[1..]);
    }
  }

  lemma {:induction false} TokensFlow(b: Bucket, window: seq<Call>)
    requires WellFormed(b) && window != []
    ensures Granted(b, window) + Run(b, window).tokens <= Level(b, window[0].now) + Refill(ForwardTime(window), b.rate)
    ensures Run(b, window).tokens >= 0.0
    decreases |window|
  {
    hide Level, Forward, Refill;
    var (after, ok) := AfterAllow(b, window[0].n, window[0].now);
    LevelInRange(b, window[0].now);
    RefillAdds(0.0, 0.0, b.rate);
    if |window| == 1 {
      assert window[1..] == [];
    } else {
      TokensFlow(after, window[1..]);
      LevelInRange(after, window[1].now);
      RefillAdds(Forward(window[0].now, window[1].now), ForwardTime(window[1..]), b.rate);
    }
  }

  /** Conservation: what a window grants plus what it leaves is at most what its first call finds plus rate times time. */
  lemma {:induction false} TokensBound(b: Bucket, window: seq<Call>)
    requires WellFormed(b) && window != []
    ensures Granted(b, window) + Run(b, window).tokens <= Level(b, window[0].now) + b.rate * ForwardTime(window)
    ensures Run(b, window).tokens >= 0.0
  {
    TokensFlow(b, window);
    hide Level, Granted, Run, ForwardTime;
  }

  /** Whatever the state a window starts from, it grants at most the capacity plus rate times its own forward time. */
  lemma {:induction false} WindowBound(b: Bucket, window: seq<Call>)
    requires WellFormed(b)
    ensures Granted(b, window) <= b.capacity + b.rate * ForwardTime(window)
  {
    if window != [] {
      LevelInRange(b, window[0].now);
      TokensBound(b, window);
    } else {
      assert ForwardTime(window) == 0.0 && b.rate * 0.0 == 0.0;
    }
  }

  /** The window of calls i..j of a run grants no more than that, wherever the run began. */
  lemma {:induction false} AnyWindowBound(b: Bucket, calls: seq<Call>, i: nat, j: nat)
    requires WellFormed(b) && i <= j <= |calls|
    ensures Granted(Run(b, calls[..i]), calls[i..j]) <= b.capacity + b.rate * ForwardTime(calls[i..j])
  {
    hide Refill, Level, ForwardTime, Granted, Run;
    RunInRange(b, calls[..i]);
    WindowBound(Run(b, calls[..i]), calls[i..j]);
  }

  // ---- One call exactly ---------------------------------------------------------------------------------------

  /** The tokens and seconds of plain arithmetic: what is there at time now, without overflowing. */
  function Found(tokens: real, capacity: real, rate: real, elapsed: real): real {
    var filled := tokens + rate * elapsed;
    if filled > capacity then capacity else filled
  }

  /**
   * A call is granted if and only if min(capacity, tokens + rate * elapsed) covers its amount, which is one when none is
   * asked for; it then takes that amount, and otherwise nothing. Time that goes back, or a clock never set, adds nothing.
   */
  lemma {:induction false} AllowIff(b: Bucket, n: real, now: real)
    requires WellFormed(b)
    ensures var elapsed := if b.last == 0.0 || now < b.last then 0.0 else now - b.last;
            var found := Found(b.tokens, b.capacity, b.rate, elapsed);
            var amount := if n > 0.0 then n else 1.0;
            var (after, ok) := AfterAllow(b, n, now);
            && (ok <==> found >= amount) && after.tokens == (if ok then found - amount else found)
            && after.last == now && after.capacity == b.capacity && after.rate == b.rate
  {
    var elapsed := if b.last == 0.0 || now < b.last then 0.0 else now - b.last;
    if elapsed == 0.0 { assert b.rate * elapsed == 0.0; }
  }

  /** Between two calls on a clock that runs: the second finds what the first left plus rate times the time between. */
  lemma {:induction false} NextCallFinds(b: Bucket, n: real, now: real, m: real, later: real)
    requires WellFormed(b) && 0.0 < now <= later
    ensures var left := AfterAllow(b, n, now).0;
            AfterAllow(left, m, later).1 <==>
            Found(left.tokens, b.capacity, b.rate, later - now) >= if m > 0.0 then m else 1.0
  {
    AllowIff(b, n, now);
    LevelInRange(b, now);
    AllowIff(AfterAllow(b, n, now).0, m, later);
  }

  /** No call of the window finds the bucket overflowing, or a clock never set. */
  predicate NeverFull(b: Bucket, window: seq<Call>)
    decreases |window|
  {
    window == [] || (b.tokens + b.rate * Forward(b.last, window[0].now) <= b.capacity && window[0].now != 0.0
                     && NeverFull(AfterAllow(b, window[0].n, window[0].now).0, window[1..]))
  }

  /** Forward time of a window, counted from the call before it. */
  function TimeFrom(last: real, window: seq<Call>): real
    decreases |window|
  {
    if window == [] then 0.0 else Forward(last, window[0].now) + TimeFrom(window[0].now, window[1..])
  }

  lemma {:induction false} ForwardTimeFrom(window: seq<Call>)
    requires window != []
    ensures ForwardTime(window) == TimeFrom(window[0].now, window[1..])
    decreases |window|
  {
    hide Forward;
    if |window| > 1 { ForwardTimeFrom(window[1..]); }
  }

  lemma {:induction false} NothingLostOnce(b: Bucket, call: Call)
    requires WellFormed(b) && b.last != 0.0 && b.tokens + b.rate * Forward(b.last, call.now) <= b.capacity
    ensures var (after, ok) := AfterAllow(b, call.n, call.now);
            && after.tokens + (if ok then Cost(call.n) else 0.0) == b.tokens + b.rate * Forward(b.last, call.now)
            && WellFormed(after) && after.rate == b.rate && after.last == call.now
  {
    if call.now <= b.last { assert b.rate * 0.0 == 0.0; }
    LevelInRange(b, call.now);
  }

  lemma {:induction false} Distribute(rate: real, x: real, y: real)
    ensures rate * (x + y) == rate * x + rate * y
  {}

  /** So the bound is reached: as long as the bucket does not overflow, every token that comes in is granted or there. */
  lemma {:induction false} NothingLost(b: Bucket, window: seq<Call>)
    requires WellFormed(b) && b.last != 0.0 && NeverFull(b, window)
    ensures Granted(b, window) + Run(b, window).tokens == b.tokens + b.rate * TimeFrom(b.last, window)
    decreases |window|
  {
    hide AfterAllow, Level, Forward, Cost, Refill, WellFormed;
    if window == [] {
      assert b.rate * 0.0 == 0.0;
    } else {
      NothingLostOnce(b, window[0]);
      NothingLost(AfterAllow(b, window[0].n, window[0].now).0, window[1..]);
      Distribute(b.rate, Forward(b.last, window[0].now), TimeFrom(window[0].now, window[1..]));
    }
  }

  predicate Monotone(from: real, calls: seq<Call>)
    decreases |calls|
  {
    calls == [] || (from <= calls[0].now && Monotone(calls[0].now, calls[1..]))
  }

  /** On a clock that never goes back, the forward time is the length of the window. */
  lemma {:induction false} MonotoneLength(calls: seq<Call>)
    requires calls != [] && Monotone(calls[0].now, calls)
    ensures ForwardTime(calls) == calls[|calls| - 1].now - calls[0].now
    decreases |calls|
  {
    if |calls| > 1 { MonotoneLength(calls[1..]); }
  }

  // ---- Denied calls ---------------------------------------------------------------------------------------

  /** The calls that were allowed. */
  function Allowed(b: Bucket, calls: seq<Call>): seq<Call>
    decreases |calls|
  {
    if calls == [] then []
    else
      var (after, ok) := AfterAllow(b, calls[0].n, calls[0].now);
      (if ok then [calls[0]] else []) + Allowed(after, calls[1..])
  }

  /** Two buckets that nobody can tell apart from time now on. */
  predicate Alike(a: Bucket, b: Bucket, now: real) {
    && WellFormed(a) && WellFormed(b) && a.capacity == b.capacity && a.rate == b.rate
    && 0.0 < a.last <= now && 0.0 < b.last <= now && Level(a, now) == Level(b, now)
  }

  /** Refilling in two steps is refilling in one. */
  lemma {:induction false} LevelComposes(b: Bucket, mid: real, now: real)
    requires WellFormed(b) && 0.0 < b.last <= mid <= now
    ensures Level(b, now) == MinReal(b.capacity, Level(b, mid) + Refill(now - mid, b.rate))
  {
    hide Refill;
    RefillAdds(mid - b.last, now - mid, b.rate);
    RefillAdds(0.0, 0.0, b.rate);
    RefillPositive(now - mid, b.rate);
    RefillPositive(mid - b.last, b.rate);
  }

  lemma {:induction false} AlikeLater(a: Bucket, b: Bucket, now: real, later: real)
    requires Alike(a, b, now) && now <= later
    ensures Alike(a, b, later)
  {
    hide Level, Refill;
    LevelComposes(a, now, later);
    LevelComposes(b, now, later);
  }

  lemma {:induction false} AllowAlike(a: Bucket, b: Bucket, call: Call)
    requires Alike(a, b, call.now)
    ensures AfterAllow(a, call.n, call.now).1 == AfterAllow(b, call.n, call.now).1
    ensures Alike(AfterAllow(a, call.n, call.now).0, AfterAllow(b, call.n, call.now).0, call.now)
    ensures !AfterAllow(a, call.n, call.now).1 ==> Alike(AfterAllow(a, call.n, call.now).0, b, call.now)
  {
    hide Refill;
    LevelInRange(a, call.now);
  }

  /** Where the clock stands after the calls. */
  function EndTime(from: real, calls: seq<Call>): real { if calls == [] then from else calls[|calls| - 1].now }

  lemma {:induction false} AlikeRuns(a: Bucket, b: Bucket, now: real, calls: seq<Call>)
    requires Alike(a, b, now) && Monotone(now, calls)
    ensures Allowed(b, Allowed(a, calls)) == Allowed(a, calls)
    ensures Alike(Run(a, calls), Run(b, Allowed(a, calls)), EndTime(now, calls))
    decreases |calls|
  {
    hide Alike;
    if calls != [] {
      var call := calls[0];
      AlikeLater(a, b, now, call.now);
      AllowAlike(a, b, call);
      var (after, ok) := AfterAllow(a, call.n, call.now);
      var rest := Allowed(after, calls[1..]);
      if ok {
        AlikeRuns(after, AfterAllow(b, call.n, call.now).0, call.now, calls[1..]);
        assert ([call] + rest)[1..] == rest;
      } else {
        AlikeRuns(after, b, call.now, calls[1..]);
        assert Allowed(a, calls) == rest;
      }
      assert EndTime(now, calls) == EndTime(call.now, calls[1..]);
    }
  }

  /**
   * While the clock never goes back, denied calls cannot be observed: without them every remaining call
   * is allowed just the same, and from then on the bucket holds the same at every later time.
   */
  lemma {:induction false} DeniedCallsUnobservable(b: Bucket, calls: seq<Call>, later: real)
    requires WellFormed(b) && 0.0 < b.last && Monotone(b.last, calls) && EndTime(b.last, calls) <= later
    ensures Allowed(b, Allowed(b, calls)) == Allowed(b, calls)
    ensures Level(Run(b, calls), later) == Level(Run(b, Allowed(b, calls)), later)
  {
    AlikeRuns(b, b, b.last, calls);
    AlikeLater(Run(b, calls), Run(b, Allowed(b, calls)), EndTime(b.last, calls), later);
  }

  /**
   * Exactly when one denied call leaves no trace: when its clock had not gone back, or the bucket was
   * full. Otherwise time that was already paid for is refilled again.
   */
  lemma {:induction false} DenialUnseenIff(b: Bucket, n: real, now: real)
    requires WellFormed(b) && b.last != 0.0 && now != 0.0 && !AfterAllow(b, n, now).1
    ensures (forall later :: later >= b.last && later >= now ==> Level(AfterAllow(b, n, now).0, later) == Level(b, later))
        <==> now >= b.last || b.tokens == b.capacity
  {
    hide Refill;
    var after := AfterAllow(b, n, now).0;
    LevelInRange(b, now);
    if now >= b.last {
      forall later | later >= now ensures Level(after, later) == Level(b, later) { RefillAgain(b, now, later); }
    } else {
      RefillPositive(b.last - now, b.rate);
      assert Level(b, b.last) == b.tokens;
      forall later | later >= b.last && b.tokens == b.capacity ensures Level(after, later) == Level(b, later) {
        LevelInRange(after, later);
        LevelInRange(b, later);
      }
    }
  }

  lemma {:induction false} RefillAgain(b: Bucket, now: real, later: real)
    requires WellFormed(b) && b.last != 0.0 && now != 0.0 && b.last <= now <= later
    ensures Level(b.(tokens := Level(b, now), last := now), later) == Level(b, later)
  {
    hide Refill;
    RefillAdds(now - b.last, later - now, b.rate);
    RefillAdds(0.0, 0.0, b.rate);
    RefillPositive(later - now, b.rate);
    RefillPositive(now - b.last, b.rate);
  }
}
