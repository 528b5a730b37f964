/** The token bucket of `resilience/rate_limiter.py`. The monotonic clock is an input of each
    operation; the body of `acquire` runs under one lock with no await, so it is one step. */
module RateLimiter {
  import opened Prelude

  datatype Bucket = Bucket(capacity: int, rate: real, tokens: real, last: real)

  /** One call `acquire(tokens)` that reaches the lock at time `now`. */
  datatype Request = Request(now: real, tokens: int)

  datatype RateLimitError = RateLimitError(available: real, requested: int)

  /** Tokens that accrue over `elapsed` seconds. Most proofs below hide this product and use only
      that it is additive in the elapsed time and monotone. */
  function Credit(elapsed: real, rate: real): real {
    elapsed * rate
  }

  /** Tokens in the bucket once the elapsed time has been credited. */
  function Available(b: Bucket, now: real): real {
    MinReal(b.capacity as real, b.tokens + Credit(now - b.last, b.rate))
  }

  predicate Admits(b: Bucket, r: Request) {
    r.tokens as real <= Available(b, r.now)
  }

  /** Tokens handed out to `r`: all it asked for, or none. */
  function Grant(b: Bucket, r: Request): int {
    if Admits(b, r) then r.tokens else 0
  }

  function After(b: Bucket, r: Request): Bucket {
    b.(tokens := Available(b, r.now) - Grant(b, r) as real, last := r.now)
  }

  function Run(b: Bucket, rs: seq<Request>): Bucket {
    if rs == [] then b else After(Run(b, rs[..|rs| - 1]), rs[|rs| - 1])
  }

  /** Tokens granted to requests j, j+1, ... of the run. */
  function GrantedSince(b: Bucket, rs: seq<Request>, j: nat): int {
    if j >= |rs| then 0
    else
      var before := rs[..|rs| - 1];
      GrantedSince(b, before, j) + if Admits(Run(b, before), rs[|rs| - 1]) then rs[|rs| - 1].tokens else 0
  }

  /** A freshly constructed bucket is full. */
  predicate Full(b: Bucket) {
    b.tokens == b.capacity as real
  }

  /** What the sliding window that opened at time `start` and has granted `granted` still allows. */
  function Room(b: Bucket, start: real, now: real, granted: int): real {
    b.capacity as real + (now - start) * b.rate - granted as real
  }

  lemma RoomMeans(b: Bucket, start: real, now: real, granted: int)
    ensures Room(b, start, now, granted) == b.capacity as real + Credit(now - start, b.rate) - granted as real
  {
  }

  /** `x` is within the window that opens now, the window that opened at construction, and the
      window that opened at each earlier request. */
  ghost predicate WithinAllWindows(b: Bucket, rs: seq<Request>, now: real, x: real) {
    && x <= b.capacity as real
    && x <= Room(b, b.last, now, GrantedSince(b, rs, 0))
    && forall j {:trigger rs[j]} :: 0 <= j < |rs| ==> x <= Room(b, rs[j].now, now, GrantedSince(b, rs, j))
  }

  /** The clock never runs backwards, starting from `start`. */
  predicate Monotone(start: real, rs: seq<Request>) {
    rs == [] ||
    var n := |rs| - 1;
    Monotone(start, rs[..n]) && (if n == 0 then start else rs[n - 1].now) <= rs[n].now
  }

  // ---------------------------------------------------------------- the sliding-window theorem

  lemma RunKeepsShape(b: Bucket, rs: seq<Request>)
    ensures Run(b, rs).capacity == b.capacity && Run(b, rs).rate == b.rate
    ensures rs != [] ==> Run(b, rs).last == rs[|rs| - 1].now
  {
    if rs != [] { RunKeepsShape(b, rs[..|rs| - 1]); }
  }

  lemma CreditSplits(start: real, mid: real, now: real, rate: real)
    ensures Credit(now - start, rate) == Credit(mid - start, rate) + Credit(now - mid, rate)
    ensures Credit(now - now, rate) == 0.0
  {
  }

  lemma CreditNonNegative(elapsed: real, rate: real)
    requires elapsed >= 0.0 && rate >= 0.0
    ensures Credit(elapsed, rate) >= 0.0
  {
  }

  /** Seen from the last request of a run, the room of an older window shrinks by what that request
      was granted and grows by the credit since. */
  lemma RoomShift(b: Bucket, rs: seq<Request>, start: real, now: real, j: nat)
    requires j < |rs|
    ensures var n := |rs| - 1;
      Room(b, start, now, GrantedSince(b, rs, j))
        == Room(b, start, rs[n].now, GrantedSince(b, rs[..n], j))
           - Grant(Run(b, rs[..n]), rs[n]) as real + Credit(now - rs[n].now, b.rate)
  {
    hide Credit, Room, Run, Admits;
    var n := |rs| - 1;
    RoomMeans(b, start, now, GrantedSince(b, rs, j));
    RoomMeans(b, start, rs[n].now, GrantedSince(b, rs[..n], j));
    CreditSplits(start, rs[|rs| - 1].now, now, b.rate);
  }

  /** `y` is the bound `x` moved from `now` back to just before the last request of the run. */
  predicate ShiftedBack(b: Bucket, rs: seq<Request>, now: real, x: real, y: real)
    requires rs != []
  {
    var n := |rs| - 1;
    y == x + Grant(Run(b, rs[..n]), rs[n]) as real - Credit(now - rs[n].now, b.rate)
  }

  lemma WindowShift(b: Bucket, rs: seq<Request>, now: real, x: real, y: real, start: real, j: nat)
    requires j < |rs| && ShiftedBack(b, rs, now, x, y)
    ensures x <= Room(b, start, now, GrantedSince(b, rs, j))
       <==> y <= Room(b, start, rs[|rs| - 1].now, GrantedSince(b, rs[..|rs| - 1], j))
  {
    RoomShift(b, rs, start, now, j);
    hide Room, Credit, Grant, Run, GrantedSince;
  }

  lemma LastWindowShift(b: Bucket, rs: seq<Request>, now: real, x: real, y: real)
    requires rs != [] && ShiftedBack(b, rs, now, x, y)
    ensures var n := |rs| - 1;
      x <= Room(b, rs[n].now, now, GrantedSince(b, rs, n)) <==> y <= b.capacity as real
  {
    var n := |rs| - 1;
    hide Credit, Room, ShiftedBack;
    WindowShift(b, rs, now, x, y, rs[n].now, n);
    RoomMeans(b, rs[n].now, rs[n].now, GrantedSince(b, rs[..n], n));
    CreditSplits(rs[n].now, rs[n].now, rs[n].now, b.rate);
  }

  /** A bound fits the windows of a run iff it fits the window that opens now and, shifted back,
      the windows that were open at the last request. */
  lemma WindowsShift(b: Bucket, rs: seq<Request>, now: real, x: real, y: real)
    requires rs != [] && ShiftedBack(b, rs, now, x, y)
    ensures WithinAllWindows(b, rs, now, x)
       <==> x <= b.capacity as real && WithinAllWindows(b, rs[..|rs| - 1], rs[|rs| - 1].now, y)
  {
    var n := |rs| - 1;
    var before := rs[..n];
    WindowShift(b, rs, now, x, y, b.last, 0);
    LastWindowShift(b, rs, now, x, y);
    hide ShiftedBack, Room, GrantedSince;
    forall j | 0 <= j < n
      ensures x <= Room(b, rs[j].now, now, GrantedSince(b, rs, j))
         <==> y <= Room(b, before[j].now, rs[n].now, GrantedSince(b, before, j))
    {
      WindowShift(b, rs, now, x, y, rs[j].now, j);
    }
    assert forall j | 0 <= j < n :: before[j] == rs[j];
  }

  /** The level of the bucket is the tightest of its windows: x fits the bucket iff x fits every
      window. Holds for any rate, any request sizes and any clock. */
  lemma {:induction false} LevelIsTightestWindow(b: Bucket, rs: seq<Request>, now: real, x: real)
    requires Full(b)
    ensures x <= Available(Run(b, rs), now) <==> WithinAllWindows(b, rs, now, x)
    decreases |rs|
  {
    hide Credit, Room;
    RunKeepsShape(b, rs);
    RoomMeans(b, b.last, now, 0);
    if rs != [] {
      var n := |rs| - 1;
      var before, q := rs[..n], rs[n];
      RunKeepsShape(b, before);
      var y := x + Grant(Run(b, before), q) as real - Credit(now - q.now, b.rate);
      WindowsShift(b, rs, now, x, y);
      LevelIsTightestWindow(b, before, q.now, y);
    }
  }

  /** An acquire succeeds iff every sliding window has room for it. */
  lemma AdmitsIffAllWindows(b: Bucket, rs: seq<Request>, r: Request)
    requires Full(b)
    ensures Admits(Run(b, rs), r) <==> WithinAllWindows(b, rs, r.now, r.tokens as real)
  {
    LevelIsTightestWindow(b, rs, r.now, r.tokens as real);
  }

  // ---------------------------------------------------------------- throughput bound

  lemma {:induction false} NeverNegative(b: Bucket, rs: seq<Request>)
    requires b.capacity >= 0 && b.rate >= 0.0 && b.tokens >= 0.0
    requires Monotone(b.last, rs)
    ensures Run(b, rs).tokens >= 0.0
  {
    hide Credit;
    if rs != [] {
      var before := rs[..|rs| - 1];
      NeverNegative(b, before);
      RunKeepsShape(b, before);
      var s, q := Run(b, before), rs[|rs| - 1];
      assert s.last <= q.now;
      CreditNonNegative(q.now - s.last, s.rate);
    }
  }

  /** In every window that starts and ends at a request, at most capacity + rate * length tokens
      are granted. */
  lemma ThroughputBound(b: Bucket, rs: seq<Request>, j: nat)
    requires Full(b) && b.capacity >= 0 && b.rate >= 0.0
    requires j < |rs| && Monotone(b.last, rs)
    ensures GrantedSince(b, rs, j) as real <= b.capacity as real + (rs[|rs| - 1].now - rs[j].now) * b.rate
    ensures GrantedSince(b, rs, 0) as real <= b.capacity as real + (rs[|rs| - 1].now - b.last) * b.rate
  {
    hide Room, GrantedSince, Full, Monotone;
    RoomNonNegative(b, rs, j);
    var now := rs[|rs| - 1].now;
    RoomLeft(b, rs[j].now, now, GrantedSince(b, rs, j));
    RoomLeft(b, b.last, now, GrantedSince(b, rs, 0));
  }

  lemma RoomNonNegative(b: Bucket, rs: seq<Request>, j: nat)
    requires Full(b) && b.capacity >= 0 && b.rate >= 0.0
    requires j < |rs| && Monotone(b.last, rs)
    ensures Room(b, rs[j].now, rs[|rs| - 1].now, GrantedSince(b, rs, j)) >= 0.0
    ensures Room(b, b.last, rs[|rs| - 1].now, GrantedSince(b, rs, 0)) >= 0.0
  {
    hide Credit, Room, GrantedSince;
    var now := rs[|rs| - 1].now;
    NeverNegative(b, rs);
    RunKeepsShape(b, rs);
    CreditSplits(b.last, b.last, now, b.rate);
    LevelIsTightestWindow(b, rs, now, 0.0);
    assert 0.0 <= Room(b, rs[j].now, now, GrantedSince(b, rs, j));
  }

  lemma RoomLeft(b: Bucket, start: real, now: real, granted: int)
    requires Room(b, start, now, granted) >= 0.0
    ensures granted as real <= b.capacity as real + (now - start) * b.rate
  {
    hide Room, Credit;
    RoomMeans(b, start, now, granted);
    CreditMeans(now - start, b.rate);
  }

  lemma CreditMeans(elapsed: real, rate: real)
    ensures Credit(elapsed, rate) == elapsed * rate
  {
  }

  /** With no refill, n concurrent one-token requests get exactly min(n, capacity) grants. */
  lemma {:induction false} BurstExact(b: Bucket, rs: seq<Request>)
    requires Full(b) && b.rate == 0.0 && b.capacity >= 0
    requires forall i :: 0 <= i < |rs| ==> rs[i].tokens == 1
    ensures GrantedSince(b, rs, 0) == MinInt(|rs|, b.capacity)
    ensures Run(b, rs).tokens == (b.capacity - GrantedSince(b, rs, 0)) as real
  {
    RunKeepsShape(b, rs);
    if rs != [] {
      BurstExact(b, rs[..|rs| - 1]);
      RunKeepsShape(b, rs[..|rs| - 1]);
    }
  }

  // ---------------------------------------------------------------- failed acquires

  /** Crediting the elapsed time in two instalments is the same as crediting it at once. */
  lemma RefillTwice(b: Bucket, mid: real, now: real)
    requires b.rate >= 0.0 && mid <= now
    ensures Available(b.(tokens := Available(b, mid), last := mid), now) == Available(b, now)
  {
    hide Credit;
    CreditSplits(b.last, mid, now, b.rate);
    CreditNonNegative(now - mid, b.rate);
  }

  /** A rejected acquire changes the outcome of no later acquire. */
  lemma {:induction false} RejectedLeavesNoTrace(b: Bucket, pre: seq<Request>, r: Request, post: seq<Request>, q: Request)
    requires b.rate >= 0.0
    requires Monotone(b.last, pre + [r] + post + [q])
    requires !Admits(Run(b, pre), r)
    ensures Admits(Run(b, pre + [r] + post), q) <==> Admits(Run(b, pre + post), q)
    ensures Available(Run(b, pre + [r] + post), q.now) == Available(Run(b, pre + post), q.now)
    decreases |post|
  {
    hide Credit;
    var all := pre + [r] + post + [q];
    if post == [] {
      assert pre + [r] + post == pre + [r] && pre + post == pre;
      assert (pre + [r])[..|pre|] == pre;
      RunKeepsShape(b, pre);
      assert all[|pre|] == r && all[|pre| + 1] == q;
      RefillTwice(Run(b, pre), r.now, q.now);
    } else {
      var m := |post| - 1;
      var init, p := post[..m], post[m];
      assert pre + [r] + post == (pre + [r] + init) + [p];
      assert pre + post == (pre + init) + [p];
      assert (pre + [r] + post)[..|pre| + 1 + m] == pre + [r] + init;
      assert (pre + post)[..|pre| + m] == pre + init;
      var shorter := pre + [r] + init + [p];
      assert shorter == all[..|all| - 1];
      assert Monotone(b.last, shorter);
      RejectedLeavesNoTrace(b, pre, r, init, p);
      RunKeepsShape(b, pre + [r] + init);
      RunKeepsShape(b, pre + init);
    }
  }

  // ---------------------------------------------------------------- the object

  class TokenBucketRateLimiter {
    const capacity: int
    const refillRate: real
    var tokens: real
    var lastRefill: real

    function View(): Bucket
      reads this
    {
      Bucket(capacity, refillRate, tokens, lastRefill)
    }

    constructor (capacity: int, refillRate: real, now: real)
      ensures View() == Bucket(capacity, refillRate, capacity as real, now) && Full(View())
    {
      this.capacity := capacity;
      this.refillRate := refillRate;
      this.tokens := capacity as real;
      this.lastRefill := now;
    }

    method Acquire(now: real, requested: int) returns (r: Result<(), RateLimitError>)
      modifies this`tokens, this`lastRefill
      ensures r.Ok? <==> Admits(old(View()), Request(now, requested))
      ensures r.Err? ==> r.error == RateLimitError(old(Available(View(), now)), requested)
      ensures View() == After(old(View()), Request(now, requested))
      ensures tokens == old(Available(View(), now)) - (if r.Ok? then requested else 0) as real && lastRefill == now
    {
      var elapsed := now - lastRefill;
      var refill := elapsed * refillRate;
      assert refill == Credit(elapsed, refillRate);
      tokens := MinReal(capacity as real, tokens + refill);
      lastRefill := now;
      if tokens < requested as real {
        return Err(RateLimitError(tokens, requested));
      }
      tokens := tokens - requested as real;
      return Ok(());
    }
  }
}
