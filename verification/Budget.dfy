/** Per-bucket token accounting, `context/budget.py`. A dictionary is a map together with its keys in
    insertion order. */
module Budget {
  import opened Prelude

  const TOTAL := "total"

  /** The allocations and the tokens used so far. `keys` lists the buckets once each. */
  datatype Ledger = Ledger(keys: seq<string>, limits: map<string, int>, used: map<string, int>, total: int)

  datatype ContextOverflowError =
    | NoBudget(key: string)
    | BucketOverflow(key: string, wanted: int, limit: int)
    | CeilingExceeded(wanted: int, limit: int)

  datatype Request = Request(key: string, tokens: int)

  predicate Distinct(keys: seq<string>) {
    forall i, j :: 0 <= i < j < |keys| ==> keys[i] != keys[j]
  }

  predicate WellFormed(l: Ledger) {
    && Distinct(l.keys)
    && (forall k :: k in l.keys ==> k in l.limits)
    && (forall k :: k in l.limits ==> k in l.keys)
    && l.used.Keys == l.limits.Keys
  }

  /** Sum of the entries other than "total". */
  function SumOf(keys: seq<string>, m: map<string, int>): int
    requires forall k :: k in keys ==> k in m
  {
    if keys == [] then 0
    else
      var n := |keys| - 1;
      SumOf(keys[..n], m) + if keys[n] == TOTAL then 0 else m[keys[n]]
  }

  function Zeros(limits: map<string, int>): map<string, int> {
    map k | k in limits :: 0
  }

  function New(keys: seq<string>, limits: map<string, int>): Ledger
    requires forall k :: k in keys ==> k in limits
  {
    Ledger(keys, limits, Zeros(limits), if TOTAL in limits then limits[TOTAL] else SumOf(keys, limits))
  }

  function TotalUsed(l: Ledger): int
    requires WellFormed(l)
  {
    SumOf(l.keys, l.used)
  }

  /** `allocate`: the new ledger, or the error. */
  function Allocate(l: Ledger, r: Request): Result<Ledger, ContextOverflowError>
    requires WellFormed(l)
  {
    var limit := if r.key in l.limits then l.limits[r.key] else 0;
    if limit == 0 then Err(NoBudget(r.key))
    else
      var current := l.used[r.key];
      if current + r.tokens > limit then Err(BucketOverflow(r.key, current + r.tokens, limit))
      else
        var totalAfter := TotalUsed(l) + r.tokens;
        if totalAfter > l.total then Err(CeilingExceeded(totalAfter, l.total))
        else Ok(l.(used := l.used[r.key := current + r.tokens]))
  }

  function Remaining(l: Ledger, key: string): int
    requires WellFormed(l)
  {
    MaxInt(0, if key in l.limits then l.limits[key] - l.used[key] else 0)
  }

  class TokenBudgetManager {
    const keys: seq<string>
    const allocations: map<string, int>
    const totalBudget: int
    var used: map<string, int>

    function View(): Ledger
      reads this
    {
      Ledger(keys, allocations, used, totalBudget)
    }

    constructor (keys: seq<string>, allocations: map<string, int>)
      requires Distinct(keys) && forall k :: k in keys <==> k in allocations
      ensures View() == New(keys, allocations) && WellFormed(View())
      ensures this.allocations == allocations && forall k :: k in allocations ==> k in used && used[k] == 0
    {
      this.keys := keys;
      this.allocations := allocations;
      used := Zeros(allocations);
      totalBudget := if TOTAL in allocations then allocations[TOTAL] else SumOf(keys, allocations);
    }

    method AllocateTokens(key: string, tokens: int) returns (r: Result<int, ContextOverflowError>)
      requires WellFormed(View())
      modifies this
      ensures WellFormed(View())
      ensures match Allocate(old(View()), Request(key, tokens))
              case Err(e) => r == Err(e) && View() == old(View())
              case Ok(l) => r == Ok(tokens) && View() == l
    {
      var limit := if key in allocations then allocations[key] else 0;
      if limit == 0 { return Err(NoBudget(key)); }
      var current := used[key];
      if current + tokens > limit { return Err(BucketOverflow(key, current + tokens, limit)); }
      var totalAfter := SumOf(keys, used) + tokens;
      if totalAfter > totalBudget { return Err(CeilingExceeded(totalAfter, totalBudget)); }
      used := used[key := current + tokens];
      return Ok(tokens);
    }

    method RemainingTokens(key: string) returns (n: int)
      requires WellFormed(View())
      ensures n == Remaining(View(), key) >= 0
    {
      n := if key in allocations then MaxInt(0, allocations[key] - used[key]) else 0;
    }

    method Reset()
      requires WellFormed(View())
      modifies this
      ensures WellFormed(View()) && View() == old(View()).(used := used)
      ensures forall k :: k in allocations ==> used[k] == 0
    {
      used := Zeros(allocations);
    }
  }

  /** `remaining` is what a bucket can still grant: a positive request passes the bucket's own check
      exactly when it asks for no more than that. */
  lemma RemainingIsRoom(l: Ledger, r: Request)
    requires WellFormed(l) && r.tokens > 0 && (r.key in l.used ==> l.used[r.key] >= 0)
    ensures (Allocate(l, r).Ok? || Allocate(l, r).error.CeilingExceeded?) <==> r.tokens <= Remaining(l, r.key)
  {
  }

  // ---------------------------------------------------------------- sums over a dictionary

  lemma {:induction false} SumUpdate(keys: seq<string>, m: map<string, int>, key: string, v: int)
    requires Distinct(keys) && (forall k :: k in keys ==> k in m) && key in m
    ensures SumOf(keys, m[key := v]) == SumOf(keys, m) + if key in keys && key != TOTAL then v - m[key] else 0
  {
    if keys != [] {
      var n := |keys| - 1;
      assert keys == keys[..n] + [keys[n]];
      SumUpdate(keys[..n], m, key, v);
    }
  }

  lemma {:induction false} SumAtMost(keys: seq<string>, m: map<string, int>, limits: map<string, int>)
    requires forall k :: k in keys ==> k in m && k in limits && (k != TOTAL ==> m[k] <= limits[k])
    ensures SumOf(keys, m) <= SumOf(keys, limits)
  {
    if keys != [] { SumAtMost(keys[..|keys| - 1], m, limits); }
  }

  // ---------------------------------------------------------------- runs of allocations

  /** The ledger after the requests, failed ones changing nothing. */
  function Run(l: Ledger, rs: seq<Request>): (l': Ledger)
    requires WellFormed(l)
    ensures WellFormed(l') && l' == l.(used := l'.used)
  {
    if rs == [] then l
    else
      var before := Run(l, rs[..|rs| - 1]);
      match Allocate(before, rs[|rs| - 1])
      case Err(_) => before
      case Ok(after) => after
  }

  predicate AllSucceed(l: Ledger, rs: seq<Request>)
    requires WellFormed(l)
  {
    rs == [] ||
    var n := |rs| - 1;
    AllSucceed(l, rs[..n]) && Allocate(Run(l, rs[..n]), rs[n]).Ok?
  }

  /** Tokens asked for the key, and overall. */
  function Asked(rs: seq<Request>, key: string): int {
    if rs == [] then 0
    else
      var n := |rs| - 1;
      Asked(rs[..n], key) + if rs[n].key == key then rs[n].tokens else 0
  }

  function AskedInAll(rs: seq<Request>): int {
    if rs == [] then 0 else AskedInAll(rs[..|rs| - 1]) + rs[|rs| - 1].tokens
  }

  /** Requests for non-negative amounts from named buckets. */
  predicate Ordinary(rs: seq<Request>) {
    forall i :: 0 <= i < |rs| ==> rs[i].tokens >= 0 && rs[i].key != TOTAL
  }

  /** Every bucket asked for has a positive limit and room for all that is asked of it, and the ceiling
      has room for everything. */
  predicate Affordable(l: Ledger, rs: seq<Request>)
    requires WellFormed(l)
  {
    && (forall i :: 0 <= i < |rs| ==>
          rs[i].key in l.limits && l.limits[rs[i].key] != 0 && l.used[rs[i].key] + Asked(rs, rs[i].key) <= l.limits[rs[i].key])
    && (rs == [] || TotalUsed(l) + AskedInAll(rs) <= l.total)
  }

  lemma GrantedUse(l: Ledger, r: Request)
    requires WellFormed(l) && r.key != TOTAL && Allocate(l, r).Ok?
    ensures var after := Allocate(l, r).value;
      && r.key in l.used && after == l.(used := l.used[r.key := l.used[r.key] + r.tokens]) && WellFormed(after)
      && TotalUsed(after) == TotalUsed(l) + r.tokens
  {
    SumUpdate(l.keys, l.used, r.key, l.used[r.key] + r.tokens);
  }

  /** While all requests succeed, every bucket has used exactly what was asked of it. */
  lemma {:induction false} UsedIsAsked(l: Ledger, rs: seq<Request>)
    requires WellFormed(l) && Ordinary(rs) && AllSucceed(l, rs)
    ensures forall k :: k in l.used ==> Run(l, rs).used[k] == l.used[k] + Asked(rs, k)
    ensures TotalUsed(Run(l, rs)) == TotalUsed(l) + AskedInAll(rs)
  {
    hide Allocate, TotalUsed;
    if rs != [] {
      var n := |rs| - 1;
      UsedIsAsked(l, rs[..n]);
      GrantedUse(Run(l, rs[..n]), rs[n]);
    }
  }

  /** A sequence of requests succeeds as a whole exactly when it is affordable. */
  lemma {:induction false} SucceedIffAffordable(l: Ledger, rs: seq<Request>)
    requires WellFormed(l) && Ordinary(rs)
    ensures AllSucceed(l, rs) <==> Affordable(l, rs)
  {
    if rs != [] {
      var n := |rs| - 1;
      var before, r := rs[..n], rs[n];
      SucceedIffAffordable(l, before);
      AffordableLast(l, rs);
      if AllSucceed(l, before) { UsedIsAsked(l, before); }
    }
  }

  /** Affordability of a sequence in terms of all but its last request. */
  lemma AffordableLast(l: Ledger, rs: seq<Request>)
    requires WellFormed(l) && Ordinary(rs) && rs != []
    ensures var n := |rs| - 1; var r := rs[n];
      Affordable(l, rs) <==>
        && Affordable(l, rs[..n])
        && r.key in l.limits && l.limits[r.key] != 0
        && l.used[r.key] + Asked(rs[..n], r.key) + r.tokens <= l.limits[r.key]
        && TotalUsed(l) + AskedInAll(rs[..n]) + r.tokens <= l.total
  {
    var n := |rs| - 1;
    var before, r := rs[..n], rs[n];
    forall i | 0 <= i < n ensures before[i] == rs[i] && Asked(rs, rs[i].key) >= Asked(before, rs[i].key)
      && (rs[i].key != r.key ==> Asked(rs, rs[i].key) == Asked(before, rs[i].key)) {}
    assert Asked(rs, r.key) == Asked(before, r.key) + r.tokens;
    if Affordable(l, rs) {
      assert rs[n] == r;
      assert Affordable(l, before);
    }
  }

  /** The order of the requests does not matter: any permutation succeeds too, and ends with the same
      usage. */
  lemma OrderIrrelevant(l: Ledger, rs: seq<Request>, rs': seq<Request>)
    requires WellFormed(l) && Ordinary(rs) && multiset(rs) == multiset(rs')
    ensures AllSucceed(l, rs) <==> AllSucceed(l, rs')
    ensures AllSucceed(l, rs) ==> Run(l, rs) == Run(l, rs')
  {
    hide Allocate, Affordable, AllSucceed, Asked, AskedInAll, TotalUsed;
    OrdinaryPermuted(rs, rs');
    SucceedIffAffordable(l, rs);
    SucceedIffAffordable(l, rs');
    forall k ensures Asked(rs, k) == Asked(rs', k) {
      AskedPermuted(rs, rs', k);
    }
    AskedPermuted(rs, rs', TOTAL);
    if Affordable(l, rs) { AffordablePermuted(l, rs, rs'); }
    if Affordable(l, rs') { AffordablePermuted(l, rs', rs); }
    if AllSucceed(l, rs) { SameUsage(l, rs, rs'); }
  }

  lemma OrdinaryPermuted(rs: seq<Request>, rs': seq<Request>)
    requires Ordinary(rs) && multiset(rs) == multiset(rs')
    ensures Ordinary(rs')
  {
    forall i | 0 <= i < |rs'| ensures rs'[i].tokens >= 0 && rs'[i].key != TOTAL {
      assert rs'[i] in multiset(rs);
      assert rs'[i] in rs;
    }
  }

  lemma SameUsage(l: Ledger, rs: seq<Request>, rs': seq<Request>)
    requires WellFormed(l) && Ordinary(rs) && Ordinary(rs') && AllSucceed(l, rs) && AllSucceed(l, rs')
    requires forall k :: Asked(rs, k) == Asked(rs', k)
    ensures Run(l, rs) == Run(l, rs')
  {
    hide Allocate, AllSucceed, Asked, AskedInAll, TotalUsed;
    UsedIsAsked(l, rs);
    UsedIsAsked(l, rs');
    var a, b := Run(l, rs), Run(l, rs');
    forall k | k in l.used ensures a.used[k] == b.used[k] {
      assert Asked(rs, k) == Asked(rs', k);
    }
    assert a.used == b.used;
  }

  lemma AffordablePermuted(l: Ledger, rs: seq<Request>, rs': seq<Request>)
    requires WellFormed(l) && multiset(rs) == multiset(rs')
    requires forall k :: Asked(rs, k) == Asked(rs', k)
    requires AskedInAll(rs) == AskedInAll(rs')
    requires Affordable(l, rs)
    ensures Affordable(l, rs')
  {
    forall i | 0 <= i < |rs'| ensures rs'[i] in rs {
      assert rs'[i] in multiset(rs);
    }
  }

  function Remove(rs: seq<Request>, i: nat): seq<Request>
    requires i < |rs|
  {
    rs[..i] + rs[i + 1..]
  }

  lemma RemoveOne(rs: seq<Request>, i: nat, key: string)
    requires i < |rs|
    ensures multiset(Remove(rs, i)) == multiset(rs) - multiset{rs[i]}
    ensures Asked(rs, key) == Asked(Remove(rs, i), key) + if rs[i].key == key then rs[i].tokens else 0
    ensures AskedInAll(rs) == AskedInAll(Remove(rs, i)) + rs[i].tokens
  {
    assert rs == rs[..i] + ([rs[i]] + rs[i + 1..]);
    AskedConcat(rs[..i], [rs[i]] + rs[i + 1..], key);
    AskedConcat([rs[i]], rs[i + 1..], key);
    AskedConcat(rs[..i], rs[i + 1..], key);
  }

  lemma {:induction false} AskedPermuted(rs: seq<Request>, rs': seq<Request>, key: string)
    requires multiset(rs) == multiset(rs')
    ensures Asked(rs, key) == Asked(rs', key) && AskedInAll(rs) == AskedInAll(rs')
    decreases |rs|
  {
    hide Remove, Asked, AskedInAll;
    assert |multiset(rs)| == |multiset(rs')|;
    if rs == [] {
      assert rs' == rs;
    } else {
      assert rs[0] in multiset(rs');
      var i :| 0 <= i < |rs'| && rs'[i] == rs[0];
      RemoveOne(rs, 0, key);
      RemoveOne(rs', i, key);
      RemoveShorter(rs, 0);
      AskedPermuted(Remove(rs, 0), Remove(rs', i), key);
    }
  }

  lemma RemoveShorter(rs: seq<Request>, i: nat)
    requires i < |rs|
    ensures |Remove(rs, i)| == |rs| - 1
  {
  }

  lemma {:induction false} AskedConcat(a: seq<Request>, b: seq<Request>, key: string)
    ensures Asked(a + b, key) == Asked(a, key) + Asked(b, key)
    ensures AskedInAll(a + b) == AskedInAll(a) + AskedInAll(b)
  {
    if b == [] {
      assert a + b == a;
    } else {
      assert (a + b)[..|a| + |b| - 1] == a + b[..|b| - 1];
      AskedConcat(a, b[..|b| - 1], key);
    }
  }

  // ---------------------------------------------------------------- the ceiling without "total"

  /** Without a "total" entry and with non-negative limits the global check can never fail: whatever has
      been requested before, a request that fits its bucket is granted. */
  lemma CeilingUnreachable(keys: seq<string>, limits: map<string, int>, rs: seq<Request>, r: Request)
    requires Distinct(keys) && forall k :: k in keys <==> k in limits
    requires TOTAL !in limits && forall k :: k in limits ==> limits[k] >= 0
    ensures var before := Run(New(keys, limits), rs);
      Allocate(before, r).Err? ==> !Allocate(before, r).error.CeilingExceeded?
  {
    hide SumOf, Run;
    var l := New(keys, limits);
    WithinLimits(l, rs);
    var before := Run(l, rs);
    if r.key in limits && before.used[r.key] + r.tokens <= limits[r.key] {
      var after := before.used[r.key := before.used[r.key] + r.tokens];
      SumUpdate(keys, before.used, r.key, before.used[r.key] + r.tokens);
      SumAtMost(keys, after, limits);
    }
  }

  lemma {:induction false} WithinLimits(l: Ledger, rs: seq<Request>)
    requires WellFormed(l) && forall k :: k in l.used ==> l.used[k] <= l.limits[k]
    ensures forall k :: k in l.used ==> Run(l, rs).used[k] <= l.limits[k]
  {
    hide SumOf;
    if rs != [] { WithinLimits(l, rs[..|rs| - 1]); }
  }

  // ---------------------------------------------------------------- the ceiling with "total"

  lemma {:induction false} NothingUsed(keys: seq<string>, used: map<string, int>)
    requires forall k :: k in keys ==> k in used && used[k] == 0
    ensures SumOf(keys, used) == 0
  {
    if keys != [] { NothingUsed(keys[..|keys| - 1], used); }
  }

  /** From a new ledger, requests succeed as a whole exactly when every bucket asked for has a limit that
      covers all that is asked of it, and the "total" entry, if there is one, covers everything. Without one,
      non-negative limits leave nothing else to check. */
  lemma NewSucceedsIff(keys: seq<string>, limits: map<string, int>, rs: seq<Request>)
    requires Distinct(keys) && (forall k :: k in keys <==> k in limits) && Ordinary(rs)
    requires TOTAL in limits || forall k :: k in limits ==> limits[k] >= 0
    ensures AllSucceed(New(keys, limits), rs) <==>
      && (forall i :: 0 <= i < |rs| ==>
            rs[i].key in limits && limits[rs[i].key] != 0 && Asked(rs, rs[i].key) <= limits[rs[i].key])
      && (rs == [] || "total" !in limits || AskedInAll(rs) <= limits["total"])
  {
    hide AllSucceed, Asked, AskedInAll, SumOf;
    var l := New(keys, limits);
    NothingUsed(keys, l.used);
    SucceedIffAffordable(l, rs);
    if TOTAL !in limits && forall i :: 0 <= i < |rs| ==>
        rs[i].key in limits && limits[rs[i].key] != 0 && Asked(rs, rs[i].key) <= limits[rs[i].key]
    {
      WithinSum(keys, limits, rs);
    }
  }

  function AskedMap(limits: map<string, int>, rs: seq<Request>): map<string, int> {
    map k | k in limits :: Asked(rs, k)
  }

  lemma WithinSum(keys: seq<string>, limits: map<string, int>, rs: seq<Request>)
    requires Distinct(keys) && (forall k :: k in keys <==> k in limits) && Ordinary(rs)
    requires forall k :: k in limits ==> limits[k] >= 0
    requires forall i :: 0 <= i < |rs| ==> rs[i].key in limits && Asked(rs, rs[i].key) <= limits[rs[i].key]
    ensures AskedInAll(rs) <= SumOf(keys, limits)
  {
    var asked := AskedMap(limits, rs);
    AskedSum(keys, limits, rs);
    forall k | k in keys ensures asked[k] <= limits[k] {
      if forall i :: 0 <= i < |rs| ==> rs[i].key != k { NotAsked(rs, k); }
    }
    SumAtMost(keys, asked, limits);
  }

  lemma {:induction false} NotAsked(rs: seq<Request>, key: string)
    requires forall i :: 0 <= i < |rs| ==> rs[i].key != key
    ensures Asked(rs, key) == 0
  {
    if rs != [] { NotAsked(rs[..|rs| - 1], key); }
  }

  /** What is asked in all is the sum of what is asked of each bucket. */
  lemma {:induction false} AskedSum(keys: seq<string>, limits: map<string, int>, rs: seq<Request>)
    requires Distinct(keys) && (forall k :: k in keys <==> k in limits) && Ordinary(rs)
    requires forall i :: 0 <= i < |rs| ==> rs[i].key in limits
    ensures AskedInAll(rs) == SumOf(keys, AskedMap(limits, rs))
  {
    hide SumOf;
    if rs == [] {
      NothingUsed(keys, AskedMap(limits, rs));
    } else {
      var n := |rs| - 1;
      AskedSum(keys, limits, rs[..n]);
      var before := AskedMap(limits, rs[..n]);
      SumUpdate(keys, before, rs[n].key, before[rs[n].key] + rs[n].tokens);
      assert AskedMap(limits, rs) == before[rs[n].key := before[rs[n].key] + rs[n].tokens];
    }
  }

  /** When a single request runs into the "total" entry: its bucket has room, and what has been used in all
      other buckets too does not leave enough. Use of a bucket called "total" itself is not counted. */
  lemma CeilingHitIff(keys: seq<string>, limits: map<string, int>, rs: seq<Request>, r: Request)
    requires Distinct(keys) && (forall k :: k in keys <==> k in limits) && Ordinary(rs)
    requires TOTAL in limits && AllSucceed(New(keys, limits), rs)
    ensures var outcome := Allocate(Run(New(keys, limits), rs), r);
      && (outcome.Err? && outcome.error.CeilingExceeded? <==>
            && r.key in limits && limits[r.key] != 0 && Asked(rs, r.key) + r.tokens <= limits[r.key]
            && AskedInAll(rs) + r.tokens > limits["total"])
      && (outcome.Ok? && r.key == TOTAL ==> TotalUsed(outcome.value) == AskedInAll(rs))
  {
    hide AllSucceed, Asked, AskedInAll, SumOf;
    var l := New(keys, limits);
    NothingUsed(keys, l.used);
    UsedIsAsked(l, rs);
    var before := Run(l, rs);
    if r.key == TOTAL && Allocate(before, r).Ok? {
      SumUpdate(keys, before.used, TOTAL, before.used[TOTAL] + r.tokens);
    }
  }
}
