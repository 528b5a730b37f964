/** Priority-ordered context packing, `context/packing.py`. A dictionary of buckets is its entries in
    insertion order, with distinct names. */
module Packing {
  import opened Prelude

  const PRIORITY_ORDER: seq<string> := ["system", "conversation", "memory", "rag", "tools"]

  class ContextItem {
    const bucket: string
    const content: string
    const tokenCount: int
    var priority: int

    constructor (bucket: string, content: string, tokenCount: int)
      ensures this.bucket == bucket && this.content == content && this.tokenCount == tokenCount && priority == 0
    {
      this.bucket := bucket;
      this.content := content;
      this.tokenCount := tokenCount;
      this.priority := 0;
    }
  }

  datatype Bucket = Bucket(name: string, items: seq<ContextItem>)

  datatype PackedContext = PackedContext(items: seq<ContextItem>, totalTokens: int, droppedBuckets: seq<string>)

  predicate DistinctNames(buckets: seq<Bucket>) {
    forall i, j :: 0 <= i < j < |buckets| ==> buckets[i].name != buckets[j].name
  }

  // ---------------------------------------------------------------- the greedy choice

  /** Which of the items with these costs, in order, the packer keeps on top of `used` tokens. */
  function Greedy(costs: seq<int>, used: int, ceiling: int): (keep: seq<bool>)
    ensures |keep| == |costs|
  {
    if costs == [] then []
    else
      var fits := used + costs[0] <= ceiling;
      [fits] + Greedy(costs[1..], if fits then used + costs[0] else used, ceiling)
  }

  /** Total cost of the chosen items. */
  function Cost(costs: seq<int>, keep: seq<bool>): int
    requires |keep| == |costs|
  {
    if costs == [] then 0 else (if keep[0] then costs[0] else 0) + Cost(costs[1..], keep[1..])
  }

  /** `a` comes before `b` or is `b` in the order that prefers keeping an earlier item over any choice
      among later ones. */
  predicate LexAtMost(a: seq<bool>, b: seq<bool>)
    requires |a| == |b|
  {
    a == [] || (!a[0] && b[0]) || (a[0] == b[0] && LexAtMost(a[1..], b[1..]))
  }

  /** Adding the chosen items one by one, each addition stays within the ceiling. */
  predicate FitsStepwise(costs: seq<int>, keep: seq<bool>, used: int, ceiling: int)
    requires |keep| == |costs|
  {
    costs == [] ||
    var now := if keep[0] then used + costs[0] else used;
    (keep[0] ==> now <= ceiling) && FitsStepwise(costs[1..], keep[1..], now, ceiling)
  }

  predicate NonNegative(costs: seq<int>) {
    forall i :: 0 <= i < |costs| ==> costs[i] >= 0
  }

  /** For non-negative costs a choice fits stepwise exactly when its total does. */
  lemma {:induction false} StepwiseIffTotal(costs: seq<int>, keep: seq<bool>, used: int, ceiling: int)
    requires |keep| == |costs| && NonNegative(costs) && used <= ceiling
    ensures FitsStepwise(costs, keep, used, ceiling) <==> used + Cost(costs, keep) <= ceiling
  {
    if costs != [] {
      var now := if keep[0] then used + costs[0] else used;
      CostNonNegative(costs[1..], keep[1..]);
      if now <= ceiling { StepwiseIffTotal(costs[1..], keep[1..], now, ceiling); }
    }
  }

  lemma {:induction false} CostNonNegative(costs: seq<int>, keep: seq<bool>)
    requires |keep| == |costs| && NonNegative(costs)
    ensures Cost(costs, keep) >= 0
  {
    if costs != [] { CostNonNegative(costs[1..], keep[1..]); }
  }

  /** For any costs, the greedy choice fits stepwise and is the greatest choice that does. */
  lemma {:induction false} GreedyGreatestStepwise(costs: seq<int>, keep: seq<bool>, used: int, ceiling: int)
    requires |keep| == |costs|
    ensures FitsStepwise(costs, Greedy(costs, used, ceiling), used, ceiling)
    ensures FitsStepwise(costs, keep, used, ceiling) ==> LexAtMost(keep, Greedy(costs, used, ceiling))
  {
    if costs != [] {
      var fits := used + costs[0] <= ceiling;
      var now := if fits then used + costs[0] else used;
      var rest := Greedy(costs[1..], now, ceiling);
      assert Greedy(costs, used, ceiling) == [fits] + rest;
      assert Greedy(costs, used, ceiling)[1..] == rest;
      GreedyGreatestStepwise(costs[1..], keep[1..], now, ceiling);
    }
  }

  lemma {:induction false} LexAntisymmetric(a: seq<bool>, b: seq<bool>)
    requires |a| == |b| && LexAtMost(a, b) && LexAtMost(b, a)
    ensures a == b
  {
    if a != [] {
      LexAntisymmetric(a[1..], b[1..]);
      assert a == [a[0]] + a[1..] && b == [b[0]] + b[1..];
    }
  }

  /** For non-negative token counts the packer's choice is the one and only lexicographically greatest
      subset whose total fits the ceiling. */
  lemma GreedyIsOptimal(costs: seq<int>, keep: seq<bool>, ceiling: int)
    requires |keep| == |costs| && NonNegative(costs) && ceiling >= 0
    ensures keep == Greedy(costs, 0, ceiling) <==>
      && Cost(costs, keep) <= ceiling
      && forall other: seq<bool> :: |other| == |costs| && Cost(costs, other) <= ceiling ==> LexAtMost(other, keep)
  {
    var greedy := Greedy(costs, 0, ceiling);
    forall other: seq<bool> | |other| == |costs| && Cost(costs, other) <= ceiling ensures LexAtMost(other, greedy) {
      StepwiseIffTotal(costs, other, 0, ceiling);
      GreedyGreatestStepwise(costs, other, 0, ceiling);
    }
    GreedyGreatestStepwise(costs, greedy, 0, ceiling);
    StepwiseIffTotal(costs, greedy, 0, ceiling);
    if Cost(costs, keep) <= ceiling && forall other: seq<bool> :: |other| == |costs| && Cost(costs, other) <= ceiling ==> LexAtMost(other, keep) {
      LexAntisymmetric(keep, greedy);
    }
  }

  /** Lower-priority items never change what happens to higher-priority ones. */
  lemma {:induction false} LowerPriorityIrrelevant(high: seq<int>, low: seq<int>, used: int, ceiling: int)
    ensures Greedy(high + low, used, ceiling)
         == Greedy(high, used, ceiling) + Greedy(low, used + Cost(high, Greedy(high, used, ceiling)), ceiling)
  {
    if high == [] {
      assert high + low == low;
    } else {
      var fits := used + high[0] <= ceiling;
      var now := if fits then used + high[0] else used;
      var all := high + low;
      assert all[0] == high[0] && all[1..] == high[1..] + low;
      LowerPriorityIrrelevant(high[1..], low, now, ceiling);
      var rest := Greedy(high[1..], now, ceiling);
      var after := Greedy(low, now + Cost(high[1..], rest), ceiling);
      assert Greedy(all, used, ceiling) == [fits] + (rest + after);
      assert Greedy(high, used, ceiling) == [fits] + rest;
      assert ([fits] + rest)[1..] == rest;
      assert used + Cost(high, [fits] + rest) == now + Cost(high[1..], rest);
    }
  }

  /** No dropped item would fit into what remains at the end. */
  lemma {:induction false} DroppedWouldNotFit(costs: seq<int>, used: int, ceiling: int, i: nat)
    requires NonNegative(costs) && i < |costs| && !Greedy(costs, used, ceiling)[i]
    ensures used + Cost(costs, Greedy(costs, used, ceiling)) + costs[i] > ceiling
  {
    var fits := used + costs[0] <= ceiling;
    var now := if fits then used + costs[0] else used;
    var rest := Greedy(costs[1..], now, ceiling);
    assert Greedy(costs, used, ceiling)[1..] == rest;
    if i > 0 {
      DroppedWouldNotFit(costs[1..], now, ceiling, i - 1);
    } else {
      CostNonNegative(costs[1..], rest);
    }
  }

  function AllOf(n: nat): (keep: seq<bool>)
    ensures |keep| == n
  {
    seq(n, _ => true)
  }

  /** Items considered first survive whole exactly when they fit on their own. */
  lemma FirstKeptIff(first: seq<int>, rest: seq<int>, ceiling: int)
    requires NonNegative(first) && ceiling >= 0
    ensures Greedy(first + rest, 0, ceiling)[..|first|] == AllOf(|first|) <==> Cost(first, AllOf(|first|)) <= ceiling
  {
    LowerPriorityIrrelevant(first, rest, 0, ceiling);
    var greedy := Greedy(first, 0, ceiling);
    assert Greedy(first + rest, 0, ceiling)[..|first|] == greedy;
    GreedyGreatestStepwise(first, AllOf(|first|), 0, ceiling);
    StepwiseIffTotal(first, AllOf(|first|), 0, ceiling);
    StepwiseIffTotal(first, greedy, 0, ceiling);
    if Cost(first, AllOf(|first|)) <= ceiling {
      AllIsGreatest(greedy);
      LexAntisymmetric(AllOf(|first|), greedy);
    }
  }

  lemma {:induction false} AllIsGreatest(keep: seq<bool>)
    ensures LexAtMost(keep, AllOf(|keep|))
  {
    if keep != [] {
      AllIsGreatest(keep[1..]);
      assert AllOf(|keep|)[1..] == AllOf(|keep[1..]|);
    }
  }

  // ---------------------------------------------------------------- is what is kept a prefix?

  function Sum(costs: seq<int>): int {
    if costs == [] then 0 else costs[0] + Sum(costs[1..])
  }

  /** The first k items fit on top of `used`, and the one after them is the first that does not. */
  predicate FirstOverflow(costs: seq<int>, used: int, ceiling: int, k: nat) {
    && k < |costs| && used + Sum(costs[..k]) + costs[k] > ceiling
    && forall j :: 0 < j <= k ==> used + Sum(costs[..j]) <= ceiling
  }

  /** No kept item follows a dropped one. */
  predicate TailDropped(keep: seq<bool>) {
    forall i, j :: 0 <= i < j < |keep| && keep[j] ==> keep[i]
  }

  /** Everything from item k on exceeds what the first k items leave of the ceiling. */
  predicate NothingFitsAfter(costs: seq<int>, used: int, ceiling: int, k: nat)
    requires k <= |costs|
  {
    forall j :: k <= j < |costs| ==> used + Sum(costs[..k]) + costs[j] > ceiling
  }

  /** What is kept is a prefix of the items exactly when every item from the first overflow on is too large
      for what the items before it leave. */
  lemma {:induction false} KeepsPrefixIff(costs: seq<int>, used: int, ceiling: int)
    ensures TailDropped(Greedy(costs, used, ceiling)) <==>
      forall k: nat :: FirstOverflow(costs, used, ceiling, k) ==> NothingFitsAfter(costs, used, ceiling, k)
  {
    if costs != [] {
      var keep := Greedy(costs, used, ceiling);
      if used + costs[0] <= ceiling {
        var rest := Greedy(costs[1..], used + costs[0], ceiling);
        KeepsPrefixIff(costs[1..], used + costs[0], ceiling);
        assert keep == [true] + rest;
        assert TailDropped(keep) <==> TailDropped(rest) by { KeptFirst(rest); }
        OverflowLater(costs, used, costs[1..], used + costs[0], ceiling);
      } else {
        assert costs[..0] == [];
        assert FirstOverflow(costs, used, ceiling, 0);
        NoneKeptIff(costs, used, ceiling);
        forall k: nat | FirstOverflow(costs, used, ceiling, k) ensures k == 0 {
          OverflowAtOnce(costs, used, ceiling, k);
        }
      }
    }
  }

  lemma OverflowAtOnce(costs: seq<int>, used: int, ceiling: int, k: nat)
    requires costs != [] && used + costs[0] > ceiling && FirstOverflow(costs, used, ceiling, k)
    ensures k == 0
  {
    assert costs[..1] == [costs[0]];
    SumOne(costs[0]);
  }

  lemma KeptFirst(rest: seq<bool>)
    ensures TailDropped([true] + rest) <==> TailDropped(rest)
  {
    var keep := [true] + rest;
    assert forall i :: 0 <= i < |rest| ==> keep[i + 1] == rest[i];
    if TailDropped(keep) {
      forall i, j | 0 <= i < j < |rest| && rest[j] ensures rest[i] { assert keep[j + 1] && keep[i + 1] == rest[i]; }
    }
  }

  lemma SumCons(costs: seq<int>, k: nat)
    requires 0 < k <= |costs|
    ensures Sum(costs[..k]) == costs[0] + Sum(costs[1..][..k - 1])
  {
    assert costs[..k][1..] == costs[1..][..k - 1];
  }

  lemma OverflowLater(costs: seq<int>, used: int, rest: seq<int>, now: int, ceiling: int)
    requires costs != [] && used + costs[0] <= ceiling && rest == costs[1..] && now == used + costs[0]
    ensures (forall k: nat :: FirstOverflow(costs, used, ceiling, k) ==> NothingFitsAfter(costs, used, ceiling, k))
      <==> (forall k: nat :: FirstOverflow(rest, now, ceiling, k) ==> NothingFitsAfter(rest, now, ceiling, k))
  {
    hide FirstOverflow, NothingFitsAfter;
    forall k: nat | k < |rest|
      ensures FirstOverflow(rest, now, ceiling, k) <==> FirstOverflow(costs, used, ceiling, k + 1)
      ensures NothingFitsAfter(rest, now, ceiling, k) <==> NothingFitsAfter(costs, used, ceiling, k + 1)
    {
      OverflowShift(costs, used, ceiling, k);
    }
    forall k: nat | FirstOverflow(costs, used, ceiling, k)
      ensures 0 < k < |costs| && FirstOverflow(rest, now, ceiling, k - 1)
    {
      OverflowInside(costs, used, ceiling, k);
      OverflowShift(costs, used, ceiling, k - 1);
    }
    forall k: nat | FirstOverflow(rest, now, ceiling, k) ensures k < |rest| {
      OverflowIndex(rest, now, ceiling, k);
    }
  }

  lemma OverflowIndex(costs: seq<int>, used: int, ceiling: int, k: nat)
    requires FirstOverflow(costs, used, ceiling, k)
    ensures k < |costs|
  {
  }

  lemma OverflowInside(costs: seq<int>, used: int, ceiling: int, k: nat)
    requires costs != [] && used + costs[0] <= ceiling && FirstOverflow(costs, used, ceiling, k)
    ensures 0 < k < |costs|
  {
    assert costs[..0] == [];
  }

  lemma OverflowShift(costs: seq<int>, used: int, ceiling: int, k: nat)
    requires k + 1 < |costs| && used + costs[0] <= ceiling
    ensures FirstOverflow(costs[1..], used + costs[0], ceiling, k) <==> FirstOverflow(costs, used, ceiling, k + 1)
    ensures NothingFitsAfter(costs[1..], used + costs[0], ceiling, k) <==> NothingFitsAfter(costs, used, ceiling, k + 1)
  {
    hide Sum;
    var rest := costs[1..];
    forall j: nat | 0 < j <= |costs| ensures Sum(costs[..j]) == costs[0] + Sum(rest[..j - 1]) { SumCons(costs, j); }
    assert costs[..1] == [costs[0]] && rest[..0] == [];
    SumOne(costs[0]);
    assert forall j :: 0 <= j < |rest| ==> rest[j] == costs[j + 1];
    assert forall j :: 0 < j < |costs| ==> costs[j] == rest[j - 1];
    if FirstOverflow(rest, used + costs[0], ceiling, k) {
      forall j | 0 < j <= k + 1 ensures used + Sum(costs[..j]) <= ceiling {
        if j > 1 { assert used + costs[0] + Sum(rest[..j - 1]) <= ceiling; }
      }
    }
    if FirstOverflow(costs, used, ceiling, k + 1) {
      forall j | 0 < j <= k ensures used + costs[0] + Sum(rest[..j]) <= ceiling {
        assert used + Sum(costs[..j + 1]) <= ceiling;
      }
    }
  }

  lemma SumOne(c: int)
    ensures Sum([c]) == c && Sum([]) == 0
  {
  }

  predicate NothingKept(keep: seq<bool>) {
    forall j :: 0 <= j < |keep| ==> !keep[j]
  }

  predicate NothingFits(costs: seq<int>, used: int, ceiling: int) {
    forall j :: 0 <= j < |costs| ==> used + costs[j] > ceiling
  }

  /** When the first item is dropped, nothing is kept exactly when nothing fits. */
  lemma NoneKeptIff(costs: seq<int>, used: int, ceiling: int)
    requires costs != [] && used + costs[0] > ceiling
    ensures TailDropped(Greedy(costs, used, ceiling)) <==> NothingFitsAfter(costs, used, ceiling, 0)
  {
    var keep := Greedy(costs, used, ceiling);
    assert costs[..0] == [];
    NothingKeptIff(costs, used, ceiling);
    assert !keep[0];
    if TailDropped(keep) {
      forall j | 0 <= j < |keep| ensures !keep[j] {}
    }
  }

  lemma {:induction false} NothingKeptIff(costs: seq<int>, used: int, ceiling: int)
    ensures NothingKept(Greedy(costs, used, ceiling)) <==> NothingFits(costs, used, ceiling)
  {
    hide NothingKept, NothingFits;
    if costs == [] {
      NothingThere(costs, used, ceiling);
    } else if used + costs[0] > ceiling {
      var rest := Greedy(costs[1..], used, ceiling);
      NothingKeptIff(costs[1..], used, ceiling);
      assert Greedy(costs, used, ceiling) == [false] + rest;
      assert costs == [costs[0]] + costs[1..];
      NothingKeptCons(rest);
      NothingFitsCons(costs[0], costs[1..], used, ceiling);
    } else {
      HeadKept(costs, used, ceiling);
    }
  }

  lemma NothingThere(costs: seq<int>, used: int, ceiling: int)
    requires costs == []
    ensures NothingKept(Greedy(costs, used, ceiling)) && NothingFits(costs, used, ceiling)
  {
  }

  lemma HeadKept(costs: seq<int>, used: int, ceiling: int)
    requires costs != [] && used + costs[0] <= ceiling
    ensures !NothingKept(Greedy(costs, used, ceiling)) && !NothingFits(costs, used, ceiling)
  {
    assert Greedy(costs, used, ceiling)[0];
  }

  lemma NothingKeptCons(rest: seq<bool>)
    ensures NothingKept([false] + rest) <==> NothingKept(rest)
  {
    assert forall j :: 0 <= j < |rest| ==> ([false] + rest)[j + 1] == rest[j];
  }

  lemma NothingFitsCons(c: int, rest: seq<int>, used: int, ceiling: int)
    requires used + c > ceiling
    ensures NothingFits([c] + rest, used, ceiling) <==> NothingFits(rest, used, ceiling)
  {
    assert forall j :: 0 <= j < |rest| ==> ([c] + rest)[j + 1] == rest[j];
  }

  // ---------------------------------------------------------------- the flattened order

  /** An item and the rank of the bucket it was listed in. */
  datatype Slot = Slot(item: ContextItem, rank: nat)

  function SlotsAt(items: seq<ContextItem>, rank: nat): seq<Slot> {
    seq(|items|, i requires 0 <= i < |items| => Slot(items[i], rank))
  }

  function ItemsOf(slots: seq<Slot>): seq<ContextItem> {
    seq(|slots|, i requires 0 <= i < |slots| => slots[i].item)
  }

  /** `buckets.get(name, [])` */
  function Lookup(buckets: seq<Bucket>, name: string): seq<ContextItem> {
    if buckets == [] then []
    else if buckets[0].name == name then buckets[0].items
    else Lookup(buckets[1..], name)
  }

  /** The buckets named in PRIORITY_ORDER[..k], in that order. */
  function Known(buckets: seq<Bucket>, k: nat): seq<Slot>
    requires k <= |PRIORITY_ORDER|
  {
    if k == 0 then [] else Known(buckets, k - 1) + SlotsAt(Lookup(buckets, PRIORITY_ORDER[k - 1]), k - 1)
  }

  /** The other buckets, in insertion order. */
  function Unknown(buckets: seq<Bucket>): seq<Slot> {
    if buckets == [] then []
    else
      var n := |buckets| - 1;
      Unknown(buckets[..n]) + if buckets[n].name in PRIORITY_ORDER then [] else SlotsAt(buckets[n].items, |PRIORITY_ORDER|)
  }

  function Slots(buckets: seq<Bucket>): seq<Slot> {
    Known(buckets, |PRIORITY_ORDER|) + Unknown(buckets)
  }

  predicate RanksSorted(slots: seq<Slot>, most: nat) {
    && (forall i :: 0 <= i < |slots| ==> slots[i].rank <= most)
    && (forall i, j :: 0 <= i < j < |slots| ==> slots[i].rank <= slots[j].rank)
  }

  lemma {:induction false} KnownSorted(buckets: seq<Bucket>, k: nat)
    requires k <= |PRIORITY_ORDER|
    ensures RanksSorted(Known(buckets, k), k) && forall s :: s in Known(buckets, k) ==> s.rank < k
  {
    if k > 0 { KnownSorted(buckets, k - 1); }
  }

  lemma {:induction false} UnknownRanks(buckets: seq<Bucket>)
    ensures forall s :: s in Unknown(buckets) ==> s.rank == |PRIORITY_ORDER|
  {
    if buckets != [] { UnknownRanks(buckets[..|buckets| - 1]); }
  }

  /** The packer considers items in order of their buckets' priority. */
  lemma SlotsSorted(buckets: seq<Bucket>)
    ensures RanksSorted(Slots(buckets), |PRIORITY_ORDER|)
  {
    KnownSorted(buckets, |PRIORITY_ORDER|);
    UnknownRanks(buckets);
    var known: seq<Slot>, unknown: seq<Slot> := Known(buckets, |PRIORITY_ORDER|), Unknown(buckets);
    forall i, j | 0 <= i < j < |known + unknown| ensures (known + unknown)[i].rank <= (known + unknown)[j].rank {
      assert j >= |known| ==> (known + unknown)[j] in unknown;
      assert i >= |known| ==> (known + unknown)[i] in unknown;
      assert i < |known| ==> (known + unknown)[i] in known;
    }
  }

  /** All items of all buckets, each counted as often as it is listed. */
  function Listed(buckets: seq<Bucket>): multiset<ContextItem> {
    if buckets == [] then multiset{} else Listed(buckets[..|buckets| - 1]) + multiset(buckets[|buckets| - 1].items)
  }

  lemma ItemsOfAppend(a: seq<Slot>, b: seq<Slot>)
    ensures ItemsOf(a + b) == ItemsOf(a) + ItemsOf(b)
  {
  }

  lemma {:induction false} LookupLast(buckets: seq<Bucket>, name: string)
    requires buckets != [] && DistinctNames(buckets)
    ensures var n := |buckets| - 1;
      if buckets[n].name == name
      then Lookup(buckets, name) == buckets[n].items && Lookup(buckets[..n], name) == []
      else Lookup(buckets, name) == Lookup(buckets[..n], name)
  {
    var n := |buckets| - 1;
    if n > 0 {
      LookupLast(buckets[1..], name);
      assert buckets[1..][..n - 1] == buckets[..n][1..];
    }
  }

  lemma {:induction false} LookupListed(buckets: seq<Bucket>, name: string, item: ContextItem)
    requires item in Lookup(buckets, name)
    ensures exists b :: b in buckets && item in b.items
  {
    if buckets[0].name == name {
      assert buckets[0] in buckets;
    } else {
      LookupListed(buckets[1..], name, item);
    }
  }

  lemma OrderDistinct(i: nat, j: nat)
    requires i < j < |PRIORITY_ORDER|
    ensures PRIORITY_ORDER[i] != PRIORITY_ORDER[j]
  {
    assert PRIORITY_ORDER[i][0] != PRIORITY_ORDER[j][0];
  }

  lemma KnownItems(buckets: seq<Bucket>, k: nat)
    requires 0 < k <= |PRIORITY_ORDER|
    ensures ItemsOf(Known(buckets, k)) == ItemsOf(Known(buckets, k - 1)) + Lookup(buckets, PRIORITY_ORDER[k - 1])
  {
    hide Lookup;
    assert ItemsOf(SlotsAt(Lookup(buckets, PRIORITY_ORDER[k - 1]), k - 1)) == Lookup(buckets, PRIORITY_ORDER[k - 1]);
  }

  /** Names among the first k of PRIORITY_ORDER. */
  predicate Among(name: string, k: nat)
    requires k <= |PRIORITY_ORDER|
  {
    k > 0 && (PRIORITY_ORDER[k - 1] == name || Among(name, k - 1))
  }

  lemma {:induction false} NotAmong(j: nat, k: nat)
    requires k <= j < |PRIORITY_ORDER|
    ensures !Among(PRIORITY_ORDER[j], k)
  {
    if k > 0 {
      NotAmong(j, k - 1);
      OrderDistinct(k - 1, j);
    }
  }

  lemma {:induction false} KnownLast(buckets: seq<Bucket>, k: nat)
    requires buckets != [] && DistinctNames(buckets) && k <= |PRIORITY_ORDER|
    ensures var n := |buckets| - 1;
      multiset(ItemsOf(Known(buckets, k)))
      == multiset(ItemsOf(Known(buckets[..n], k))) + if Among(buckets[n].name, k) then multiset(buckets[n].items) else multiset{}
  {
    if k > 0 {
      var n := |buckets| - 1;
      hide Known, Lookup, ItemsOf;
      KnownLast(buckets, k - 1);
      LookupLast(buckets, PRIORITY_ORDER[k - 1]);
      KnownItems(buckets, k);
      KnownItems(buckets[..n], k);
      NotAmong(k - 1, k - 1);
    }
  }

  lemma AmongAll(name: string)
    ensures Among(name, |PRIORITY_ORDER|) <==> name in PRIORITY_ORDER
  {
    var o := PRIORITY_ORDER;
    assert Among(name, 5) <==> name == o[4] || name == o[3] || name == o[2] || name == o[1] || name == o[0] by {
      assert !Among(name, 0);
      assert Among(name, 1) <==> name == o[0];
      assert Among(name, 2) <==> name == o[1] || Among(name, 1);
      assert Among(name, 3) <==> name == o[2] || Among(name, 2);
      assert Among(name, 4) <==> name == o[3] || Among(name, 3);
    }
  }

  /** Flattening loses and invents nothing: it lists exactly the items of all buckets. */
  lemma {:induction false} FlattenListsAll(buckets: seq<Bucket>)
    requires DistinctNames(buckets)
    ensures multiset(ItemsOf(Slots(buckets))) == Listed(buckets)
  {
    var k := |PRIORITY_ORDER|;
    ItemsOfAppend(Known(buckets, k), Unknown(buckets));
    if buckets == [] {
      NothingKnown(k);
    } else {
      var n := |buckets| - 1;
      FlattenListsAll(buckets[..n]);
      KnownLast(buckets, k);
      AmongAll(buckets[n].name);
      ItemsOfAppend(Known(buckets[..n], k), Unknown(buckets[..n]));
      var last := if buckets[n].name in PRIORITY_ORDER then [] else SlotsAt(buckets[n].items, k);
      ItemsOfAppend(Unknown(buckets[..n]), last);
      assert ItemsOf(SlotsAt(buckets[n].items, k)) == buckets[n].items;
    }
  }

  lemma {:induction false} NothingKnown(k: nat)
    requires k <= |PRIORITY_ORDER|
    ensures Known([], k) == []
  {
    if k > 0 { NothingKnown(k - 1); }
  }

  lemma {:induction false} KnownRank(buckets: seq<Bucket>, k: nat)
    requires 0 < k <= |PRIORITY_ORDER|
    ensures Known(buckets, k) == Known(buckets, k - 1) + SlotsAt(Lookup(buckets, PRIORITY_ORDER[k - 1]), k - 1)
  {
  }

  /** The flattened order: system, conversation, memory, rag, tools, with ranks 0 to 4, then the buckets the
      order does not name, with rank 5. */
  lemma FlattenOrder(buckets: seq<Bucket>)
    ensures Slots(buckets) ==
      SlotsAt(Lookup(buckets, "system"), 0) + SlotsAt(Lookup(buckets, "conversation"), 1)
      + SlotsAt(Lookup(buckets, "memory"), 2) + SlotsAt(Lookup(buckets, "rag"), 3)
      + SlotsAt(Lookup(buckets, "tools"), 4) + Unknown(buckets)
  {
    hide Known, Lookup, SlotsAt;
    KnownRank(buckets, 1);
    KnownRank(buckets, 2);
    KnownRank(buckets, 3);
    KnownRank(buckets, 4);
    KnownRank(buckets, 5);
    assert Known(buckets, 0) == [] by { NothingBefore(buckets); }
    assert [] + SlotsAt(Lookup(buckets, "system"), 0) == SlotsAt(Lookup(buckets, "system"), 0);
  }

  /** Unnamed buckets are listed one after the other, and each of their items has the lowest rank. */
  lemma {:induction false} UnknownOrder(a: seq<Bucket>, b: seq<Bucket>)
    ensures Unknown(a + b) == Unknown(a) + Unknown(b)
    ensures |b| == 1 && b[0].name !in PRIORITY_ORDER ==> Unknown(b) == SlotsAt(b[0].items, 5)
    decreases |b|
  {
    hide SlotsAt;
    if b == [] {
      assert a + b == a;
    } else {
      var n := |b| - 1;
      assert (a + b)[..|a| + n] == a + b[..n];
      UnknownOrder(a, b[..n]);
      if n == 0 { NoUnknown(b[..n]); }
    }
  }

  lemma NoUnknown(buckets: seq<Bucket>)
    requires buckets == []
    ensures Unknown(buckets) == []
  {
  }

  // ---------------------------------------------------------------- the packer

  function Costs(items: seq<ContextItem>): seq<int> {
    seq(|items|, i requires 0 <= i < |items| => items[i].tokenCount)
  }

  /** The items with keep[i] == wanted, in order. */
  function Pick(items: seq<ContextItem>, keep: seq<bool>, wanted: bool): seq<ContextItem>
    requires |keep| == |items|
  {
    if items == [] then []
    else (if keep[0] == wanted then [items[0]] else []) + Pick(items[1..], keep[1..], wanted)
  }

  function BucketNames(items: seq<ContextItem>): seq<string> {
    seq(|items|, i requires 0 <= i < |items| => items[i].bucket)
  }

  /** The packed context over the flattened items. */
  function Packed(ordered: seq<ContextItem>, ceiling: int): PackedContext {
    var keep := Greedy(Costs(ordered), 0, ceiling);
    PackedContext(Pick(ordered, keep, true), Cost(Costs(ordered), keep), BucketNames(Pick(ordered, keep, false)))
  }

  lemma {:induction false} PickSnoc(items: seq<ContextItem>, keep: seq<bool>, x: ContextItem, k: bool, wanted: bool)
    requires |keep| == |items|
    ensures Pick(items + [x], keep + [k], wanted) == Pick(items, keep, wanted) + if k == wanted then [x] else []
  {
    if items == [] {
      assert [x][1..] == [];
    } else {
      PickSnoc(items[1..], keep[1..], x, k, wanted);
      assert (items + [x])[1..] == items[1..] + [x] && (keep + [k])[1..] == keep[1..] + [k];
    }
  }

  lemma {:induction false} CostSnoc(costs: seq<int>, keep: seq<bool>, c: int, k: bool)
    requires |keep| == |costs|
    ensures Cost(costs + [c], keep + [k]) == Cost(costs, keep) + if k then c else 0
  {
    if costs != [] {
      CostSnoc(costs[1..], keep[1..], c, k);
      assert (costs + [c])[1..] == costs[1..] + [c] && (keep + [k])[1..] == keep[1..] + [k];
    }
  }

  /** One more item of lowest priority. */
  lemma PackedSnoc(ordered: seq<ContextItem>, x: ContextItem, ceiling: int)
    ensures var p := Packed(ordered, ceiling);
      Packed(ordered + [x], ceiling) ==
        if p.totalTokens + x.tokenCount <= ceiling
        then p.(items := p.items + [x], totalTokens := p.totalTokens + x.tokenCount)
        else p.(droppedBuckets := p.droppedBuckets + [x.bucket])
  {
    var costs := Costs(ordered);
    var keep := Greedy(costs, 0, ceiling);
    assert Costs(ordered + [x]) == costs + [x.tokenCount];
    LowerPriorityIrrelevant(costs, [x.tokenCount], 0, ceiling);
    var k := Cost(costs, keep) + x.tokenCount <= ceiling;
    assert Greedy(costs + [x.tokenCount], 0, ceiling) == keep + [k];
    PickSnoc(ordered, keep, x, k, true);
    PickSnoc(ordered, keep, x, k, false);
    CostSnoc(costs, keep, x.tokenCount, k);
    assert BucketNames(Pick(ordered, keep, false) + [x]) == BucketNames(Pick(ordered, keep, false)) + [x.bucket];
  }

  lemma {:induction false} PickPartitions(items: seq<ContextItem>, keep: seq<bool>)
    requires |keep| == |items|
    ensures multiset(Pick(items, keep, true)) + multiset(Pick(items, keep, false)) == multiset(items)
  {
    if items != [] {
      PickPartitions(items[1..], keep[1..]);
      assert items == [items[0]] + items[1..];
      assert multiset(items) == multiset{items[0]} + multiset(items[1..]);
    }
  }

  /** How many of the first i items have keep == wanted. */
  function Before(keep: seq<bool>, wanted: bool, i: nat): nat
    requires i <= |keep|
  {
    if i == 0 then 0 else Before(keep, wanted, i - 1) + if keep[i - 1] == wanted then 1 else 0
  }

  /** Picking keeps the order: an item comes after as many others as were picked before it. */
  lemma {:induction false} PickedInOrder(items: seq<ContextItem>, keep: seq<bool>, wanted: bool, i: nat)
    requires |keep| == |items| && i <= |items|
    ensures |Pick(items, keep, wanted)| >= Before(keep, wanted, i)
    ensures i == |items| ==> |Pick(items, keep, wanted)| == Before(keep, wanted, i)
    ensures i < |items| && keep[i] == wanted ==>
      Before(keep, wanted, i) < |Pick(items, keep, wanted)| && Pick(items, keep, wanted)[Before(keep, wanted, i)] == items[i]
  {
    if i > 0 {
      PickedInOrder(items[1..], keep[1..], wanted, i - 1);
      BeforeCons(keep, wanted, i);
    }
  }

  lemma {:induction false} BeforeCons(keep: seq<bool>, wanted: bool, i: nat)
    requires 0 < i <= |keep|
    ensures Before(keep, wanted, i) == (if keep[0] == wanted then 1 else 0) + Before(keep[1..], wanted, i - 1)
  {
    if i > 1 { BeforeCons(keep, wanted, i - 1); }
  }

  /** In the packed context the kept items stand in flattened order, and so do the bucket names of the dropped
      ones. */
  lemma PackedInOrder(ordered: seq<ContextItem>, ceiling: int, i: nat)
    requires i < |ordered|
    ensures var keep := Greedy(Costs(ordered), 0, ceiling); var p := Packed(ordered, ceiling);
      if keep[i]
      then Before(keep, true, i) < |p.items| && p.items[Before(keep, true, i)] == ordered[i]
      else Before(keep, false, i) < |p.droppedBuckets| && p.droppedBuckets[Before(keep, false, i)] == ordered[i].bucket
  {
    hide Greedy, Pick, Before, Cost;
    var keep := Greedy(Costs(ordered), 0, ceiling);
    PickedInOrder(ordered, keep, keep[i], i);
  }

  lemma {:induction false} PickCost(items: seq<ContextItem>, keep: seq<bool>)
    requires |keep| == |items|
    ensures Cost(Costs(Pick(items, keep, true)), AllOf(|Pick(items, keep, true)|)) == Cost(Costs(items), keep)
  {
    if items != [] {
      PickCost(items[1..], keep[1..]);
      var rest := Pick(items[1..], keep[1..], true);
      assert Costs(items)[1..] == Costs(items[1..]);
      if keep[0] { CostOfAll(items[0], rest); } else { assert [] + rest == rest; }
    }
  }

  lemma CostOfAll(x: ContextItem, items: seq<ContextItem>)
    ensures Cost(Costs([x] + items), AllOf(1 + |items|)) == x.tokenCount + Cost(Costs(items), AllOf(|items|))
  {
    assert Costs([x] + items)[1..] == Costs(items);
    assert AllOf(1 + |items|)[1..] == AllOf(|items|);
  }

  /** Every listed item is kept or dropped, exactly once; the reported total is the cost of the kept ones;
      one bucket name is reported per dropped item. */
  lemma PackConserves(buckets: seq<Bucket>, ceiling: int)
    requires DistinctNames(buckets)
    ensures var ordered := ItemsOf(Slots(buckets)); var p := Packed(ordered, ceiling);
      var dropped := Pick(ordered, Greedy(Costs(ordered), 0, ceiling), false);
      && multiset(p.items) + multiset(dropped) == Listed(buckets)
      && p.droppedBuckets == BucketNames(dropped)
      && p.totalTokens == Cost(Costs(p.items), AllOf(|p.items|))
  {
    hide Slots, Greedy, Listed, ItemsOf;
    var ordered := ItemsOf(Slots(buckets));
    FlattenListsAll(buckets);
    PickPartitions(ordered, Greedy(Costs(ordered), 0, ceiling));
    PickCost(ordered, Greedy(Costs(ordered), 0, ceiling));
  }

  /** The token total of some items. */
  function Tokens(items: seq<ContextItem>): int {
    Cost(Costs(items), AllOf(|items|))
  }

  lemma {:induction false} KnownFirst(buckets: seq<Bucket>, k: nat) returns (rest: seq<ContextItem>)
    requires k <= |PRIORITY_ORDER|
    ensures ItemsOf(Slots(buckets)) == ItemsOf(Known(buckets, k)) + rest
  {
    var all := |PRIORITY_ORDER|;
    rest := KnownPrefix(buckets, k, all);
    ItemsOfAppend(Known(buckets, all), Unknown(buckets));
    assert (ItemsOf(Known(buckets, k)) + rest) + ItemsOf(Unknown(buckets))
        == ItemsOf(Known(buckets, k)) + (rest + ItemsOf(Unknown(buckets)));
    rest := rest + ItemsOf(Unknown(buckets));
  }

  lemma {:induction false} KnownPrefix(buckets: seq<Bucket>, k: nat, m: nat) returns (rest: seq<ContextItem>)
    requires k <= m <= |PRIORITY_ORDER|
    ensures ItemsOf(Known(buckets, m)) == ItemsOf(Known(buckets, k)) + rest
  {
    hide Known, Lookup, ItemsOf;
    if m == k {
      rest := [];
    } else {
      rest := KnownPrefix(buckets, k, m - 1);
      KnownItems(buckets, m);
      assert (ItemsOf(Known(buckets, k)) + rest) + Lookup(buckets, PRIORITY_ORDER[m - 1])
          == ItemsOf(Known(buckets, k)) + (rest + Lookup(buckets, PRIORITY_ORDER[m - 1]));
      rest := rest + Lookup(buckets, PRIORITY_ORDER[m - 1]);
    }
  }

  /** The k buckets of highest priority survive whole, ahead of everything else, if they fit together; and
      only then are all their items in the result. */
  lemma TopBucketsKeptIff(buckets: seq<Bucket>, k: nat, ceiling: int)
    requires k <= |PRIORITY_ORDER| && ceiling >= 0 && NonNegative(Costs(ItemsOf(Slots(buckets))))
    ensures var top := ItemsOf(Known(buckets, k)); var p := Packed(ItemsOf(Slots(buckets)), ceiling);
      && (Tokens(top) <= ceiling ==> top <= p.items)
      && (multiset(top) <= multiset(p.items) ==> Tokens(top) <= ceiling)
  {
    hide Known, Slots, ItemsOf, Greedy, Pick;
    var top, ordered := ItemsOf(Known(buckets, k)), ItemsOf(Slots(buckets));
    var rest := KnownFirst(buckets, k);
    var p := Packed(ordered, ceiling);
    if Tokens(top) <= ceiling { TopKept(top, rest, ceiling); }
    if multiset(top) <= multiset(p.items) {
      WithinCeiling(ordered, ceiling);
      SubsetTokens(top, p.items);
    }
  }

  lemma TopKept(top: seq<ContextItem>, rest: seq<ContextItem>, ceiling: int)
    requires NonNegative(Costs(top + rest)) && ceiling >= Tokens(top) && ceiling >= 0
    ensures top <= Packed(top + rest, ceiling).items
  {
    hide Greedy, Cost, Pick;
    var a, b := Costs(top), Costs(rest);
    assert Costs(top + rest) == a + b;
    assert forall i :: 0 <= i < |a| ==> a[i] == (a + b)[i];
    FirstKeptIff(a, b, ceiling);
    var keep := Greedy(a + b, 0, ceiling);
    assert keep == AllOf(|a|) + keep[|a|..];
    PickAppend(top, AllOf(|a|), rest, keep[|a|..]);
    PickAll(top);
  }

  lemma {:induction false} PickAppend(a: seq<ContextItem>, ka: seq<bool>, b: seq<ContextItem>, kb: seq<bool>)
    requires |ka| == |a| && |kb| == |b|
    ensures Pick(a + b, ka + kb, true) == Pick(a, ka, true) + Pick(b, kb, true)
  {
    if a == [] {
      assert a + b == b && ka + kb == kb;
    } else {
      PickAppend(a[1..], ka[1..], b, kb);
      assert (a + b)[1..] == a[1..] + b && (ka + kb)[1..] == ka[1..] + kb;
    }
  }

  lemma {:induction false} PickAll(items: seq<ContextItem>)
    ensures Pick(items, AllOf(|items|), true) == items
  {
    if items != [] {
      PickAll(items[1..]);
      assert AllOf(|items|)[1..] == AllOf(|items[1..]|);
    }
  }

  // ---------------------------------------------------------------- does the lowest-priority bucket go first?

  /** No item is kept while one of a higher-priority bucket is dropped. */
  predicate LowestBucketFirst(slots: seq<Slot>, keep: seq<bool>)
    requires |keep| == |slots|
  {
    forall i, j :: 0 <= i < j < |slots| && slots[i].rank < slots[j].rank && keep[j] ==> keep[i]
  }

  /** A new, lower-priority bucket starts at m. */
  predicate Boundary(slots: seq<Slot>, m: nat) {
    0 < m < |slots| && slots[m - 1].rank < slots[m].rank
  }

  /** If the items before m do not fit together, nothing from m on fits on top of what packing those items
      alone would use. */
  predicate OverflowStopsAt(items: seq<ContextItem>, m: nat, ceiling: int)
    requires m <= |items|
  {
    Tokens(items[..m]) > ceiling ==>
      forall j :: m <= j < |items| ==> Packed(items[..m], ceiling).totalTokens + items[j].tokenCount > ceiling
  }

  /** The text says overflow truncates the lowest-priority bucket first. That is so exactly when, at each
      bucket boundary, either all items before it fit together or no item after it fits on top of what packing
      those items alone would use. */
  lemma LowestBucketFirstIff(buckets: seq<Bucket>, ceiling: int)
    requires NonNegative(Costs(ItemsOf(Slots(buckets))))
    ensures var slots := Slots(buckets); var items := ItemsOf(slots);
      LowestBucketFirst(slots, Greedy(Costs(items), 0, ceiling))
      <==> forall m: nat :: Boundary(slots, m) ==> OverflowStopsAt(items, m, ceiling)
  {
    hide Slots, Greedy, OverflowStopsAt, Costs, ItemsOf;
    var slots := Slots(buckets);
    var items := ItemsOf(slots);
    SameLength(slots);
    var keep := Greedy(Costs(items), 0, ceiling);
    SlotsSorted(buckets);
    if LowestBucketFirst(slots, keep) {
      forall m: nat | Boundary(slots, m) ensures OverflowStopsAt(items, m, ceiling) {
        StopsIff(items, m, ceiling);
        if i :| 0 <= i < m && !keep[i] {
          forall j | m <= j < |items| ensures !keep[j] { assert slots[i].rank < slots[j].rank; }
        }
      }
    }
    if forall m: nat :: Boundary(slots, m) ==> OverflowStopsAt(items, m, ceiling) {
      forall i, j | 0 <= i < j < |slots| && slots[i].rank < slots[j].rank && !keep[i] ensures !keep[j] {
        var m := NextBoundary(slots, i, j);
        StopsIff(items, m, ceiling);
      }
    }
  }

  lemma SameLength(slots: seq<Slot>)
    ensures |ItemsOf(slots)| == |Costs(ItemsOf(slots))| == |slots|
  {
  }

  lemma {:induction false} NextBoundary(slots: seq<Slot>, i: nat, j: nat) returns (m: nat)
    requires i < j < |slots| && slots[i].rank < slots[j].rank
    ensures i < m <= j && Boundary(slots, m)
  {
    if slots[j - 1].rank < slots[j].rank { m := j; } else { m := NextBoundary(slots, i, j - 1); }
  }

  /** Overflow stops at m exactly when a dropped item before m means that nothing from m on is kept. */
  lemma StopsIff(items: seq<ContextItem>, m: nat, ceiling: int)
    requires NonNegative(Costs(items)) && m <= |items|
    ensures var keep := Greedy(Costs(items), 0, ceiling);
      OverflowStopsAt(items, m, ceiling)
      <==> ((exists i :: 0 <= i < m && !keep[i]) ==> forall j :: m <= j < |items| ==> !keep[j])
  {
    hide Greedy, Pick, Cost;
    var first, rest := Costs(items[..m]), Costs(items[m..]);
    var keep := Greedy(Costs(items), 0, ceiling);
    assert Costs(items) == first + rest;
    assert NonNegative(first) by { assert forall i :: 0 <= i < m ==> first[i] == Costs(items)[i]; }
    var kept := Greedy(first, 0, ceiling);
    var used := Cost(first, kept);
    LowerPriorityIrrelevant(first, rest, 0, ceiling);
    assert keep == kept + Greedy(rest, 0 + used, ceiling);
    NothingKeptIff(rest, used, ceiling);
    assert NothingKept(Greedy(rest, used, ceiling)) <==> forall j :: m <= j < |items| ==> !keep[j] by {
      TailOf(kept, Greedy(rest, used, ceiling));
    }
    assert NothingFits(rest, used, ceiling) <==> forall j :: m <= j < |items| ==> used + items[j].tokenCount > ceiling by {
      TailFits(items, m, used, ceiling);
    }
    DroppedIff(first, ceiling);
    assert (exists i :: 0 <= i < m && !keep[i]) <==> (exists i :: 0 <= i < m && !kept[i]) by {
      assert forall i :: 0 <= i < m ==> keep[i] == kept[i];
    }
  }

  lemma TailOf(kept: seq<bool>, tail: seq<bool>)
    ensures NothingKept(tail) <==> forall j :: |kept| <= j < |kept + tail| ==> !(kept + tail)[j]
  {
    assert forall j :: 0 <= j < |tail| ==> (kept + tail)[|kept| + j] == tail[j];
    if forall j :: |kept| <= j < |kept + tail| ==> !(kept + tail)[j] {
      forall j | 0 <= j < |tail| ensures !tail[j] { assert !(kept + tail)[|kept| + j]; }
    }
  }

  lemma TailFits(items: seq<ContextItem>, m: nat, used: int, ceiling: int)
    requires m <= |items|
    ensures NothingFits(Costs(items[m..]), used, ceiling) <==>
      forall j :: m <= j < |items| ==> used + items[j].tokenCount > ceiling
  {
    var rest := Costs(items[m..]);
    if NothingFits(rest, used, ceiling) {
      forall j | m <= j < |items| ensures used + items[j].tokenCount > ceiling {
        assert rest[j - m] == items[j].tokenCount;
      }
    }
    if forall j :: m <= j < |items| ==> used + items[j].tokenCount > ceiling {
      forall j | 0 <= j < |rest| ensures used + rest[j] > ceiling { assert rest[j] == items[m + j].tokenCount; }
    }
  }

  /** Some item is dropped exactly when the items do not all fit together. */
  lemma DroppedIff(costs: seq<int>, ceiling: int)
    requires NonNegative(costs)
    ensures (exists i :: 0 <= i < |costs| && !Greedy(costs, 0, ceiling)[i])
      <==> costs != [] && Cost(costs, AllOf(|costs|)) > ceiling
  {
    hide Greedy, Cost;
    var greedy := Greedy(costs, 0, ceiling);
    if ceiling >= 0 {
      FirstKeptIff(costs, [], ceiling);
      assert costs + [] == costs && greedy[..|costs|] == greedy;
      if forall i :: 0 <= i < |costs| ==> greedy[i] { assert greedy == AllOf(|costs|); }
      if costs == [] { CostNothing(costs); }
    } else {
      CostNonNegative(costs, AllOf(|costs|));
      if costs != [] { FirstDropped(costs, ceiling); }
    }
  }

  lemma CostNothing(costs: seq<int>)
    requires costs == []
    ensures Cost(costs, AllOf(|costs|)) == 0
  {
  }

  lemma FirstDropped(costs: seq<int>, ceiling: int)
    requires costs != [] && costs[0] >= 0 > ceiling
    ensures !Greedy(costs, 0, ceiling)[0]
  {
  }

  /** A large item of the conversation is dropped while a small tool result, of the lowest priority, is kept. */
  lemma LowestBucketNotFirst(large: ContextItem, small: ContextItem, ceiling: int)
    requires large.bucket == "conversation" && small.bucket == "tools" && small.tokenCount <= ceiling < large.tokenCount
    ensures Packed(ItemsOf(Slots([Bucket("conversation", [large]), Bucket("tools", [small])])), ceiling)
      == PackedContext([small], small.tokenCount, ["conversation"])
  {
    var buckets := [Bucket("conversation", [large]), Bucket("tools", [small])];
    TwoBuckets(buckets, large, small);
    assert ItemsOf(Slots(buckets)) == [large, small];
    hide Slots, Known, Unknown, ItemsOf;
    PackedSnoc([], large, ceiling);
    PackedSnoc([large], small, ceiling);
    assert [] + [large] == [large] && [large] + [small] == [large, small];
    assert [] + ["conversation"] == ["conversation"] && [] + [small] == [small];
  }

  lemma LookupTwo(a: Bucket, b: Bucket, name: string)
    ensures Lookup([a, b], name) == if a.name == name then a.items else if b.name == name then b.items else []
  {
    var both, last := [a, b], [b];
    assert both[1..] == last && last[1..] == [];
    assert Lookup(last, name) == if b.name == name then b.items else [];
  }

  lemma TwoBuckets(buckets: seq<Bucket>, large: ContextItem, small: ContextItem)
    requires buckets == [Bucket("conversation", [large]), Bucket("tools", [small])]
    ensures Slots(buckets) == [Slot(large, 1), Slot(small, 4)]
  {
    var o := PRIORITY_ORDER;
    OrderDistinct(0, 1); OrderDistinct(0, 4); OrderDistinct(1, 2); OrderDistinct(1, 3); OrderDistinct(1, 4);
    OrderDistinct(2, 4); OrderDistinct(3, 4);
    var a, b := Bucket(o[1], [large]), Bucket(o[4], [small]);
    assert buckets == [a, b];
    LookupTwo(a, b, o[0]); LookupTwo(a, b, o[1]); LookupTwo(a, b, o[2]); LookupTwo(a, b, o[3]); LookupTwo(a, b, o[4]);
    assert Lookup(buckets, o[0]) == [] && Lookup(buckets, o[2]) == [] && Lookup(buckets, o[3]) == [];
    assert Lookup(buckets, o[1]) == [large] && Lookup(buckets, o[4]) == [small];
    assert Known(buckets, 0) == [];
    assert Known(buckets, 1) == [];
    assert Known(buckets, 2) == [Slot(large, 1)];
    assert Known(buckets, 3) == [Slot(large, 1)];
    assert Known(buckets, 4) == [Slot(large, 1)];
    assert Known(buckets, 5) == [Slot(large, 1), Slot(small, 4)];
    assert Unknown(buckets[..0]) == [];
    assert buckets[1].name == o[4] && buckets[0].name == o[1];
    assert buckets[..1][..0] == buckets[..0] && buckets[..2] == buckets;
    assert Unknown(buckets[..1]) == [];
    assert Unknown(buckets) == [];
  }

  /** What is kept fits, and costs no less than nothing. */
  lemma WithinCeiling(ordered: seq<ContextItem>, ceiling: int)
    requires NonNegative(Costs(ordered)) && ceiling >= 0
    ensures var items := Packed(ordered, ceiling).items;
      Tokens(items) <= ceiling && NonNegative(Costs(items))
  {
    hide Greedy, Cost, Pick;
    var costs := Costs(ordered);
    var keep := Greedy(costs, 0, ceiling);
    GreedyGreatestStepwise(costs, keep, 0, ceiling);
    StepwiseIffTotal(costs, keep, 0, ceiling);
    PickCost(ordered, keep);
    PickPartitions(ordered, keep);
    var kept := Pick(ordered, keep, true);
    forall i | 0 <= i < |kept| ensures kept[i].tokenCount >= 0 {
      assert kept[i] in multiset(ordered);
      var j :| 0 <= j < |ordered| && ordered[j] == kept[i];
      assert costs[j] >= 0;
    }
  }

  lemma {:induction false} SubsetTokens(a: seq<ContextItem>, b: seq<ContextItem>)
    requires multiset(a) <= multiset(b) && NonNegative(Costs(b))
    ensures Tokens(a) <= Tokens(b)
  {
    hide Costs, Tokens, NonNegative;
    if a == [] {
      NoTokens(a, b);
    } else {
      var less := WithoutFirst(a, b);
      SubsetTokens(a[1..], less);
    }
  }

  /** Both lists without the first item of `a`. */
  lemma WithoutFirst(a: seq<ContextItem>, b: seq<ContextItem>) returns (less: seq<ContextItem>)
    requires a != [] && multiset(a) <= multiset(b) && NonNegative(Costs(b))
    ensures multiset(a[1..]) <= multiset(less) && NonNegative(Costs(less))
    ensures Tokens(a) - Tokens(a[1..]) == Tokens(b) - Tokens(less)
  {
    hide Costs, Tokens, NonNegative;
    var k := IndexIn(a[0], a, b);
    less := b[..k] + b[k + 1..];
    RemoveAt(b, k);
    RemoveAt(a, 0);
    assert a[..0] + a[1..] == a[1..];
    FewerOf(multiset(a), multiset(b), a[0]);
  }

  lemma FewerOf(a: multiset<ContextItem>, b: multiset<ContextItem>, x: ContextItem)
    requires a <= b
    ensures a - multiset{x} <= b - multiset{x}
  {
  }

  lemma IndexIn(x: ContextItem, a: seq<ContextItem>, b: seq<ContextItem>) returns (k: nat)
    requires x in a && multiset(a) <= multiset(b)
    ensures k < |b| && b[k] == x
  {
    assert x in multiset(a) && x in b;
    k :| 0 <= k < |b| && b[k] == x;
  }

  lemma RemoveAt(b: seq<ContextItem>, k: nat)
    requires k < |b|
    ensures var less := b[..k] + b[k + 1..];
      && multiset(less) == multiset(b) - multiset{b[k]}
      && Tokens(b) == b[k].tokenCount + Tokens(less)
      && (NonNegative(Costs(b)) ==> NonNegative(Costs(less)))
  {
    hide Tokens, Costs, NonNegative;
    assert b == b[..k] + [b[k]] + b[k + 1..];
    TokensAround(b, k);
    if NonNegative(Costs(b)) { NonNegativeWithout(b, k); }
  }

  lemma NonNegativeWithout(b: seq<ContextItem>, k: nat)
    requires k < |b| && NonNegative(Costs(b))
    ensures NonNegative(Costs(b[..k] + b[k + 1..]))
  {
    var less := b[..k] + b[k + 1..];
    forall i | 0 <= i < |less| ensures less[i].tokenCount >= 0 {
      assert Costs(b)[if i < k then i else i + 1] >= 0;
    }
  }

  lemma NoTokens(a: seq<ContextItem>, b: seq<ContextItem>)
    requires a == [] && NonNegative(Costs(b))
    ensures Tokens(a) == 0 <= Tokens(b)
  {
    CostNonNegative(Costs(b), AllOf(|b|));
  }

  lemma {:induction false} TokensAround(b: seq<ContextItem>, k: nat)
    requires k < |b|
    ensures Tokens(b) == b[k].tokenCount + Tokens(b[..k] + b[k + 1..])
  {
    hide Cost, Costs, AllOf;
    assert b == [b[0]] + b[1..];
    CostOfAll(b[0], b[1..]);
    if k == 0 {
      assert b[..0] + b[1..] == b[1..];
    } else {
      TokensAround(b[1..], k - 1);
      var less := b[1..][..k - 1] + b[1..][k..];
      assert b[..k] + b[k + 1..] == [b[0]] + less;
      CostOfAll(b[0], less);
    }
  }

  /** The text says the system prompt is never dropped. All of it is kept exactly when it fits the ceiling on
      its own. */
  lemma SystemPromptKeptIff(buckets: seq<Bucket>, ceiling: int)
    requires ceiling >= 0 && NonNegative(Costs(ItemsOf(Slots(buckets))))
    ensures var prompt := Lookup(buckets, "system"); var p := Packed(ItemsOf(Slots(buckets)), ceiling);
      && (multiset(prompt) <= multiset(p.items) <==> Tokens(prompt) <= ceiling)
      && (Tokens(prompt) <= ceiling ==> prompt <= p.items)
  {
    hide Lookup, Slots, Known, Packed, Tokens, ItemsOf;
    var prompt, p := Lookup(buckets, "system"), Packed(ItemsOf(Slots(buckets)), ceiling);
    KnownItems(buckets, 1);
    NothingBefore(buckets);
    assert ItemsOf(Known(buckets, 1)) == prompt;
    TopBucketsKeptIff(buckets, 1, ceiling);
    if prompt <= p.items { assert p.items == prompt + p.items[|prompt|..]; }
  }

  lemma NothingBefore(buckets: seq<Bucket>)
    ensures Known(buckets, 0) == [] && ItemsOf(Known(buckets, 0)) == []
  {
  }

  /** Every item carries the rank of the last bucket that listed it. */
  ghost predicate PrioritiesSet(slots: seq<Slot>)
    reads set s | s in slots :: s.item
  {
    forall i :: 0 <= i < |slots| && (forall j :: i < j < |slots| ==> slots[j].item != slots[i].item)
      ==> slots[i].item.priority == slots[i].rank
  }

  method SetPriority(item: ContextItem, rank: nat, ghost slots: seq<Slot>)
    requires PrioritiesSet(slots)
    modifies item
    ensures PrioritiesSet(slots + [Slot(item, rank)])
  {
    item.priority := rank;
    ghost var longer := slots + [Slot(item, rank)];
    forall i | 0 <= i < |longer| && (forall j :: i < j < |longer| ==> longer[j].item != longer[i].item)
      ensures longer[i].item.priority == longer[i].rank
    {
      if i < |slots| {
        assert longer[|slots|].item == item;
        forall j | i < j < |slots| ensures slots[j].item != slots[i].item {
          assert longer[j] == slots[j];
        }
      }
    }
  }

  /** Appends one bucket's items to `ordered` and writes their priority. */
  method Enlist(items: seq<ContextItem>, rank: nat, ordered: seq<ContextItem>, ghost slots: seq<Slot>) returns (longer: seq<ContextItem>)
    requires ordered == ItemsOf(slots) && PrioritiesSet(slots)
    modifies set item | item in items
    ensures longer == ItemsOf(slots + SlotsAt(items, rank)) && PrioritiesSet(slots + SlotsAt(items, rank))
  {
    hide PrioritiesSet;
    longer := ordered;
    assert slots + SlotsAt(items[..0], rank) == slots;
    for i := 0 to |items|
      invariant longer == ItemsOf(slots + SlotsAt(items[..i], rank))
      invariant PrioritiesSet(slots + SlotsAt(items[..i], rank))
    {
      ghost var before := slots + SlotsAt(items[..i], rank);
      ghost var after := slots + SlotsAt(items[..i + 1], rank);
      assert after == before + [Slot(items[i], rank)];
      SetPriority(items[i], rank, before);
      longer := longer + [items[i]];
    }
    assert items[..|items|] == items;
  }

  /** The buckets named in PRIORITY_ORDER. */
  method EnlistKnown(buckets: seq<Bucket>) returns (ordered: seq<ContextItem>)
    modifies set b, item | b in buckets && item in b.items :: item
    ensures ordered == ItemsOf(Known(buckets, |PRIORITY_ORDER|)) && PrioritiesSet(Known(buckets, |PRIORITY_ORDER|))
  {
    hide SlotsAt, Lookup, ItemsOf;
    ordered := [];
    NoSlots();
    for rank := 0 to |PRIORITY_ORDER|
      invariant ordered == ItemsOf(Known(buckets, rank)) && PrioritiesSet(Known(buckets, rank))
    {
      var items := Lookup(buckets, PRIORITY_ORDER[rank]);
      forall item | item in items ensures exists b :: b in buckets && item in b.items {
        LookupListed(buckets, PRIORITY_ORDER[rank], item);
      }
      ordered := Enlist(items, rank, ordered, Known(buckets, rank));
    }
  }

  lemma NoSlots()
    ensures ItemsOf([]) == []
  {
  }

  /** The other buckets, after the known ones. */
  method EnlistUnknown(buckets: seq<Bucket>, known: seq<ContextItem>, ghost slots: seq<Slot>) returns (ordered: seq<ContextItem>)
    requires known == ItemsOf(slots) && PrioritiesSet(slots)
    modifies set b, item | b in buckets && item in b.items :: item
    ensures ordered == ItemsOf(slots + Unknown(buckets)) && PrioritiesSet(slots + Unknown(buckets))
  {
    hide SlotsAt, ItemsOf, PrioritiesSet;
    ordered := known;
    assert slots + Unknown(buckets[..0]) == slots;
    for i := 0 to |buckets|
      invariant ordered == ItemsOf(slots + Unknown(buckets[..i])) && PrioritiesSet(slots + Unknown(buckets[..i]))
    {
      ghost var before := slots + Unknown(buckets[..i]);
      UnknownNext(buckets, i);
      assert buckets[i] in buckets;
      if buckets[i].name !in PRIORITY_ORDER {
        ordered := Enlist(buckets[i].items, |PRIORITY_ORDER|, ordered, before);
        assert slots + Unknown(buckets[..i + 1]) == before + SlotsAt(buckets[i].items, |PRIORITY_ORDER|);
      } else {
        assert slots + Unknown(buckets[..i + 1]) == before;
      }
    }
    assert buckets[..|buckets|] == buckets;
  }

  lemma UnknownNext(buckets: seq<Bucket>, i: nat)
    requires i < |buckets|
    ensures Unknown(buckets[..i + 1]) == Unknown(buckets[..i])
      + if buckets[i].name in PRIORITY_ORDER then [] else SlotsAt(buckets[i].items, |PRIORITY_ORDER|)
  {
    hide SlotsAt;
    assert buckets[..i + 1][..i] == buckets[..i];
  }

  method Pack(buckets: seq<Bucket>, tokenCeiling: int) returns (result: PackedContext)
    requires DistinctNames(buckets)
    modifies set b, item | b in buckets && item in b.items :: item
    ensures result == Packed(ItemsOf(Slots(buckets)), tokenCeiling)
    ensures PrioritiesSet(Slots(buckets))
  {
    hide Known, Unknown, ItemsOf, Packed;
    var known := EnlistKnown(buckets);
    ghost var slots := Slots(buckets);
    var ordered := EnlistUnknown(buckets, known, Known(buckets, |PRIORITY_ORDER|));
    result := Fill(ordered, tokenCeiling, slots);
  }

  /** The inclusion loop. */
  method Fill(ordered: seq<ContextItem>, tokenCeiling: int, ghost slots: seq<Slot>) returns (result: PackedContext)
    requires PrioritiesSet(slots)
    ensures result == Packed(ordered, tokenCeiling) && PrioritiesSet(slots)
  {
    result := PackedContext([], 0, []);
    for i := 0 to |ordered|
      invariant result == Packed(ordered[..i], tokenCeiling)
    {
      var item := ordered[i];
      PackedSnoc(ordered[..i], item, tokenCeiling);
      assert ordered[..i + 1] == ordered[..i] + [item];
      if result.totalTokens + item.tokenCount <= tokenCeiling {
        result := result.(items := result.items + [item], totalTokens := result.totalTokens + item.tokenCount);
      } else {
        result := result.(droppedBuckets := result.droppedBuckets + [item.bucket]);
      }
    }
    assert ordered[..|ordered|] == ordered;
  }
}
