/** Python's `sorted(xs, key=key)`: ascending by key, equal keys in their original order. A
    descending sort with reverse=True keeps that order too, so it is the ascending sort by the
    negated key. */
module StableSort {

  predicate SortedBy<T>(s: seq<T>, key: T -> real) {
    forall i, j :: 0 <= i < j < |s| ==> key(s[i]) <= key(s[j])
  }

  /** The elements with key `v`, in order. */
  function WithKey<T>(s: seq<T>, key: T -> real, v: real): seq<T> {
    if s == [] then [] else (if key(s[0]) == v then [s[0]] else []) + WithKey(s[1..], key, v)
  }

  /** Both lists hold the same elements for each key, in the same order. */
  ghost predicate SameByKey<T>(a: seq<T>, b: seq<T>, key: T -> real) {
    forall v: real :: WithKey(a, key, v) == WithKey(b, key, v)
  }

  /** What `sorted` promises: sorted by key, and stable. */
  ghost predicate IsStableSort<T>(xs: seq<T>, ys: seq<T>, key: T -> real) {
    && SortedBy(ys, key)
    && SameByKey(ys, xs, key)
  }

  function Insert<T>(x: T, s: seq<T>, key: T -> real): seq<T> {
    if s == [] || key(x) <= key(s[0]) then [x] + s else [s[0]] + Insert(x, s[1..], key)
  }

  function Sort<T>(xs: seq<T>, key: T -> real): seq<T> {
    if xs == [] then [] else Insert(xs[0], Sort(xs[1..], key), key)
  }

  lemma {:induction false} InsertPermutes<T>(x: T, s: seq<T>, key: T -> real)
    ensures multiset(Insert(x, s, key)) == multiset{x} + multiset(s)
  {
    if s != [] && key(x) > key(s[0]) {
      InsertPermutes(x, s[1..], key);
      assert s == [s[0]] + s[1..];
    }
  }

  lemma {:induction false} InsertSorts<T>(x: T, s: seq<T>, key: T -> real)
    requires SortedBy(s, key)
    ensures SortedBy(Insert(x, s, key), key)
  {
    if s != [] && key(x) > key(s[0]) {
      var rest := Insert(x, s[1..], key);
      InsertSorts(x, s[1..], key);
      InsertPermutes(x, s[1..], key);
      forall j | 0 <= j < |rest| ensures key(s[0]) <= key(rest[j]) {
        assert rest[j] in multiset(rest);
        assert rest[j] == x || rest[j] in s[1..];
      }
    }
  }

  lemma WithKeyCons<T>(x: T, s: seq<T>, key: T -> real, v: real)
    ensures WithKey([x] + s, key, v) == (if key(x) == v then [x] else []) + WithKey(s, key, v)
  {
    assert ([x] + s)[1..] == s;
  }

  lemma {:induction false} InsertStable<T>(x: T, s: seq<T>, key: T -> real, v: real)
    ensures WithKey(Insert(x, s, key), key, v) == (if key(x) == v then [x] else []) + WithKey(s, key, v)
  {
    hide WithKey;
    if s == [] || key(x) <= key(s[0]) {
      WithKeyCons(x, s, key, v);
    } else {
      InsertStable(x, s[1..], key, v);
      WithKeyCons(s[0], Insert(x, s[1..], key), key, v);
      WithKeyCons(s[0], s[1..], key, v);
      assert s == [s[0]] + s[1..];
    }
  }

  /** `Sort` keeps that promise and is a permutation. */
  lemma {:induction false} SortIsStable<T>(xs: seq<T>, key: T -> real)
    ensures IsStableSort(xs, Sort(xs, key), key)
    ensures multiset(Sort(xs, key)) == multiset(xs)
    ensures |Sort(xs, key)| == |xs|
  {
    if xs != [] {
      SortIsStable(xs[1..], key);
      assert xs == [xs[0]] + xs[1..];
      forall v: real ensures WithKey(Sort(xs, key), key, v) == WithKey(xs, key, v) {
        InsertStable(xs[0], Sort(xs[1..], key), key, v);
      }
      InsertSorts(xs[0], Sort(xs[1..], key), key);
      InsertPermutes(xs[0], Sort(xs[1..], key), key);
      assert |multiset(Sort(xs, key))| == |multiset(xs)|;
    }
  }

  lemma {:induction false} WithKeyNonempty<T>(s: seq<T>, key: T -> real, v: real)
    ensures WithKey(s, key, v) != [] <==> exists i :: 0 <= i < |s| && key(s[i]) == v
  {
    if s != [] {
      WithKeyNonempty(s[1..], key, v);
      if WithKey(s[1..], key, v) != [] {
        var i :| 0 <= i < |s[1..]| && key(s[1..][i]) == v;
        assert key(s[i + 1]) == v;
      }
      if i :| 0 <= i < |s| && key(s[i]) == v {
        if i > 0 { assert s[1..][i - 1] == s[i]; }
      }
    }
  }

  lemma SameByKeyHead<T>(a: seq<T>, b: seq<T>, key: T -> real)
    requires SortedBy(a, key) && SortedBy(b, key) && SameByKey(a, b, key) && a != []
    ensures b != [] && a[0] == b[0]
  {
    var v := key(a[0]);
    WithKeyNonempty(a, key, v);
    WithKeyNonempty(b, key, v);
    assert WithKey(a, key, v) == WithKey(b, key, v);
    var i :| 0 <= i < |b| && key(b[i]) == v;
    var u := key(b[0]);
    WithKeyNonempty(a, key, u);
    WithKeyNonempty(b, key, u);
    assert WithKey(a, key, u) == WithKey(b, key, u);
    var j :| 0 <= j < |a| && key(a[j]) == u;
    assert u == v;
    assert WithKey(a, key, v)[0] == a[0] && WithKey(b, key, v)[0] == b[0];
  }

  lemma SameByKeyTail<T>(a: seq<T>, b: seq<T>, key: T -> real)
    requires a != [] && b != [] && a[0] == b[0] && SameByKey(a, b, key)
    ensures SameByKey(a[1..], b[1..], key)
  {
    hide WithKey;
    forall u: real ensures WithKey(a[1..], key, u) == WithKey(b[1..], key, u) {
      assert a == [a[0]] + a[1..] && b == [b[0]] + b[1..];
      WithKeyCons(a[0], a[1..], key, u);
      WithKeyCons(b[0], b[1..], key, u);
      assert WithKey(a, key, u) == WithKey(b, key, u);
      var heads := if key(a[0]) == u then 1 else 0;
      assert WithKey(a[1..], key, u) == WithKey(a, key, u)[heads..];
      assert WithKey(b[1..], key, u) == WithKey(b, key, u)[heads..];
    }
  }

  /** The promise determines the result. */
  lemma {:induction false} StableSortUnique<T>(a: seq<T>, b: seq<T>, key: T -> real)
    requires SortedBy(a, key) && SortedBy(b, key) && SameByKey(a, b, key)
    ensures a == b
    decreases |a|
  {
    hide WithKey, SameByKey;
    if a != [] {
      SameByKeyHead(a, b, key);
      SameByKeyTail(a, b, key);
      StableSortUnique(a[1..], b[1..], key);
      assert a == [a[0]] + a[1..] && b == [b[0]] + b[1..];
    } else if b != [] {
      SameByKeyFlip(a, b, key);
      SameByKeyHead(b, a, key);
    }
  }

  lemma SameByKeyFlip<T>(a: seq<T>, b: seq<T>, key: T -> real)
    requires SameByKey(a, b, key)
    ensures SameByKey(b, a, key)
  {
  }

  /** Sorting a sorted list changes nothing. */
  lemma SortedIsFixed<T>(xs: seq<T>, key: T -> real)
    requires SortedBy(xs, key)
    ensures Sort(xs, key) == xs
  {
    SortIsStable(xs, key);
    StableSortUnique(Sort(xs, key), xs, key);
  }

  predicate StrictlySortedBy<T>(s: seq<T>, key: T -> real) {
    forall i, j :: 0 <= i < j < |s| ==> key(s[i]) < key(s[j])
  }

  /** Whatever order the elements of a strictly sorted list arrive in, sorting restores the list. */
  lemma SortRestores<T>(xs: seq<T>, ys: seq<T>, key: T -> real)
    requires multiset(xs) == multiset(ys) && StrictlySortedBy(ys, key)
    ensures Sort(xs, key) == ys
  {
    SortIsStable(xs, key);
    SortedPermutation(Sort(xs, key), ys, key);
  }

  lemma {:induction false} SortedPermutation<T>(xs: seq<T>, ys: seq<T>, key: T -> real)
    requires multiset(xs) == multiset(ys) && SortedBy(xs, key) && StrictlySortedBy(ys, key)
    ensures xs == ys
  {
    hide SortedBy, StrictlySortedBy;
    if xs == [] || ys == [] {
      assert |multiset(xs)| == |multiset(ys)|;
    } else {
      SortedTail(xs, key);
      StrictlySortedTail(ys, key);
      SameHead(xs, ys, key);
      TailMultiset(xs);
      TailMultiset(ys);
      SortedPermutation(xs[1..], ys[1..], key);
      HeadAndTail(xs, ys);
    }
  }

  lemma HeadAndTail<T>(xs: seq<T>, ys: seq<T>)
    requires xs != [] && ys != [] && xs[0] == ys[0] && xs[1..] == ys[1..]
    ensures xs == ys
  {
    assert xs == [xs[0]] + xs[1..] && ys == [ys[0]] + ys[1..];
  }

  lemma SortedTail<T>(s: seq<T>, key: T -> real)
    requires s != [] && SortedBy(s, key)
    ensures SortedBy(s[1..], key)
  {
  }

  lemma StrictlySortedTail<T>(s: seq<T>, key: T -> real)
    requires StrictlySortedBy(s, key)
    ensures s != [] ==> StrictlySortedBy(s[1..], key)
  {
  }

  lemma SameHead<T>(xs: seq<T>, ys: seq<T>, key: T -> real)
    requires multiset(xs) == multiset(ys) && SortedBy(xs, key) && StrictlySortedBy(ys, key)
    requires xs != [] && ys != []
    ensures xs[0] == ys[0]
  {
    assert xs[0] in multiset(ys) && ys[0] in multiset(xs);
    assert forall k :: 0 < k < |ys| ==> key(ys[0]) < key(ys[k]);
    var i :| 0 <= i < |ys| && ys[i] == xs[0];
    var j :| 0 <= j < |xs| && xs[j] == ys[0];
    assert key(xs[0]) <= key(xs[j]);
  }

  lemma TailMultiset<T>(s: seq<T>)
    requires s != []
    ensures multiset(s[1..]) == multiset(s) - multiset{s[0]}
  {
    assert s == [s[0]] + s[1..];
  }

  /** Element i is a minimum and no earlier element is. */
  predicate FirstMinimum<T>(xs: seq<T>, key: T -> real, i: nat) {
    && i < |xs|
    && (forall j :: 0 <= j < |xs| ==> key(xs[i]) <= key(xs[j]))
    && (forall j :: 0 <= j < i ==> key(xs[i]) < key(xs[j]))
  }

  /** The head of the sorted list is the first minimum of the input. */
  lemma HeadIsFirstMinimum<T>(xs: seq<T>, key: T -> real) returns (i: nat)
    requires xs != []
    ensures Sort(xs, key) != [] && FirstMinimum(xs, key, i) && Sort(xs, key)[0] == xs[i]
  {
    SortIsStable(xs, key);
    var ys := Sort(xs, key);
    assert ys != [];
    var v := key(ys[0]);
    assert WithKey(ys, key, v) == WithKey(xs, key, v);
    assert WithKey(ys, key, v)[0] == ys[0];
    i := FirstWithKey(xs, key, v);
    forall j | 0 <= j < |xs| ensures v <= key(xs[j]) {
      assert xs[j] in multiset(xs);
      assert xs[j] in ys;
    }
  }

  lemma {:induction false} FirstWithKey<T>(s: seq<T>, key: T -> real, v: real) returns (i: nat)
    requires WithKey(s, key, v) != []
    ensures i < |s| && key(s[i]) == v && s[i] == WithKey(s, key, v)[0]
    ensures forall j :: 0 <= j < i ==> key(s[j]) != v
  {
    if key(s[0]) == v {
      i := 0;
    } else {
      var k := FirstWithKey(s[1..], key, v);
      i := k + 1;
      forall j | 0 <= j < i ensures key(s[j]) != v {
        if j > 0 { assert s[j] == s[1..][j - 1]; }
      }
    }
  }

  // ---------------------------------------------------------------- sorting as a permutation

  /** Every index below n, once each. */
  predicate IsPermutation(perm: seq<nat>, n: nat) {
    && |perm| == n
    && (forall k :: 0 <= k < n ==> perm[k] < n)
    && (forall k, l :: 0 <= k < l < n ==> perm[k] != perm[l])
  }

  /** `ys` lists the elements of `xs` in the order of `perm`. */
  ghost predicate ListedBy<T>(xs: seq<T>, ys: seq<T>, perm: seq<nat>) {
    && |ys| == |perm| == |xs|
    && forall k :: 0 <= k < |ys| ==> perm[k] < |xs| && ys[k] == xs[perm[k]]
  }

  /** Smaller keys first, and equal keys in input order. */
  predicate InOrderOf<T>(xs: seq<T>, perm: seq<nat>, key: T -> real)
    requires forall k :: 0 <= k < |perm| ==> perm[k] < |xs|
  {
    forall k, l :: 0 <= k < l < |perm| ==>
      key(xs[perm[k]]) < key(xs[perm[l]]) || (key(xs[perm[k]]) == key(xs[perm[l]]) && perm[k] < perm[l])
  }

  /** Where `Insert` puts x. */
  function Place<T>(x: T, s: seq<T>, key: T -> real): (p: nat)
    ensures p <= |s|
    ensures forall k :: 0 <= k < p ==> key(s[k]) < key(x)
    ensures p < |s| ==> key(x) <= key(s[p])
  {
    if s == [] || key(x) <= key(s[0]) then 0 else 1 + Place(x, s[1..], key)
  }

  lemma {:induction false} InsertAtPlace<T>(x: T, s: seq<T>, key: T -> real)
    ensures Insert(x, s, key) == s[..Place(x, s, key)] + [x] + s[Place(x, s, key)..]
  {
    var p := Place(x, s, key);
    if s == [] || key(x) <= key(s[0]) {
      assert s[..p] + [x] + s[p..] == [x] + s;
    } else {
      InsertAtPlace(x, s[1..], key);
      var q := p - 1;
      assert [s[0]] + (s[1..][..q] + [x] + s[1..][q..]) == s[..p] + [x] + s[p..];
    }
  }

  function Shifted(perm: seq<nat>): (r: seq<nat>)
    ensures |r| == |perm| && forall k :: 0 <= k < |perm| ==> r[k] == perm[k] + 1
  {
    seq(|perm|, k requires 0 <= k < |perm| => perm[k] + 1)
  }

  /** The sorted list is the input in the order of a permutation that puts smaller keys first, and equal
      keys in input order. */
  lemma {:induction false} SortPermutes<T>(xs: seq<T>, key: T -> real) returns (perm: seq<nat>)
    ensures IsPermutation(perm, |xs|) && ListedBy(xs, Sort(xs, key), perm) && InOrderOf(xs, perm, key)
  {
    if xs == [] {
      perm := [];
    } else {
      var rest := SortPermutes(xs[1..], key);
      perm := InsertIndex(xs, key, rest);
    }
  }

  lemma InsertIndex<T>(xs: seq<T>, key: T -> real, rest: seq<nat>) returns (perm: seq<nat>)
    requires xs != [] && IsPermutation(rest, |xs| - 1)
    requires ListedBy(xs[1..], Sort(xs[1..], key), rest) && InOrderOf(xs[1..], rest, key)
    ensures IsPermutation(perm, |xs|) && ListedBy(xs, Sort(xs, key), perm) && InOrderOf(xs, perm, key)
  {
    var s := Sort(xs[1..], key);
    var p := Place(xs[0], s, key);
    InsertAtPlace(xs[0], s, key);
    var up := Shifted(rest);
    perm := up[..p] + [0] + up[p..];
    ShiftedIndex(xs, s, rest);
    hide Sort, Place, Insert, IsPermutation, ListedBy, InOrderOf;
    InsertedPermutation(up, p, rest);
    InsertedList(xs, s, up, p);
    OrderShifts(xs, s, rest, key);
    InsertedOrder(xs, key, s, up, p);
    assert Sort(xs, key) == Insert(xs[0], s, key) by { SortCons(xs, key); }
  }

  lemma SortCons<T>(xs: seq<T>, key: T -> real)
    requires xs != []
    ensures Sort(xs, key) == Insert(xs[0], Sort(xs[1..], key), key)
  {
  }

  lemma ShiftedIndex<T>(xs: seq<T>, s: seq<T>, rest: seq<nat>)
    requires xs != [] && ListedBy(xs[1..], s, rest)
    ensures |s| == |rest| == |xs| - 1
    ensures forall k :: 0 <= k < |rest| ==> Shifted(rest)[k] < |xs| && xs[Shifted(rest)[k]] == s[k]
  {
    forall k | 0 <= k < |rest| ensures Shifted(rest)[k] < |xs| && xs[Shifted(rest)[k]] == s[k] {
      assert xs[rest[k] + 1] == xs[1..][rest[k]];
    }
  }

  lemma InsertedPermutation(up: seq<nat>, p: nat, rest: seq<nat>)
    requires IsPermutation(rest, |rest|) && up == Shifted(rest) && p <= |up|
    ensures IsPermutation(up[..p] + [0] + up[p..], |rest| + 1)
  {
    var perm := up[..p] + [0] + up[p..];
    forall k | 0 <= k < |perm|
      ensures perm[k] == if k < p then rest[k] + 1 else if k == p then 0 else rest[k - 1] + 1
    {
    }
    forall k, l | 0 <= k < l < |perm| ensures perm[k] != perm[l] {
      if k != p && l != p {
        var k', l' := if k < p then k else k - 1, if l < p then l else l - 1;
        assert rest[k'] != rest[l'];
      }
    }
  }

  lemma InsertedList<T>(xs: seq<T>, s: seq<T>, up: seq<nat>, p: nat)
    requires xs != [] && |s| == |up| == |xs| - 1 && p <= |s|
    requires forall k :: 0 <= k < |up| ==> up[k] < |xs| && xs[up[k]] == s[k]
    ensures ListedBy(xs, s[..p] + [xs[0]] + s[p..], up[..p] + [0] + up[p..])
  {
  }

  lemma OrderShifts<T>(xs: seq<T>, s: seq<T>, rest: seq<nat>, key: T -> real)
    requires xs != [] && ListedBy(xs[1..], s, rest) && InOrderOf(xs[1..], rest, key)
    ensures forall k, l :: 0 <= k < l < |rest| ==>
      key(s[k]) < key(s[l]) || (key(s[k]) == key(s[l]) && Shifted(rest)[k] < Shifted(rest)[l])
  {
  }

  lemma InsertedOrder<T>(xs: seq<T>, key: T -> real, s: seq<T>, up: seq<nat>, p: nat)
    requires xs != [] && |s| == |up| == |xs| - 1 && p <= |s|
    requires forall k :: 0 <= k < |up| ==> 0 < up[k] < |xs| && xs[up[k]] == s[k]
    requires forall k, l :: 0 <= k < l < |up| ==> key(s[k]) < key(s[l]) || (key(s[k]) == key(s[l]) && up[k] < up[l])
    requires forall k :: 0 <= k < p ==> key(s[k]) < key(xs[0])
    requires p < |s| ==> key(xs[0]) <= key(s[p])
    ensures var perm := up[..p] + [0] + up[p..];
      (forall k :: 0 <= k < |perm| ==> perm[k] < |xs|) && InOrderOf(xs, perm, key)
  {
    var perm := up[..p] + [0] + up[p..];
    assert forall k :: 0 <= k < p ==> perm[k] == up[k];
    assert forall k :: p < k < |perm| ==> perm[k] == up[k - 1];
    forall k, l | 0 <= k < l < |perm|
      ensures key(xs[perm[k]]) < key(xs[perm[l]]) || (key(xs[perm[k]]) == key(xs[perm[l]]) && perm[k] < perm[l])
    {
      if k == p {
        assert key(s[p]) <= key(s[l - 1]);
      }
    }
  }

  // ---------------------------------------------------------------- sorting and mapping

  function Map<T, U>(f: T -> U, s: seq<T>): (r: seq<U>)
    ensures |r| == |s| && forall i :: 0 <= i < |s| ==> r[i] == f(s[i])
  {
    if s == [] then [] else [f(s[0])] + Map(f, s[1..])
  }

  lemma MapNothing<T, U>(f: T -> U, s: seq<T>)
    requires s == []
    ensures Map(f, s) == []
  {
  }

  lemma MapSnoc<T, U>(f: T -> U, s: seq<T>, x: T)
    ensures Map(f, s + [x]) == Map(f, s) + [f(x)]
  {
  }

  lemma {:induction false} InsertMaps<T, U>(x: T, s: seq<T>, f: T -> U, key: U -> real, k: T -> real)
    requires forall y :: k(y) == key(f(y))
    ensures Map(f, Insert(x, s, k)) == Insert(f(x), Map(f, s), key)
  {
    if s != [] && k(x) > k(s[0]) {
      InsertMaps(x, s[1..], f, key, k);
    } else {
      assert ([x] + s)[1..] == s;
    }
  }

  /** Sorting by a key of f(x) is sorting the images. */
  lemma {:induction false} SortMaps<T, U>(xs: seq<T>, f: T -> U, key: U -> real, k: T -> real)
    requires forall x :: k(x) == key(f(x))
    ensures Map(f, Sort(xs, k)) == Sort(Map(f, xs), key)
  {
    if xs != [] {
      SortMaps(xs[1..], f, key, k);
      InsertMaps(xs[0], Sort(xs[1..], k), f, key, k);
    }
  }

  // ---------------------------------------------------------------- which elements come last

  /** No element with property p comes before one without. */
  ghost predicate Last<T>(p: T -> bool, s: seq<T>) {
    forall i, j :: 0 <= i < j < |s| && p(s[i]) ==> p(s[j])
  }

  /** The same among the elements of key v only. */
  ghost predicate LastAmong<T>(p: T -> bool, s: seq<T>, key: T -> real, v: real) {
    forall i, j :: 0 <= i < j < |s| && key(s[i]) == v && key(s[j]) == v && p(s[i]) ==> p(s[j])
  }

  lemma {:induction false} WithKeyLast<T>(p: T -> bool, s: seq<T>, key: T -> real, v: real)
    ensures Last(p, WithKey(s, key, v)) <==> LastAmong(p, s, key, v)
  {
    hide Last, LastAmong;
    if s == [] {
      LastOfNothing(p, s, key, v);
    } else {
      var w := WithKey(s[1..], key, v);
      WithKeyLast(p, s[1..], key, v);
      TailAmong(p, s, key, v);
      if key(s[0]) == v {
        AllWithKey(p, s[1..], key, v);
        ConsLast(p, s[0], w);
        assert WithKey(s, key, v) == [s[0]] + w;
      } else {
        assert WithKey(s, key, v) == w;
      }
    }
  }

  lemma LastOfNothing<T>(p: T -> bool, s: seq<T>, key: T -> real, v: real)
    requires s == []
    ensures Last(p, s) && LastAmong(p, s, key, v)
  {
  }

  lemma ConsLast<T>(p: T -> bool, x: T, w: seq<T>)
    ensures Last(p, [x] + w) <==> Last(p, w) && (p(x) ==> forall y :: y in w ==> p(y))
  {
    var s := [x] + w;
    assert forall i :: 0 <= i < |w| ==> s[i + 1] == w[i];
    if Last(p, s) {
      forall i, j | 0 <= i < j < |w| && p(w[i]) ensures p(w[j]) { assert p(s[i + 1]) && p(s[j + 1]); }
      if p(x) {
        forall y | y in w ensures p(y) {
          var i :| 0 <= i < |w| && w[i] == y;
          assert p(s[0]) && s[i + 1] == y;
        }
      }
    }
  }

  lemma TailAmong<T>(p: T -> bool, s: seq<T>, key: T -> real, v: real)
    requires s != []
    ensures LastAmong(p, s, key, v) <==>
      LastAmong(p, s[1..], key, v)
      && (key(s[0]) == v && p(s[0]) ==> forall y :: y in s[1..] && key(y) == v ==> p(y))
  {
    var t := s[1..];
    assert forall i :: 0 <= i < |t| ==> t[i] == s[i + 1];
    if LastAmong(p, s, key, v) {
      forall i, j | 0 <= i < j < |t| && key(t[i]) == v && key(t[j]) == v && p(t[i]) ensures p(t[j]) {
        assert p(s[i + 1]) && key(s[j + 1]) == v;
      }
      if key(s[0]) == v && p(s[0]) {
        forall y | y in t && key(y) == v ensures p(y) {
          var j :| 0 <= j < |t| && t[j] == y;
          assert key(s[j + 1]) == v;
        }
      }
    }
    if LastAmong(p, t, key, v) && (key(s[0]) == v && p(s[0]) ==> forall y :: y in t && key(y) == v ==> p(y)) {
      forall i, j | 0 <= i < j < |s| && key(s[i]) == v && key(s[j]) == v && p(s[i]) ensures p(s[j]) {
        assert s[j] == t[j - 1];
        if i > 0 { assert s[i] == t[i - 1]; }
      }
    }
  }

  lemma {:induction false} WithKeyMember<T>(s: seq<T>, key: T -> real, v: real, x: T)
    ensures x in WithKey(s, key, v) <==> x in s && key(x) == v
  {
    if s != [] {
      WithKeyMember(s[1..], key, v, x);
      assert s == [s[0]] + s[1..];
    }
  }

  lemma AllWithKey<T>(p: T -> bool, s: seq<T>, key: T -> real, v: real)
    ensures (forall y :: y in WithKey(s, key, v) ==> p(y)) <==> (forall y :: y in s && key(y) == v ==> p(y))
  {
    hide WithKey;
    if forall y :: y in WithKey(s, key, v) ==> p(y) {
      forall y | y in s && key(y) == v ensures p(y) { WithKeyMember(s, key, v, y); }
    }
    if forall y :: y in s && key(y) == v ==> p(y) {
      forall y | y in WithKey(s, key, v) ensures p(y) { WithKeyMember(s, key, v, y); }
    }
  }

  /** Where all elements with property p share the key v, the sorted list has them last exactly when every
      other element has a smaller key, or the same key and an earlier place in the input. */
  lemma SortedLastIff<T>(xs: seq<T>, key: T -> real, p: T -> bool, v: real)
    requires forall i :: 0 <= i < |xs| && p(xs[i]) ==> key(xs[i]) == v
    ensures Last(p, Sort(xs, key)) <==>
      forall i, j :: 0 <= i < |xs| && 0 <= j < |xs| && p(xs[i]) && !p(xs[j]) ==>
        key(xs[j]) < v || (key(xs[j]) == v && j < i)
  {
    hide WithKey, Sort;
    var ys := Sort(xs, key);
    SortIsStable(xs, key);
    assert WithKey(ys, key, v) == WithKey(xs, key, v);
    WithKeyLast(p, ys, key, v);
    WithKeyLast(p, xs, key, v);
    if Last(p, ys) {
      forall i, j | 0 <= i < |xs| && 0 <= j < |xs| && p(xs[i]) && !p(xs[j])
        ensures key(xs[j]) < v || (key(xs[j]) == v && j < i)
      {
        assert LastAmong(p, xs, key, v);
        assert xs[i] in multiset(ys) && xs[j] in multiset(ys);
        var a :| 0 <= a < |ys| && ys[a] == xs[i];
        var b :| 0 <= b < |ys| && ys[b] == xs[j];
      }
    }
    if forall i, j :: 0 <= i < |xs| && 0 <= j < |xs| && p(xs[i]) && !p(xs[j]) ==>
        key(xs[j]) < v || (key(xs[j]) == v && j < i)
    {
      assert LastAmong(p, xs, key, v);
      forall a, b | 0 <= a < b < |ys| && p(ys[a]) ensures p(ys[b]) {
        assert ys[a] in multiset(xs) && ys[b] in multiset(xs);
        var i :| 0 <= i < |xs| && xs[i] == ys[a];
        var j :| 0 <= j < |xs| && xs[j] == ys[b];
        assert key(ys[a]) <= key(ys[b]);
      }
    }
  }
}
