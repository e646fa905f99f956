/**
 * The shard planner (src/pheasant/sharding.py): whole sources are packed
 * largest-first onto the lightest shard.  The packing is shown to stay within
 * 4/3 - 1/(3m) of every split into m shards, and the automatic shard count to
 * be a lower bound on every split that fits the budget.
 */
module Sharding {

  import opened Options
  import opened Sequences

  datatype SourceSize = SourceSize(name: string, files: int)

  /** A source the planner keeps: one with files. */
  type Usable = s: SourceSize | s.files > 0 witness SourceSize("docs", 1)

  /** 6.3 graph nodes per file, truncated. */
  function Nodes(s: Usable): nat {
    s.files * 63 / 10
  }

  function Files(s: Usable): nat {
    s.files
  }

  // ------------------------------------------------------------- sums

  function Sum(f: Usable -> nat, s: seq<Usable>): nat {
    if s == [] then 0 else Sum(f, s[..|s| - 1]) + f(s[|s| - 1])
  }

  function Load(s: seq<Usable>): nat {
    Sum(Nodes, s)
  }

  function SumOver(f: Usable -> nat, split: seq<seq<Usable>>): nat {
    if split == [] then 0 else SumOver(f, split[..|split| - 1]) + Sum(f, split[|split| - 1])
  }

  lemma {:induction false} SumConcat(f: Usable -> nat, s: seq<Usable>, t: seq<Usable>)
    ensures Sum(f, s + t) == Sum(f, s) + Sum(f, t)
  {
    if t == [] {
      assert s + t == s;
    } else {
      var u := t[..|t| - 1];
      assert (s + t)[..|s + t| - 1] == s + u;
      SumConcat(f, s, u);
    }
  }

  lemma {:induction false} SumFlatten(f: Usable -> nat, split: seq<seq<Usable>>)
    ensures Sum(f, Flatten(split)) == SumOver(f, split)
  {
    if split != [] {
      SumFlatten(f, split[..|split| - 1]);
      SumConcat(f, Flatten(split[..|split| - 1]), split[|split| - 1]);
    }
  }

  function Removed(s: seq<Usable>, i: nat): seq<Usable>
    requires i < |s|
  {
    s[..i] + s[i + 1..]
  }

  lemma RemovedMultiset(s: seq<Usable>, i: nat)
    requires i < |s|
    ensures multiset(Removed(s, i)) == multiset(s) - multiset{s[i]}
  {
    assert s == s[..i] + [s[i]] + s[i + 1..];
  }

  lemma {:induction false} SumRemoved(f: Usable -> nat, s: seq<Usable>, i: nat)
    requires i < |s|
    ensures Sum(f, s) == Sum(f, Removed(s, i)) + f(s[i])
  {
    var n := |s| - 1;
    var left := Removed(s, i);
    if i == n {
      assert left == s[..n];
    } else {
      SumRemoved(f, s[..n], i);
      assert left[..|left| - 1] == Removed(s[..n], i) && left[|left| - 1] == s[n];
    }
  }

  lemma {:induction false} SumPermuted(f: Usable -> nat, s: seq<Usable>, t: seq<Usable>)
    requires multiset(s) == multiset(t)
    ensures Sum(f, s) == Sum(f, t)
    decreases |s|
  {
    if s == [] {
      assert |t| == |multiset(t)| == 0;
    } else {
      assert s[0] in multiset(t);
      var i :| 0 <= i < |t| && t[i] == s[0];
      RemovedMultiset(s, 0);
      RemovedMultiset(t, i);
      SumPermuted(f, Removed(s, 0), Removed(t, i));
      SumRemoved(f, s, 0);
      SumRemoved(f, t, i);
    }
  }

  lemma {:induction false} SumAtLeast(f: Usable -> nat, split: seq<seq<Usable>>, lo: nat)
    requires forall i :: 0 <= i < |split| ==> lo <= Sum(f, split[i])
    ensures |split| * lo <= SumOver(f, split)
  {
    if split != [] {
      var n := |split| - 1;
      assert lo <= Sum(f, split[n]);
      SumAtLeast(f, split[..n], lo);
      OneMore(n, lo);
    }
  }

  lemma {:induction false} SumAtMost(f: Usable -> nat, split: seq<seq<Usable>>, hi: nat)
    requires forall i :: 0 <= i < |split| ==> Sum(f, split[i]) <= hi
    ensures SumOver(f, split) <= |split| * hi
  {
    if split != [] {
      var n := |split| - 1;
      assert Sum(f, split[n]) <= hi;
      SumAtMost(f, split[..n], hi);
      OneMore(n, hi);
    }
  }

  // ------------------------------------------------------------- splits

  /** Whole sources spread over `m` shards, each source in exactly one. */
  ghost predicate IsSplit(split: seq<seq<Usable>>, m: nat, sources: seq<Usable>) {
    |split| == m && multiset(Flatten(split)) == multiset(sources)
  }

  ghost predicate Fits(split: seq<seq<Usable>>, budget: int) {
    forall i :: 0 <= i < |split| ==> Load(split[i]) <= budget
  }

  lemma SplitSum(f: Usable -> nat, split: seq<seq<Usable>>, m: nat, sources: seq<Usable>)
    requires IsSplit(split, m, sources)
    ensures SumOver(f, split) == Sum(f, sources)
  {
    SumFlatten(f, split);
    SumPermuted(f, Flatten(split), sources);
  }

  // ------------------------------------------------------------- packing

  /** `min(bins, key=(nodes, index))`: the first of the lightest shards. */
  function Lightest(bins: seq<seq<Usable>>): (i: nat)
    requires bins != []
    ensures i < |bins|
    ensures forall j :: 0 <= j < |bins| ==> Load(bins[i]) <= Load(bins[j])
    ensures forall j :: 0 <= j < i ==> Load(bins[i]) < Load(bins[j])
  {
    if |bins| == 1 then 0 else
      var i := Lightest(bins[..|bins| - 1]);
      if Load(bins[|bins| - 1]) < Load(bins[i]) then |bins| - 1 else i
  }

  function Empty(m: nat): (bins: seq<seq<Usable>>)
    ensures |bins| == m && forall i :: 0 <= i < m ==> bins[i] == []
  {
    seq(m, i => [])
  }

  /** Greedy packing in the given order. */
  function Pack(ordered: seq<Usable>, m: nat): (bins: seq<seq<Usable>>)
    requires m >= 1
    ensures |bins| == m
  {
    if ordered == [] then Empty(m) else
      var bins := Pack(ordered[..|ordered| - 1], m);
      var i := Lightest(bins);
      bins[i := bins[i] + [ordered[|ordered| - 1]]]
  }

  lemma {:induction false} FlattenUpdate(bins: seq<seq<Usable>>, i: nat, x: Usable)
    requires i < |bins|
    ensures multiset(Flatten(bins[i := bins[i] + [x]])) == multiset(Flatten(bins)) + multiset{x}
  {
    var n := |bins| - 1;
    var bins' := bins[i := bins[i] + [x]];
    if i == n {
      assert bins'[..n] == bins[..n];
      assert Flatten(bins') == Flatten(bins) + [x];
    } else {
      FlattenUpdate(bins[..n], i, x);
      assert bins'[..n] == bins[..n][i := bins[i] + [x]];
    }
  }

  lemma {:induction false} FlattenEmpty(m: nat)
    ensures Flatten(Empty(m)) == []
  {
    if m > 0 {
      FlattenEmpty(m - 1);
      assert Empty(m)[..m - 1] == Empty(m - 1);
    }
  }

  /** Every source lands in exactly one shard. */
  lemma {:induction false} PackIsSplit(ordered: seq<Usable>, m: nat)
    requires m >= 1
    ensures IsSplit(Pack(ordered, m), m, ordered)
  {
    if ordered == [] {
      FlattenEmpty(m);
    } else {
      var init, x := ordered[..|ordered| - 1], ordered[|ordered| - 1];
      assert ordered == init + [x];
      PackIsSplit(init, m);
      PackOne(init, x, m);
    }
  }

  lemma PackOne(init: seq<Usable>, x: Usable, m: nat)
    requires m >= 1 && IsSplit(Pack(init, m), m, init)
    ensures IsSplit(Pack(init + [x], m), m, init + [x])
  {
    var bins := Pack(init, m);
    var i := Lightest(bins);
    FlattenUpdate(bins, i, x);
    assert (init + [x])[..|init|] == init;
    assert Pack(init + [x], m) == bins[i := bins[i] + [x]];
  }

  /** The greedy step: the next source goes to the end of the first of the lightest shards, and no other shard changes. */
  lemma PackIsGreedy(ordered: seq<Usable>, x: Usable, m: nat) returns (i: nat)
    requires m >= 1
    ensures i < m
    ensures forall j :: 0 <= j < m ==> Load(Pack(ordered, m)[i]) <= Load(Pack(ordered, m)[j])
    ensures forall j :: 0 <= j < i ==> Load(Pack(ordered, m)[i]) < Load(Pack(ordered, m)[j])
    ensures Pack(ordered + [x], m) == Pack(ordered, m)[i := Pack(ordered, m)[i] + [x]]
  {
    i := Lightest(Pack(ordered, m));
    assert (ordered + [x])[..|ordered|] == ordered;
  }

  /** A shard lists its sources in the order they were placed. */
  lemma {:induction false} ShardsKeepOrder(ordered: seq<Usable>, m: nat, i: nat) returns (picked: seq<nat>)
    requires i < m
    ensures Picks(picked, ordered, Pack(ordered, m)[i])
  {
    picked := [];
    if ordered != [] {
      var init, x := ordered[..|ordered| - 1], ordered[|ordered| - 1];
      picked := ShardsKeepOrder(init, m, i);
      if i == Lightest(Pack(init, m)) {
        picked := picked + [|init|];
      }
    }
  }

  /** The first `m` sources open the `m` shards one after another. */
  lemma {:induction false} PackFills(ordered: seq<Usable>, m: nat)
    requires m >= 1
    ensures forall i :: 0 <= i < m ==> (Pack(ordered, m)[i] != [] <==> i < |ordered|)
    ensures forall i :: 0 <= i < m && i < |ordered| ==> Pack(ordered, m)[i][0] == ordered[i]
  {
    if ordered != [] {
      var init, x := ordered[..|ordered| - 1], ordered[|ordered| - 1];
      PackFills(init, m);
      var bins := Pack(init, m);
      forall i | 0 <= i < m
        ensures Load(bins[i]) == 0 <==> bins[i] == []
      {
        LoadPositive(bins[i]);
      }
      if |init| < m {
        assert Load(bins[|init|]) == 0;
        assert Lightest(bins) == |init|;
      }
    }
  }

  lemma LoadPositive(s: seq<Usable>)
    ensures Load(s) == 0 <==> s == []
  {
    if s != [] {
      assert Nodes(s[|s| - 1]) >= 6;
    }
  }

  // -------------------------------------------------- the 4/3 bound

  /** How much of a two-item shard a source takes once items are at least `p` and shards at most `cap`. */
  function Weight(p: nat, cap: nat): Usable -> nat {
    (x: Usable) => if Nodes(x) < p then 0 else if Nodes(x) + p > cap then 2 else 1
  }

  /** With 3p > cap, weight beyond two overflows the shard. */
  lemma {:induction false} HeavyOverflows(s: seq<Usable>, p: nat, cap: nat)
    requires 3 * p > cap
    ensures Sum(Weight(p, cap), s) >= 1 ==> Load(s) >= p
    ensures Sum(Weight(p, cap), s) >= 2 ==> Load(s) >= 2 * p || Load(s) + p > cap
    ensures Sum(Weight(p, cap), s) >= 3 ==> Load(s) > cap
  {
    if s != [] {
      HeavyOverflows(s[..|s| - 1], p, cap);
    }
  }

  /** A shard with no room left for an item of size `p` already carries weight two. */
  lemma FullIsHeavy(s: seq<Usable>, p: nat, cap: nat)
    requires p <= cap && Load(s) + p > cap
    requires forall x :: x in s ==> Nodes(x) >= p
    ensures Sum(Weight(p, cap), s) >= 2
  {
    var w := Weight(p, cap);
    var init, x := s[..|s| - 1], s[|s| - 1];
    assert Load(s) == Load(init) + Nodes(x);
    if Nodes(x) + p <= cap {
      assert init != [];
      assert w(init[|init| - 1]) >= 1;
    }
  }

  /** Weights count the shards: no item above a third of the cap can find every shard full. */
  lemma BigItemFits(placed: seq<Usable>, x: Usable, rest: seq<Usable>, bins: seq<seq<Usable>>, m: nat,
                    split: seq<seq<Usable>>, cap: nat)
    requires m >= 1
    requires IsSplit(bins, m, placed)
    requires IsSplit(split, m, placed + [x] + rest) && Fits(split, cap)
    requires forall y :: y in placed ==> Nodes(y) >= Nodes(x)
    requires 3 * Nodes(x) > cap
    ensures exists i :: 0 <= i < m && Load(bins[i]) + Nodes(x) <= cap
  {
    var p := Nodes(x);
    var w := Weight(p, cap);
    if forall i :: 0 <= i < m ==> Load(bins[i]) + p > cap {
      forall i | 0 <= i < m
        ensures Sum(w, split[i]) <= 2
      {
        HeavyOverflows(split[i], p, cap);
      }
      SumAtMost(w, split, 2);
      SplitSum(w, split, m, placed + [x] + rest);
      SumConcat(w, placed + [x], rest);
      SumConcat(w, placed, [x]);
      assert Sum(w, [x]) == Sum(w, []) + w(x);
      ItemWithinCap(placed, x, rest, split, m, cap);
      forall i | 0 <= i < m
        ensures Sum(w, bins[i]) >= 2
      {
        forall y | y in bins[i]
          ensures Nodes(y) >= p
        {
          BinMember(bins, i, y);
          assert y in multiset(placed);
        }
        FullIsHeavy(bins[i], p, cap);
      }
      SumAtLeast(w, bins, 2);
      SplitSum(w, bins, m, placed);
      assert false;
    }
  }

  lemma {:induction false} BinMember(bins: seq<seq<Usable>>, i: nat, y: Usable)
    requires i < |bins| && y in bins[i]
    ensures y in multiset(Flatten(bins))
  {
    if i < |bins| - 1 {
      BinMember(bins[..|bins| - 1], i, y);
    }
  }

  lemma {:induction false} FlatMember(bins: seq<seq<Usable>>, y: Usable) returns (i: nat)
    requires y in Flatten(bins)
    ensures i < |bins| && y in bins[i]
  {
    var n := |bins| - 1;
    if y in bins[n] {
      i := n;
    } else {
      i := FlatMember(bins[..n], y);
    }
  }

  lemma {:induction false} MemberLoad(s: seq<Usable>, y: Usable)
    requires y in s
    ensures Nodes(y) <= Load(s)
  {
    if y != s[|s| - 1] {
      MemberLoad(s[..|s| - 1], y);
    }
  }

  lemma ItemWithinCap(placed: seq<Usable>, x: Usable, rest: seq<Usable>, split: seq<seq<Usable>>, m: nat, cap: nat)
    requires IsSplit(split, m, placed + [x] + rest) && Fits(split, cap)
    ensures Nodes(x) <= cap
  {
    assert x in multiset(placed + [x] + rest);
    var i := FlatMember(split, x);
    MemberLoad(split[i], x);
  }

  /** Where the next source goes, the shard stays within 4/3 - 1/(3m) of any split's heaviest shard. */
  lemma PlacementBound(placed: seq<Usable>, x: Usable, rest: seq<Usable>, bins: seq<seq<Usable>>, m: nat,
                       split: seq<seq<Usable>>, cap: nat)
    requires m >= 1
    requires IsSplit(bins, m, placed)
    requires IsSplit(split, m, placed + [x] + rest) && Fits(split, cap)
    requires forall y :: y in placed ==> Nodes(y) >= Nodes(x)
    ensures 3 * m * (Load(bins[Lightest(bins)]) + Nodes(x)) <= (4 * m - 1) * cap
  {
    var p, low := Nodes(x), Load(bins[Lightest(bins)]);
    if 3 * p > cap {
      BigItemFits(placed, x, rest, bins, m, split, cap);
      assert low + p <= cap;
      Scale(m, low + p, cap);
    } else {
      SmallItemFits(placed, x, rest, bins, m, split, cap);
      Average(m, low, p, cap);
    }
  }

  /** The lightest shard is below the average of what is placed, and everything fits `m` times the cap. */
  lemma SmallItemFits(placed: seq<Usable>, x: Usable, rest: seq<Usable>, bins: seq<seq<Usable>>, m: nat,
                      split: seq<seq<Usable>>, cap: nat)
    requires m >= 1
    requires IsSplit(bins, m, placed)
    requires IsSplit(split, m, placed + [x] + rest) && Fits(split, cap)
    ensures m * Load(bins[Lightest(bins)]) + Nodes(x) <= m * cap
  {
    SumAtLeast(Nodes, bins, Load(bins[Lightest(bins)]));
    SplitSum(Nodes, bins, m, placed);
    SplitSum(Nodes, split, m, placed + [x] + rest);
    SumAtMost(Nodes, split, cap);
    SumConcat(Nodes, placed + [x], rest);
    SumConcat(Nodes, placed, [x]);
    assert Sum(Nodes, [x]) == Sum(Nodes, []) + Nodes(x);
  }

  lemma Scale(m: nat, load: nat, cap: nat)
    requires m >= 1 && load <= cap
    ensures 3 * m * load <= (4 * m - 1) * cap
  {
    assert (3 * m) * load <= (3 * m) * cap;
    assert (3 * m) * cap <= (4 * m - 1) * cap;
  }

  lemma Average(m: nat, low: nat, p: nat, cap: nat)
    requires m >= 1 && m * low + p <= m * cap && 3 * p <= cap
    ensures 3 * m * (low + p) <= (4 * m - 1) * cap
  {
    calc {
      3 * m * (low + p);
      == 3 * (m * low) + 3 * (m * p);
      <= 3 * (m * cap - p) + 3 * (m * p);
      == 3 * (m * cap) + (m - 1) * (3 * p);
      <= { MulMono(m - 1, 3 * p, cap); }
      3 * (m * cap) + (m - 1) * cap;
      == (4 * m - 1) * cap;
    }
  }

  lemma MulMono(k: nat, a: nat, b: nat)
    requires a <= b
    ensures k * a <= k * b
  {
  }

  ghost predicate Descending(s: seq<Usable>) {
    forall i, j :: 0 <= i < j < |s| ==> Nodes(s[i]) >= Nodes(s[j])
  }

  /** The bound for a whole packing; `rest` is what is still to be placed. */
  lemma {:induction false} LptBound(ordered: seq<Usable>, rest: seq<Usable>, m: nat, split: seq<seq<Usable>>, cap: nat)
    requires m >= 1 && Descending(ordered)
    requires IsSplit(split, m, ordered + rest) && Fits(split, cap)
    ensures forall i :: 0 <= i < m ==> 3 * m * Load(Pack(ordered, m)[i]) <= (4 * m - 1) * cap
  {
    if ordered == [] {
      Scale(m, 0, cap);
    } else {
      var init, x := ordered[..|ordered| - 1], ordered[|ordered| - 1];
      assert ordered + rest == init + ([x] + rest);
      assert ordered + rest == init + [x] + rest;
      LptBound(init, [x] + rest, m, split, cap);
      PackIsSplit(init, m);
      var bins := Pack(init, m);
      PlacementBound(init, x, rest, bins, m, split, cap);
      var k := Lightest(bins);
      SumPrefix(bins[k], x);
    }
  }

  /** Graham's argument, for any packing order: a shard is below average but for its last source. */
  lemma {:induction false} AnyOrderShape(ordered: seq<Usable>, m: nat, i: nat, biggest: nat) returns (low: nat, p: nat)
    requires i < m
    requires forall x :: x in ordered ==> Nodes(x) <= biggest
    ensures Load(Pack(ordered, m)[i]) == low + p && p <= biggest
    ensures m * low + p <= Load(ordered)
  {
    low, p := 0, 0;
    if ordered != [] {
      var init, x := ordered[..|ordered| - 1], ordered[|ordered| - 1];
      assert ordered == init + [x];
      SumPrefix(init, x);
      low, p := AnyOrderShape(init, m, i, biggest);
      var bins := Pack(init, m);
      if i == Lightest(bins) {
        LightestBelowAverage(init, m);
        SumPrefix(bins[i], x);
        low, p := Load(bins[i]), Nodes(x);
      }
    }
  }

  lemma LightestBelowAverage(ordered: seq<Usable>, m: nat)
    requires m >= 1
    ensures var bins := Pack(ordered, m); m * Load(bins[Lightest(bins)]) <= Load(ordered)
  {
    PackIsSplit(ordered, m);
    var bins := Pack(ordered, m);
    SumAtLeast(Nodes, bins, Load(bins[Lightest(bins)]));
    SplitSum(Nodes, bins, m, ordered);
  }

  lemma SumPrefix(init: seq<Usable>, x: Usable)
    ensures Load(init + [x]) == Load(init) + Nodes(x)
  {
    assert (init + [x])[..|init|] == init;
  }

  lemma GrahamStep(m: nat, low: nat, p: nat, total: nat, biggest: nat)
    requires m >= 1 && m * low + p <= total && p <= biggest
    ensures m * (low + p) <= total + (m - 1) * biggest
  {
    MulMono(m - 1, p, biggest);
    assert m * (low + p) == m * low + p + (m - 1) * p;
  }

  lemma GrahamFits(m: nat, low: nat, p: nat, total: nat, biggest: nat, budget: int)
    requires m >= 1 && m * low + p <= total && p <= biggest
    requires total + (m - 1) * biggest <= m * budget
    ensures low + p <= budget
  {
    GrahamStep(m, low, p, total, biggest);
    Cancel(m, low + p, budget);
  }

  lemma ShardWithRoomFits(ordered: seq<Usable>, m: nat, i: nat, biggest: nat, budget: int)
    requires i < m
    requires forall x :: x in ordered ==> Nodes(x) <= biggest
    requires Load(ordered) + (m - 1) * biggest <= m * budget
    ensures Load(Pack(ordered, m)[i]) <= budget
  {
    var low, p := AnyOrderShape(ordered, m, i, biggest);
    GrahamFits(m, low, p, Load(ordered), biggest, budget);
  }

  lemma Cancel(m: nat, a: int, b: int)
    requires m >= 1 && m * a <= m * b
    ensures a <= b
  {
  }

  // ------------------------------------------------------------- ordering

  predicate LexAtMost(a: string, b: string) {
    a == [] || (b != [] && (a[0] < b[0] || (a[0] == b[0] && LexAtMost(a[1..], b[1..]))))
  }

  /** One name is at most another exactly when it is a prefix of it or has the lower character where they first differ. */
  lemma {:induction false} LexExactly(a: string, b: string)
    ensures LexAtMost(a, b) <==> a <= b || exists k :: FirstDifference(a, b, k) && a[k] < b[k]
  {
    if a != [] && b != [] {
      if a[0] == b[0] {
        LexExactly(a[1..], b[1..]);
        forall k | FirstDifference(a[1..], b[1..], k)
          ensures FirstDifference(a, b, k + 1)
        {
          assert a[..k + 1] == [a[0]] + a[1..][..k] && b[..k + 1] == [b[0]] + b[1..][..k];
        }
        forall k | FirstDifference(a, b, k)
          ensures k > 0 && FirstDifference(a[1..], b[1..], k - 1)
        {
          assert a[1..][..k - 1] == a[..k][1..] && b[1..][..k - 1] == b[..k][1..];
        }
      } else {
        assert FirstDifference(a, b, 0);
        forall k | FirstDifference(a, b, k)
          ensures k == 0
        {
          if k > 0 {
            SameStart(a, b, k);
          }
        }
      }
    }
  }

  lemma SameStart(a: string, b: string, k: int)
    requires FirstDifference(a, b, k) && k > 0
    ensures a[0] == b[0]
  {
    assert a[..k][0] == b[..k][0];
  }

  ghost predicate FirstDifference(a: string, b: string, k: int) {
    0 <= k < |a| && k < |b| && a[..k] == b[..k] && a[k] != b[k]
  }

  /** The sort key `(-files, name)`. */
  predicate Precedes(x: Usable, y: Usable) {
    x.files > y.files || (x.files == y.files && LexAtMost(x.name, y.name))
  }

  lemma LexTotal(a: string, b: string)
    ensures LexAtMost(a, b) || LexAtMost(b, a)
  {
  }

  lemma {:induction false} LexTransitive(a: string, b: string, c: string)
    requires LexAtMost(a, b) && LexAtMost(b, c)
    ensures LexAtMost(a, c)
  {
    if a != [] && a[0] == b[0] == c[0] {
      LexTransitive(a[1..], b[1..], c[1..]);
    }
  }

  ghost predicate Ordered(s: seq<Usable>) {
    forall i, j :: 0 <= i < j < |s| ==> Precedes(s[i], s[j])
  }

  function Insert(s: seq<Usable>, x: Usable): (r: seq<Usable>)
    ensures multiset(r) == multiset(s) + multiset{x}
  {
    if s == [] then [x]
    else
      var last := s[|s| - 1];
      assert s == s[..|s| - 1] + [last];
      if Precedes(last, x) then s + [x] else Insert(s[..|s| - 1], x) + [last]
  }

  lemma {:induction false} InsertOrdered(s: seq<Usable>, x: Usable)
    requires Ordered(s)
    ensures Ordered(Insert(s, x))
  {
    if s != [] {
      var last := s[|s| - 1];
      LexTotal(last.name, x.name);
      if Precedes(last, x) {
        forall i | 0 <= i < |s| ensures Precedes(s[i], x) {
          PrecedesTransitive(s[i], last, x);
        }
      } else {
        var init := s[..|s| - 1];
        InsertOrdered(init, x);
        var r := Insert(init, x);
        forall i | 0 <= i < |r| ensures Precedes(r[i], last) {
          assert r[i] in multiset(r);
          assert r[i] in init || r[i] == x;
        }
      }
    }
  }

  lemma PrecedesTransitive(x: Usable, y: Usable, z: Usable)
    requires x == y || Precedes(x, y)
    requires Precedes(y, z)
    ensures Precedes(x, z)
  {
    if x != y && x.files == z.files {
      LexTransitive(x.name, y.name, z.name);
    }
  }

  /** `sorted(usable, key=(-files, name))`. */
  function Sorted(s: seq<Usable>): (r: seq<Usable>)
    ensures multiset(r) == multiset(s)
  {
    if s == [] then [] else
      assert s == s[..|s| - 1] + [s[|s| - 1]];
      Insert(Sorted(s[..|s| - 1]), s[|s| - 1])
  }

  lemma {:induction false} SortedIsOrdered(s: seq<Usable>)
    ensures Ordered(Sorted(s)) && Descending(Sorted(s))
    ensures var r := Sorted(s);
            forall i, j :: 0 <= i < j < |r| ==>
              r[i].files > r[j].files || (r[i].files == r[j].files && LexAtMost(r[i].name, r[j].name))
  {
    if s != [] {
      SortedIsOrdered(s[..|s| - 1]);
      InsertOrdered(Sorted(s[..|s| - 1]), s[|s| - 1]);
    }
    var r := Sorted(s);
    forall i, j | 0 <= i < j < |r| ensures Nodes(r[i]) >= Nodes(r[j]) {
      assert Precedes(r[i], r[j]);
    }
  }

  // ------------------------------------------------------------- the plan

  function UsableOf(sources: seq<SourceSize>): seq<Usable> {
    if sources == [] then [] else
      var init, last := sources[..|sources| - 1], sources[|sources| - 1];
      if last.files > 0 then UsableOf(init) + [last] else UsableOf(init)
  }

  /** What is planned: every source with files, as often as it is listed. */
  lemma {:induction false} UsableExactly(sources: seq<SourceSize>, s: Usable)
    ensures multiset(UsableOf(sources))[s] == multiset(sources)[s]
  {
    if sources != [] {
      UsableExactly(sources[..|sources| - 1], s);
      assert sources == sources[..|sources| - 1] + [sources[|sources| - 1]];
    }
  }

  lemma UsableMembers(sources: seq<SourceSize>)
    ensures forall s: SourceSize :: s in UsableOf(sources) <==> s in sources && s.files > 0
    ensures UsableOf(sources) == [] <==> forall s :: s in sources ==> s.files <= 0
  {
    forall s: SourceSize
      ensures s in UsableOf(sources) <==> s in sources && s.files > 0
    {
      if s.files > 0 {
        var u: Usable := s;
        UsableExactly(sources, u);
        assert u in UsableOf(sources) <==> u in multiset(UsableOf(sources));
        assert s in sources <==> s in multiset(sources);
      } else {
        assert forall k :: 0 <= k < |UsableOf(sources)| ==> UsableOf(sources)[k].files > 0;
      }
    }
    if UsableOf(sources) != [] {
      assert UsableOf(sources)[0] in UsableOf(sources);
    }
  }

  lemma {:induction false} AllUsable(sources: seq<Usable>)
    ensures UsableOf(sources) == sources
  {
    if sources != [] {
      AllUsable(sources[..|sources| - 1]);
    }
  }

  function Max(a: int, b: int): int { if a >= b then a else b }
  function Min(a: int, b: int): int { if a <= b then a else b }

  /** Ceiling division, as `-(-total // size)` computes it. */
  function CeilDiv(total: nat, size: nat): nat
    requires size >= 1
  {
    (total + size - 1) / size
  }

  /** The least count of `size` that covers `total`. */
  lemma CeilDivLeast(total: nat, size: nat, k: nat)
    requires size >= 1
    ensures k * size >= total <==> CeilDiv(total, size) <= k
  {
    var c := CeilDiv(total, size);
    assert c * size >= total > (c - 1) * size;
    if c <= k {
      MulMono(size, c, k);
    } else {
      MulMono(size, k, c - 1);
    }
  }

  /** How many shards a plan gets: the request, or the budget's share of the total, clamped to the sources. */
  function ShardCount(usable: seq<Usable>, requested: Option<int>, budget: int): (m: nat)
    ensures 1 <= m <= Max(1, |usable|)
    ensures requested.Some? && usable != [] ==> (m == requested.value <==> 1 <= requested.value <= |usable|)
  {
    var wanted := if requested.Some? then requested.value else Max(1, CeilDiv(Load(usable), Max(1, budget)));
    Max(1, Min(wanted, |usable|))
  }

  /**
   * The count is the least one that is enough: as many shards as sources, as
   * many as asked for, or, left automatic, as many as hold the total.
   */
  lemma ShardCountLeast(usable: seq<Usable>, requested: Option<int>, budget: int, k: nat)
    requires usable != [] && k >= 1
    ensures ShardCount(usable, requested, budget) <= k
            <==> || k >= |usable|
                 || (if requested.Some? then k >= requested.value else k * Max(1, budget) >= Load(usable))
  {
    CeilDivLeast(Load(usable), Max(1, budget), k);
  }

  /** The shards of a plan with `m` of them. */
  function Bins(sources: seq<SourceSize>, m: nat): (bins: seq<seq<Usable>>)
    requires m >= 1
    ensures |bins| == m
  {
    Pack(Sorted(UsableOf(sources)), m)
  }

  datatype Shard = Shard(index: nat, sources: seq<Usable>)

  /** The lists of sources of a plan. */
  ghost function Contents(shards: seq<Shard>): (lists: seq<seq<Usable>>)
    ensures |lists| == |shards| && forall i :: 0 <= i < |shards| ==> lists[i] == shards[i].sources
  {
    seq(|shards|, i requires 0 <= i < |shards| => shards[i].sources)
  }

  datatype Warning =
    | OverBudget(index: nat, nodes: nat, biggest: Usable)
    | EmptyShards(indices: seq<nat>)

  datatype Plan =
    | NothingToPlan
    | Plan(totalFiles: nat, totalNodes: nat, shardCount: nat, shards: seq<Shard>, warnings: seq<Warning>)

  /** `max(sources, key=files)`: the first of the largest. */
  function Biggest(s: seq<Usable>): (x: Usable)
    requires s != []
    ensures exists k :: 0 <= k < |s| && x == s[k] && FirstLargest(s, k)
  {
    if |s| == 1 then
      assert FirstLargest(s, 0);
      s[0]
    else
      var n := |s| - 1;
      var x := Biggest(s[..n]);
      assert exists k :: 0 <= k < n && x == s[k] && FirstLargest(s[..n], k);
      assert s[n].files > x.files ==> FirstLargest(s, n);
      assert s[n].files <= x.files ==> forall k :: 0 <= k < n && x == s[k] && FirstLargest(s[..n], k) ==> FirstLargest(s, k);
      if s[n].files > x.files then s[n] else x
  }

  /** No source has more files and every earlier one has fewer. */
  ghost predicate FirstLargest(s: seq<Usable>, k: nat)
    requires k < |s|
  {
    && (forall j :: 0 <= j < |s| ==> s[j].files <= s[k].files)
    && (forall j :: 0 <= j < k ==> s[j].files < s[k].files)
  }

  /** No shard that would be reported over budget is empty, so its `max` has something to choose from. */
  ghost predicate Reportable(bins: seq<seq<Usable>>, budget: int) {
    forall i :: 0 <= i < |bins| && Load(bins[i]) > budget ==> bins[i] != []
  }

  function Overloads(bins: seq<seq<Usable>>, budget: int): seq<Warning>
    requires Reportable(bins, budget)
  {
    if bins == [] then [] else
      var n := |bins| - 1;
      if Load(bins[n]) > budget
      then Overloads(bins[..n], budget) + [OverBudget(n + 1, Load(bins[n]), Biggest(bins[n]))]
      else Overloads(bins[..n], budget)
  }

  function EmptyIndices(bins: seq<seq<Usable>>): seq<nat> {
    if bins == [] then [] else
      var n := |bins| - 1;
      if bins[n] == [] then EmptyIndices(bins[..n]) + [n + 1] else EmptyIndices(bins[..n])
  }

  function Occupied(bins: seq<seq<Usable>>): seq<Shard> {
    if bins == [] then [] else
      var n := |bins| - 1;
      if bins[n] == [] then Occupied(bins[..n]) else Occupied(bins[..n]) + [Shard(n + 1, bins[n])]
  }

  /** With no empty shard nothing is filtered out and nothing is reported empty. */
  lemma {:induction false} NoneEmpty(bins: seq<seq<Usable>>)
    requires forall i :: 0 <= i < |bins| ==> bins[i] != []
    ensures EmptyIndices(bins) == []
    ensures |Occupied(bins)| == |bins| && forall i :: 0 <= i < |bins| ==> Occupied(bins)[i] == Shard(i + 1, bins[i])
  {
    if bins != [] {
      NoneEmpty(bins[..|bins| - 1]);
    }
  }

  /** Each over-budget shard is reported once, with its own total and largest source, and no other is. */
  lemma {:induction false} OverloadsExact(bins: seq<seq<Usable>>, budget: int, w: Warning)
    requires Reportable(bins, budget)
    ensures w in Overloads(bins, budget) <==>
              w.OverBudget? && 1 <= w.index <= |bins| && Load(bins[w.index - 1]) > budget
              && w == OverBudget(w.index, Load(bins[w.index - 1]), Biggest(bins[w.index - 1]))
  {
    if bins != [] {
      OverloadsExact(bins[..|bins| - 1], budget, w);
    }
  }

  /** The warnings come shard by shard. */
  lemma {:induction false} OverloadsInOrder(bins: seq<seq<Usable>>, budget: int)
    requires Reportable(bins, budget)
    ensures var all := Overloads(bins, budget);
            forall i, j :: 0 <= i < j < |all| ==> all[i].OverBudget? && all[j].OverBudget? && all[i].index < all[j].index
  {
    if bins != [] {
      var n := |bins| - 1;
      var before := Overloads(bins[..n], budget);
      OverloadsInOrder(bins[..n], budget);
      forall i | 0 <= i < |before|
        ensures before[i].OverBudget? && before[i].index <= n
      {
        OverloadsExact(bins[..n], budget, before[i]);
      }
      var all := Overloads(bins, budget);
      assert all == before || (|all| == |before| + 1 && all[..|before|] == before && all[|before|].OverBudget? && all[|before|].index == n + 1);
      forall i, j | 0 <= i < j < |all|
        ensures all[i].OverBudget? && all[j].OverBudget? && all[i].index < all[j].index
      {
        assert all[i] == before[i];
        assert j < |before| ==> all[j] == before[j];
      }
    }
  }

  /** The over-budget warnings are silent exactly when every shard fits. */
  lemma {:induction false} NoOverloadMeansFits(bins: seq<seq<Usable>>, budget: int)
    requires Reportable(bins, budget)
    ensures Overloads(bins, budget) == [] <==> Fits(bins, budget)
  {
    if bins != [] {
      var n := |bins| - 1;
      NoOverloadMeansFits(bins[..n], budget);
      assert Fits(bins, budget) <==> Fits(bins[..n], budget) && Load(bins[n]) <= budget;
    }
  }

  /** Each shard is opened by one of the largest sources, in order, so none is empty and the empty-shard warning is unreachable. */
  lemma NoShardIsEmpty(sources: seq<SourceSize>, m: nat)
    requires 1 <= m <= |UsableOf(sources)|
    ensures forall i :: 0 <= i < m ==> Bins(sources, m)[i] != []
    ensures |Sorted(UsableOf(sources))| == |UsableOf(sources)|
    ensures forall i :: 0 <= i < m ==> Bins(sources, m)[i][0] == Sorted(UsableOf(sources))[i]
  {
    var usable := UsableOf(sources);
    assert |Sorted(usable)| == |multiset(Sorted(usable))| == |multiset(usable)| == |usable|;
    PackFills(Sorted(usable), m);
  }

  /** Every source with files is in exactly one shard, and the shard totals add up to the corpus. */
  lemma BinsArePartition(sources: seq<SourceSize>, m: nat)
    requires m >= 1
    ensures IsSplit(Bins(sources, m), m, UsableOf(sources))
    ensures SumOver(Nodes, Bins(sources, m)) == Load(UsableOf(sources))
    ensures forall s: Usable :: multiset(Flatten<Usable>(Bins(sources, m)))[s] == multiset(sources)[s]
  {
    var usable := UsableOf(sources);
    PackIsSplit(Sorted(usable), m);
    SplitSum(Nodes, Bins(sources, m), m, usable);
    SplitIsOfSources(sources, Bins(sources, m), m);
  }

  lemma SplitIsOfSources(sources: seq<SourceSize>, split: seq<seq<Usable>>, m: nat)
    requires IsSplit(split, m, UsableOf(sources))
    ensures forall s: Usable :: multiset(Flatten<Usable>(split))[s] == multiset(sources)[s]
  {
    forall s: Usable
      ensures multiset(Flatten<Usable>(split))[s] == multiset(sources)[s]
    {
      UsableExactly(sources, s);
    }
  }

  /** The planner's own claim: largest-first lands within 4/3 of every split into as many shards. */
  lemma PlanWithinFourThirds(sources: seq<SourceSize>, m: nat, split: seq<seq<Usable>>, cap: nat)
    requires m >= 1
    requires IsSplit(split, m, UsableOf(sources)) && Fits(split, cap)
    ensures forall i :: 0 <= i < m ==> 3 * m * Load(Bins(sources, m)[i]) <= (4 * m - 1) * cap
  {
    var usable := UsableOf(sources);
    SortedIsOrdered(usable);
    assert Sorted(usable) + [] == Sorted(usable);
    LptBound(Sorted(usable), [], m, split, cap);
  }

  /** No split of whole sources into fewer shards can fit the budget. */
  lemma AutomaticCountIsLowerBound(sources: seq<SourceSize>, budget: int, split: seq<seq<Usable>>)
    requires UsableOf(sources) != []
    requires IsSplit(split, |split|, UsableOf(sources)) && Fits(split, budget)
    ensures ShardCount(UsableOf(sources), None, budget) <= |split|
  {
    var usable := UsableOf(sources);
    SplitSum(Nodes, split, |split|, usable);
    LoadPositive(usable);
    if split != [] {
      assert 0 <= Load(split[0]) <= budget;
      SumAtMost(Nodes, split, budget);
      assert |split| * budget >= Load(usable);
      assert budget >= 1;
      CeilDivLeast(Load(usable), budget, |split|);
    }
  }

  ghost predicate Feasible(sources: seq<SourceSize>, m: nat, budget: int) {
    exists split :: IsSplit(split, m, UsableOf(sources)) && Fits(split, budget)
  }

  /** "The smallest count that keeps every shard under budget". */
  ghost predicate SmallestFeasible(sources: seq<SourceSize>, m: nat, budget: int) {
    Feasible(sources, m, budget) && forall k: nat :: Feasible(sources, k, budget) ==> m <= k
  }

  /** The automatic count is the documented one exactly when that many shards can hold the sources. */
  lemma AutomaticCountExactness(sources: seq<SourceSize>, budget: int)
    requires UsableOf(sources) != []
    ensures var m := ShardCount(UsableOf(sources), None, budget);
            && (SmallestFeasible(sources, m, budget) <==> Feasible(sources, m, budget))
            && (Fits(Bins(sources, m), budget) ==> SmallestFeasible(sources, m, budget))
  {
    var m := ShardCount(UsableOf(sources), None, budget);
    forall k: nat | Feasible(sources, k, budget)
      ensures m <= k
    {
      var split :| IsSplit(split, k, UsableOf(sources)) && Fits(split, budget);
      AutomaticCountIsLowerBound(sources, budget, split);
    }
    BinsArePartition(sources, m);
  }

  /** A check on the inputs alone that rules out every over-budget shard. */
  lemma RoomForOneMoreFits(sources: seq<SourceSize>, m: nat, budget: int, biggest: nat)
    requires m >= 1
    requires forall x :: x in UsableOf(sources) ==> Nodes(x) <= biggest
    requires Load(UsableOf(sources)) + (m - 1) * biggest <= m * budget
    ensures Fits(Bins(sources, m), budget)
  {
    var usable := UsableOf(sources);
    SumPermuted(Nodes, Sorted(usable), usable);
    forall x | x in Sorted(usable) ensures Nodes(x) <= biggest {
      assert x in multiset(Sorted(usable));
      assert x in usable;
    }
    forall i | 0 <= i < m ensures Load(Bins(sources, m)[i]) <= budget {
      ShardWithRoomFits(Sorted(usable), m, i, biggest, budget);
    }
  }

  /** The documented promise fails: three sources at 0.6 of the budget get two shards, and no two can hold them. */
  lemma AutomaticCountCanOverflow(sources: seq<Usable>)
    requires |sources| == 3 && forall x :: x in sources ==> x.files == 100
    ensures UsableOf(sources) == sources && ShardCount(sources, None, 1050) == 2
    ensures !Fits(Bins(sources, 2), 1050) && !Feasible(sources, 2, 1050)
  {
    AllUsable(sources);
    assert Nodes(sources[0]) == Nodes(sources[1]) == Nodes(sources[2]) == 630;
    SumOfThree(Nodes, sources);
    assert Load(sources) == 1890;
    forall split | IsSplit(split, 2, UsableOf(sources))
      ensures !Fits(split, 1050)
    {
      TwoShardsOfThree(split, sources);
    }
    BinsArePartition(sources, 2);
  }

  /** Two shards under 1050 hold at most one 630-node source each. */
  lemma TwoShardsOfThree(split: seq<seq<Usable>>, sources: seq<Usable>)
    requires |sources| == 3 && forall x :: x in sources ==> Nodes(x) == 630
    requires IsSplit(split, 2, sources)
    ensures !Fits(split, 1050)
  {
    if Fits(split, 1050) {
      var w := Weight(630, 1050);
      forall i | 0 <= i < 2
        ensures Sum(w, split[i]) <= 2
      {
        HeavyOverflows(split[i], 630, 1050);
      }
      assert w(sources[0]) == w(sources[1]) == w(sources[2]) == 2;
      SumOfThree(w, sources);
      SplitSum(w, split, 2, sources);
      SumAtMost(w, split, 2);
    }
  }

  lemma SumOfThree(f: Usable -> nat, s: seq<Usable>)
    requires |s| == 3
    ensures Sum(f, s) == f(s[0]) + f(s[1]) + f(s[2])
  {
    assert s[..2][..1] == [s[0]];
    assert Sum(f, [s[0]]) == f(s[0]);
    assert Sum(f, s[..2]) == f(s[0]) + f(s[1]);
  }

  method FindLightest(bins: array<seq<Usable>>) returns (k: nat)
    requires bins.Length >= 1
    ensures k < bins.Length && k == Lightest(bins[..])
  {
    k := 0;
    for i := 1 to bins.Length
      invariant k < i
      invariant forall j :: 0 <= j < i ==> Load(bins[k]) <= Load(bins[j])
      invariant forall j :: 0 <= j < k ==> Load(bins[k]) < Load(bins[j])
    {
      if Load(bins[i]) < Load(bins[k]) {
        k := i;
      }
    }
    var l := Lightest(bins[..]);
    assert bins[..][l] == bins[l] && bins[..][k] == bins[k];
  }

  /** The greedy loop: each source is appended in place to the lightest shard. */
  method PackSources(ordered: seq<Usable>, m: nat) returns (bins: array<seq<Usable>>)
    requires m >= 1
    ensures bins.Length == m && bins[..] == Pack(ordered, m)
  {
    bins := new seq<Usable>[m](_ => []);
    assert bins[..] == Empty(m);
    for i := 0 to |ordered|
      invariant bins[..] == Pack(ordered[..i], m)
    {
      var k := FindLightest(bins);
      assert ordered[..i + 1][..i] == ordered[..i];
      bins[k] := bins[k] + [ordered[i]];
    }
    assert ordered[..|ordered|] == ordered;
  }

  /** The two reporting passes: over-budget shards in order, then the empty ones. */
  method Report(bins: seq<seq<Usable>>, budget: int) returns (shards: seq<Shard>, warnings: seq<Warning>)
    requires Reportable(bins, budget)
    ensures shards == Occupied(bins)
    ensures warnings == Overloads(bins, budget)
                        + if EmptyIndices(bins) == [] then [] else [EmptyShards(EmptyIndices(bins))]
  {
    warnings, shards := [], [];
    var empty: seq<nat> := [];
    for i := 0 to |bins|
      invariant warnings == Overloads(bins[..i], budget)
      invariant empty == EmptyIndices(bins[..i]) && shards == Occupied(bins[..i])
    {
      assert bins[..i + 1][..i] == bins[..i];
      if Load(bins[i]) > budget {
        warnings := warnings + [OverBudget(i + 1, Load(bins[i]), Biggest(bins[i]))];
      }
      if bins[i] == [] {
        empty := empty + [i + 1];
      } else {
        shards := shards + [Shard(i + 1, bins[i])];
      }
    }
    assert bins[..|bins|] == bins;
    if empty != [] {
      warnings := warnings + [EmptyShards(empty)];
    }
  }

  /** An automatic plan without warnings has the documented count: the smallest that fits. */
  lemma SilentIsSmallest(sources: seq<SourceSize>, requested: Option<int>, budget: int)
    requires UsableOf(sources) != []
    ensures var m := ShardCount(UsableOf(sources), requested, budget);
            Reportable(Bins(sources, m), budget)
            && (requested.None? && Overloads(Bins(sources, m), budget) == [] ==> SmallestFeasible(sources, m, budget))
  {
    var m := ShardCount(UsableOf(sources), requested, budget);
    NoShardIsEmpty(sources, m);
    NoOverloadMeansFits(Bins(sources, m), budget);
    AutomaticCountExactness(sources, budget);
  }

  method PlanWith(sources: seq<SourceSize>, usable: seq<Usable>, m: nat, budget: int)
    returns (shards: seq<Shard>, warnings: seq<Warning>)
    requires usable == UsableOf(sources) && 1 <= m <= |usable|
    ensures |shards| == m
    ensures forall i :: 0 <= i < m ==> Bins(sources, m)[i] != [] && shards[i] == Shard(i + 1, Bins(sources, m)[i])
    ensures warnings == Overloads(Bins(sources, m), budget)
  {
    NoShardIsEmpty(sources, m);
    var bins := PackSources(Sorted(usable), m);
    assert bins[..] == Bins(sources, m);
    shards, warnings := Report(bins[..], budget);
    NoneEmpty(bins[..]);
  }

  /**
   * `plan_shards`.  The `max` over an over-budget shard's sources never meets
   * an empty list and the empty-shard warning is never appended.
   */
  method PlanShards(sources: seq<SourceSize>, requested: Option<int>, budget: int) returns (plan: Plan)
    ensures plan.NothingToPlan? <==> forall s :: s in sources ==> s.files <= 0
    ensures plan.Plan? ==>
              var usable := UsableOf(sources);
              var m := ShardCount(usable, requested, budget);
              && plan.shardCount == m == |plan.shards|
              && plan.totalFiles == Sum(Files, usable) && plan.totalNodes == Load(usable)
              && (forall i :: 0 <= i < m ==>
                    Bins(sources, m)[i] != [] && plan.shards[i] == Shard(i + 1, Bins(sources, m)[i]))
              && plan.warnings == Overloads(Bins(sources, m), budget)
    ensures plan.Plan? ==> forall s: Usable :: multiset(Flatten<Usable>(Contents(plan.shards)))[s] == multiset(sources)[s]
    ensures plan.Plan? && requested.None? && plan.warnings == [] ==> SmallestFeasible(sources, plan.shardCount, budget)
  {
    var usable := UsableOf(sources);
    UsableMembers(sources);
    if usable == [] {
      return NothingToPlan;
    }
    var m := ShardCount(usable, requested, budget);
    var shards, warnings := PlanWith(sources, usable, m, budget);
    assert Contents(shards) == Bins(sources, m);
    BinsArePartition(sources, m);
    SilentIsSmallest(sources, requested, budget);
    return Plan(Sum(Files, usable), Load(usable), m, shards, warnings);
  }
}
