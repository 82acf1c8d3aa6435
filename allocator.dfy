/** The parity-constrained allocator: how many members of each group play
    `q + 1` matches instead of `q`, so that the extra appearances add up to
    the remainder `r` and every group's total stays even. */
module Allocator {
  import opened DrawTypes

  /** `k` members of a group of `s` may receive `q + 1`: the count fits in
      the group and `q * s + k` is even. */
  predicate Feasible(s: nat, q: int, k: int)
  {
    0 <= k <= s && k % 2 == (q * s) % 2
  }

  /** A feasible count for each of the first `|ks|` groups. */
  ghost predicate IsPartial(sizes: seq<nat>, q: int, ks: seq<int>)
  {
    |ks| <= |sizes| && forall i :: 0 <= i < |ks| ==> Feasible(sizes[i], q, ks[i])
  }

  /** A feasible count for every group, adding up to exactly `r`. */
  ghost predicate IsAllocation(sizes: seq<nat>, q: int, r: int, ks: seq<int>)
  {
    |ks| == |sizes| && IsPartial(sizes, q, ks) && Sum(ks) == r
  }

  /** The counts a group-keyed map assigns, in group order. */
  function KVector(groups: seq<Group>, k: map<string, int>): (ks: seq<int>)
    requires forall i :: 0 <= i < |groups| ==> groups[i].name in k
    ensures |ks| == |groups|
    ensures forall i :: 0 <= i < |groups| ==> ks[i] == k[groups[i].name]
  {
    seq(|groups|, i requires 0 <= i < |groups| => k[groups[i].name])
  }

  /** Every entry of a table is a feasible list of counts for the first
      `len` groups whose sum is its key and stays within `r`; the keys are
      listed once each, in insertion order. */
  ghost predicate EntriesOk(sizes: seq<nat>, q: int, r: int, len: nat, dp: map<int, seq<int>>, order: seq<int>)
  {
    && Distinct(order)
    && (forall x :: x in dp <==> x in order)
    && (forall x :: x in dp ==> |dp[x]| == len && IsPartial(sizes, q, dp[x]) && Sum(dp[x]) == x && (x <= r || len == 0))
  }

  /** The dynamic program's table after `idx` groups: each reachable sum up
      to `r` has one witness, and every sum of feasible counts for those
      groups that stays within `r` is present. */
  ghost predicate TableOk(sizes: seq<nat>, q: int, r: int, idx: nat, dp: map<int, seq<int>>, order: seq<int>)
  {
    && EntriesOk(sizes, q, r, idx, dp, order)
    && (forall ks :: |ks| == idx && IsPartial(sizes, q, ks) && Sum(ks) <= r ==> Sum(ks) in dp)
  }

  /** The group-keyed dictionary built from counts listed in group order. */
  function ByGroup(groups: seq<Group>, ks: seq<int>): (k: map<string, int>)
    requires |ks| == |groups| && Distinct(Names(groups))
    ensures k.Keys == set i | 0 <= i < |groups| :: groups[i].name
    ensures forall i :: 0 <= i < |groups| ==> k[groups[i].name] == ks[i]
  {
    DistinctNames(groups);
    map i | 0 <= i < |groups| :: groups[i].name := ks[i]
  }

  /** Sums of non-negative entries only grow with the prefix taken. */
  lemma {:induction false} PrefixSumBound(ks: seq<int>, j: nat)
    requires j <= |ks|
    requires forall i :: 0 <= i < |ks| ==> ks[i] >= 0
    ensures Sum(ks[..j]) <= Sum(ks)
  {
    if j < |ks| {
      var init := ks[..|ks| - 1];
      PrefixSumBound(init, j);
      assert init[..j] == ks[..j];
    } else {
      assert ks[..j] == ks;
    }
  }

  /** The allocator: a dynamic program over the groups in order whose state
      maps each reachable partial sum to the first list of counts found for
      it. It answers `None` exactly when no feasible allocation exists. */
  method FindKPerGroup(groups: seq<Group>, q: int, r: int) returns (res: Option<map<string, int>>)
    requires Distinct(Names(groups))
    ensures res.Some? ==> res.value.Keys == set i | 0 <= i < |groups| :: groups[i].name
    ensures res.Some? ==> IsAllocation(Sizes(groups), q, r, KVector(groups, res.value))
    ensures res.None? <==> !exists ks :: IsAllocation(Sizes(groups), q, r, ks)
  {
    var sizes := Sizes(groups);
    var dp: map<int, seq<int>> := map[0 := []];
    var order: seq<int> := [0];
    InitialTable(sizes, q, r);
    var idx := 0;
    while idx < |groups|
      invariant 0 <= idx <= |groups|
      invariant TableOk(sizes, q, r, idx, dp, order)
    {
      dp, order := ExtendTable(sizes, q, r, idx, dp, order);
      if |order| == 0 {
        // `if not dp`: no feasible prefix stays within r, so no allocation exists.
        EmptyTableRefutes(sizes, q, r, idx + 1, dp, order);
        return None;
      }
      idx := idx + 1;
    }
    if r !in dp {
      FinalTableDecides(sizes, q, r, dp, order);
      return None;
    }
    var chosenList := dp[r];
    assert IsAllocation(sizes, q, r, chosenList);
    var k := ByGroup(groups, chosenList);
    assert KVector(groups, k) == chosenList;
    res := Some(k);
  }

  /** Before any group, the only reachable sum is 0, witnessed by no counts. */
  lemma InitialTable(sizes: seq<nat>, q: int, r: int)
    ensures TableOk(sizes, q, r, 0, map[0 := []], [0])
  {
    var dp: map<int, seq<int>> := map[0 := []];
    forall ks | |ks| == 0 && IsPartial(sizes, q, ks) && Sum(ks) <= r ensures Sum(ks) in dp {
      assert ks == [];
    }
  }

  /** Once no partial sum survives, no allocation exists at all. */
  lemma EmptyTableRefutes(sizes: seq<nat>, q: int, r: int, idx: nat, dp: map<int, seq<int>>, order: seq<int>)
    requires idx <= |sizes|
    requires TableOk(sizes, q, r, idx, dp, order) && order == []
    ensures !exists ks :: IsAllocation(sizes, q, r, ks)
  {
    forall ks | IsAllocation(sizes, q, r, ks) ensures false {
      PrefixSumBound(ks, idx);
      assert IsPartial(sizes, q, ks[..idx]);
    }
  }

  /** After the last group, `r` is in the table exactly when an allocation exists. */
  lemma FinalTableDecides(sizes: seq<nat>, q: int, r: int, dp: map<int, seq<int>>, order: seq<int>)
    requires TableOk(sizes, q, r, |sizes|, dp, order) && r !in dp
    ensures !exists ks :: IsAllocation(sizes, q, r, ks)
  {
  }

  /** One step of the dynamic program (the body of the loop over groups):
      every reachable sum is extended by every count of the right parity for
      group `idx`; a new sum keeps the first witness that reaches it. */
  method ExtendTable(sizes: seq<nat>, q: int, r: int, idx: nat, dp: map<int, seq<int>>, order: seq<int>)
    returns (newDp: map<int, seq<int>>, newOrder: seq<int>)
    requires idx < |sizes|
    requires TableOk(sizes, q, r, idx, dp, order)
    ensures TableOk(sizes, q, r, idx + 1, newDp, newOrder)
  {
    var s := sizes[idx];
    var start := (q * s) % 2;
    newDp, newOrder := map[], [];
    var j := 0;
    while j < |order|
      invariant 0 <= j <= |order|
      invariant EntriesOk(sizes, q, r, idx + 1, newDp, newOrder)
      invariant forall jj, k :: 0 <= jj < j && Feasible(s, q, k) && order[jj] + k <= r ==> order[jj] + k in newDp
    {
      newDp, newOrder := ExtendEntry(sizes, q, r, idx, order[j], dp[order[j]], newDp, newOrder);
      j := j + 1;
    }
    ExtendCovers(sizes, q, r, idx, dp, order, newDp);
  }

  /** Once every reachable sum has been extended by every feasible count,
      every feasible list one group longer that stays within `r` has its sum
      in the new table. */
  lemma ExtendCovers(sizes: seq<nat>, q: int, r: int, idx: nat, dp: map<int, seq<int>>, order: seq<int>,
                     newDp: map<int, seq<int>>)
    requires idx < |sizes|
    requires TableOk(sizes, q, r, idx, dp, order)
    requires forall jj, k :: 0 <= jj < |order| && Feasible(sizes[idx], q, k) && order[jj] + k <= r ==> order[jj] + k in newDp
    ensures forall ks :: |ks| == idx + 1 && IsPartial(sizes, q, ks) && Sum(ks) <= r ==> Sum(ks) in newDp
  {
    forall ks | |ks| == idx + 1 && IsPartial(sizes, q, ks) && Sum(ks) <= r
      ensures Sum(ks) in newDp
    {
      var init := ks[..idx];
      assert IsPartial(sizes, q, init);
      assert Sum(ks) == Sum(init) + ks[idx];
      assert Sum(init) in order;
      var jj :| 0 <= jj < |order| && order[jj] == Sum(init);
      assert Feasible(sizes[idx], q, ks[idx]);
    }
  }

  /** Recording the sum of `chosen` extended by a feasible `opt` keeps the
      table well formed. */
  lemma AddEntry(sizes: seq<nat>, q: int, r: int, idx: nat, dp: map<int, seq<int>>, order: seq<int>,
                 chosen: seq<int>, opt: int)
    requires idx < |sizes|
    requires EntriesOk(sizes, q, r, idx + 1, dp, order)
    requires |chosen| == idx && IsPartial(sizes, q, chosen)
    requires Feasible(sizes[idx], q, opt)
    requires Sum(chosen) + opt <= r && Sum(chosen) + opt !in dp
    ensures EntriesOk(sizes, q, r, idx + 1, dp[Sum(chosen) + opt := chosen + [opt]], order + [Sum(chosen) + opt])
  {
    var path := chosen + [opt];
    assert path[..idx] == chosen;
  }

  /** The innermost loop: extend one reachable sum `accSum`, with witness
      `chosen`, by each count `start, start + 2, ...` up to the group size.
      Sums already in the table keep the witness found first; a new sum
      `x` gets `chosen` extended by the count `x - accSum`. */
  method ExtendEntry(sizes: seq<nat>, q: int, r: int, idx: nat, accSum: int, chosen: seq<int>,
                     dp0: map<int, seq<int>>, order0: seq<int>)
    returns (newDp: map<int, seq<int>>, newOrder: seq<int>)
    requires idx < |sizes|
    requires |chosen| == idx && IsPartial(sizes, q, chosen) && Sum(chosen) == accSum
    requires EntriesOk(sizes, q, r, idx + 1, dp0, order0)
    ensures EntriesOk(sizes, q, r, idx + 1, newDp, newOrder)
    ensures forall x :: x in dp0 ==> x in newDp && newDp[x] == dp0[x]
    ensures forall x :: x in newDp && x !in dp0 ==> newDp[x] == chosen + [x - accSum]
    ensures forall k :: Feasible(sizes[idx], q, k) && accSum + k <= r ==> accSum + k in newDp
  {
    var s := sizes[idx];
    var start := (q * s) % 2;
    newDp, newOrder := dp0, order0;
    var opt := start;
    while opt <= s
      invariant start <= opt && opt % 2 == start
      invariant EntriesOk(sizes, q, r, idx + 1, newDp, newOrder)
      invariant Extends(dp0, newDp, chosen, accSum)
      invariant CoveredBelow(s, q, r, accSum, opt, newDp)
    {
      newDp, newOrder := TryCount(sizes, q, r, idx, accSum, chosen, opt, dp0, newDp, newOrder);
      opt := opt + 2;
    }
  }

  /** `dp` keeps every entry of `dp0` and gives each new sum `x` the
      witness `chosen` extended by `x - accSum`. */
  ghost predicate Extends(dp0: map<int, seq<int>>, dp: map<int, seq<int>>, chosen: seq<int>, accSum: int)
  {
    && (forall x :: x in dp0 ==> x in dp && dp[x] == dp0[x])
    && (forall x :: x in dp && x !in dp0 ==> dp[x] == chosen + [x - accSum])
  }

  /** Every feasible count below `opt` that keeps the sum within `r` has
      its sum recorded. */
  ghost predicate CoveredBelow(s: nat, q: int, r: int, accSum: int, opt: int, dp: map<int, seq<int>>)
  {
    forall k :: k < opt && Feasible(s, q, k) && accSum + k <= r ==> accSum + k in dp
  }

  /** One step of the innermost loop: record the sum `accSum + opt` with
      witness `chosen + [opt]` unless it exceeds `r` or is already known. */
  method TryCount(sizes: seq<nat>, q: int, r: int, idx: nat, accSum: int, chosen: seq<int>, opt: int,
                  dp0: map<int, seq<int>>, dp: map<int, seq<int>>, order: seq<int>)
    returns (newDp: map<int, seq<int>>, newOrder: seq<int>)
    requires idx < |sizes| && Feasible(sizes[idx], q, opt)
    requires |chosen| == idx && IsPartial(sizes, q, chosen) && Sum(chosen) == accSum
    requires EntriesOk(sizes, q, r, idx + 1, dp, order)
    requires Extends(dp0, dp, chosen, accSum)
    requires CoveredBelow(sizes[idx], q, r, accSum, opt, dp)
    ensures EntriesOk(sizes, q, r, idx + 1, newDp, newOrder)
    ensures Extends(dp0, newDp, chosen, accSum)
    ensures CoveredBelow(sizes[idx], q, r, accSum, opt + 2, newDp)
  {
    newDp, newOrder := dp, order;
    var newSum := accSum + opt;
    if newSum <= r && newSum !in dp {
      var path := chosen + [opt];
      AddEntry(sizes, q, r, idx, dp, order, chosen, opt);
      newDp := dp[newSum := path];
      newOrder := order + [newSum];
    }
    CoverStep(sizes[idx], q, r, accSum, opt, dp, newDp);
  }

  /** Recording the sum of count `opt` covers every feasible count below
      `opt + 2`: the next feasible count has the same parity. */
  lemma CoverStep(s: nat, q: int, r: int, accSum: int, opt: int, dp: map<int, seq<int>>, newDp: map<int, seq<int>>)
    requires opt % 2 == (q * s) % 2
    requires CoveredBelow(s, q, r, accSum, opt, dp)
    requires forall x :: x in dp ==> x in newDp
    requires accSum + opt <= r ==> accSum + opt in newDp
    ensures CoveredBelow(s, q, r, accSum, opt + 2, newDp)
  {
    forall k | k < opt + 2 && Feasible(s, q, k) && accSum + k <= r ensures accSum + k in newDp {
      if k >= opt {
        NextOfSameParity(opt, k);
      }
    }
  }

  lemma NextOfSameParity(a: int, b: int)
    requires a <= b < a + 2 && b % 2 == a % 2
    ensures b == a
  {
  }
}
