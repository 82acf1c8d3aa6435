/** Degree targets: how many matches each participant should play. Every
    participant gets `q` or `q + 1`, with the number of `q + 1` per group
    taken from the allocator (or from a greedy fill when the allocator finds
    nothing), followed by a correction pass that forces the targets to add
    up to twice the number of matches asked for. */
module DegreeTargets {
  import opened DrawTypes
  import opened Allocator

  /** The listed participants whose target is `q + 1`. */
  function Bumped(ps: seq<Participant>, m: map<Participant, int>, q: int): set<Participant>
  {
    set p | p in ps && p in m && m[p] == q + 1
  }

  lemma MulAdd(q: int, a: int, b: int)
    ensures q * (a + b) == q * a + q * b
  {
  }

  /** With every target `q` or `q + 1`, the targets add up to `q` per
      participant plus one per participant on `q + 1`. */
  lemma {:induction false} SumOfTwoLevels(ps: seq<Participant>, m: map<Participant, int>, q: int)
    requires Distinct(ps)
    requires forall p :: p in ps ==> p in m && (m[p] == q || m[p] == q + 1)
    ensures SumOver(ps, m) == q * |ps| + |Bumped(ps, m, q)|
  {
    if ps != [] {
      var init := ps[..|ps| - 1];
      var last := ps[|ps| - 1];
      assert ps == init + [last];
      assert Distinct(init);
      SumOfTwoLevels(init, m, q);
      BumpedSnoc(init, last, m, q);
      MulAdd(q, |init|, 1);
    }
  }

  /** Appending a new participant adds one to the `q + 1` count exactly
      when its target is `q + 1`. */
  lemma BumpedSnoc(init: seq<Participant>, last: Participant, m: map<Participant, int>, q: int)
    requires last !in init && last in m
    ensures |Bumped(init + [last], m, q)| == |Bumped(init, m, q)| + (if m[last] == q + 1 then 1 else 0)
  {
    var b0 := Bumped(init, m, q);
    assert last !in b0;
    if m[last] == q + 1 {
      assert Bumped(init + [last], m, q) == b0 + {last};
    } else {
      assert Bumped(init + [last], m, q) == b0;
    }
  }

  /** When each group's targets add up to `q` per member plus that group's
      count, all targets add up to `q` per participant plus all the counts. */
  lemma {:induction false} GroupedSum(groups: seq<Group>, m: map<Participant, int>, q: int, ks: seq<int>)
    requires |ks| == |groups|
    requires forall i :: 0 <= i < |groups| ==> SumOver(groups[i].members, m) == q * |groups[i].members| + ks[i]
    ensures SumOver(AllParticipants(groups), m) == q * Sum(Sizes(groups)) + Sum(ks)
  {
    if groups != [] {
      var n := |groups|;
      var init := groups[..n - 1];
      var ks0 := ks[..n - 1];
      assert forall i :: 0 <= i < n - 1 ==> init[i] == groups[i] && ks0[i] == ks[i];
      GroupedSum(init, m, q, ks0);
      GroupedSumStep(groups, m, q, ks);
    } else {
      assert Sizes(groups) == [];
      assert q * Sum(Sizes(groups)) == 0;
    }
  }

  /** The last group's share added to the share of the groups before it. */
  lemma GroupedSumStep(groups: seq<Group>, m: map<Participant, int>, q: int, ks: seq<int>)
    requires |ks| == |groups| > 0
    requires SumOver(AllParticipants(groups[..|groups| - 1]), m) == q * Sum(Sizes(groups[..|groups| - 1])) + Sum(ks[..|ks| - 1])
    requires SumOver(groups[|groups| - 1].members, m) == q * |groups[|groups| - 1].members| + ks[|ks| - 1]
    ensures SumOver(AllParticipants(groups), m) == q * Sum(Sizes(groups)) + Sum(ks)
  {
    var n := |groups|;
    var init := groups[..n - 1];
    SumOverConcat(AllParticipants(init), groups[n - 1].members, m);
    assert Sizes(groups)[..n - 1] == Sizes(init);
    var s0, s1 := Sum(Sizes(init)), |groups[n - 1].members|;
    assert Sum(Sizes(groups)) == s0 + s1;
    MulAdd(q, s0, s1);
  }

  /** One group of the assignment loop: shuffle the members (any order),
      give `q + 1` to the first `k` of the shuffled list and `q` to the
      others. */
  method AssignGroup(plist: seq<Participant>, q: int, k: int, degTargets0: map<Participant, int>)
    returns (degTargets: map<Participant, int>)
    requires Distinct(plist) && 0 <= k <= |plist|
    ensures forall p :: p in degTargets <==> p in degTargets0 || p in plist
    ensures forall p :: p in degTargets0 && p !in plist ==> degTargets[p] == degTargets0[p]
    ensures forall p :: p in plist ==> degTargets[p] == q || degTargets[p] == q + 1
    ensures |Bumped(plist, degTargets, q)| == k
  {
    // random.shuffle: any ordering of the members
    var shuffled: seq<Participant> :| multiset(shuffled) == multiset(plist);
    var chosen := shuffled[..k];
    degTargets := degTargets0;
    for j := 0 to |plist|
      invariant forall p :: p in degTargets <==> p in degTargets0 || p in plist[..j]
      invariant forall p :: p in degTargets0 && p !in plist[..j] ==> degTargets[p] == degTargets0[p]
      invariant forall p :: p in plist[..j] ==> degTargets[p] == q + (if p in chosen then 1 else 0)
    {
      assert plist[..j + 1] == plist[..j] + [plist[j]];
      degTargets := degTargets[plist[j] := q + (if plist[j] in chosen then 1 else 0)];
    }
    assert plist[..|plist|] == plist;
    DistinctPermutation(plist, shuffled);
    assert Distinct(chosen);
    DistinctCard(chosen);
    assert Bumped(plist, degTargets, q) == set x | x in chosen by {
      forall x | x in chosen ensures x in plist {
        assert x in multiset(shuffled);
      }
    }
  }

  /** The assignment loop over all groups: every participant gets `q` or
      `q + 1`, and exactly `k_g` members of group `g` get `q + 1`. */
  method AssignTargets(groups: seq<Group>, q: int, kPerGroup: map<string, int>)
    returns (degTargets: map<Participant, int>)
    requires WellFormed(groups)
    requires forall i :: 0 <= i < |groups| ==> 0 <= ValueOf(kPerGroup, groups[i].name) <= |groups[i].members|
    ensures forall p :: p in degTargets <==> p in AllParticipants(groups)
    ensures forall p :: p in degTargets ==> degTargets[p] == q || degTargets[p] == q + 1
    ensures forall i :: 0 <= i < |groups| ==> |Bumped(groups[i].members, degTargets, q)| == ValueOf(kPerGroup, groups[i].name)
  {
    degTargets := map[];
    for gi := 0 to |groups|
      invariant forall p :: p in degTargets <==> p in AllParticipants(groups[..gi])
      invariant forall p :: p in degTargets ==> degTargets[p] == q || degTargets[p] == q + 1
      invariant forall i :: 0 <= i < gi ==> |Bumped(groups[i].members, degTargets, q)| == ValueOf(kPerGroup, groups[i].name)
    {
      GroupSlice(groups, gi);
      var before := degTargets;
      degTargets := AssignGroup(groups[gi].members, q, ValueOf(kPerGroup, groups[gi].name), degTargets);
      EarlierGroupsKept(groups, gi, q, before, degTargets);
    }
    assert groups[..|groups|] == groups;
  }

  /** Assigning the members of group `gi` leaves the `q + 1` members of the
      groups before it as they were. */
  lemma EarlierGroupsKept(groups: seq<Group>, gi: nat, q: int, before: map<Participant, int>, after: map<Participant, int>)
    requires Distinct(AllParticipants(groups)) && gi < |groups|
    requires forall p :: p in after <==> p in before || p in groups[gi].members
    requires forall p :: p in before && p !in groups[gi].members ==> after[p] == before[p]
    ensures forall i :: 0 <= i < gi ==> Bumped(groups[i].members, after, q) == Bumped(groups[i].members, before, q)
  {
    forall i | 0 <= i < gi
      ensures Bumped(groups[i].members, after, q) == Bumped(groups[i].members, before, q)
    {
      forall p | p in groups[i].members ensures p !in groups[gi].members {
        GroupsDisjoint(groups, i, gi, p);
      }
      BumpedFrame(groups[i].members, q, before, after);
    }
  }

  /** Targets that agree on a list give it the same `q + 1` members. */
  lemma BumpedFrame(ps: seq<Participant>, q: int, before: map<Participant, int>, after: map<Participant, int>)
    requires forall p :: p in ps ==> (p in after <==> p in before)
    requires forall p :: p in ps && p in before ==> after[p] == before[p]
    ensures Bumped(ps, after, q) == Bumped(ps, before, q)
  {
  }

  /** Counts that fill the groups in order: each group takes between 0 and
      its size, together they take exactly `r`, and after a group that was
      not filled completely every later group takes 0. Such counts are
      unique for given sizes and `r`. */
  ghost predicate FilledInOrder(sizes: seq<nat>, r: int, ks: seq<int>)
  {
    && |ks| == |sizes|
    && (forall i :: 0 <= i < |ks| ==> 0 <= ks[i] <= sizes[i])
    && Sum(ks) == r
    && (forall i, j :: 0 <= i < j < |ks| && ks[i] < sizes[i] ==> ks[j] == 0)
  }

  /** The greedy fill used when the allocator finds nothing: each group in
      order takes as many `q + 1` slots as it has members, until `r` is used
      up. Since `r` never exceeds the number of participants it is always
      used up, so the round-robin top-up that would follow has nothing to do. */
  method FallbackAllocation(groups: seq<Group>, r: int) returns (kPerGroup: map<string, int>)
    requires Distinct(Names(groups))
    requires 0 <= r <= Sum(Sizes(groups))
    ensures forall g :: g in kPerGroup <==> g in Names(groups)
    ensures forall i :: 0 <= i < |groups| ==> groups[i].name in kPerGroup
    ensures FilledInOrder(Sizes(groups), r, KVector(groups, kPerGroup))
  {
    ghost var ks, remaining;
    kPerGroup, ks, remaining := FillGroups(groups, r);
    FillDone(Sizes(groups), r, ks, remaining);
    assert KVector(groups, kPerGroup) == ks;
  }

  /** The loop of the greedy fill; `ks` lists what each group took and
      `remaining` is what is left of `r`. */
  method FillGroups(groups: seq<Group>, r: int) returns (kPerGroup: map<string, int>, ghost ks: seq<int>, ghost remaining: int)
    requires Distinct(Names(groups))
    requires 0 <= r
    ensures |ks| == |groups|
    ensures forall g :: g in kPerGroup <==> g in Names(groups)
    ensures forall i :: 0 <= i < |groups| ==> groups[i].name in kPerGroup && kPerGroup[groups[i].name] == ks[i]
    ensures FillState(Sizes(groups), r, ks, remaining)
  {
    var sizes := Sizes(groups);
    kPerGroup := map[];
    var left := r;
    ks := [];
    for gi := 0 to |groups|
      invariant |ks| == gi
      invariant forall g :: g in kPerGroup ==> g in Names(groups)
      invariant forall i :: 0 <= i < gi ==> groups[i].name in kPerGroup && kPerGroup[groups[i].name] == ks[i]
      invariant FillState(sizes, r, ks, left)
    {
      var take := Min(|groups[gi].members|, left);
      var kPerGroup' := kPerGroup[groups[gi].name := take];
      ghost var ks' := ks + [take];
      RecordTake(groups, gi, kPerGroup, ks, kPerGroup', ks');
      FillStep(sizes, r, ks, left, take);
      kPerGroup, ks := kPerGroup', ks';
      left := left - take;
    }
    remaining := left;
  }

  /** Recording what group `gi` took keeps the earlier groups' entries. */
  lemma RecordTake(groups: seq<Group>, gi: nat, kPerGroup: map<string, int>, ks: seq<int>,
                   kPerGroup': map<string, int>, ks': seq<int>)
    requires Distinct(Names(groups)) && gi < |groups| && |ks| == gi
    requires forall g :: g in kPerGroup ==> g in Names(groups)
    requires forall i :: 0 <= i < gi ==> groups[i].name in kPerGroup && kPerGroup[groups[i].name] == ks[i]
    requires |ks'| == gi + 1 && ks'[..gi] == ks
    requires kPerGroup' == kPerGroup[groups[gi].name := ks'[gi]]
    ensures forall g :: g in kPerGroup' ==> g in Names(groups)
    ensures forall i :: 0 <= i < gi + 1 ==> groups[i].name in kPerGroup' && kPerGroup'[groups[i].name] == ks'[i]
  {
    assert groups[gi].name == Names(groups)[gi];
    NewName(groups, gi);
    forall i | 0 <= i < gi ensures kPerGroup'[groups[i].name] == ks'[i] {
      assert ks'[i] == ks'[..gi][i];
    }
  }

  /** The name of group `gi` is new among the groups before it. */
  lemma NewName(groups: seq<Group>, gi: nat)
    requires Distinct(Names(groups)) && gi < |groups|
    ensures forall i :: 0 <= i < gi ==> groups[i].name != groups[gi].name
  {
    DistinctNames(groups);
  }

  /** The greedy fill after the first `|ks|` groups: each took between 0
      and its size, `remaining` is what is left of `r`, and a group that was
      not filled completely leaves nothing for the groups after it. */
  ghost predicate FillState(sizes: seq<nat>, r: int, ks: seq<int>, remaining: int)
  {
    && |ks| <= |sizes|
    && (forall i :: 0 <= i < |ks| ==> 0 <= ks[i] <= sizes[i])
    && remaining == r - Sum(ks) && remaining >= 0
    && (remaining > 0 ==> forall i :: 0 <= i < |ks| ==> ks[i] == sizes[i])
    && (forall i, j :: 0 <= i < j < |ks| && ks[i] < sizes[i] ==> ks[j] == 0)
  }

  lemma FillStep(sizes: seq<nat>, r: int, ks: seq<int>, remaining: int, take: int)
    requires FillState(sizes, r, ks, remaining) && |ks| < |sizes|
    requires take == Min(sizes[|ks|], remaining)
    ensures FillState(sizes, r, ks + [take], remaining - take)
  {
    var ks' := ks + [take];
    assert ks'[..|ks|] == ks;
    assert forall i :: 0 <= i < |ks| ==> ks'[i] == ks[i];
  }

  /** After the last group nothing is left, as `r` is at most the number of
      participants. */
  lemma FillDone(sizes: seq<nat>, r: int, ks: seq<int>, remaining: int)
    requires FillState(sizes, r, ks, remaining) && |ks| == |sizes|
    requires r <= Sum(sizes)
    ensures remaining == 0
  {
    if remaining > 0 {
      SumPointwise(ks, sizes);
    }
  }

  lemma {:induction false} SumPointwise(xs: seq<int>, ys: seq<int>)
    requires |xs| == |ys|
    requires forall i :: 0 <= i < |xs| ==> xs[i] == ys[i]
    ensures Sum(xs) == Sum(ys)
  {
    assert xs == ys;
  }

  /** Participants ordered by target, largest first. */
  ghost predicate SortedDesc(s: seq<Participant>, m: map<Participant, int>)
  {
    forall i, j :: 0 <= i < j < |s| ==> ValueOf(m, s[i]) >= ValueOf(m, s[j])
  }

  /** Insert `x` after every leading entry whose target is at least its
      own: the step of a stable sort on descending target. */
  function InsertDesc(sorted: seq<Participant>, x: Participant, m: map<Participant, int>): (r: seq<Participant>)
    ensures multiset(r) == multiset(sorted) + multiset{x}
  {
    if sorted == [] then [x]
    else if ValueOf(m, sorted[0]) >= ValueOf(m, x) then
      assert sorted == [sorted[0]] + sorted[1..];
      [sorted[0]] + InsertDesc(sorted[1..], x, m)
    else
      [x] + sorted
  }

  /** Inserting into a descending list keeps it descending. */
  lemma {:induction false} InsertDescSorted(sorted: seq<Participant>, x: Participant, m: map<Participant, int>)
    requires SortedDesc(sorted, m)
    ensures SortedDesc(InsertDesc(sorted, x, m), m)
  {
    if sorted != [] {
      if ValueOf(m, sorted[0]) >= ValueOf(m, x) {
        var rest := InsertDesc(sorted[1..], x, m);
        InsertDescSorted(sorted[1..], x, m);
        HeadBoundsRest(sorted, x, m, rest);
        ConsSorted(sorted[0], rest, m);
      } else {
        ConsSorted(x, sorted, m);
      }
    }
  }

  /** Putting an entry no smaller than all the others in front keeps the
      order descending. */
  lemma ConsSorted(h: Participant, rest: seq<Participant>, m: map<Participant, int>)
    requires SortedDesc(rest, m)
    requires forall i :: 0 <= i < |rest| ==> ValueOf(m, rest[i]) <= ValueOf(m, h)
    ensures SortedDesc([h] + rest, m)
  {
    var s := [h] + rest;
    forall i, j | 0 <= i < j < |s| ensures ValueOf(m, s[i]) >= ValueOf(m, s[j]) {
      if i > 0 {
        assert s[i] == rest[i - 1] && s[j] == rest[j - 1];
      }
    }
  }

  /** The head of a descending list bounds the rest of it with `x` inserted,
      when it also bounds `x`. */
  lemma HeadBoundsRest(sorted: seq<Participant>, x: Participant, m: map<Participant, int>, rest: seq<Participant>)
    requires sorted != []
    requires SortedDesc(sorted, m) && ValueOf(m, sorted[0]) >= ValueOf(m, x)
    requires multiset(rest) == multiset(sorted[1..]) + multiset{x}
    ensures forall i :: 0 <= i < |rest| ==> ValueOf(m, rest[i]) <= ValueOf(m, sorted[0])
  {
    forall i | 0 <= i < |rest| ensures ValueOf(m, rest[i]) <= ValueOf(m, sorted[0]) {
      assert rest[i] in multiset(rest);
      if rest[i] != x {
        assert rest[i] in multiset(sorted[1..]);
        var k :| 0 <= k < |sorted[1..]| && sorted[1..][k] == rest[i];
        assert sorted[k + 1] == rest[i];
      }
    }
  }

  /** `sorted(keys, key=target, reverse=True)`: a stable sort of the
      participants on descending target; it rearranges them. */
  function SortByTargetDesc(ps: seq<Participant>, m: map<Participant, int>): (r: seq<Participant>)
    ensures multiset(r) == multiset(ps)
  {
    if ps == [] then []
    else
      assert ps == ps[..|ps| - 1] + [ps[|ps| - 1]];
      InsertDesc(SortByTargetDesc(ps[..|ps| - 1], m), ps[|ps| - 1], m)
  }

  /** The sort's result is in descending order of target. */
  lemma {:induction false} SortByTargetDescSorted(ps: seq<Participant>, m: map<Participant, int>)
    ensures SortedDesc(SortByTargetDesc(ps, m), m)
  {
    if ps != [] {
      SortByTargetDescSorted(ps[..|ps| - 1], m);
      InsertDescSorted(SortByTargetDesc(ps[..|ps| - 1], m), ps[|ps| - 1], m);
    }
  }

  /** `[x]` when `x` has target `v`, otherwise nothing. */
  function Selected(x: Participant, m: map<Participant, int>, v: int): seq<Participant>
  {
    if ValueOf(m, x) == v then [x] else []
  }

  /** The entries of `s` whose target is `v`, in their order in `s`. */
  function WithTarget(s: seq<Participant>, m: map<Participant, int>, v: int): seq<Participant>
  {
    if s == [] then [] else Selected(s[0], m, v) + WithTarget(s[1..], m, v)
  }

  lemma WithTargetCons(h: Participant, t: seq<Participant>, m: map<Participant, int>, v: int)
    ensures WithTarget([h] + t, m, v) == Selected(h, m, v) + WithTarget(t, m, v)
  {
    assert ([h] + t)[0] == h && ([h] + t)[1..] == t;
  }

  lemma {:induction false} WithTargetConcat(a: seq<Participant>, b: seq<Participant>, m: map<Participant, int>, v: int)
    ensures WithTarget(a + b, m, v) == WithTarget(a, m, v) + WithTarget(b, m, v)
  {
    if a != [] {
      assert a + b == [a[0]] + (a[1..] + b);
      assert a == [a[0]] + a[1..];
      WithTargetCons(a[0], a[1..] + b, m, v);
      WithTargetCons(a[0], a[1..], m, v);
      WithTargetConcat(a[1..], b, m, v);
      ConcatAssoc(Selected(a[0], m, v), WithTarget(a[1..], m, v), WithTarget(b, m, v));
    } else {
      assert a + b == b;
    }
  }

  /** A descending list whose head is below `v` has no entry with target `v`. */
  lemma {:induction false} NoneWithLargerTarget(s: seq<Participant>, m: map<Participant, int>, v: int)
    requires SortedDesc(s, m)
    requires s != [] ==> ValueOf(m, s[0]) < v
    ensures WithTarget(s, m, v) == []
  {
    if s != [] {
      assert SortedDesc(s[1..], m);
      if |s| > 1 {
        assert ValueOf(m, s[1]) <= ValueOf(m, s[0]);
      }
      NoneWithLargerTarget(s[1..], m, v);
    }
  }

  /** Inserting `x` puts it after every entry of the same target. */
  lemma {:induction false} InsertDescStable(sorted: seq<Participant>, x: Participant, m: map<Participant, int>, v: int)
    requires SortedDesc(sorted, m)
    ensures WithTarget(InsertDesc(sorted, x, m), m, v) == WithTarget(sorted, m, v) + Selected(x, m, v)
  {
    if sorted == [] {
      InsertIntoEmpty(x, m, v);
    } else if ValueOf(m, sorted[0]) >= ValueOf(m, x) {
      var h, rest := sorted[0], sorted[1..];
      TailSortedDesc(sorted, m);
      InsertDescStable(rest, x, m, v);
      InsertDescBehind(sorted, x, m);
      BehindHead(h, rest, InsertDesc(rest, x, m), x, m, v);
    } else {
      InsertDescFront(sorted, x, m);
      InFront(sorted, x, m, v);
    }
  }

  lemma InsertIntoEmpty(x: Participant, m: map<Participant, int>, v: int)
    ensures WithTarget(InsertDesc([], x, m), m, v) == WithTarget([], m, v) + Selected(x, m, v)
  {
    assert InsertDesc([], x, m) == [x] + [];
    WithTargetCons(x, [], m, v);
  }

  lemma TailSortedDesc(s: seq<Participant>, m: map<Participant, int>)
    requires s != [] && SortedDesc(s, m)
    ensures SortedDesc(s[1..], m)
  {
  }

  /** `InsertDesc` passes over a head whose target is at least `x`'s. */
  lemma InsertDescBehind(sorted: seq<Participant>, x: Participant, m: map<Participant, int>)
    requires sorted != [] && ValueOf(m, sorted[0]) >= ValueOf(m, x)
    ensures sorted == [sorted[0]] + sorted[1..]
    ensures InsertDesc(sorted, x, m) == [sorted[0]] + InsertDesc(sorted[1..], x, m)
  {
  }

  /** `InsertDesc` puts `x` in front of a head whose target is below `x`'s. */
  lemma InsertDescFront(sorted: seq<Participant>, x: Participant, m: map<Participant, int>)
    requires sorted != [] && ValueOf(m, sorted[0]) < ValueOf(m, x)
    ensures InsertDesc(sorted, x, m) == [x] + sorted
  {
  }

  /** Putting the same head in front of both sides keeps the selection
      equation of an insertion behind it. */
  lemma BehindHead(h: Participant, rest: seq<Participant>, inserted: seq<Participant>, x: Participant,
                   m: map<Participant, int>, v: int)
    requires WithTarget(inserted, m, v) == WithTarget(rest, m, v) + Selected(x, m, v)
    ensures WithTarget([h] + inserted, m, v) == WithTarget([h] + rest, m, v) + Selected(x, m, v)
  {
    WithTargetCons(h, inserted, m, v);
    WithTargetCons(h, rest, m, v);
    ConcatAssoc(Selected(h, m, v), WithTarget(rest, m, v), Selected(x, m, v));
  }

  /** `x` in front of a descending list whose head is below `x`'s target:
      nothing in the list has `x`'s target. */
  lemma InFront(sorted: seq<Participant>, x: Participant, m: map<Participant, int>, v: int)
    requires SortedDesc(sorted, m)
    requires sorted != [] && ValueOf(m, sorted[0]) < ValueOf(m, x)
    ensures WithTarget([x] + sorted, m, v) == WithTarget(sorted, m, v) + Selected(x, m, v)
  {
    WithTargetCons(x, sorted, m, v);
    if ValueOf(m, x) == v {
      NoneWithLargerTarget(sorted, m, v);
    } else {
      assert WithTarget(sorted, m, v) + [] == WithTarget(sorted, m, v);
    }
  }

  lemma ConcatAssoc(a: seq<Participant>, b: seq<Participant>, c: seq<Participant>)
    ensures a + (b + c) == (a + b) + c
  {
  }

  /** The sort is stable: the participants with any one target appear in
      the same order as in the input, as Python's `sorted` guarantees. */
  lemma {:induction false} SortByTargetDescStable(ps: seq<Participant>, m: map<Participant, int>, v: int)
    ensures WithTarget(SortByTargetDesc(ps, m), m, v) == WithTarget(ps, m, v)
  {
    if ps != [] {
      var init, last := ps[..|ps| - 1], ps[|ps| - 1];
      SortByTargetDescLast(ps, m);
      SortByTargetDescStable(init, m, v);
      SortByTargetDescSorted(init, m);
      InsertDescStable(SortByTargetDesc(init, m), last, m, v);
      AppendLast(init, last, m, v);
      SplitLast(ps);
    }
  }

  lemma SplitLast(ps: seq<Participant>)
    requires ps != []
    ensures ps == ps[..|ps| - 1] + [ps[|ps| - 1]]
  {
  }

  /** The sort inserts the last entry into the sorted rest. */
  lemma SortByTargetDescLast(ps: seq<Participant>, m: map<Participant, int>)
    requires ps != []
    ensures SortByTargetDesc(ps, m) == InsertDesc(SortByTargetDesc(ps[..|ps| - 1], m), ps[|ps| - 1], m)
  {
  }

  /** Selecting from a list with one more entry at the end. */
  lemma AppendLast(init: seq<Participant>, last: Participant, m: map<Participant, int>, v: int)
    ensures WithTarget(init + [last], m, v) == WithTarget(init, m, v) + Selected(last, m, v)
  {
    WithTargetConcat(init, [last], m, v);
    WithTargetCons(last, [], m, v);
    assert [last] + [] == [last];
    assert Selected(last, m, v) + [] == Selected(last, m, v);
  }

  /** The correction block: when the targets do not add up to `twoT`, raise
      targets one at a time around a shuffled list, or lower them, largest
      positive targets first and then around the list. The result always
      adds up to `twoT`; targets only move in the direction of the
      difference; nothing changes when the sum is already right. */
  method CorrectDegreeSum(order: seq<Participant>, degTargets: map<Participant, int>, twoT: int)
    returns (adjusted: map<Participant, int>)
    requires Distinct(order) && |order| > 0
    requires forall p :: p in degTargets <==> p in order
    ensures forall p :: p in adjusted <==> p in order
    ensures SumOver(order, adjusted) == twoT
    ensures SumOver(order, degTargets) == twoT ==> adjusted == degTargets
    ensures SumOver(order, degTargets) < twoT ==> forall p :: p in order ==> adjusted[p] >= degTargets[p]
    ensures SumOver(order, degTargets) > twoT ==> forall p :: p in order ==> adjusted[p] <= degTargets[p]
  {
    adjusted := degTargets;
    var sumdeg := SumOver(order, degTargets);
    if sumdeg != twoT {
      var diff := twoT - sumdeg;
      if diff > 0 {
        adjusted := RaiseTargets(order, degTargets, diff);
      } else {
        adjusted := LowerTargets(order, degTargets, -diff);
      }
    }
  }

  /** Add `diff` one at a time, cycling through a shuffled participant list. */
  method RaiseTargets(order: seq<Participant>, degTargets: map<Participant, int>, diff: nat)
    returns (adjusted: map<Participant, int>)
    requires Distinct(order) && |order| > 0
    requires forall p :: p in degTargets <==> p in order
    ensures forall p :: p in adjusted <==> p in order
    ensures SumOver(order, adjusted) == SumOver(order, degTargets) + diff
    ensures forall p :: p in order ==> adjusted[p] >= degTargets[p]
  {
    // random.shuffle: any ordering of the participants
    var ppl: seq<Participant> :| multiset(ppl) == multiset(order);
    assert forall p :: p in ppl ==> p in order by {
      forall p | p in ppl ensures p in order {
        assert p in multiset(ppl);
      }
    }
    assert |ppl| == |multiset(order)| == |order|;
    adjusted := degTargets;
    var idx := 0;
    var d := diff;
    while d > 0
      invariant forall p :: p in adjusted <==> p in order
      invariant SumOver(order, adjusted) == SumOver(order, degTargets) + (diff - d)
      invariant forall p :: p in order ==> adjusted[p] >= degTargets[p]
      invariant 0 <= d <= diff
    {
      var p := ppl[idx % |ppl|];
      SumOverUpdate(order, adjusted, p, adjusted[p] + 1);
      adjusted := adjusted[p := adjusted[p] + 1];
      idx := idx + 1;
      d := d - 1;
    }
  }

  /** Take away `need` (> 0): first one from each positive target in
      descending order of target, then, if that was not enough, one at a
      time around the participant list regardless of sign. */
  method LowerTargets(order: seq<Participant>, degTargets: map<Participant, int>, need: nat)
    returns (adjusted: map<Participant, int>)
    requires Distinct(order) && |order| > 0
    requires forall p :: p in degTargets <==> p in order
    ensures forall p :: p in adjusted <==> p in order
    ensures SumOver(order, adjusted) == SumOver(order, degTargets) - need
    ensures forall p :: p in order ==> adjusted[p] <= degTargets[p]
  {
    var ppl := SortByTargetDesc(order, degTargets);
    var d;
    adjusted, d := LowerPositives(order, ppl, degTargets, need);
    if d > 0 {
      adjusted := LowerAround(order, adjusted, d);
    }
  }

  /** The first pass of the lowering: walk the participants in the given
      order and take one from each positive target until `need` is met or
      the list ends; `d` is what is still to be taken. Only positive
      targets are lowered, each by one, and in list order: a positive target
      is passed over only once `need` is met, so when something is still to
      be taken every positive target was lowered. */
  method LowerPositives(order: seq<Participant>, ppl: seq<Participant>, degTargets: map<Participant, int>, need: nat)
    returns (adjusted: map<Participant, int>, d: nat)
    requires Distinct(order)
    requires forall p :: p in degTargets <==> p in order
    requires multiset(ppl) == multiset(order)
    ensures forall p :: p in adjusted <==> p in order
    ensures SumOver(order, adjusted) == SumOver(order, degTargets) - (need - d)
    ensures d <= need
    ensures forall p :: p in order ==> degTargets[p] - 1 <= adjusted[p] <= degTargets[p]
    ensures forall p :: p in order && adjusted[p] < degTargets[p] ==> degTargets[p] > 0
    ensures d > 0 ==> forall p :: p in order && degTargets[p] > 0 ==> adjusted[p] == degTargets[p] - 1
    ensures forall i, j :: 0 <= i < j < |ppl| && ppl[i] in order && ppl[j] in order ==>
              (degTargets[ppl[i]] > 0 && adjusted[ppl[j]] < degTargets[ppl[j]] ==> adjusted[ppl[i]] < degTargets[ppl[i]])
  {
    assert forall p :: p in ppl ==> p in order by {
      forall p | p in ppl ensures p in order {
        assert p in multiset(ppl);
      }
    }
    DistinctPermutation(order, ppl);
    adjusted := degTargets;
    var idx := 0;
    d := need;
    while d > 0 && idx < |ppl|
      invariant 0 <= idx <= |ppl|
      invariant LoweredBefore(order, ppl, degTargets, adjusted, idx)
      invariant SumOver(order, adjusted) == SumOver(order, degTargets) - (need - d)
      invariant 0 <= d <= need
    {
      var taken;
      adjusted, taken := LowerAt(order, ppl, degTargets, adjusted, idx);
      d := d - taken;
      idx := idx + 1;
    }
    if d > 0 {
      forall p | p in order && degTargets[p] > 0 ensures adjusted[p] == degTargets[p] - 1 {
        assert p in multiset(ppl);
        var j :| 0 <= j < |ppl| && ppl[j] == p;
      }
    }
  }

  /** The state of the first lowering pass after `idx` participants of
      `ppl`: only positive targets were lowered, each by one; those at
      `idx` and after are untouched, and every positive one before `idx`
      was lowered. */
  ghost predicate LoweredBefore(order: seq<Participant>, ppl: seq<Participant>, degTargets: map<Participant, int>,
                                adjusted: map<Participant, int>, idx: nat)
    requires forall p :: p in degTargets <==> p in order
    requires forall p :: p in ppl ==> p in order
  {
    && idx <= |ppl|
    && (forall p :: p in adjusted <==> p in order)
    && (forall p :: p in order ==> degTargets[p] - 1 <= adjusted[p] <= degTargets[p])
    && (forall p :: p in order && adjusted[p] < degTargets[p] ==> degTargets[p] > 0)
    && (forall j :: idx <= j < |ppl| ==> adjusted[ppl[j]] == degTargets[ppl[j]])
    && (forall j :: 0 <= j < idx && degTargets[ppl[j]] > 0 ==> adjusted[ppl[j]] == degTargets[ppl[j]] - 1)
  }

  /** One step of the first lowering pass, while something is still to be
      taken: lower the participant at `idx` by one if its target is
      positive. */
  method LowerAt(order: seq<Participant>, ppl: seq<Participant>, degTargets: map<Participant, int>,
                 adjusted: map<Participant, int>, idx: nat)
    returns (adjusted': map<Participant, int>, taken: nat)
    requires Distinct(order) && Distinct(ppl) && idx < |ppl|
    requires forall p :: p in degTargets <==> p in order
    requires forall p :: p in ppl ==> p in order
    requires LoweredBefore(order, ppl, degTargets, adjusted, idx)
    ensures LoweredBefore(order, ppl, degTargets, adjusted', idx + 1)
    ensures taken <= 1 && SumOver(order, adjusted') == SumOver(order, adjusted) - taken
  {
    var p := ppl[idx];
    adjusted', taken := adjusted, 0;
    if adjusted[p] > 0 {
      SumOverUpdate(order, adjusted, p, adjusted[p] - 1);
      adjusted', taken := adjusted[p := adjusted[p] - 1], 1;
    }
  }

  /** The last resort: take one at a time around the participant list,
      whatever the sign of the target, until `d` is met. */
  method LowerAround(order: seq<Participant>, degTargets: map<Participant, int>, need: nat)
    returns (adjusted: map<Participant, int>)
    requires Distinct(order) && |order| > 0
    requires forall p :: p in degTargets <==> p in order
    ensures forall p :: p in adjusted <==> p in order
    ensures SumOver(order, adjusted) == SumOver(order, degTargets) - need
    ensures forall p :: p in order ==> adjusted[p] <= degTargets[p]
  {
    adjusted := degTargets;
    var i := 0;
    var d := need;
    while d > 0
      invariant forall p :: p in adjusted <==> p in order
      invariant SumOver(order, adjusted) == SumOver(order, degTargets) - (need - d)
      invariant forall p :: p in order ==> adjusted[p] <= degTargets[p]
      invariant 0 <= d <= need
    {
      var p := order[i % |order|];
      SumOverUpdate(order, adjusted, p, adjusted[p] - 1);
      adjusted := adjusted[p := adjusted[p] - 1];
      i := i + 1;
      d := d - 1;
    }
  }
}
