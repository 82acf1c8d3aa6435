/** The draw itself: from the groups and the number of matches wanted, the
    list of matches, each participant's tally and the average number of
    matches per participant. */
module Generator {
  import opened DrawTypes
  import opened Allocator
  import opened DegreeTargets
  import opened Realizer

  /** What a draw returns: the matches, how often each participant appears
      (only participants that appear at all are keys), and the average
      number of appearances per participant. */
  datatype Draw = Draw(matches: seq<Match>, counts: map<Participant, nat>, average: real)

  /** Both players of a match belong to the same group. */
  ghost predicate InOneGroup(groups: seq<Group>, m: Match)
  {
    exists i :: 0 <= i < |groups| && m.a in groups[i].members && m.b in groups[i].members
  }

  /** The target the realizer is given for member `j` of a group: the
      degree target, plus one for the first member when the group's targets
      add up to an odd number. */
  function ParityFixed(plist: seq<Participant>, degTargets: map<Participant, int>, j: nat): int
    requires j < |plist|
  {
    ValueOf(degTargets, plist[j]) + (if j == 0 && SumOver(plist, degTargets) % 2 != 0 then 1 else 0)
  }

  /** The group's own copy of the targets as a map, with the parity fix
      applied: every member is a key and has the target `ParityFixed` gives
      it. */
  function FixedTargets(plist: seq<Participant>, degTargets: map<Participant, int>): (t: map<Participant, int>)
    ensures forall p :: p in t <==> p in plist
    ensures Distinct(plist) ==> forall j :: 0 <= j < |plist| ==> t[plist[j]] == ParityFixed(plist, degTargets, j)
  {
    var odd := SumOver(plist, degTargets) % 2 != 0;
    map p | p in plist :: ValueOf(degTargets, p) + (if odd && |plist| > 0 && p == plist[0] then 1 else 0)
  }

  /** Every group's parity-fixed targets can be met by matches inside the
      group. */
  ghost predicate AllRealizable(groups: seq<Group>, degTargets: map<Participant, int>)
  {
    forall i :: 0 <= i < |groups| ==> GroupRealizable(groups, degTargets, i)
  }

  /** Group `i`'s parity-fixed targets can be met by matches inside it. */
  ghost predicate GroupRealizable(groups: seq<Group>, degTargets: map<Participant, int>, i: nat)
    requires i < |groups|
  {
    Realizable(groups[i].members, FixedTargets(groups[i].members, degTargets))
  }

  /** `counts` is the tally of `ms`: exactly the participants that appear,
      each with its number of appearances. */
  ghost predicate Tallies(counts: map<Participant, nat>, ms: seq<Match>)
  {
    (forall p :: p in counts <==> Degree(ms, p) > 0) && forall p :: p in counts ==> counts[p] == Degree(ms, p)
  }

  /** Per group, how many members appear exactly `q + 1` times. */
  function ExtraPlayers(groups: seq<Group>, ms: seq<Match>, q: int): (ks: seq<int>)
    ensures |ks| == |groups|
  {
    seq(|groups|, i requires 0 <= i < |groups| => |set p | p in groups[i].members && Degree(ms, p) == q + 1|)
  }

  /** The base number of matches per participant, `2T div N`. */
  function Quota(n: nat, targetTotal: nat): (q: nat)
    requires n > 0
    ensures q * n <= 2 * targetTotal < (q + 1) * n
  {
    (2 * targetTotal) / n
  }

  /** How many participants must play one match more than the quota. */
  function Extra(n: nat, targetTotal: nat): (r: int)
    requires n > 0
    ensures 0 <= r < n
    ensures Quota(n, targetTotal) * n + r == 2 * targetTotal
  {
    (2 * targetTotal) % n
  }

  /** The extra matches can be spread so that every group's total is even. */
  ghost predicate Balanced(groups: seq<Group>, targetTotal: nat)
    requires |AllParticipants(groups)| > 0
  {
    var n := |AllParticipants(groups)|;
    exists ks :: IsAllocation(Sizes(groups), Quota(n, targetTotal), Extra(n, targetTotal), ks)
  }

  lemma MembersListed(groups: seq<Group>, i: nat)
    requires i < |groups|
    ensures forall p :: p in groups[i].members ==> p in AllParticipants(groups)
  {
    EarlierMembersListed(groups, |groups|);
    assert groups[..|groups|] == groups;
  }

  /** The group's own copy of the targets (lines 192-198): the degree
      targets of its members, with the first member raised by one when they
      add up to an odd number, so that the group's total is even. */
  method GroupTargets(plist: seq<Participant>, degTargets: map<Participant, int>)
    returns (targets: map<Participant, int>)
    requires Distinct(plist)
    requires forall p :: p in plist ==> p in degTargets
    ensures forall p :: p in targets <==> p in plist
    ensures forall j :: 0 <= j < |plist| ==> targets[plist[j]] == ParityFixed(plist, degTargets, j)
    ensures targets == FixedTargets(plist, degTargets)
    ensures SumOver(plist, targets) % 2 == 0
  {
    targets := map p | p in plist :: degTargets[p];
    SumOverFrame(plist, degTargets, targets);
    if SumOver(plist, targets) % 2 != 0 {
      if |plist| > 0 {
        SumOverUpdate(plist, targets, plist[0], targets[plist[0]] + 1);
        targets := targets[plist[0] := targets[plist[0]] + 1];
      }
    }
    forall p | p in plist ensures targets[p] == FixedTargets(plist, degTargets)[p] {
      var j :| 0 <= j < |plist| && plist[j] == p;
    }
  }

  /** Realize every group in order and concatenate. The realizer never sees
      an odd total, so the only failure is a member left without a partner,
      and it happens exactly when some group's parity-fixed targets cannot
      be met by matches inside the group. On success every member plays
      exactly its (parity-fixed, non-negative part of its) target, and
      every match is inside one group. */
  method RealizeAllGroups(groups: seq<Group>, degTargets: map<Participant, int>)
    returns (res: Result<seq<Match>, RealizeError>)
    requires WellFormed(groups)
    requires forall p :: p in degTargets <==> p in AllParticipants(groups)
    ensures res.Err? ==> res.error == NoPartner
    ensures res.Ok? <==> AllRealizable(groups, degTargets)
    ensures res.Ok? ==> forall m :: m in res.value ==> m.a != m.b && InOneGroup(groups, m)
    ensures res.Ok? ==> forall i, j :: 0 <= i < |groups| && 0 <= j < |groups[i].members| ==>
              Degree(res.value, groups[i].members[j]) == Pos(ParityFixed(groups[i].members, degTargets, j))
  {
    var all: seq<Match> := [];
    for gi := 0 to |groups|
      invariant RealizedUpTo(groups, degTargets, gi, all)
    {
      var next := RealizeNextGroup(groups, degTargets, gi, all);
      if next.Err? {
        return Err(next.error);
      }
      all := next.value;
    }
    assert groups[..|groups|] == groups;
    return Ok(all);
  }

  /** The matches realized for the first `gi` groups: those groups'
      targets can be met, each match is between two different members of
      one of them, and each of their members plays its (non-negative part
      of its) parity-fixed target. */
  ghost predicate RealizedUpTo(groups: seq<Group>, degTargets: map<Participant, int>, gi: nat, all: seq<Match>)
    requires gi <= |groups|
  {
    && (forall i :: 0 <= i < gi ==> GroupRealizable(groups, degTargets, i))
    && (forall m :: m in all ==> m.a != m.b && InOneGroup(groups, m))
    && (forall m :: m in all ==> m.a in AllParticipants(groups[..gi]) && m.b in AllParticipants(groups[..gi]))
    && (forall i, j :: 0 <= i < gi && 0 <= j < |groups[i].members| ==>
          Degree(all, groups[i].members[j]) == Pos(ParityFixed(groups[i].members, degTargets, j)))
  }

  /** One step of the loop over groups: realize group `gi` and append its
      matches, failing exactly when its parity-fixed targets cannot be met. */
  method RealizeNextGroup(groups: seq<Group>, degTargets: map<Participant, int>, gi: nat, all: seq<Match>)
    returns (res: Result<seq<Match>, RealizeError>)
    requires WellFormed(groups) && gi < |groups|
    requires forall p :: p in degTargets <==> p in AllParticipants(groups)
    requires RealizedUpTo(groups, degTargets, gi, all)
    ensures res.Err? ==> res.error == NoPartner
    ensures res.Ok? <==> GroupRealizable(groups, degTargets, gi)
    ensures res.Ok? ==> RealizedUpTo(groups, degTargets, gi + 1, res.value)
  {
    var plist := groups[gi].members;
    GroupSlice(groups, gi);
    MembersListed(groups, gi);
    var targets := GroupTargets(plist, degTargets);
    var gm := RealizeGroupMatches(plist, targets);
    if gm.Err? {
      return Err(gm.error);
    }
    var all' := all + gm.value;
    AppendGroup(groups, gi, degTargets, targets, all, gm.value, all');
    return Ok(all');
  }

  /** Appending the matches of group `gi` keeps the realized degrees of the
      earlier groups and gives the members of group `gi` their targets. */
  lemma AppendGroup(groups: seq<Group>, gi: nat, degTargets: map<Participant, int>, targets: map<Participant, int>,
                    all: seq<Match>, gm: seq<Match>, all': seq<Match>)
    requires WellFormed(groups) && gi < |groups|
    requires forall p :: p in targets <==> p in groups[gi].members
    requires forall j :: 0 <= j < |groups[gi].members| ==> targets[groups[gi].members[j]] == ParityFixed(groups[gi].members, degTargets, j)
    requires forall m :: m in gm ==> m.a != m.b && m.a in targets && m.b in targets
    requires forall p :: p in targets ==> Degree(gm, p) == Pos(targets[p])
    requires forall m :: m in all ==> m.a != m.b && InOneGroup(groups, m)
    requires forall m :: m in all ==> m.a in AllParticipants(groups[..gi]) && m.b in AllParticipants(groups[..gi])
    requires forall i, j :: 0 <= i < gi && 0 <= j < |groups[i].members| ==>
               Degree(all, groups[i].members[j]) == Pos(ParityFixed(groups[i].members, degTargets, j))
    requires all' == all + gm
    ensures forall m :: m in all' ==> m.a != m.b && InOneGroup(groups, m)
    ensures forall m :: m in all' ==> m.a in AllParticipants(groups[..gi + 1]) && m.b in AllParticipants(groups[..gi + 1])
    ensures forall i, j :: 0 <= i < gi + 1 && 0 <= j < |groups[i].members| ==>
              Degree(all', groups[i].members[j]) == Pos(ParityFixed(groups[i].members, degTargets, j))
  {
    var plist := groups[gi].members;
    GroupSlice(groups, gi);
    forall m | m in gm ensures InOneGroup(groups, m) {
      assert m.a in groups[gi].members && m.b in groups[gi].members;
    }
    forall i, j | 0 <= i < gi + 1 && 0 <= j < |groups[i].members|
      ensures Degree(all', groups[i].members[j]) == Pos(ParityFixed(groups[i].members, degTargets, j))
    {
      var p := groups[i].members[j];
      DegreeConcat(all, gm, p);
      if i < gi {
        GroupsDisjoint(groups, i, gi, p);
        DegreeAbsent(gm, p);
      } else {
        DegreeAbsent(all, p);
      }
    }
  }

  /** Appearances summed over participants bound the targets summed, and
      equal them when each participant plays exactly its target. */
  lemma {:induction false} TotalDegreeCompare(ps: seq<Participant>, ms: seq<Match>, m: map<Participant, int>)
    requires forall p :: p in ps ==> Degree(ms, p) >= ValueOf(m, p)
    ensures TotalDegree(ps, ms) >= SumOver(ps, m)
    ensures (forall p :: p in ps ==> Degree(ms, p) == ValueOf(m, p)) ==> TotalDegree(ps, ms) == SumOver(ps, m)
  {
    if ps != [] {
      TotalDegreeCompare(ps[..|ps| - 1], ms, m);
    }
  }

  /** Every participant's realized appearances against its degree target:
      never fewer, and exactly the target when no group needed the parity
      fix and targets are non-negative. */
  lemma RealizedAtLeastTargets(groups: seq<Group>, degTargets: map<Participant, int>, ms: seq<Match>)
    requires WellFormed(groups)
    requires forall p :: p in degTargets <==> p in AllParticipants(groups)
    requires forall i, j :: 0 <= i < |groups| && 0 <= j < |groups[i].members| ==>
               Degree(ms, groups[i].members[j]) == Pos(ParityFixed(groups[i].members, degTargets, j))
    ensures forall p :: p in AllParticipants(groups) ==> Degree(ms, p) >= degTargets[p]
    ensures (forall i :: 0 <= i < |groups| ==> SumOver(groups[i].members, degTargets) % 2 == 0) &&
            (forall p :: p in degTargets ==> degTargets[p] >= 0) ==>
              forall p :: p in AllParticipants(groups) ==> Degree(ms, p) == degTargets[p]
  {
    forall p | p in AllParticipants(groups) ensures exists i, j :: 0 <= i < |groups| && 0 <= j < |groups[i].members| && groups[i].members[j] == p {
      AllParticipantsMember(groups, p);
      var i :| 0 <= i < |groups| && p in groups[i].members;
      var j :| 0 <= j < |groups[i].members| && groups[i].members[j] == p;
    }
  }

  /** With the allocator's counts, each group's targets add up to `q` per
      member plus its count, so all targets add up to `q * N + r`. */
  lemma TargetsAddUp(groups: seq<Group>, degTargets: map<Participant, int>, q: int, ks: seq<int>)
    requires WellFormed(groups)
    requires |ks| == |groups|
    requires forall p :: p in degTargets ==> degTargets[p] == q || degTargets[p] == q + 1
    requires forall p :: p in degTargets <==> p in AllParticipants(groups)
    requires forall i :: 0 <= i < |groups| ==> |Bumped(groups[i].members, degTargets, q)| == ks[i]
    ensures forall i :: 0 <= i < |groups| ==> SumOver(groups[i].members, degTargets) == q * |groups[i].members| + ks[i]
    ensures SumOver(AllParticipants(groups), degTargets) == q * |AllParticipants(groups)| + Sum(ks)
  {
    forall i | 0 <= i < |groups| ensures SumOver(groups[i].members, degTargets) == q * |groups[i].members| + ks[i] {
      GroupSlice(groups, i);
      MembersListed(groups, i);
      SumOfTwoLevels(groups[i].members, degTargets, q);
    }
    GroupedSum(groups, degTargets, q, ks);
    AllParticipantsLength(groups);
  }

  /** The tally loop: `counts[a] += 1; counts[b] += 1` for every match. */
  method TallyCounts(ms: seq<Match>) returns (counts: map<Participant, nat>)
    ensures Tallies(counts, ms)
  {
    counts := map[];
    for i := 0 to |ms|
      invariant Tallies(counts, ms[..i])
    {
      var m := ms[i];
      assert ms[..i + 1][..i] == ms[..i];
      var ca := if m.a in counts then counts[m.a] else 0;
      counts := counts[m.a := ca + 1];
      var cb := if m.b in counts then counts[m.b] else 0;
      counts := counts[m.b := cb + 1];
    }
    assert ms[..|ms|] == ms;
  }

  /** Per group, how many members have target `q + 1`. */
  function ExtraTargets(groups: seq<Group>, degTargets: map<Participant, int>, q: int): (ks: seq<int>)
    ensures |ks| == |groups|
  {
    seq(|groups|, i requires 0 <= i < |groups| => |Bumped(groups[i].members, degTargets, q)|)
  }

  /** Targets with an even total in every group, whose per-group numbers of
      `q + 1` form an allocation of the remainder `r`. */
  ghost predicate TargetsBalanced(groups: seq<Group>, degTargets: map<Participant, int>, q: int, r: int)
  {
    && (forall i :: 0 <= i < |groups| ==> SumOver(groups[i].members, degTargets) % 2 == 0)
    && IsAllocation(Sizes(groups), q, r, ExtraTargets(groups, degTargets, q))
  }

  /** What the planned degree targets are: every participant gets the
      quota or one more, the targets add up to twice the number of matches,
      and the per-group numbers of `q + 1` targets either form a
      parity-respecting allocation of the remainder (when one exists) or
      fill the groups in order up to the remainder (when none does). */
  ghost predicate TargetsPlanned(groups: seq<Group>, targetTotal: nat, degTargets: map<Participant, int>)
    requires |AllParticipants(groups)| > 0
  {
    var n := |AllParticipants(groups)|;
    var q, r := Quota(n, targetTotal), Extra(n, targetTotal);
    && (forall p :: p in degTargets <==> p in AllParticipants(groups))
    && (forall p :: p in degTargets ==> degTargets[p] == q || degTargets[p] == q + 1)
    && SumOver(AllParticipants(groups), degTargets) == 2 * targetTotal
    && (Balanced(groups, targetTotal) ==> TargetsBalanced(groups, degTargets, q, r))
    && (!Balanced(groups, targetTotal) ==> FilledInOrder(Sizes(groups), r, ExtraTargets(groups, degTargets, q)))
  }

  /** The degree targets of the draw (lines 113-187). When the allocator
      finds a parity-respecting spread of the remainder the targets follow
      it; when it finds none the remainder is spread by filling groups in
      order. Either way the targets already add up to twice the number of
      matches, so the sum correction that follows changes nothing. */
  method PlanTargets(groups: seq<Group>, targetTotal: nat) returns (degTargets: map<Participant, int>)
    requires WellFormed(groups) && |AllParticipants(groups)| > 0
    ensures TargetsPlanned(groups, targetTotal, degTargets)
  {
    var participantsAll := AllParticipants(groups);
    var n := |participantsAll|;
    var twoT := 2 * targetTotal;
    var q := twoT / n;
    var r := twoT - q * n;
    assert q == Quota(n, targetTotal) && r == Extra(n, targetTotal);
    AllParticipantsLength(groups);

    var found := FindKPerGroup(groups, q, r);
    var kPerGroup: map<string, int>;
    if found.None? {
      kPerGroup := FallbackAllocation(groups, r);
    } else {
      kPerGroup := found.value;
    }
    var ks := KVector(groups, kPerGroup);
    assert forall i :: 0 <= i < |groups| ==> 0 <= ValueOf(kPerGroup, groups[i].name) == ks[i] <= |groups[i].members|;

    degTargets := AssignTargets(groups, q, kPerGroup);
    TargetsAddUp(groups, degTargets, q, ks);
    ghost var planned := degTargets;
    degTargets := CorrectDegreeSum(participantsAll, degTargets, twoT);
    assert degTargets == planned;
    PlannedTargets(groups, targetTotal, degTargets, q, r, ks);
  }

  /** Targets of the quota or one more, whose per-group numbers of `q + 1`
      are a parity-respecting allocation when one exists and the in-order
      fill otherwise, are the planned targets. */
  lemma PlannedTargets(groups: seq<Group>, targetTotal: nat, degTargets: map<Participant, int>, q: int, r: int, ks: seq<int>)
    requires WellFormed(groups) && |AllParticipants(groups)| > 0
    requires q == Quota(|AllParticipants(groups)|, targetTotal) && r == Extra(|AllParticipants(groups)|, targetTotal)
    requires forall p :: p in degTargets <==> p in AllParticipants(groups)
    requires forall p :: p in degTargets ==> degTargets[p] == q || degTargets[p] == q + 1
    requires |ks| == |groups|
    requires forall i :: 0 <= i < |groups| ==> |Bumped(groups[i].members, degTargets, q)| == ks[i]
    requires Balanced(groups, targetTotal) ==> IsAllocation(Sizes(groups), q, r, ks)
    requires !Balanced(groups, targetTotal) ==> FilledInOrder(Sizes(groups), r, ks)
    ensures TargetsPlanned(groups, targetTotal, degTargets)
  {
    TargetsAddUp(groups, degTargets, q, ks);
    assert Sum(ks) == r;
    assert ExtraTargets(groups, degTargets, q) == ks;
    if Balanced(groups, targetTotal) {
      AllocationBalances(groups, degTargets, q, r, ks);
    }
  }

  /** Targets that follow a parity-respecting allocation are balanced. */
  lemma AllocationBalances(groups: seq<Group>, degTargets: map<Participant, int>, q: int, r: int, ks: seq<int>)
    requires IsAllocation(Sizes(groups), q, r, ks)
    requires forall i :: 0 <= i < |groups| ==> |Bumped(groups[i].members, degTargets, q)| == ks[i]
    requires forall i :: 0 <= i < |groups| ==> SumOver(groups[i].members, degTargets) == q * |groups[i].members| + ks[i]
    ensures TargetsBalanced(groups, degTargets, q, r)
  {
    assert ExtraTargets(groups, degTargets, q) == ks;
    forall i | 0 <= i < |groups| ensures SumOver(groups[i].members, degTargets) % 2 == 0 {
      assert Feasible(Sizes(groups)[i], q, ks[i]);
      EvenTotal(q * |groups[i].members|, ks[i]);
    }
  }

  lemma EvenTotal(base: int, k: int)
    requires k % 2 == base % 2
    ensures (base + k) % 2 == 0
  {
  }

  /** The matches realized are at least as many as the targets call for. */
  lemma EnoughMatches(groups: seq<Group>, degTargets: map<Participant, int>, ms: seq<Match>)
    requires WellFormed(groups)
    requires forall p :: p in degTargets <==> p in AllParticipants(groups)
    requires forall m :: m in ms ==> m.a != m.b && InOneGroup(groups, m)
    requires forall i, j :: 0 <= i < |groups| && 0 <= j < |groups[i].members| ==>
               Degree(ms, groups[i].members[j]) == Pos(ParityFixed(groups[i].members, degTargets, j))
    ensures 2 * |ms| >= SumOver(AllParticipants(groups), degTargets)
  {
    RealizedAtLeastTargets(groups, degTargets, ms);
    EndpointsListed(groups, ms);
    Handshake(AllParticipants(groups), ms);
    TotalDegreeCompare(AllParticipants(groups), ms, degTargets);
  }

  /** With balanced, non-negative targets nobody needs the parity fix, so
      every participant plays exactly its target, the matches are exactly
      half the total, and the per-group numbers of `q + 1` players are the
      per-group numbers of `q + 1` targets. */
  lemma BalancedOutcome(groups: seq<Group>, degTargets: map<Participant, int>, q: int, r: int, ms: seq<Match>)
    requires WellFormed(groups) && q >= 0
    requires forall p :: p in degTargets <==> p in AllParticipants(groups)
    requires forall p :: p in degTargets ==> degTargets[p] == q || degTargets[p] == q + 1
    requires TargetsBalanced(groups, degTargets, q, r)
    requires forall m :: m in ms ==> m.a != m.b && InOneGroup(groups, m)
    requires forall i, j :: 0 <= i < |groups| && 0 <= j < |groups[i].members| ==>
               Degree(ms, groups[i].members[j]) == Pos(ParityFixed(groups[i].members, degTargets, j))
    ensures forall p :: p in AllParticipants(groups) ==> Degree(ms, p) == degTargets[p]
    ensures 2 * |ms| == SumOver(AllParticipants(groups), degTargets)
    ensures ExtraPlayers(groups, ms, q) == ExtraTargets(groups, degTargets, q)
  {
    RealizedAtLeastTargets(groups, degTargets, ms);
    EndpointsListed(groups, ms);
    Handshake(AllParticipants(groups), ms);
    TotalDegreeCompare(AllParticipants(groups), ms, degTargets);
    CountsFollowTargets(groups, degTargets, q, ms);
  }

  /** Playing exactly the targets gives the same `q + 1` members per group. */
  lemma CountsFollowTargets(groups: seq<Group>, degTargets: map<Participant, int>, q: int, ms: seq<Match>)
    requires forall p :: p in AllParticipants(groups) ==> p in degTargets && Degree(ms, p) == degTargets[p]
    ensures ExtraPlayers(groups, ms, q) == ExtraTargets(groups, degTargets, q)
  {
    forall i | 0 <= i < |groups| ensures ExtraPlayers(groups, ms, q)[i] == ExtraTargets(groups, degTargets, q)[i] {
      MembersListed(groups, i);
      assert (set p | p in groups[i].members && Degree(ms, p) == q + 1) == Bumped(groups[i].members, degTargets, q);
    }
  }

  /** A group of one cannot play: a positive target for its only member
      cannot be met, since every match would pair that member with itself. */
  lemma LoneMemberCannotPlay(order: seq<Participant>, degTarget: map<Participant, int>)
    requires |order| == 1
    requires forall p :: p in degTarget <==> p in order
    requires degTarget[order[0]] > 0
    ensures !Realizable(order, degTarget)
  {
    assert order[..0] == [];
    assert PosTotal(order, degTarget) == Pos(degTarget[order[0]]);
  }

  /** With a positive quota, a group of one makes the whole draw
      unrealizable, whatever the planned targets. */
  lemma SingletonBlocksDraw(groups: seq<Group>, degTargets: map<Participant, int>, i: nat)
    requires i < |groups| && |groups[i].members| == 1
    requires forall p :: p in AllParticipants(groups) ==> p in degTargets && degTargets[p] > 0
    ensures !AllRealizable(groups, degTargets)
  {
    var plist := groups[i].members;
    MembersListed(groups, i);
    assert plist[0] in AllParticipants(groups);
    var t := FixedTargets(plist, degTargets);
    assert t[plist[0]] >= degTargets[plist[0]];
    LoneMemberCannotPlay(plist, t);
    assert !GroupRealizable(groups, degTargets, i);
  }

  /** Groups of sizes 1, 1 and 2 with quota 1 and remainder 0 (four
      participants, two matches) admit no parity-respecting allocation: each
      singleton needs an odd count, which already exceeds the remainder. */
  lemma NoAllocationForSingletons()
    ensures !exists ks :: IsAllocation([1, 1, 2], 1, 0, ks)
  {
    forall ks | IsAllocation([1, 1, 2], 1, 0, ks) ensures false {
      assert Feasible(1, 1, ks[0]) && Feasible(1, 1, ks[1]) && Feasible(2, 1, ks[2]);
      assert ks[..2][..1] == ks[..1] && ks[..1][..0] == [] && ks[..3] == ks;
      assert Sum(ks[..1]) == ks[0];
      assert Sum(ks[..2]) == ks[0] + ks[1];
    }
  }

  /** Every match inside one group is between listed participants. */
  lemma EndpointsListed(groups: seq<Group>, ms: seq<Match>)
    requires forall m :: m in ms ==> InOneGroup(groups, m)
    ensures forall m :: m in ms ==> m.a in AllParticipants(groups) && m.b in AllParticipants(groups)
  {
    forall m | m in ms ensures m.a in AllParticipants(groups) && m.b in AllParticipants(groups) {
      var i :| 0 <= i < |groups| && m.a in groups[i].members && m.b in groups[i].members;
      MembersListed(groups, i);
    }
  }

  /** The average number of appearances per participant, `2T / N` as an
      exact fraction. */
  function Average(twoT: nat, n: nat): (a: real)
    requires n > 0
    ensures a * (n as real) == twoT as real
  {
    (twoT as real) / (n as real)
  }

  /** The draw. With no participants it returns nothing. Otherwise it never
      runs short of matches (the realized list is never shorter than asked,
      so the padding with random pairs cannot run); it fails only when the
      realizer leaves a member without a partner. On success there are
      exactly `targetTotal` matches, each between two different members of
      one group, the counts tally them, and appearances add up to
      `2 * targetTotal`. The realizer succeeds exactly when every group's
      planned (parity-fixed) targets can be met inside the group; in
      particular, with a positive quota a group of one always makes the
      draw fail. When the remainder can be spread with even group totals,
      every participant plays the quota or one more, and the members on one
      more form such a spread. */
  method GenerateExactMatches(groups: seq<Group>, targetTotal: nat) returns (res: Result<Draw, RealizeError>)
    requires WellFormed(groups)
    ensures |AllParticipants(groups)| == 0 ==> res == Ok(Draw([], map[], 0.0))
    ensures res.Err? ==> res.error == NoPartner
    ensures |AllParticipants(groups)| > 0 ==>
              exists dt :: TargetsPlanned(groups, targetTotal, dt) && (res.Ok? <==> AllRealizable(groups, dt))
    ensures |AllParticipants(groups)| > 0 && Quota(|AllParticipants(groups)|, targetTotal) > 0 ==>
              (exists i :: 0 <= i < |groups| && |groups[i].members| == 1) ==> res.Err?
    ensures res.Ok? ==> forall m :: m in res.value.matches ==> m.a != m.b && InOneGroup(groups, m)
    ensures res.Ok? ==> Tallies(res.value.counts, res.value.matches)
    ensures res.Ok? && |AllParticipants(groups)| > 0 ==> |res.value.matches| == targetTotal
    ensures res.Ok? && |AllParticipants(groups)| > 0 ==>
              TotalDegree(AllParticipants(groups), res.value.matches) == 2 * targetTotal
    ensures res.Ok? && |AllParticipants(groups)| > 0 ==>
              res.value.average == Average(2 * targetTotal, |AllParticipants(groups)|)
    ensures res.Ok? && |AllParticipants(groups)| > 0 && Balanced(groups, targetTotal) ==>
              var n := |AllParticipants(groups)|;
              && (forall p :: p in AllParticipants(groups) ==>
                    Degree(res.value.matches, p) == Quota(n, targetTotal) || Degree(res.value.matches, p) == Quota(n, targetTotal) + 1)
              && IsAllocation(Sizes(groups), Quota(n, targetTotal), Extra(n, targetTotal),
                              ExtraPlayers(groups, res.value.matches, Quota(n, targetTotal)))
  {
    var participantsAll := AllParticipants(groups);
    var n := |participantsAll|;
    if n == 0 {
      return Ok(Draw([], map[], 0.0));
    }
    var twoT := 2 * targetTotal;
    var average := Average(twoT, n);

    var degTargets := PlanTargets(groups, targetTotal);
    var realized := RealizeAllGroups(groups, degTargets);
    assert TargetsPlanned(groups, targetTotal, degTargets) && (realized.Ok? <==> AllRealizable(groups, degTargets));
    if Quota(n, targetTotal) > 0 && exists i :: 0 <= i < |groups| && |groups[i].members| == 1 {
      var i :| 0 <= i < |groups| && |groups[i].members| == 1;
      SingletonBlocksDraw(groups, degTargets, i);
    }
    if realized.Err? {
      return Err(realized.error);
    }
    var matches := realized.value;
    EnoughMatches(groups, degTargets, matches);
    if Balanced(groups, targetTotal) {
      var q, r := Quota(n, targetTotal), Extra(n, targetTotal);
      BalancedOutcome(groups, degTargets, Quota(n, targetTotal), Extra(n, targetTotal), matches);
    }

    // Never shorter than asked: only the trimming branch can apply.
    if |matches| > targetTotal {
      matches := matches[..targetTotal];
    }
    EndpointsListed(groups, matches);
    Handshake(participantsAll, matches);

    var counts := TallyCounts(matches);
    res := Ok(Draw(matches, counts, average));
  }

  /** Groups of sizes 1, 1 and 2 with two matches wanted: quota 1, so both
      singletons need a partner they do not have, and the draw fails. */
  method DrawWithSingletons() returns (res: Result<Draw, RealizeError>)
    ensures res.Err?
  {
    var groups := [Group("A", ["a"]), Group("B", ["b"]), Group("C", ["c", "d"])];
    assert groups[..2][..1][..0] == [];
    assert AllParticipants(groups[..2][..1]) == ["a"];
    assert AllParticipants(groups[..2]) == ["a", "b"];
    assert AllParticipants(groups) == ["a", "b", "c", "d"];
    assert WellFormed(groups);
    assert Quota(4, 2) == 1;
    assert |groups[0].members| == 1;
    res := GenerateExactMatches(groups, 2);
  }

  /** Groups `[a]` and `[b, c]` with three matches wanted: quota 2 and
      remainder 0, which the allocator spreads as 0 and 0, yet `a` needs two
      matches and has nobody to play, so the draw fails. */
  method DrawWithLoneMember() returns (res: Result<Draw, RealizeError>)
    ensures res.Err?
  {
    var groups := [Group("X", ["a"]), Group("Y", ["b", "c"])];
    assert groups[..1][..0] == [];
    assert AllParticipants(groups[..1]) == ["a"];
    assert AllParticipants(groups) == ["a", "b", "c"];
    assert WellFormed(groups);
    assert Quota(3, 3) == 2;
    assert IsAllocation(Sizes(groups), 2, 0, [0, 0]);
    assert |groups[0].members| == 1;
    res := GenerateExactMatches(groups, 3);
  }
}
