/** The group realizer: turns one group's degree targets (how many matches
    each member must play) into a list of matches, greedily pairing the
    member with the largest remaining need with the other member whose
    remaining need is largest. Repeated pairings are allowed. */
module Realizer {
  import opened DrawTypes

  /** The two ways realization stops short: the targets add up to an odd
      number, or a member still needs a partner and nobody else does. */
  datatype RealizeError = OddDegreeSum | NoPartner

  function Pos(x: int): nat
  {
    if x > 0 then x else 0
  }

  /** Total outstanding (positive) need of the listed participants. */
  function PosTotal(order: seq<Participant>, m: map<Participant, int>): nat
    requires forall p :: p in order ==> p in m
  {
    if order == [] then 0 else PosTotal(order[..|order| - 1], m) + Pos(m[order[|order| - 1]])
  }

  lemma {:induction false} PosTotalUpdate(order: seq<Participant>, m: map<Participant, int>, k: Participant, v: int)
    requires Distinct(order)
    requires forall p :: p in order ==> p in m
    requires k in order
    ensures PosTotal(order, m[k := v]) == PosTotal(order, m) - Pos(m[k]) + Pos(v)
  {
    var init := order[..|order| - 1];
    assert Distinct(init);
    if k == order[|order| - 1] {
      assert k !in init;
      PosTotalFrame(init, m, m[k := v]);
    } else {
      PosTotalUpdate(init, m, k, v);
    }
  }

  lemma {:induction false} PosTotalFrame(order: seq<Participant>, m: map<Participant, int>, m': map<Participant, int>)
    requires forall p :: p in order ==> p in m && p in m' && m'[p] == m[p]
    ensures PosTotal(order, m') == PosTotal(order, m)
  {
    if order != [] {
      PosTotalFrame(order[..|order| - 1], m, m');
    }
  }

  /** With nothing positive left, the outstanding need is zero. */
  lemma {:induction false} PosTotalNone(order: seq<Participant>, m: map<Participant, int>)
    requires forall p :: p in order ==> p in m && m[p] <= 0
    ensures PosTotal(order, m) == 0
  {
    if order != [] {
      PosTotalNone(order[..|order| - 1], m);
    }
  }

  /** The needs of three different members together never exceed the
      outstanding total. */
  lemma PosTotalOfThree(order: seq<Participant>, m: map<Participant, int>, u: Participant, v: Participant, w: Participant)
    requires Distinct(order)
    requires forall p :: p in order ==> p in m
    requires u in order && v in order && w in order && u != v && v != w && u != w
    ensures PosTotal(order, m) >= Pos(m[u]) + Pos(m[v]) + Pos(m[w])
  {
    var m1 := m[u := 0];
    var m2 := m1[v := 0];
    PosTotalUpdate(order, m, u, 0);
    PosTotalUpdate(order, m1, v, 0);
    PosTotalUpdate(order, m2, w, 0);
  }

  /** The outstanding needs can be met by matches between different
      members: their total is even and nobody needs more matches than all
      the others together. */
  predicate Realizable(order: seq<Participant>, m: map<Participant, int>)
    requires forall p :: p in order ==> p in m
  {
    PosTotal(order, m) % 2 == 0 && forall p :: p in order ==> 2 * Pos(m[p]) <= PosTotal(order, m)
  }

  /** Needs that some list of matches between different members meets
      exactly are realizable: nobody can appear in more matches than there
      are. */
  lemma RealizedIsRealizable(order: seq<Participant>, degTarget: map<Participant, int>, ms: seq<Match>)
    requires forall p :: p in degTarget <==> p in order
    requires forall m :: m in ms ==> m.a != m.b
    requires forall p :: p in degTarget ==> Degree(ms, p) == Pos(degTarget[p])
    requires 2 * |ms| == PosTotal(order, degTarget)
    ensures Realizable(order, degTarget)
  {
    var total := PosTotal(order, degTarget);
    forall p | p in order ensures 2 * Pos(degTarget[p]) <= total {
      DegreeAtMostLength(ms, p);
      assert Degree(ms, p) == Pos(degTarget[p]);
    }
    Twice(|ms|, total);
  }

  lemma Twice(half: nat, total: nat)
    requires total == 2 * half
    ensures total % 2 == 0
  {
  }

  /** Pairing `u` with the neediest other member `v` keeps the needs
      realizable: a third member `w` needs at most what `v` needs, so the
      others still cover it once two are taken off the total. */
  lemma PairKeepsRealizable(order: seq<Participant>, rem: map<Participant, int>, u: Participant, v: Participant,
                            rem': map<Participant, int>)
    requires Distinct(order)
    requires forall p :: p in rem <==> p in order
    requires u in rem && v in rem && u != v && rem[u] > 0 && rem[v] > 0
    requires forall j :: 0 <= j < |order| && Eligible(rem, order[j], Some(u)) ==> rem[order[j]] <= rem[v]
    requires rem' == rem[u := rem[u] - 1][v := rem[v] - 1]
    requires Realizable(order, rem)
    ensures Realizable(order, rem')
  {
    PairStepTotal(order, rem, u, v, rem');
    var total := PosTotal(order, rem);
    forall p | p in order ensures 2 * Pos(rem'[p]) <= total - 2 {
      if p != u && p != v && rem[p] > 0 {
        var j :| 0 <= j < |order| && order[j] == p;
        assert Eligible(rem, order[j], Some(u));
        PosTotalOfThree(order, rem, u, v, p);
        assert total - 2 * rem[p] >= 1;
        assert total % 2 == 0;
      }
    }
  }

  /** When `u` still needs a match and nobody else does, the outstanding
      total is `u`'s own need, which no other member can meet. */
  lemma StuckNotRealizable(order: seq<Participant>, rem: map<Participant, int>, u: Participant)
    requires Distinct(order)
    requires forall p :: p in rem <==> p in order
    requires u in rem && rem[u] > 0
    requires forall j :: 0 <= j < |order| ==> !Eligible(rem, order[j], Some(u))
    ensures !Realizable(order, rem)
  {
    var rest := rem[u := 0];
    PosTotalUpdate(order, rem, u, 0);
    forall p | p in order ensures rest[p] <= 0 {
      if p != u {
        var j :| 0 <= j < |order| && order[j] == p;
        assert !Eligible(rem, order[j], Some(u));
      }
    }
    PosTotalNone(order, rest);
    assert PosTotal(order, rem) == rem[u];
  }

  /** A member may be picked: still needs matches and is not excluded. */
  predicate Eligible(rem: map<Participant, int>, p: Participant, exclude: Option<Participant>)
  {
    p in rem && rem[p] > 0 && exclude != Some(p)
  }

  /** The first entry, in dictionary order, among the eligible ones with the
      largest remaining need: what a stable sort on the negated need puts
      first. `None` when nobody is eligible. */
  function FirstMax(order: seq<Participant>, rem: map<Participant, int>, exclude: Option<Participant>): (r: Option<nat>)
    requires forall p :: p in order ==> p in rem
    ensures r.Some? ==> r.value < |order| && Eligible(rem, order[r.value], exclude)
    ensures r.Some? ==> forall j :: 0 <= j < |order| && Eligible(rem, order[j], exclude) ==>
              rem[order[j]] <= rem[order[r.value]] && (j < r.value ==> rem[order[j]] < rem[order[r.value]])
    ensures r.None? ==> forall j :: 0 <= j < |order| ==> !Eligible(rem, order[j], exclude)
  {
    if order == [] then None
    else
      var rest := FirstMax(order[1..], rem, exclude);
      if Eligible(rem, order[0], exclude) && (rest.None? || rem[order[1 + rest.value]] <= rem[order[0]]) then
        Some(0)
      else if rest.Some? then
        Some(rest.value + 1)
      else
        None
  }

  /** The loop invariant of the realizer: the matches so far are between
      distinct members, and each member's appearances plus its outstanding
      need equal its (positive part of the) target. */
  ghost predicate Progress(order: seq<Participant>, degTarget: map<Participant, int>, rem: map<Participant, int>, matches: seq<Match>)
    requires forall p :: p in degTarget <==> p in order
  {
    && (forall p :: p in rem <==> p in order)
    && (forall p :: p in rem ==> rem[p] >= 0 || rem[p] == degTarget[p])
    && (forall p :: p in rem ==> Degree(matches, p) + Pos(rem[p]) == Pos(degTarget[p]))
    && (forall m :: m in matches ==> m.a != m.b && m.a in rem && m.b in rem)
    && 2 * |matches| + PosTotal(order, rem) == PosTotal(order, degTarget)
  }

  /** Recording one pairing of `u` and `v`, both with positive need, keeps
      the invariant and lowers the outstanding need by two. */
  lemma PairStep(order: seq<Participant>, degTarget: map<Participant, int>, rem: map<Participant, int>,
                 matches: seq<Match>, u: Participant, v: Participant, rem': map<Participant, int>, matches': seq<Match>)
    requires Distinct(order)
    requires forall p :: p in degTarget <==> p in order
    requires Progress(order, degTarget, rem, matches)
    requires u in rem && v in rem && u != v && rem[u] > 0 && rem[v] > 0
    requires rem' == rem[u := rem[u] - 1][v := rem[v] - 1] && matches' == matches + [Match(u, v)]
    ensures Progress(order, degTarget, rem', matches')
    ensures PosTotal(order, rem') == PosTotal(order, rem) - 2
  {
    PairStepTotal(order, rem, u, v, rem');
    PairStepDegrees(degTarget, rem, matches, u, v, rem', matches');
    assert forall m :: m in matches' ==> m in matches || m == Match(u, v);
  }

  /** One more match between `u` and `v`, and one less need for each. */
  lemma PairStepDegrees(degTarget: map<Participant, int>, rem: map<Participant, int>, matches: seq<Match>,
                        u: Participant, v: Participant, rem': map<Participant, int>, matches': seq<Match>)
    requires forall p :: p in rem ==> p in degTarget && Degree(matches, p) + Pos(rem[p]) == Pos(degTarget[p])
    requires u in rem && v in rem && u != v && rem[u] > 0 && rem[v] > 0
    requires rem' == rem[u := rem[u] - 1][v := rem[v] - 1] && matches' == matches + [Match(u, v)]
    ensures forall p :: p in rem' ==> Degree(matches', p) + Pos(rem'[p]) == Pos(degTarget[p])
  {
    assert matches'[..|matches'| - 1] == matches;
    forall p | p in rem' ensures Degree(matches', p) + Pos(rem'[p]) == Pos(degTarget[p]) {
      assert Degree(matches', p) == Degree(matches, p) + Ends(Match(u, v), p);
    }
  }

  /** Lowering two different positive needs by one each lowers the
      outstanding total by two. */
  lemma PairStepTotal(order: seq<Participant>, rem: map<Participant, int>, u: Participant, v: Participant, rem': map<Participant, int>)
    requires Distinct(order)
    requires forall p :: p in rem <==> p in order
    requires u in rem && v in rem && u != v && rem[u] > 0 && rem[v] > 0
    requires rem' == rem[u := rem[u] - 1][v := rem[v] - 1]
    ensures PosTotal(order, rem') == PosTotal(order, rem) - 2
  {
    var rem1 := rem[u := rem[u] - 1];
    PosTotalUpdate(order, rem, u, rem[u] - 1);
    PosTotalUpdate(order, rem1, v, rem1[v] - 1);
  }

  /** When nobody has positive need left, every member has played exactly
      its target and the matches account for the whole outstanding total. */
  lemma Finished(order: seq<Participant>, degTarget: map<Participant, int>, rem: map<Participant, int>, matches: seq<Match>)
    requires forall p :: p in degTarget <==> p in order
    requires Progress(order, degTarget, rem, matches)
    requires forall j :: 0 <= j < |order| ==> !Eligible(rem, order[j], None)
    ensures forall m :: m in matches ==> m.a != m.b && m.a in degTarget && m.b in degTarget
    ensures forall p :: p in degTarget ==> Degree(matches, p) == Pos(degTarget[p])
    ensures 2 * |matches| == PosTotal(order, degTarget)
  {
    forall p | p in order ensures rem[p] <= 0 {
      var j :| 0 <= j < |order| && order[j] == p;
      assert !Eligible(rem, order[j], None);
    }
    PosTotalNone(order, rem);
  }

  /** The realizer. It refuses a group whose targets add up to an odd
      number; otherwise it pairs greedily until nobody needs a match, or
      fails when the member being served finds no partner. It succeeds
      exactly when the targets add up to an even number and their positive
      parts are realizable, so the missing-partner failure comes exactly
      from an even sum whose needs no list of matches can meet. On success
      every member plays exactly its target (a non-positive target: no
      match), nobody plays themself, and the number of matches is half the
      total. */
  method RealizeGroupMatches(order: seq<Participant>, degTarget: map<Participant, int>)
    returns (res: Result<seq<Match>, RealizeError>)
    requires Distinct(order)
    requires forall p :: p in degTarget <==> p in order
    ensures res == Err(OddDegreeSum) <==> SumOver(order, degTarget) % 2 != 0
    ensures res.Ok? <==> SumOver(order, degTarget) % 2 == 0 && Realizable(order, degTarget)
    ensures res.Ok? ==> forall m :: m in res.value ==> m.a != m.b && m.a in degTarget && m.b in degTarget
    ensures res.Ok? ==> forall p :: p in degTarget ==> Degree(res.value, p) == Pos(degTarget[p])
    ensures res.Ok? ==> 2 * |res.value| == PosTotal(order, degTarget)
  {
    var matches: seq<Match> := [];
    var rem := degTarget;
    var totalDeg := SumOver(order, rem);
    if totalDeg % 2 != 0 {
      return Err(OddDegreeSum);
    }
    while true
      invariant Progress(order, degTarget, rem, matches)
      invariant Realizable(order, degTarget) ==> Realizable(order, rem)
      decreases PosTotal(order, rem)
    {
      var ui := FirstMax(order, rem, None);
      if ui.None? {
        break;
      }
      var u := order[ui.value];
      var ok;
      ok, matches, rem := PairRepeatedly(order, degTarget, rem, matches, u);
      if !ok {
        return Err(NoPartner);
      }
    }
    Finished(order, degTarget, rem, matches);
    RealizedIsRealizable(order, degTarget, matches);
    return Ok(matches);
  }

  /** The inner loop of the realizer: pair `u` with the current neediest
      other member, `rem[u]` times, after which `u` needs nothing more. `ok`
      is false when at some point nobody else needs a match, which never
      happens while the needs are realizable. */
  method PairRepeatedly(order: seq<Participant>, degTarget: map<Participant, int>, rem0: map<Participant, int>,
                        matches0: seq<Match>, u: Participant)
    returns (ok: bool, matches: seq<Match>, rem: map<Participant, int>)
    requires Distinct(order)
    requires forall p :: p in degTarget <==> p in order
    requires Progress(order, degTarget, rem0, matches0)
    requires u in rem0 && rem0[u] > 0
    ensures Progress(order, degTarget, rem, matches)
    ensures ok ==> PosTotal(order, rem) < PosTotal(order, rem0)
    ensures ok ==> u in rem && rem[u] == 0
    ensures !ok ==> u in rem && rem[u] > 0 && forall j :: 0 <= j < |order| ==> !Eligible(rem, order[j], Some(u))
    ensures Realizable(order, rem0) ==> ok && Realizable(order, rem)
  {
    matches, rem := matches0, rem0;
    var du := rem[u];
    var t := 0;
    while t < du
      invariant 0 <= t <= du
      invariant Progress(order, degTarget, rem, matches)
      invariant u in rem && rem[u] == du - t
      invariant PosTotal(order, rem) == PosTotal(order, rem0) - 2 * t
      invariant Realizable(order, rem0) ==> Realizable(order, rem)
    {
      var vi := FirstMax(order, rem, Some(u));
      if vi.None? {
        StuckNotRealizable(order, rem, u);
        return false, matches, rem;
      }
      var v := order[vi.value];
      var rem' := rem[u := rem[u] - 1][v := rem[v] - 1];
      var matches' := matches + [Match(u, v)];
      PairStep(order, degTarget, rem, matches, u, v, rem', matches');
      if Realizable(order, rem) {
        PairKeepsRealizable(order, rem, u, v, rem');
      }
      matches, rem := matches', rem';
      t := t + 1;
    }
    ok := true;
  }
}
