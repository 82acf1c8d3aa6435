/** Shared vocabulary of the draw: participants, matches, groups, and the
    sums and tallies every stage of the pipeline reasons about. */
module DrawTypes {

  /** A participant is identified by its display label. */
  type Participant = string

  /** A match is the pair of participant labels the draw produces. */
  datatype Match = Match(a: Participant, b: Participant)

  /** One entry of the ordered group dictionary: the group's label and its
      members in input order. */
  datatype Group = Group(name: string, members: seq<Participant>)

  datatype Option<T> = None | Some(value: T)

  datatype Result<T, E> = Ok(value: T) | Err(error: E)

  predicate Distinct<T(==)>(s: seq<T>)
  {
    forall i, j :: 0 <= i < j < |s| ==> s[i] != s[j]
  }

  function Names(groups: seq<Group>): (ns: seq<string>)
    ensures |ns| == |groups|
    ensures forall i :: 0 <= i < |groups| ==> ns[i] == groups[i].name
  {
    seq(|groups|, i requires 0 <= i < |groups| => groups[i].name)
  }

  /** Distinct labels: no two groups share a name. */
  lemma DistinctNames(groups: seq<Group>)
    requires Distinct(Names(groups))
    ensures forall i, j :: 0 <= i < j < |groups| ==> groups[i].name != groups[j].name
  {
    var ns := Names(groups);
    forall i, j | 0 <= i < j < |groups| ensures groups[i].name != groups[j].name {
      assert ns[i] != ns[j];
    }
  }

  /** The participants of all groups, group after group: the source's
      `participants_all`, and the insertion order of its `deg_targets`. */
  function AllParticipants(groups: seq<Group>): seq<Participant>
  {
    if groups == [] then [] else AllParticipants(groups[..|groups| - 1]) + groups[|groups| - 1].members
  }

  function Sizes(groups: seq<Group>): (sz: seq<nat>)
    ensures |sz| == |groups|
    ensures forall i :: 0 <= i < |groups| ==> sz[i] == |groups[i].members|
  {
    seq(|groups|, i requires 0 <= i < |groups| => |groups[i].members|)
  }

  /** Group labels are dictionary keys, and every participant belongs to
      exactly one group and is listed once. */
  predicate WellFormed(groups: seq<Group>)
  {
    Distinct(Names(groups)) && Distinct(AllParticipants(groups))
  }

  function Min(x: int, y: int): int
  {
    if x <= y then x else y
  }

  function Sum(xs: seq<int>): int
  {
    if xs == [] then 0 else Sum(xs[..|xs| - 1]) + xs[|xs| - 1]
  }

  /** The value a map gives to a key; a missing key counts as 0. */
  function ValueOf(m: map<Participant, int>, p: Participant): int
  {
    if p in m then m[p] else 0
  }

  /** Sum of the values a map gives to the keys listed in `ps`. */
  function SumOver(ps: seq<Participant>, m: map<Participant, int>): int
  {
    if ps == [] then 0 else SumOver(ps[..|ps| - 1], m) + ValueOf(m, ps[|ps| - 1])
  }

  /** How many of the two slots of `m` hold `p`. */
  function Ends(m: Match, p: Participant): nat
  {
    (if m.a == p then 1 else 0) + (if m.b == p then 1 else 0)
  }

  /** Number of appearances of `p` in a match list: what the source's
      `counts` tally records for `p`. */
  function Degree(ms: seq<Match>, p: Participant): nat
  {
    if ms == [] then 0 else Degree(ms[..|ms| - 1], p) + Ends(ms[|ms| - 1], p)
  }

  /** Without self-matches a participant appears at most once per match. */
  lemma {:induction false} DegreeAtMostLength(ms: seq<Match>, p: Participant)
    requires forall m :: m in ms ==> m.a != m.b
    ensures Degree(ms, p) <= |ms|
  {
    if ms != [] {
      DegreeAtMostLength(ms[..|ms| - 1], p);
      assert ms[|ms| - 1] in ms;
    }
  }

  /** Sum of the appearances of the listed participants. */
  function TotalDegree(ps: seq<Participant>, ms: seq<Match>): int
  {
    if ps == [] then 0 else TotalDegree(ps[..|ps| - 1], ms) + Degree(ms, ps[|ps| - 1])
  }

  lemma {:induction false} AllParticipantsMember(groups: seq<Group>, p: Participant)
    ensures p in AllParticipants(groups) <==> exists i :: 0 <= i < |groups| && p in groups[i].members
  {
    if groups != [] {
      var init := groups[..|groups| - 1];
      AllParticipantsMember(init, p);
      if p in AllParticipants(groups) && p !in groups[|groups| - 1].members {
        var i :| 0 <= i < |init| && p in init[i].members;
        assert groups[i] == init[i];
      }
      if exists i :: 0 <= i < |groups| && p in groups[i].members {
        var i :| 0 <= i < |groups| && p in groups[i].members;
        if i < |init| {
          assert init[i] == groups[i];
        }
      }
    }
  }

  lemma {:induction false} AllParticipantsLength(groups: seq<Group>)
    ensures |AllParticipants(groups)| == Sum(Sizes(groups))
  {
    if groups != [] {
      AllParticipantsLength(groups[..|groups| - 1]);
      assert Sizes(groups)[..|groups| - 1] == Sizes(groups[..|groups| - 1]);
    }
  }

  lemma {:induction false} SumOverUpdate(ps: seq<Participant>, m: map<Participant, int>, k: Participant, v: int)
    requires Distinct(ps)
    requires forall p :: p in ps ==> p in m
    ensures k in ps ==> SumOver(ps, m[k := v]) == SumOver(ps, m) + v - m[k]
    ensures k !in ps ==> SumOver(ps, m[k := v]) == SumOver(ps, m)
  {
    if ps != [] {
      var init := ps[..|ps| - 1];
      assert Distinct(init);
      assert k == ps[|ps| - 1] ==> k !in init;
      SumOverUpdate(init, m, k, v);
    }
  }

  /** Changing the map only outside the listed keys leaves their sum alone. */
  lemma {:induction false} SumOverFrame(ps: seq<Participant>, m: map<Participant, int>, m': map<Participant, int>)
    requires forall p :: p in ps ==> p in m && p in m' && m'[p] == m[p]
    ensures SumOver(ps, m') == SumOver(ps, m)
  {
    if ps != [] {
      SumOverFrame(ps[..|ps| - 1], m, m');
    }
  }

  lemma {:induction false} SumOverConcat(xs: seq<Participant>, ys: seq<Participant>, m: map<Participant, int>)
    ensures SumOver(xs + ys, m) == SumOver(xs, m) + SumOver(ys, m)
  {
    if ys == [] {
      assert xs + ys == xs;
    } else {
      assert (xs + ys)[..|xs + ys| - 1] == xs + ys[..|ys| - 1];
      SumOverConcat(xs, ys[..|ys| - 1], m);
    }
  }

  lemma {:induction false} DegreeConcat(xs: seq<Match>, ys: seq<Match>, p: Participant)
    ensures Degree(xs + ys, p) == Degree(xs, p) + Degree(ys, p)
  {
    if ys == [] {
      assert xs + ys == xs;
    } else {
      assert (xs + ys)[..|xs + ys| - 1] == xs + ys[..|ys| - 1];
      DegreeConcat(xs, ys[..|ys| - 1], p);
    }
  }

  /** A participant that no match mentions has no appearances. */
  lemma {:induction false} DegreeAbsent(ms: seq<Match>, p: Participant)
    requires forall m :: m in ms ==> m.a != p && m.b != p
    ensures Degree(ms, p) == 0
  {
    if ms != [] {
      DegreeAbsent(ms[..|ms| - 1], p);
    }
  }

  /** Over a list of distinct participants, a single match contributes one
      appearance per slot whose participant is listed. */
  lemma {:induction false} TotalEnds(ps: seq<Participant>, m: Match, ms: seq<Match>)
    requires Distinct(ps)
    ensures TotalDegree(ps, ms + [m]) == TotalDegree(ps, ms) + (if m.a in ps then 1 else 0) + (if m.b in ps then 1 else 0)
  {
    if ps != [] {
      var init := ps[..|ps| - 1];
      var last := ps[|ps| - 1];
      assert Distinct(init);
      assert last !in init;
      assert (ms + [m])[..|ms + [m]| - 1] == ms;
      TotalEnds(init, m, ms);
      assert m.a in ps <==> m.a in init || m.a == last;
      assert m.b in ps <==> m.b in init || m.b == last;
    }
  }

  /** The handshake property: when every match is between listed
      participants, their appearances add up to twice the number of matches. */
  lemma {:induction false} Handshake(ps: seq<Participant>, ms: seq<Match>)
    requires Distinct(ps)
    requires forall m :: m in ms ==> m.a in ps && m.b in ps
    ensures TotalDegree(ps, ms) == 2 * |ms|
  {
    if ms == [] {
      TotalDegreeEmpty(ps);
    } else {
      var init := ms[..|ms| - 1];
      Handshake(ps, init);
      assert init + [ms[|ms| - 1]] == ms;
      TotalEnds(ps, ms[|ms| - 1], init);
    }
  }

  lemma {:induction false} TotalDegreeEmpty(ps: seq<Participant>)
    ensures TotalDegree(ps, []) == 0
  {
    if ps != [] {
      TotalDegreeEmpty(ps[..|ps| - 1]);
    }
  }

  lemma {:induction false} DistinctCard<T>(s: seq<T>)
    requires Distinct(s)
    ensures |set x | x in s| == |s|
  {
    if s != [] {
      var init := s[..|s| - 1];
      DistinctCard(init);
      assert (set x | x in s) == (set x | x in init) + {s[|s| - 1]};
    }
  }

  /** The participant list splits at any group boundary. */
  lemma {:induction false} AllParticipantsSplit(groups: seq<Group>, j: nat)
    requires j <= |groups|
    ensures AllParticipants(groups) == AllParticipants(groups[..j]) + AllParticipants(groups[j..])
  {
    if j == |groups| {
      assert groups[..j] == groups;
      assert groups[j..] == [];
    } else {
      var n := |groups|;
      var init := groups[..n - 1];
      AllParticipantsSplit(init, j);
      assert init[..j] == groups[..j];
      assert groups[j..][..|groups[j..]| - 1] == init[j..];
      assert groups[j..][|groups[j..]| - 1] == groups[n - 1];
    }
  }

  lemma DistinctSplit<T>(a: seq<T>, b: seq<T>)
    requires Distinct(a + b)
    ensures Distinct(a) && Distinct(b)
    ensures forall x :: x in a ==> x !in b
  {
    var c := a + b;
    assert forall i :: 0 <= i < |a| ==> c[i] == a[i];
    assert forall i :: 0 <= i < |b| ==> c[|a| + i] == b[i];
    forall i, j | 0 <= i < j < |b| ensures b[i] != b[j] {
      assert c[|a| + i] != c[|a| + j];
    }
    forall i, j | 0 <= i < |a| && 0 <= j < |b| ensures a[i] != b[j] {
      assert c[i] != c[|a| + j];
    }
  }

  /** Group `j` seen against the groups before it: its members are listed
      once, none of them belongs to an earlier group, and every member of an
      earlier group is already in the participant list so far. */
  lemma GroupSlice(groups: seq<Group>, j: nat)
    requires Distinct(AllParticipants(groups))
    requires j < |groups|
    ensures AllParticipants(groups[..j + 1]) == AllParticipants(groups[..j]) + groups[j].members
    ensures Distinct(groups[j].members)
    ensures forall p :: p in groups[j].members ==> p !in AllParticipants(groups[..j])
    ensures forall i, p :: 0 <= i < j && p in groups[i].members ==> p in AllParticipants(groups[..j])
  {
    NextGroupListed(groups, j);
    PrefixDistinct(groups, j + 1);
    DistinctSplit(AllParticipants(groups[..j]), groups[j].members);
    EarlierMembersListed(groups, j);
  }

  lemma NextGroupListed(groups: seq<Group>, j: nat)
    requires j < |groups|
    ensures AllParticipants(groups[..j + 1]) == AllParticipants(groups[..j]) + groups[j].members
  {
    assert groups[..j + 1][..j] == groups[..j];
  }

  /** The participants of the first `j` groups are listed once each. */
  lemma PrefixDistinct(groups: seq<Group>, j: nat)
    requires Distinct(AllParticipants(groups))
    requires j <= |groups|
    ensures Distinct(AllParticipants(groups[..j]))
  {
    AllParticipantsSplit(groups, j);
    DistinctSplit(AllParticipants(groups[..j]), AllParticipants(groups[j..]));
  }

  lemma EarlierMembersListed(groups: seq<Group>, j: nat)
    requires j <= |groups|
    ensures forall i, p :: 0 <= i < j && p in groups[i].members ==> p in AllParticipants(groups[..j])
  {
    forall i, p | 0 <= i < j && p in groups[i].members ensures p in AllParticipants(groups[..j]) {
      AllParticipantsMember(groups[..j], p);
      assert groups[..j][i] == groups[i];
    }
  }

  /** Distinct groups share no member. */
  lemma GroupsDisjoint(groups: seq<Group>, i: nat, j: nat, p: Participant)
    requires Distinct(AllParticipants(groups))
    requires i < |groups| && j < |groups| && i != j
    requires p in groups[i].members
    ensures p !in groups[j].members
  {
    if i < j {
      GroupSlice(groups, j);
    } else {
      GroupSlice(groups, i);
    }
  }

  lemma {:induction false} DistinctMultiplicity<T>(a: seq<T>, x: T)
    requires Distinct(a)
    ensures multiset(a)[x] <= 1
  {
    if a != [] {
      var init := a[..|a| - 1];
      assert a == init + [a[|a| - 1]];
      assert Distinct(init);
      DistinctMultiplicity(init, x);
      assert a[|a| - 1] == x ==> x !in init;
    }
  }

  /** A rearrangement of a list without repeats has no repeats. */
  lemma DistinctPermutation<T>(a: seq<T>, b: seq<T>)
    requires multiset(a) == multiset(b)
    requires Distinct(a)
    ensures Distinct(b)
  {
    forall i, j | 0 <= i < j < |b| ensures b[i] != b[j] {
      if b[i] == b[j] {
        var x := b[i];
        assert b == b[..j] + b[j..];
        assert x in b[..j] && x in b[j..];
        assert multiset(b)[x] == multiset(b[..j])[x] + multiset(b[j..])[x];
        DistinctMultiplicity(a, x);
      }
    }
  }
}
