/** The complete round-robin listing the draw shows per group: the circle
    method, with a "BYE" placeholder for an odd number of participants. */
module RoundRobin {
  import opened DrawTypes

  /** The placeholder that pads an odd participant list. */
  const Bye: Participant := "BYE"

  /** Size of the participant list after padding to an even length. */
  function PaddedSize(count: nat): (n: nat)
    ensures n % 2 == 0 && count <= n <= count + 1
  {
    if count % 2 == 1 then count + 1 else count
  }

  /** Every match of a round is between two real, listed participants. */
  predicate FromParticipants(round: seq<Match>, participants: seq<Participant>)
  {
    forall m :: m in round ==> m.a != Bye && m.b != Bye && m.a in participants && m.b in participants
  }

  /** Nobody plays twice in one round, and nobody plays themself. */
  ghost predicate NoRepeats(round: seq<Match>)
  {
    (forall m :: m in round ==> m.a != m.b) && forall p :: Degree(round, p) <= 1
  }

  /** Pair `j` of a round (positions `j` and `n - 1 - j`) involves the placeholder. */
  predicate ByePair(parts: seq<Participant>, j: nat)
    requires j < |parts|
  {
    parts[j] == Bye || parts[|parts| - 1 - j] == Bye
  }

  /** The circle method: `n - 1` rounds over the padded list; in each round
      position `i` meets position `n - 1 - i`, pairs with the placeholder are
      dropped, then position 0 stays put while the others rotate by one. */
  method RoundRobinSchedule(participants: seq<Participant>) returns (schedule: seq<seq<Match>>)
    ensures |participants| < 2 ==> schedule == []
    ensures |participants| >= 2 ==> |schedule| == PaddedSize(|participants|) - 1
    ensures forall k :: 0 <= k < |schedule| ==> |schedule[k]| <= PaddedSize(|participants|) / 2
    ensures forall k :: 0 <= k < |schedule| ==> FromParticipants(schedule[k], participants)
    ensures Distinct(participants) && Bye !in participants ==>
              forall k :: 0 <= k < |schedule| ==> NoRepeats(schedule[k]) && |schedule[k]| == |participants| / 2
    ensures |participants| >= 2 ==> forall k :: 0 <= k < |schedule| ==>
              schedule[k] == RoundPairs(RotatedTimes(Padded(participants), k), PaddedSize(|participants|) / 2)
  {
    var parts := participants;
    if |parts| < 2 {
      return [];
    }
    if |parts| % 2 == 1 {
      parts := parts + [Bye];
    }
    ghost var clean := Distinct(participants) && Bye !in participants;
    PaddingFacts(participants, parts, clean);
    schedule := PlayAllRounds(parts, participants, clean);
    RoundsMeetContract(schedule, participants, parts, clean);
  }

  /** The padded list holds the participants and at most the placeholder,
      and over distinct participants it has no repeats. */
  lemma PaddingFacts(participants: seq<Participant>, parts: seq<Participant>, clean: bool)
    requires |participants| >= 2
    requires parts == if |participants| % 2 == 1 then participants + [Bye] else participants
    requires clean == (Distinct(participants) && Bye !in participants)
    ensures parts == Padded(participants) && |parts| == PaddedSize(|participants|) && |parts| >= 2
    ensures forall x :: x in parts ==> x in participants || x == Bye
    ensures clean ==> Distinct(parts)
    ensures clean ==> Bye !in participants && (Bye in parts <==> |participants| % 2 == 1)
  {
  }

  /** The loop over the rounds: `n - 1` times, pair the positions and rotate. */
  method PlayAllRounds(padded: seq<Participant>, participants: seq<Participant>, ghost clean: bool)
    returns (schedule: seq<seq<Match>>)
    requires |padded| == PaddedSize(|participants|) && |padded| >= 2
    requires forall x :: x in padded ==> x in participants || x == Bye
    requires clean ==> Distinct(padded)
    requires clean ==> Bye !in participants && (Bye in padded <==> |participants| % 2 == 1)
    ensures |schedule| == |padded| - 1
    ensures forall k :: 0 <= k < |schedule| ==> RoundOk(schedule[k], participants, padded, clean, k)
  {
    var parts := padded;
    var n := |parts|;
    schedule := [];
    var round: nat := 0;
    assert parts == RotatedTimes(padded, 0);
    while round < n - 1
      invariant 0 <= round <= n - 1
      invariant |schedule| == round
      invariant forall x :: x in parts <==> x in padded
      invariant clean ==> Distinct(parts)
      invariant parts == RotatedTimes(padded, round)
      invariant forall k :: 0 <= k < |schedule| ==> RoundOk(schedule[k], participants, padded, clean, k)
    {
      var matches, rotated := PlayRound(parts, participants, padded, clean, round);
      AppendRound(schedule, matches, participants, padded, clean);
      schedule := schedule + [matches];
      parts := rotated;
      round := round + 1;
      assert parts == RotatedTimes(padded, round);
    }
  }

  /** What every round satisfies, stated in terms of the participant list. */
  lemma RoundsMeetContract(schedule: seq<seq<Match>>, participants: seq<Participant>, padded: seq<Participant>, clean: bool)
    requires padded == Padded(participants) && |padded| >= 2
    requires clean == (Distinct(participants) && Bye !in participants)
    requires forall k :: 0 <= k < |schedule| ==> RoundOk(schedule[k], participants, padded, clean, k)
    ensures forall k :: 0 <= k < |schedule| ==> |schedule[k]| <= PaddedSize(|participants|) / 2
    ensures forall k :: 0 <= k < |schedule| ==> FromParticipants(schedule[k], participants)
    ensures Distinct(participants) && Bye !in participants ==>
              forall k :: 0 <= k < |schedule| ==> NoRepeats(schedule[k]) && |schedule[k]| == |participants| / 2
    ensures forall k :: 0 <= k < |schedule| ==>
              schedule[k] == RoundPairs(RotatedTimes(Padded(participants), k), PaddedSize(|participants|) / 2)
  {
  }

  /** One round of the loop: pair the current positions, then rotate. */
  method PlayRound(parts: seq<Participant>, participants: seq<Participant>, ghost padded: seq<Participant>,
                   ghost clean: bool, ghost round: nat)
    returns (matches: seq<Match>, rotated: seq<Participant>)
    requires |padded| == PaddedSize(|participants|) && |padded| >= 2
    requires parts == RotatedTimes(padded, round)
    requires forall x :: x in parts <==> x in padded
    requires forall x :: x in padded ==> x in participants || x == Bye
    requires clean ==> Distinct(parts)
    requires clean ==> Bye !in participants && (Bye in padded <==> |participants| % 2 == 1)
    ensures RoundOk(matches, participants, padded, clean, round)
    ensures rotated == RotatedTimes(padded, round + 1)
    ensures forall x :: x in rotated <==> x in padded
    ensures clean ==> Distinct(rotated)
  {
    matches := PairPositions(parts, participants, padded, clean);
    rotated := Rotated(parts);
    RotationKeeps(parts, rotated, padded, clean);
  }

  /** What round `k` of the schedule satisfies: it is the pairing of the
      list after `k` rotations, with at most half as many matches as
      positions, all between real participants, and over distinct
      participants a matching of all but the odd one out. */
  ghost predicate RoundOk(round: seq<Match>, participants: seq<Participant>, padded: seq<Participant>, clean: bool, k: nat)
    requires |padded| >= 2
  {
    && round == RoundPairs(RotatedTimes(padded, k), |padded| / 2)
    && |round| <= |padded| / 2
    && FromParticipants(round, participants)
    && (clean ==> NoRepeats(round) && |round| == |participants| / 2)
  }

  /** Recording one more round keeps every earlier round as it was. */
  lemma AppendRound(schedule: seq<seq<Match>>, matches: seq<Match>, participants: seq<Participant>,
                    padded: seq<Participant>, clean: bool)
    requires |padded| >= 2
    requires forall k :: 0 <= k < |schedule| ==> RoundOk(schedule[k], participants, padded, clean, k)
    requires RoundOk(matches, participants, padded, clean, |schedule|)
    ensures forall k :: 0 <= k < |schedule| + 1 ==> RoundOk((schedule + [matches])[k], participants, padded, clean, k)
  {
  }

  /** The participant list padded with the placeholder to an even length. */
  function Padded(participants: seq<Participant>): (parts: seq<Participant>)
    ensures |parts| == PaddedSize(|participants|)
    ensures parts[..|participants|] == participants
    ensures |parts| > |participants| ==> parts[|participants|] == Bye
  {
    if |participants| % 2 == 1 then participants + [Bye] else participants
  }

  /** The list after `k` rotations. */
  function RotatedTimes(parts: seq<Participant>, k: nat): (r: seq<Participant>)
    requires |parts| >= 2
    ensures |r| == |parts| && multiset(r) == multiset(parts)
  {
    if k == 0 then parts else Rotated(RotatedTimes(parts, k - 1))
  }

  /** The rotation between rounds: position 0 stays, the last position
      moves to position 1 and the others shift up by one. It only rearranges
      the list. */
  function Rotated(parts: seq<Participant>): (r: seq<Participant>)
    requires |parts| >= 2
    ensures |r| == |parts| && r[0] == parts[0] && r[1] == parts[|parts| - 1]
    ensures forall j :: 2 <= j < |r| ==> r[j] == parts[j - 1]
    ensures multiset(r) == multiset(parts)
  {
    var n := |parts|;
    assert parts == [parts[0]] + parts[1..n - 1] + [parts[n - 1]];
    [parts[0]] + [parts[n - 1]] + parts[1..n - 1]
  }

  /** The rotated list has the same members, and stays free of repeats. */
  lemma RotationKeeps(parts: seq<Participant>, rotated: seq<Participant>, padded: seq<Participant>, clean: bool)
    requires |parts| >= 2 && multiset(rotated) == multiset(parts)
    requires forall x :: x in parts <==> x in padded
    requires clean ==> Distinct(parts)
    ensures forall x :: x in rotated <==> x in padded
    ensures clean ==> Distinct(rotated)
  {
    forall x ensures x in rotated <==> x in parts {
      assert x in rotated <==> x in multiset(rotated);
      assert x in parts <==> x in multiset(parts);
    }
    if clean {
      DistinctPermutation(parts, rotated);
    }
  }

  /** One round of the circle method: position `i` meets position
      `n - 1 - i` for every `i < n / 2`, except when either is the placeholder. */
  method PairPositions(parts: seq<Participant>, participants: seq<Participant>, ghost padded: seq<Participant>, ghost clean: bool)
    returns (matches: seq<Match>)
    requires |parts| % 2 == 0
    requires forall x :: x in parts <==> x in padded
    requires forall x :: x in padded ==> x in participants || x == Bye
    requires clean ==> Distinct(parts)
    requires clean ==> Bye !in participants && (Bye in padded <==> |participants| % 2 == 1)
    requires |parts| == PaddedSize(|participants|)
    ensures matches == RoundPairs(parts, |parts| / 2)
    ensures |matches| <= |parts| / 2
    ensures FromParticipants(matches, participants)
    ensures clean ==> NoRepeats(matches) && |matches| == |participants| / 2
  {
    var n := |parts|;
    matches := [];
    var i := 0;
    while i < n / 2
      invariant 0 <= i <= n / 2
      invariant PairedUpTo(parts, participants, clean, i, matches)
    {
      matches := AddPair(parts, participants, padded, clean, i, matches);
      i := i + 1;
    }
    if clean {
      ByePairsCount(parts, n / 2);
    }
  }

  /** The state of a round after its first `i` pairs: the matches are
      those pairs without the placeholder, all between real participants,
      and over distinct positions nobody outside the pairs so far plays. */
  ghost predicate PairedUpTo(parts: seq<Participant>, participants: seq<Participant>, clean: bool, i: nat, matches: seq<Match>)
    requires i <= |parts| / 2
  {
    && matches == RoundPairs(parts, i)
    && FromParticipants(matches, participants)
    && (clean ==> NoRepeats(matches))
    && (clean ==> forall p :: p !in parts[..i] && p !in parts[|parts| - i..] ==> Degree(matches, p) == 0)
  }

  /** The body of the pairing loop: position `i` meets position `n - 1 - i`
      unless one of them is the placeholder. */
  method AddPair(parts: seq<Participant>, participants: seq<Participant>, ghost padded: seq<Participant>, ghost clean: bool,
                 i: nat, matches0: seq<Match>)
    returns (matches: seq<Match>)
    requires |parts| % 2 == 0 && i < |parts| / 2
    requires forall x :: x in parts <==> x in padded
    requires forall x :: x in padded ==> x in participants || x == Bye
    requires clean ==> Distinct(parts)
    requires PairedUpTo(parts, participants, clean, i, matches0)
    ensures PairedUpTo(parts, participants, clean, i + 1, matches)
  {
    var n := |parts|;
    var p1, p2 := parts[i], parts[n - 1 - i];
    matches := matches0;
    if p1 != Bye && p2 != Bye {
      matches := matches + [Match(p1, p2)];
      if clean {
        NewPairKeepsRoundDisjoint(parts, i, matches0, matches);
      }
    } else if clean {
      OuterPositionsGrow(parts, i, matches);
    }
  }

  /** Skipping pair `i` keeps everyone outside the first `i + 1` pairs
      without a match. */
  lemma OuterPositionsGrow(parts: seq<Participant>, i: nat, matches: seq<Match>)
    requires i < |parts| / 2
    requires forall p :: p !in parts[..i] && p !in parts[|parts| - i..] ==> Degree(matches, p) == 0
    ensures forall p :: p !in parts[..i + 1] && p !in parts[|parts| - (i + 1)..] ==> Degree(matches, p) == 0
  {
    var n := |parts|;
    assert parts[..i + 1] == parts[..i] + [parts[i]];
    assert parts[n - (i + 1)..] == [parts[n - 1 - i]] + parts[n - i..];
  }

  /** The matches of the first `i` pairs of a round, in order: position `j`
      against position `n - 1 - j`, leaving out the pairs with the
      placeholder. */
  function RoundPairs(parts: seq<Participant>, i: nat): (ms: seq<Match>)
    requires i <= |parts| / 2
    ensures |ms| + ByePairs(parts, i) == i
  {
    if i == 0 then []
    else
      var j := i - 1;
      RoundPairs(parts, j) + if ByePair(parts, j) then [] else [Match(parts[j], parts[|parts| - 1 - j])]
  }

  /** A match belongs to a round exactly when it pairs some position `j`
      with position `n - 1 - j` and neither is the placeholder. */
  lemma {:induction false} RoundPairsMembers(parts: seq<Participant>, i: nat, m: Match)
    requires i <= |parts| / 2
    ensures m in RoundPairs(parts, i) <==>
              exists j :: 0 <= j < i && !ByePair(parts, j) && m == Match(parts[j], parts[|parts| - 1 - j])
  {
    if i > 0 {
      RoundPairsMembers(parts, i - 1, m);
    }
  }

  /** Number of the first `i` pairs of a round that involve the placeholder. */
  function ByePairs(parts: seq<Participant>, i: nat): nat
    requires i <= |parts|
  {
    if i == 0 then 0 else ByePairs(parts, i - 1) + (if ByePair(parts, i - 1) then 1 else 0)
  }

  /** Adding the pair at positions `i` and `n - 1 - i` to a round built from
      the outer positions keeps everyone to at most one match. */
  lemma NewPairKeepsRoundDisjoint(parts: seq<Participant>, i: nat, before: seq<Match>, after: seq<Match>)
    requires |parts| % 2 == 0 && i < |parts| / 2
    requires after == before + [Match(parts[i], parts[|parts| - 1 - i])]
    requires Distinct(parts)
    requires forall m :: m in before ==> m.a != m.b
    requires forall p :: Degree(before, p) <= 1
    requires forall p :: p !in parts[..i] && p !in parts[|parts| - i..] ==> Degree(before, p) == 0
    ensures parts[i] != parts[|parts| - 1 - i]
    ensures forall p :: Degree(after, p) <= 1
    ensures forall p :: p !in parts[..i + 1] && p !in parts[|parts| - (i + 1)..] ==> Degree(after, p) == 0
  {
    var n := |parts|;
    assert after[..|after| - 1] == before;
    assert parts[..i + 1] == parts[..i] + [parts[i]];
    assert parts[n - (i + 1)..] == [parts[n - 1 - i]] + parts[n - i..];
    forall p | p == parts[i] || p == parts[n - 1 - i] ensures p !in parts[..i] && p !in parts[n - i..] {
    }
  }

  /** In a round over distinct positions, exactly one pair involves the
      placeholder when it is present, and none otherwise. */
  lemma ByePairsCount(parts: seq<Participant>, i: nat)
    requires |parts| % 2 == 0 && i <= |parts| / 2
    requires Distinct(parts)
    ensures i == |parts| / 2 ==> ByePairs(parts, i) == if Bye in parts then 1 else 0
    ensures Bye !in parts ==> ByePairs(parts, i) == 0
    ensures Bye in parts ==> forall b :: 0 <= b < |parts| && parts[b] == Bye ==>
              ByePairs(parts, i) == if (if b < |parts| / 2 then b else |parts| - 1 - b) < i then 1 else 0
  {
    var n := |parts|;
    if i > 0 {
      ByePairsCount(parts, i - 1);
    }
    if Bye in parts && i == n / 2 {
      var b :| 0 <= b < n && parts[b] == Bye;
    }
  }
}
