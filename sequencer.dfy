/** The match sequencer: orders the drawn matches so that, where the pool
    allows it, nobody plays two matches in a row, and otherwise favours the
    match whose players have rested longest. */
module Sequencer {
  import opened DrawTypes

  /** Two matches have a player in common. */
  predicate Shares(m: Match, n: Match)
  {
    m.a == n.a || m.a == n.b || m.b == n.a || m.b == n.b
  }

  /** The players of a match list: the keys of the cooldown table. */
  function Players(ms: seq<Match>): (ps: set<Participant>)
    ensures forall m :: m in ms ==> m.a in ps && m.b in ps
  {
    (set m | m in ms :: m.a) + (set m | m in ms :: m.b)
  }

  /** The player set is exactly the players of the matches. */
  lemma PlayersExact(ms: seq<Match>, p: Participant)
    ensures p in Players(ms) <==> exists m :: m in ms && (p == m.a || p == m.b)
  {
    if p in Players(ms) {
      if p in (set m | m in ms :: m.a) {
        var m :| m in ms && m.a == p;
      } else {
        var m :| m in ms && m.b == p;
      }
    }
  }

  /** A player's cooldown after the matches `placed`: 0 right after playing,
      one more for every later placement; a player who has not played yet
      counts placements from the start. */
  function Idle(placed: seq<Match>, p: Participant): nat
  {
    if placed == [] then 0
    else if Ends(placed[|placed| - 1], p) > 0 then 0
    else Idle(placed[..|placed| - 1], p) + 1
  }

  /** How long the more recently active player of `m` has rested. */
  function Score(placed: seq<Match>, m: Match): nat
  {
    Min(Idle(placed, m.a), Idle(placed, m.b))
  }

  /** `m` may come next: it is the first placement, it shares no player
      with the last placed match, or every match of the pool does. */
  predicate Allowed(placed: seq<Match>, pool: seq<Match>, m: Match)
  {
    placed == [] || !Shares(m, placed[|placed| - 1]) || forall x :: x in pool ==> Shares(x, placed[|placed| - 1])
  }

  /** `m` is a choice the greedy rule permits from `pool` after `placed`:
      allowed, and resting at least as long as every other allowed match. */
  ghost predicate GreedyChoice(placed: seq<Match>, pool: seq<Match>, m: Match)
  {
    && m in pool
    && Allowed(placed, pool, m)
    && forall x :: x in pool && Allowed(placed, pool, x) ==> Score(placed, x) <= Score(placed, m)
  }

  function Key(cooldown: map<Participant, nat>, m: Match): int
  {
    Min(ValueOf(cooldown, m.a), ValueOf(cooldown, m.b))
  }

  /** The index `max` returns: the first candidate with the largest key. */
  function FirstBest(cands: seq<Match>, cooldown: map<Participant, nat>): (i: nat)
    requires |cands| > 0
    ensures i < |cands|
    ensures forall j :: 0 <= j < |cands| ==> Key(cooldown, cands[j]) <= Key(cooldown, cands[i])
    ensures forall j :: 0 <= j < i ==> Key(cooldown, cands[j]) < Key(cooldown, cands[i])
  {
    if |cands| == 1 then 0
    else
      var i := FirstBest(cands[..|cands| - 1], cooldown);
      if Key(cooldown, cands[|cands| - 1]) > Key(cooldown, cands[i]) then |cands| - 1 else i
  }

  /** The remaining matches that share no player with `last`, in order. */
  function NotSharing(remaining: seq<Match>, last: Match): (r: seq<Match>)
    ensures forall x :: x in r <==> x in remaining && !Shares(x, last)
  {
    if remaining == [] then []
    else if Shares(remaining[0], last) then NotSharing(remaining[1..], last)
    else [remaining[0]] + NotSharing(remaining[1..], last)
  }

  /** `list.remove`: drop the first occurrence of `x`. */
  function RemoveFirst(s: seq<Match>, x: Match): (r: seq<Match>)
    requires x in s
    ensures |r| == |s| - 1
    ensures multiset(r) == multiset(s) - multiset{x}
  {
    if s[0] == x then
      assert s == [s[0]] + s[1..];
      s[1..]
    else
      assert s == [s[0]] + s[1..];
      [s[0]] + RemoveFirst(s[1..], x)
  }

  /** A greedy choice depends on the pool only through its contents. */
  lemma SamePoolSameChoice(placed: seq<Match>, pool: seq<Match>, pool': seq<Match>, m: Match)
    requires multiset(pool) == multiset(pool')
    ensures GreedyChoice(placed, pool, m) == GreedyChoice(placed, pool', m)
  {
    assert forall x :: x in pool <==> x in pool' by {
      forall x ensures x in pool <==> x in pool' {
        assert x in pool <==> x in multiset(pool);
        assert x in pool' <==> x in multiset(pool');
      }
    }
  }

  /** The cooldown table tracks `Idle` for every player. */
  ghost predicate CooldownTracks(cooldown: map<Participant, nat>, players: set<Participant>, placed: seq<Match>)
  {
    cooldown.Keys == players && forall p :: p in players ==> cooldown[p] == Idle(placed, p)
  }

  /** The cooldown update after placing `best`: every player has rested one
      more match, except the two who just played. */
  function AfterPlaying(cooldown: map<Participant, nat>, best: Match): (c: map<Participant, nat>)
    ensures c.Keys == cooldown.Keys + {best.a, best.b}
    ensures c[best.a] == 0 && c[best.b] == 0
    ensures forall p :: p in cooldown && Ends(best, p) == 0 ==> c[p] == cooldown[p] + 1
  {
    (map p | p in cooldown :: cooldown[p] + 1)[best.a := 0][best.b := 0]
  }

  /** Placing `best` and then adding 1 to every cooldown and resetting its
      two players to 0 keeps the table in step with `Idle`. */
  lemma CooldownStep(cooldown: map<Participant, nat>, players: set<Participant>, placed: seq<Match>, best: Match)
    requires CooldownTracks(cooldown, players, placed)
    requires best.a in players && best.b in players
    ensures CooldownTracks(AfterPlaying(cooldown, best), players, placed + [best])
  {
    var placed' := placed + [best];
    assert placed'[..|placed'| - 1] == placed;
  }

  /** The choice the loop makes is a greedy choice from what remains. */
  lemma ChoiceIsGreedy(placed: seq<Match>, remaining: seq<Match>, cooldown: map<Participant, nat>,
                       players: set<Participant>, candidates: seq<Match>, bi: nat)
    requires CooldownTracks(cooldown, players, placed)
    requires forall x :: x in remaining ==> x.a in players && x.b in players
    requires placed != [] ==> (forall x :: x in candidates <==> x in remaining && !Shares(x, placed[|placed| - 1])) || (candidates == remaining && forall x :: x in remaining ==> Shares(x, placed[|placed| - 1]))
    requires placed == [] ==> candidates == remaining
    requires bi < |candidates|
    requires forall j :: 0 <= j < |candidates| ==> Key(cooldown, candidates[j]) <= Key(cooldown, candidates[bi])
    ensures GreedyChoice(placed, remaining, candidates[bi])
  {
    var best := candidates[bi];
    forall x | x in remaining && Allowed(placed, remaining, x) ensures Score(placed, x) <= Score(placed, best) {
      assert x in candidates;
      var j :| 0 <= j < |candidates| && candidates[j] == x;
      assert Key(cooldown, x) <= Key(cooldown, best);
    }
  }

  /** Every placement so far was a greedy choice from the matches that
      followed it, together with those still in the pool. */
  ghost predicate GreedySoFar(arranged: seq<Match>, remaining: seq<Match>)
  {
    forall i :: 0 <= i < |arranged| ==> GreedyChoice(arranged[..i], arranged[i..] + remaining, arranged[i])
  }

  /** Moving a greedy choice from the pool to the end of the placed matches
      keeps every earlier placement a greedy choice from what followed it. */
  lemma PlacementStep(arranged: seq<Match>, remaining: seq<Match>, best: Match,
                      arranged': seq<Match>, remaining': seq<Match>)
    requires GreedySoFar(arranged, remaining)
    requires GreedyChoice(arranged, remaining, best)
    requires arranged' == arranged + [best]
    requires multiset(remaining') == multiset(remaining) - multiset{best}
    ensures GreedySoFar(arranged', remaining')
  {
    assert multiset(remaining) == multiset([best] + remaining') by {
      assert best in multiset(remaining);
    }
    forall i | 0 <= i < |arranged|
      ensures GreedyChoice(arranged'[..i], arranged'[i..] + remaining', arranged'[i])
    {
      EarlierPlacement(arranged, remaining, best, arranged', remaining', i);
    }
    assert arranged'[..|arranged|] == arranged;
    assert arranged'[|arranged|..] + remaining' == [best] + remaining';
    SamePoolSameChoice(arranged, remaining, [best] + remaining', best);
  }

  /** An earlier placement stays a greedy choice: its pool loses `best`
      from the remaining matches and gains it among the placed ones. */
  lemma EarlierPlacement(arranged: seq<Match>, remaining: seq<Match>, best: Match,
                         arranged': seq<Match>, remaining': seq<Match>, i: nat)
    requires i < |arranged|
    requires GreedyChoice(arranged[..i], arranged[i..] + remaining, arranged[i])
    requires arranged' == arranged + [best]
    requires multiset(remaining) == multiset([best] + remaining')
    ensures GreedyChoice(arranged'[..i], arranged'[i..] + remaining', arranged'[i])
  {
    assert arranged'[..i] == arranged[..i];
    assert arranged'[i..] + remaining' == arranged[i..] + ([best] + remaining');
    SamePoolSameChoice(arranged[..i], arranged[i..] + remaining, arranged'[i..] + remaining', arranged[i]);
  }

  /** One pass of the placement loop: take the greedy choice `best`, move
      it from the pool to the end of the placed list and update the
      cooldowns. */
  method PlaceNext(arranged: seq<Match>, remaining: seq<Match>, cooldown: map<Participant, nat>, ghost players: set<Participant>)
    returns (best: Match, arranged': seq<Match>, remaining': seq<Match>, cooldown': map<Participant, nat>)
    requires |remaining| > 0
    requires forall x :: x in remaining ==> x.a in players && x.b in players
    requires CooldownTracks(cooldown, players, arranged)
    requires GreedySoFar(arranged, remaining)
    ensures GreedyChoice(arranged, remaining, best)
    ensures arranged' == arranged + [best]
    ensures best in remaining && remaining' == RemoveFirst(remaining, best)
    ensures cooldown' == AfterPlaying(cooldown, best)
    ensures multiset(arranged') + multiset(remaining') == multiset(arranged) + multiset(remaining)
    ensures forall x :: x in remaining' ==> x in remaining
    ensures CooldownTracks(cooldown', players, arranged')
    ensures GreedySoFar(arranged', remaining')
  {
    best := ChooseNext(arranged, remaining, cooldown, players);
    CooldownStep(cooldown, players, arranged, best);
    arranged' := arranged + [best];
    remaining' := RemoveFirst(remaining, best);
    RemovedFrom(remaining, best, remaining');
    PlacementStep(arranged, remaining, best, arranged', remaining');
    cooldown' := AfterPlaying(cooldown, best);
  }

  /** The choice of the next match: among the remaining matches that share
      no player with the last placed one (all of them if there are none),
      the first with the best cooldown score. It is a greedy choice. */
  method ChooseNext(arranged: seq<Match>, remaining: seq<Match>, cooldown: map<Participant, nat>, ghost players: set<Participant>)
    returns (best: Match)
    requires |remaining| > 0
    requires forall x :: x in remaining ==> x.a in players && x.b in players
    requires CooldownTracks(cooldown, players, arranged)
    ensures best in remaining
    ensures GreedyChoice(arranged, remaining, best)
  {
    var candidates: seq<Match>;
    if |arranged| > 0 {
      var last := arranged[|arranged| - 1];
      candidates := NotSharing(remaining, last);
    } else {
      candidates := remaining;
    }
    if |candidates| == 0 {
      candidates := remaining;
    }
    var bi := FirstBest(candidates, cooldown);
    best := candidates[bi];
    ChoiceIsGreedy(arranged, remaining, cooldown, players, candidates, bi);
  }

  /** Removing a member of the pool leaves one fewer, all from the pool. */
  lemma RemovedFrom(remaining: seq<Match>, best: Match, remaining': seq<Match>)
    requires best in remaining
    requires multiset(remaining') == multiset(remaining) - multiset{best}
    ensures multiset(remaining') + multiset{best} == multiset(remaining)
    ensures forall x :: x in remaining' ==> x in remaining
  {
    assert best in multiset(remaining);
    forall x | x in remaining' ensures x in remaining {
      assert x in multiset(remaining');
    }
  }

  /** The sequencer. The result is a rearrangement of the input, and every
      placement is a greedy choice from the matches not yet placed: it
      avoids the players of the previous match whenever some remaining match
      does, and among the allowed matches its less-rested player has rested
      longest. The initial shuffle is any permutation. */
  method ArrangeMatches(allMatches: seq<Match>) returns (arranged: seq<Match>)
    ensures multiset(arranged) == multiset(allMatches)
    ensures forall i :: 0 <= i < |arranged| ==> GreedyChoice(arranged[..i], arranged[i..], arranged[i])
  {
    if |allMatches| == 0 {
      return [];
    }
    // random.shuffle: any ordering of the matches
    var shuffled: seq<Match> :| multiset(shuffled) == multiset(allMatches);
    var players := Players(allMatches);
    var cooldown: map<Participant, nat> := map p | p in players :: 0;
    StartState(allMatches, shuffled, players, cooldown);
    arranged := PlaceAll(shuffled, cooldown, players);
  }

  /** The placement loop, from a shuffled pool and fresh cooldowns. */
  method PlaceAll(shuffled: seq<Match>, cooldown0: map<Participant, nat>, ghost players: set<Participant>)
    returns (arranged: seq<Match>)
    requires forall x :: x in shuffled ==> x.a in players && x.b in players
    requires CooldownTracks(cooldown0, players, [])
    ensures multiset(arranged) == multiset(shuffled)
    ensures forall i :: 0 <= i < |arranged| ==> GreedyChoice(arranged[..i], arranged[i..], arranged[i])
  {
    arranged := [];
    var remaining := shuffled;
    var cooldown := cooldown0;
    while |remaining| > 0
      invariant multiset(arranged) + multiset(remaining) == multiset(shuffled)
      invariant forall x :: x in remaining ==> x.a in players && x.b in players
      invariant CooldownTracks(cooldown, players, arranged)
      invariant GreedySoFar(arranged, remaining)
      decreases |remaining|
    {
      var best;
      best, arranged, remaining, cooldown := PlaceNext(arranged, remaining, cooldown, players);
    }
    assert remaining == [];
    GreedyWhenPoolEmpty(arranged);
  }

  /** Before anything is placed: every cooldown is 0, which is how long
      everyone has rested, and all remaining matches are between players. */
  lemma StartState(allMatches: seq<Match>, remaining: seq<Match>, players: set<Participant>, cooldown: map<Participant, nat>)
    requires multiset(remaining) == multiset(allMatches)
    requires players == Players(allMatches)
    requires cooldown == map p | p in players :: 0
    ensures CooldownTracks(cooldown, players, [])
    ensures GreedySoFar([], remaining)
    ensures forall x :: x in remaining ==> x.a in players && x.b in players
  {
    forall x | x in remaining ensures x.a in players && x.b in players {
      assert x in multiset(allMatches);
    }
  }

  lemma GreedyWhenPoolEmpty(arranged: seq<Match>)
    requires GreedySoFar(arranged, [])
    ensures forall i :: 0 <= i < |arranged| ==> GreedyChoice(arranged[..i], arranged[i..], arranged[i])
  {
    assert forall i :: 0 <= i <= |arranged| ==> arranged[i..] + [] == arranged[i..];
  }

  /** The no-immediate-repeat property: a placement shares a player with the
      one before it only when every match still to be placed does. */
  lemma {:induction false} RepeatOnlyWhenForced(arranged: seq<Match>, i: nat)
    requires 0 < i < |arranged|
    requires GreedyChoice(arranged[..i], arranged[i..], arranged[i])
    requires Shares(arranged[i], arranged[i - 1])
    ensures forall j :: i <= j < |arranged| ==> Shares(arranged[j], arranged[i - 1])
  {
    assert arranged[..i][i - 1] == arranged[i - 1];
    forall j | i <= j < |arranged| ensures Shares(arranged[j], arranged[i - 1]) {
      assert arranged[j] in arranged[i..];
    }
  }
}
