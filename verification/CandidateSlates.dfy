/** Candidate slates for the proposed positions. */
module CandidateSlates {
  import opened Calendar
  import opened Collections
  import opened RingProbe
  import opened SeedClock
  import S = Staffing

  datatype Position = Position(id: string, activePersonId: Option<string>)

  datatype Candidate = Candidate(
    positionId: string, personId: string, rank: nat, matchScore: real, availabilityPercent: int, createdAt: Instant)

  predicate Suitable(pos: Position, cand: string) { pos.activePersonId != Some(cand) }

  /** `Math.round`: halves go up. */
  function Round(x: real): int { (x + 0.5).Floor }

  function MatchScore(rank: nat, idx: nat): real {
    Round((0.92 - 0.08 * (rank as real - 1.0) - 0.01 * (idx as real)) * 100.0) as real / 100.0
  }

  function Availability(rank: nat): int { if rank == 1 then 100 else if rank == 2 then 60 else 40 }

  /** The people picked from probe number `probe` on, after those in `picked`. */
  function Picks(pos: Position, pool: seq<string>, seed: nat, size: nat, probe: nat, picked: seq<string>): seq<string>
    decreases |pool| - probe
  {
    if |picked| >= size || probe >= |pool| then picked
    else
      var cand := RingAt(pool, seed, probe);
      var next := if Suitable(pos, cand) && cand !in picked then picked + [cand] else picked;
      Picks(pos, pool, seed, size, probe + 1, next)
  }

  function SlateSize(rng: (int, int, int) -> int, idx: nat): int { 2 + rng(0, 1, idx * 3 + 1) }

  function CandidateRow(pos: Position, person: string, rank: nat, idx: nat, now: Instant,
                        rng: (int, int, int) -> int): Candidate {
    Candidate(pos.id, person, rank, MatchScore(rank, idx), Availability(rank), DaysAgo(now, rng(1, 6, idx * 3 + rank)))
  }

  /** The distinct pool members a position's slate may draw on. */
  function Eligible(pos: Position, pool: seq<string>): set<string> {
    set c | c in pool && Suitable(pos, c)
  }

  /** Everyone picked is suitable and picked once, and a slate left short has visited everyone. */
  lemma {:induction false} PicksAreDistinct(pos: Position, pool: seq<string>, seed: nat, size: nat, probe: nat,
                                            picked: seq<string>)
    requires probe <= |pool| && Distinct(picked) && |picked| <= size
    requires forall c :: c in picked ==> c in Eligible(pos, pool)
    requires |picked| < size ==>
      forall q :: 0 <= q < probe ==> Suitable(pos, RingAt(pool, seed, q)) ==> RingAt(pool, seed, q) in picked
    ensures var r := Picks(pos, pool, seed, size, probe, picked);
      && Distinct(r) && |r| <= size && (forall c :: c in r ==> c in Eligible(pos, pool))
      && (|r| < size ==>
            forall q :: 0 <= q < |pool| ==> Suitable(pos, RingAt(pool, seed, q)) ==> RingAt(pool, seed, q) in r)
    decreases |pool| - probe
  {
    if |picked| < size && probe < |pool| {
      var cand := RingAt(pool, seed, probe);
      assert cand in pool;
      if Suitable(pos, cand) && cand !in picked {
        DistinctAppend(picked, [cand]);
        PicksAreDistinct(pos, pool, seed, size, probe + 1, picked + [cand]);
      } else {
        PicksAreDistinct(pos, pool, seed, size, probe + 1, picked);
      }
    }
  }

  /** `person` comes first in ring order, from `seed`, of those suitable and not among `others`. */
  ghost predicate NextInTurn(pos: Position, pool: seq<string>, seed: nat, others: seq<string>, person: string) {
    exists q :: 0 <= q < |pool| && Ring(pool, seed)[q] == person && Suitable(pos, person) && person !in others
      && forall r :: 0 <= r < q ==> !Suitable(pos, Ring(pool, seed)[r]) || Ring(pool, seed)[r] in others
  }

  /** From probe `probe` on, with everyone suitable before it picked, each further pick is the next in turn. */
  lemma {:induction false} PicksInTurn(pos: Position, pool: seq<string>, seed: nat, size: nat, probe: nat,
                                       picked: seq<string>)
    requires forall q :: 0 <= q < probe && q < |pool| ==>
      !Suitable(pos, Ring(pool, seed)[q]) || Ring(pool, seed)[q] in picked
    ensures var r := Picks(pos, pool, seed, size, probe, picked);
      picked <= r && forall j :: |picked| <= j < |r| ==> NextInTurn(pos, pool, seed, r[..j], r[j])
    decreases |pool| - probe
  {
    hide RingAt, Ring, Suitable, NextInTurn;
    if |picked| < size && probe < |pool| {
      var cand := RingAt(pool, seed, probe);
      ProbesFollowTheRing(pool, seed, probe);
      if Suitable(pos, cand) && cand !in picked {
        PicksInTurn(pos, pool, seed, size, probe + 1, picked + [cand]);
        var r := Picks(pos, pool, seed, size, probe + 1, picked + [cand]);
        assert r[..|picked|] == picked && r[|picked|] == cand;
        TurnAt(pos, pool, seed, picked, probe);
      } else {
        PicksInTurn(pos, pool, seed, size, probe + 1, picked);
      }
    }
  }

  lemma TurnAt(pos: Position, pool: seq<string>, seed: nat, others: seq<string>, q: nat)
    requires q < |pool| && Suitable(pos, Ring(pool, seed)[q]) && Ring(pool, seed)[q] !in others
    requires forall r :: 0 <= r < q ==> !Suitable(pos, Ring(pool, seed)[r]) || Ring(pool, seed)[r] in others
    ensures NextInTurn(pos, pool, seed, others, Ring(pool, seed)[q])
  {}

  lemma {:induction false} DistinctCount(s: seq<string>)
    requires Distinct(s)
    ensures |set c | c in s| == |s|
  {
    if s != [] {
      var init := s[..|s| - 1];
      DistinctCount(init);
      assert (set c | c in s) == (set c | c in init) + {s[|s| - 1]};
    }
  }

  /** A slate holds exactly the smaller of the requested size and the number of distinct eligible people. */
  lemma SlateIsAsFullAsPossible(pos: Position, pool: seq<string>, seed: nat, size: nat)
    ensures var r, n := Picks(pos, pool, seed, size, 0, []), |Eligible(pos, pool)|;
      && Distinct(r) && (forall c :: c in r ==> c in pool && Suitable(pos, c))
      && |r| == if size < n then size else n
  {
    PicksAreDistinct(pos, pool, seed, size, 0, []);
    var r := Picks(pos, pool, seed, size, 0, []);
    var eligible, picked := Eligible(pos, pool), set c | c in r;
    DistinctCount(r);
    SubsetIsSmaller(picked, eligible);
    if |r| < size {
      forall c | c in eligible ensures c in picked {
        var j :| 0 <= j < |pool| && pool[j] == c;
        var probe := RingCovers(|pool|, seed, j);
        assert RingAt(pool, seed, probe) == c;
      }
      SubsetIsSmaller(eligible, picked);
    }
  }

  /** Scores are whole hundredths and each rank scores 0.08 below the one before. */
  lemma ScoresFall(rank: nat, idx: nat)
    ensures MatchScore(rank, idx) == (100 - 8 * rank - idx) as real / 100.0
    ensures MatchScore(rank + 1, idx) == MatchScore(rank, idx) - 0.08
  {
    WholeHundredths(rank, idx);
    WholeHundredths(rank + 1, idx);
  }

  lemma HigherRankScoresLess(j: nat, k: nat, idx: nat)
    requires j < k
    ensures MatchScore(j, idx) > MatchScore(k, idx)
  {
    hide MatchScore;
    ScoresFall(j, idx);
    ScoresFall(k, idx);
  }

  lemma WholeHundredths(rank: nat, idx: nat)
    ensures Round((0.92 - 0.08 * (rank as real - 1.0) - 0.01 * (idx as real)) * 100.0) == 100 - 8 * rank - idx
  {
    var x := (0.92 - 0.08 * (rank as real - 1.0) - 0.01 * (idx as real)) * 100.0;
    assert x == (100 - 8 * rank - idx) as real;
  }

  lemma AvailableLately(pos: Position, person: string, rank: nat, idx: nat, now: Instant,
                        rng: (int, int, int) -> int)
    requires S.InRange(rng) && 1 <= rank <= 3
    ensures var row := CandidateRow(pos, person, rank, idx, now, rng);
      && row.availabilityPercent == [100, 60, 40][rank - 1]
      && now - 6 * 86_400_000 <= row.createdAt <= now - 86_400_000
  {
    hide DaysAgo, MatchScore;
    AddDaysShifts(now, rng(1, 6, idx * 3 + rank));
  }

  /**
    One slate: distinct suitable people in ring order, as many as asked for or as there are,
    ranked 1 to k with falling scores, less available down the ranks, and one to six days old.
  */
  method BuildSlate(pos: Position, pool: seq<string>, idx: nat, now: Instant, rng: (int, int, int) -> int)
    returns (slate: seq<Candidate>)
    requires S.InRange(rng)
    ensures 2 <= SlateSize(rng, idx) <= 3
    ensures var n := |Eligible(pos, pool)|; |slate| == if SlateSize(rng, idx) < n then SlateSize(rng, idx) else n
    ensures forall k :: 0 <= k < |slate| ==>
      && slate[k].positionId == pos.id && slate[k].rank == k + 1
      && slate[k].personId in pool && Some(slate[k].personId) != pos.activePersonId
    ensures forall j, k :: 0 <= j < k < |slate| ==>
      slate[j].personId != slate[k].personId && slate[j].matchScore > slate[k].matchScore
    ensures var picks := Picks(pos, pool, idx * 17, SlateSize(rng, idx), 0, []);
      |picks| == |slate| && forall k :: 0 <= k < |slate| ==>
        slate[k] == CandidateRow(pos, picks[k], k + 1, idx, now, rng)
    ensures forall k :: 0 <= k < |slate| ==>
      && slate[k].availabilityPercent == [100, 60, 40][k]
      && now - 6 * 86_400_000 <= slate[k].createdAt <= now - 86_400_000
    ensures var picks := Picks(pos, pool, idx * 17, SlateSize(rng, idx), 0, []);
      |slate| <= |picks| && forall k :: 0 <= k < |slate| ==>
        && NextInTurn(pos, pool, idx * 17, picks[..k], slate[k].personId)
        && slate[k].matchScore == (92 - 8 * k - idx) as real / 100.0
        && slate[k].createdAt == now - rng(1, 6, idx * 3 + k + 1) * 86_400_000
    ensures var asked, n := if rng(0, 1, idx * 3 + 1) == 1 then 3 else 2, |Eligible(pos, pool)|;
      |slate| == if asked < n then asked else n
  {
    hide MatchScore, DaysAgo, Eligible, Availability, RingAt;
    var slateSize := SlateSize(rng, idx);
    assert 2 <= slateSize <= 3;
    var rank := 1;
    var picked: seq<string> := [];
    var probe := 0;
    slate := [];
    while |picked| < slateSize && probe < |pool|
      invariant 0 <= probe <= |pool| && rank == |picked| + 1 && |slate| == |picked|
      invariant forall k :: 0 <= k < |slate| ==> slate[k] == CandidateRow(pos, picked[k], k + 1, idx, now, rng)
      invariant Picks(pos, pool, idx * 17, slateSize, probe, picked) == Picks(pos, pool, idx * 17, slateSize, 0, [])
    {
      var cand := RingAt(pool, idx * 17, probe);
      probe := probe + 1;
      if Some(cand) == pos.activePersonId || cand in picked { continue; }
      picked := picked + [cand];
      slate := slate + [CandidateRow(pos, cand, rank, idx, now, rng)];
      rank := rank + 1;
    }
    SlateIsAsFullAsPossible(pos, pool, idx * 17, slateSize);
    forall k | 0 <= k < |slate| ensures picked[k] in pool && Suitable(pos, picked[k]) {
      assert picked[k] in picked;
    }
    forall j, k | 0 <= j < k < |slate| ensures slate[j].matchScore > slate[k].matchScore {
      HigherRankScoresLess(j + 1, k + 1, idx);
    }
    forall k | 0 <= k < |slate|
      ensures slate[k].availabilityPercent == [100, 60, 40][k]
      ensures now - 6 * 86_400_000 <= slate[k].createdAt <= now - 86_400_000
    {
      AvailableLately(pos, picked[k], k + 1, idx, now, rng);
    }
    PicksInTurn(pos, pool, idx * 17, slateSize, 0, []);
    forall k | 0 <= k < |slate|
      ensures slate[k].matchScore == (92 - 8 * k - idx) as real / 100.0
      ensures slate[k].createdAt == now - rng(1, 6, idx * 3 + k + 1) * 86_400_000
    {
      ScoresFall(k + 1, idx);
      AddDaysShifts(now, rng(1, 6, idx * 3 + k + 1));
    }
  }
}
