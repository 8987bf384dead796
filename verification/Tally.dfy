/** The combined weight behind each position, in exact arithmetic. */
module Tally {
  import opened Basics

  datatype Position = Support | SupportWithConditions | Oppose | NeedMoreInformation

  const POSITIONS: seq<Position> := [Support, SupportWithConditions, Oppose, NeedMoreInformation]

  type Votes = seq<Option<Position>>

  /** How many votes state this position. */
  function Count(votes: Votes, p: Position): nat {
    if votes == [] then 0 else Count(votes[1..], p) + if votes[0] == Some(p) then 1 else 0
  }

  /** How many votes state any position. */
  function Stated(votes: Votes): nat {
    if votes == [] then 0 else Stated(votes[1..]) + if votes[0].Some? then 1 else 0
  }

  function Share(votes: Votes, p: Position): real {
    if Stated(votes) == 0 then 0.0 else Count(votes, p) as real / Stated(votes) as real
  }

  function Clamp(weight: real): real {
    if weight < 0.0 then 0.0 else if weight > 100.0 then 100.0 else weight
  }

  /** The people's and the agents' weights; a side that has not spoken leaves its weight to the other. */
  function Weights(people: Votes, agents: Votes, weight: real): (real, real) {
    if Stated(people) > 0 && Stated(agents) > 0 then (Clamp(weight) / 100.0, 1.0 - Clamp(weight) / 100.0)
    else (if Stated(people) > 0 then 1.0 else 0.0, if Stated(agents) > 0 then 1.0 else 0.0)
  }

  /** The score before rounding. */
  function Score(people: Votes, agents: Votes, weight: real, p: Position): real {
    var (wp, wa) := Weights(people, agents, weight);
    Mix(Share(people, p), wp, Share(agents, p), wa)
  }

  function Mix(s: real, v: real, t: real, w: real): real { (s * v + t * w) * 100.0 }

  /** Math.round: halves go up. */
  function Round(x: real): int { (x + 0.5).Floor }

  function WeightedTally(people: Votes, agents: Votes, weight: real): (scores: seq<(Position, int)>)
    ensures |scores| == 4
  {
    seq(4, i requires 0 <= i < 4 => (POSITIONS[i], Round(Score(people, agents, weight, POSITIONS[i]))))
  }

  function SumScores(people: Votes, agents: Votes, weight: real): real {
    Score(people, agents, weight, Support) + Score(people, agents, weight, SupportWithConditions)
    + Score(people, agents, weight, Oppose) + Score(people, agents, weight, NeedMoreInformation)
  }

  lemma {:induction false} CountsAddUp(votes: Votes)
    ensures Count(votes, Support) + Count(votes, SupportWithConditions) + Count(votes, Oppose)
          + Count(votes, NeedMoreInformation) == Stated(votes)
  {
    if votes != [] {
      CountsAddUp(votes[1..]);
      match votes[0] {
        case None =>
        case Some(p) => match p { case Support => case SupportWithConditions => case Oppose => case NeedMoreInformation => }
      }
    }
  }

  lemma {:induction false} CountAtMostStated(votes: Votes, p: Position)
    ensures Count(votes, p) <= Stated(votes)
  {
    if votes != [] { CountAtMostStated(votes[1..], p); }
  }

  lemma SharesAddUp(votes: Votes)
    ensures Share(votes, Support) + Share(votes, SupportWithConditions) + Share(votes, Oppose)
          + Share(votes, NeedMoreInformation) == if Stated(votes) == 0 then 0.0 else 1.0
  {
    CountsAddUp(votes);
    if Stated(votes) > 0 {
      SumOfQuotients(Count(votes, Support) as real, Count(votes, SupportWithConditions) as real,
                     Count(votes, Oppose) as real, Count(votes, NeedMoreInformation) as real, Stated(votes) as real);
    }
  }

  lemma SumOfQuotients(a: real, b: real, c: real, d: real, n: real)
    requires n > 0.0 && a + b + c + d == n
    ensures a / n + b / n + c / n + d / n == 1.0
  {
    assert a / n + b / n + c / n + d / n == (a + b + c + d) / n;
  }

  lemma ShareIsFraction(votes: Votes, p: Position)
    ensures 0.0 <= Share(votes, p) <= 1.0
  {
    CountAtMostStated(votes, p);
    if Stated(votes) > 0 { Quotient(Count(votes, p) as real, Stated(votes) as real); }
  }

  lemma Quotient(x: real, n: real)
    requires 0.0 <= x <= n && n > 0.0
    ensures 0.0 <= x / n <= 1.0
  {
  }

  lemma WeightsShareOut(people: Votes, agents: Votes, weight: real)
    ensures var (wp, wa) := Weights(people, agents, weight);
            && 0.0 <= wp && 0.0 <= wa
            && (Stated(people) == 0 ==> wp == 0.0) && (Stated(agents) == 0 ==> wa == 0.0)
            && wp + wa == if Stated(people) + Stated(agents) > 0 then 1.0 else 0.0
  {
  }

  lemma MixInRange(s: real, v: real, t: real, w: real)
    requires 0.0 <= s <= 1.0 && 0.0 <= t <= 1.0 && 0.0 <= v && 0.0 <= w && v + w <= 1.0
    ensures 0.0 <= Mix(s, v, t, w) <= 100.0
  {
    var x, y := s * v, t * w;
    assert 0.0 <= x <= v by { Part(s, v); }
    assert 0.0 <= y <= w by { Part(t, w); }
    assert 0.0 <= (x + y) * 100.0 <= 100.0 by { Percent(x, y, v, w); }
  }

  lemma Percent(x: real, y: real, v: real, w: real)
    requires 0.0 <= x <= v && 0.0 <= y <= w && v + w <= 1.0
    ensures 0.0 <= (x + y) * 100.0 <= 100.0
  {
  }

  lemma Part(s: real, v: real)
    requires 0.0 <= s <= 1.0 && 0.0 <= v
    ensures 0.0 <= s * v <= v
  {
    assert (1.0 - s) * v >= 0.0;
  }

  lemma ScoreInRange(people: Votes, agents: Votes, weight: real, p: Position)
    ensures 0.0 <= Score(people, agents, weight, p) <= 100.0
  {
    var (wp, wa) := Weights(people, agents, weight);
    WeightsShareOut(people, agents, weight);
    ShareIsFraction(people, p);
    ShareIsFraction(agents, p);
    MixInRange(Share(people, p), wp, Share(agents, p), wa);
  }

  /** The scores share out exactly 100 as soon as anyone has stated a position. */
  lemma ScoresSumTo100(people: Votes, agents: Votes, weight: real)
    ensures SumScores(people, agents, weight) == if Stated(people) + Stated(agents) > 0 then 100.0 else 0.0
  {
    SharesAddUp(people);
    SharesAddUp(agents);
    WeightsShareOut(people, agents, weight);
    var (wp, wa) := Weights(people, agents, weight);
    SumOfMixes(Share(people, Support), Share(people, SupportWithConditions), Share(people, Oppose), Share(people, NeedMoreInformation), wp,
               Share(agents, Support), Share(agents, SupportWithConditions), Share(agents, Oppose), Share(agents, NeedMoreInformation), wa);
  }

  lemma SumOfMixes(a: real, b: real, c: real, d: real, v: real, e: real, f: real, g: real, h: real, w: real)
    requires a + b + c + d == 1.0 || (a + b + c + d == 0.0 && v == 0.0)
    requires e + f + g + h == 1.0 || (e + f + g + h == 0.0 && w == 0.0)
    ensures Mix(a, v, e, w) + Mix(b, v, f, w) + Mix(c, v, g, w) + Mix(d, v, h, w) == (v + w) * 100.0
  {
    assert a * v + b * v + c * v + d * v == (a + b + c + d) * v;
    assert e * w + f * w + g * w + h * w == (e + f + g + h) * w;
    WholeOrNothing(a + b + c + d, v);
    WholeOrNothing(e + f + g + h, w);
  }

  lemma WholeOrNothing(total: real, w: real)
    requires total == 1.0 || (total == 0.0 && w == 0.0)
    ensures total * w == w
  {
  }

  /** What people see: whole numbers from 0 to 100 that add up to between 99 and 102. */
  lemma RoundedScores(people: Votes, agents: Votes, weight: real)
    ensures var t := WeightedTally(people, agents, weight);
            && (forall i | 0 <= i < 4 :: t[i].0 == POSITIONS[i] && 0 <= t[i].1 <= 100)
            && (Stated(people) + Stated(agents) > 0 ==> 99 <= t[0].1 + t[1].1 + t[2].1 + t[3].1 <= 102)
            && (Stated(people) + Stated(agents) == 0 ==> forall i | 0 <= i < 4 :: t[i].1 == 0)
  {
    ScoresSumTo100(people, agents, weight);
    ScoreInRange(people, agents, weight, Support);
    ScoreInRange(people, agents, weight, SupportWithConditions);
    ScoreInRange(people, agents, weight, Oppose);
    ScoreInRange(people, agents, weight, NeedMoreInformation);
  }

  /** The four numbers shown for these people's votes while the agents are silent. */
  function Shown(people: Votes, weight: real): seq<int> {
    var t := WeightedTally(people, [], weight);
    [t[0].1, t[1].1, t[2].1, t[3].1]
  }

  lemma RoundedTo99(people: Votes, weight: real)
    requires Count(people, Support) == Count(people, Oppose) == Count(people, NeedMoreInformation) == 1 && Stated(people) == 3
    ensures Shown(people, weight) == [33, 0, 33, 33]
  {
    CountsAddUp(people);
    ScoreAlone(people, weight, Support);
    ScoreAlone(people, weight, SupportWithConditions);
    ScoreAlone(people, weight, Oppose);
    ScoreAlone(people, weight, NeedMoreInformation);
  }

  lemma RoundedTo102(people: Votes, weight: real)
    requires Count(people, Support) == Count(people, SupportWithConditions) == 3 && Count(people, Oppose) == 1 && Stated(people) == 8
    ensures Shown(people, weight) == [38, 38, 13, 13]
  {
    CountsAddUp(people);
    ScoreAlone(people, weight, Support);
    ScoreAlone(people, weight, SupportWithConditions);
    ScoreAlone(people, weight, Oppose);
    ScoreAlone(people, weight, NeedMoreInformation);
  }

  lemma ScoreAlone(people: Votes, weight: real, p: Position)
    requires Stated(people) > 0
    ensures Score(people, [], weight, p) == Share(people, p) * 100.0
  {
  }

  const THREE_WAYS: Votes := [Some(Support), Some(Oppose), Some(NeedMoreInformation)]

  const THREE_THREE_ONE_ONE: Votes := [
    Some(Support), Some(Support), Some(Support), Some(SupportWithConditions), Some(SupportWithConditions), Some(SupportWithConditions),
    Some(Oppose), Some(NeedMoreInformation)]

  lemma ThreeWays()
    ensures var v := THREE_WAYS;
            Count(v, Support) == Count(v, Oppose) == Count(v, NeedMoreInformation) == 1 && Stated(v) == 3
  {
    CountsAreMultiplicities(THREE_WAYS);
    assert multiset(THREE_WAYS) == multiset{Some(Support), Some(Oppose), Some(NeedMoreInformation)};
  }

  lemma ThreeThreeOneOne()
    ensures var v := THREE_THREE_ONE_ONE;
            Count(v, Support) == Count(v, SupportWithConditions) == 3 && Count(v, Oppose) == 1 && Stated(v) == 8
  {
    CountsAreMultiplicities(THREE_THREE_ONE_ONE);
    assert multiset(THREE_THREE_ONE_ONE) == multiset{
      Some(Support), Some(Support), Some(Support), Some(SupportWithConditions), Some(SupportWithConditions), Some(SupportWithConditions),
      Some(Oppose), Some(NeedMoreInformation)};
  }

  /** Both ends of the range of sums occur: 99, and 102 where each score was rounded up. */
  lemma RoundedSumsReachBothEnds(weight: real)
    ensures Shown(THREE_WAYS, weight) == [33, 0, 33, 33] && 33 + 0 + 33 + 33 == 99
    ensures Shown(THREE_THREE_ONE_ONE, weight) == [38, 38, 13, 13] && 38 + 38 + 13 + 13 == 102
  {
    ThreeWays();
    ThreeThreeOneOne();
    RoundedTo99(THREE_WAYS, weight);
    RoundedTo102(THREE_THREE_ONE_ONE, weight);
  }

  lemma {:induction false} CountsAreMultiplicities(votes: Votes)
    ensures Stated(votes) + multiset(votes)[None] == |votes|
    ensures forall p :: Count(votes, p) == multiset(votes)[Some(p)]
  {
    if votes != [] {
      assert votes == [votes[0]] + votes[1..];
      CountsAreMultiplicities(votes[1..]);
    }
  }

  /** Only how often each position was stated matters, never the order of the votes. */
  lemma OrderNeverMatters(people: Votes, agents: Votes, people2: Votes, agents2: Votes, weight: real)
    requires multiset(people) == multiset(people2) && multiset(agents) == multiset(agents2)
    ensures WeightedTally(people, agents, weight) == WeightedTally(people2, agents2, weight)
  {
    CountsAreMultiplicities(people);
    CountsAreMultiplicities(people2);
    CountsAreMultiplicities(agents);
    CountsAreMultiplicities(agents2);
    assert |people| == |multiset(people)| == |people2|;
    assert |agents| == |multiset(agents)| == |agents2|;
    forall p ensures Score(people, agents, weight, p) == Score(people2, agents2, weight, p) {
      assert Share(people, p) == Share(people2, p) && Share(agents, p) == Share(agents2, p);
    }
  }

  /** While one side is silent the chair's weighting has no effect. */
  lemma SilentSideIgnoresWeight(people: Votes, agents: Votes, weight: real, weight2: real)
    requires Stated(people) == 0 || Stated(agents) == 0
    ensures WeightedTally(people, agents, weight) == WeightedTally(people, agents, weight2)
  {
    assert forall p :: Score(people, agents, weight, p) == Score(people, agents, weight2, p);
  }

  // ----- Which side the weight belongs to -----------------------------------------------

  lemma Cleared(score: real, x: real, m: real, y: real, n: real, w: real)
    requires m > 0.0 && n > 0.0 && score == Mix(x / m, w / 100.0, y / n, 1.0 - w / 100.0)
    ensures score * m * n == w * x * n + (100.0 - w) * y * m
  {
    var a, b := x / m, y / n;
    assert score == a * w + b * (100.0 - w);
    Distributes(a * w, b * (100.0 - w), m, n);
    InTurn(a, w, m, n, x);
    InTurn(b, 100.0 - w, n, m, y);
    assert b * (100.0 - w) * m * n == b * (100.0 - w) * n * m;
  }

  lemma Distributes(a: real, b: real, m: real, n: real)
    ensures (a + b) * m * n == a * m * n + b * m * n
  {
  }

  lemma InTurn(a: real, w: real, m: real, n: real, x: real)
    requires a * m == x
    ensures a * w * m * n == w * x * n
  {
    assert a * w * m == w * (a * m);
  }

  lemma BothHeard(people: Votes, agents: Votes, weight: real, p: Position)
    requires Stated(people) > 0 && Stated(agents) > 0
    ensures Score(people, agents, weight, p)
         == Mix(Count(people, p) as real / Stated(people) as real, Clamp(weight) / 100.0,
                Count(agents, p) as real / Stated(agents) as real, 1.0 - Clamp(weight) / 100.0)
  {
    hide Count, Stated, Mix, Clamp;
  }

  /** With both sides heard the people's share carries the weight and the agents' the rest of the hundred. */
  lemma WeightIsThePeoples(people: Votes, agents: Votes, weight: real, p: Position)
    requires Stated(people) > 0 && Stated(agents) > 0 && 0.0 <= weight <= 100.0
    ensures Score(people, agents, weight, p) * Stated(people) as real * Stated(agents) as real
         == weight * Count(people, p) as real * Stated(agents) as real
          + (100.0 - weight) * Count(agents, p) as real * Stated(people) as real
  {
    hide Score, Count, Stated, Mix;
    BothHeard(people, agents, weight, p);
    Cleared(Score(people, agents, weight, p), Count(people, p) as real, Stated(people) as real,
            Count(agents, p) as real, Stated(agents) as real, weight);
  }

  lemma AllOfOne(a: real, b: real)
    ensures Mix(a, 1.0, b, 0.0) == a * 100.0 && Mix(a, 0.0, b, 1.0) == b * 100.0
    ensures Mix(a, 0.0, b, 0.0) == 0.0
  {
  }

  lemma Percentage(x: real, m: real)
    requires m > 0.0
    ensures x / m * 100.0 * m == 100.0 * x
  {
    assert x / m * m == x;
  }

  /** All of the weight on one side, or more than that, gives that side's percentages alone. */
  lemma FullWeightIsOneSide(people: Votes, agents: Votes, weight: real, p: Position)
    requires Stated(people) > 0 && Stated(agents) > 0
    ensures weight >= 100.0 ==> Score(people, agents, weight, p) * Stated(people) as real == 100.0 * Count(people, p) as real
    ensures weight <= 0.0 ==> Score(people, agents, weight, p) * Stated(agents) as real == 100.0 * Count(agents, p) as real
  {
    hide Score, Count, Stated, Mix;
    BothHeard(people, agents, weight, p);
    AllOfOne(Count(people, p) as real / Stated(people) as real, Count(agents, p) as real / Stated(agents) as real);
    Percentage(Count(people, p) as real, Stated(people) as real);
    Percentage(Count(agents, p) as real, Stated(agents) as real);
  }

  lemma Alone(x: real, m: real)
    requires m > 0.0
    ensures Mix(x / m, 1.0, 0.0, 0.0) * m == 100.0 * x && Mix(0.0, 0.0, x / m, 1.0) * m == 100.0 * x
  {
    hide Mix;
    AllOfOne(x / m, 0.0);
    AllOfOne(0.0, x / m);
    Percentage(x, m);
  }

  /** While the agents are silent the scores are the people's percentages. */
  lemma PeopleAloneDecide(people: Votes, agents: Votes, weight: real, p: Position)
    requires Stated(people) > 0 && Stated(agents) == 0
    ensures Score(people, agents, weight, p) * Stated(people) as real == 100.0 * Count(people, p) as real
  {
    hide Count, Stated, Mix;
    Alone(Count(people, p) as real, Stated(people) as real);
  }

  /** While the people are silent they are the agents'. */
  lemma AgentsAloneDecide(people: Votes, agents: Votes, weight: real, p: Position)
    requires Stated(people) == 0 && Stated(agents) > 0
    ensures Score(people, agents, weight, p) * Stated(agents) as real == 100.0 * Count(agents, p) as real
  {
    hide Count, Stated, Mix;
    Alone(Count(agents, p) as real, Stated(agents) as real);
  }

  /** Each number shown is the whole number nearest to the score of its position, the upper one when two are as near. */
  lemma ShownIsNearest(people: Votes, agents: Votes, weight: real, i: nat)
    requires i < 4
    ensures var (p, shown) := WeightedTally(people, agents, weight)[i];
            p == POSITIONS[i] && shown as real - 0.5 <= Score(people, agents, weight, p) < shown as real + 0.5
  {
  }
}
