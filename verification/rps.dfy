/**
 * Rock paper scissors (day 2): the outcome table, the reverse lookup of the shape to
 * play for a wanted outcome, the scores and the strategy-guide letters.
 */
module Rps {

  import opened Common

  datatype Shape = Rock | Paper | Scissors

  datatype GameResult = Win | Lose | Draw

  function ResultScore(r: GameResult): (s: nat)
    ensures s == 0 || s == 3 || s == 6
    ensures (s == 6 <==> r == Win) && (s == 3 <==> r == Draw) && (s == 0 <==> r == Lose)
  {
    match r
    case Win => 6
    case Lose => 0
    case Draw => 3
  }

  function ShapeScore(s: Shape): (n: nat)
    ensures 1 <= n <= 3
    ensures (n == 1 <==> s == Rock) && (n == 2 <==> s == Paper) && (n == 3 <==> s == Scissors)
  {
    match s
    case Rock => 1
    case Paper => 2
    case Scissors => 3
  }

  /** The shape that `s` defeats: rock blunts scissors, scissors cut paper, paper wraps rock. */
  function Defeats(s: Shape): Shape {
    match s
    case Rock => Scissors
    case Scissors => Paper
    case Paper => Rock
  }

  /** The outcome for the player of `self` against `other`. */
  function ResultAgainst(self: Shape, other: Shape): (r: GameResult)
    ensures r == Draw <==> self == other
    ensures r == Win <==> Defeats(self) == other
    ensures r == Lose <==> Defeats(other) == self
  {
    match self
    case Rock => (match other case Rock => Draw case Paper => Lose case Scissors => Win)
    case Paper => (match other case Rock => Win case Paper => Draw case Scissors => Lose)
    case Scissors => (match other case Rock => Lose case Paper => Win case Scissors => Draw)
  }

  /** The points for one round: the shape's score plus the outcome's. */
  function ScoreAgainst(self: Shape, other: Shape): (n: nat)
    ensures 1 <= n <= 9
    ensures self == other ==> n == ShapeScore(self) + 3
  {
    ShapeScore(self) + ResultScore(ResultAgainst(self, other))
  }

  /** The shape to play against `opponent` to get `result`. */
  function FromResultAndOpponent(result: GameResult, opponent: Shape): (s: Shape)
    ensures ResultAgainst(s, opponent) == result
  {
    match opponent
    case Rock => (match result case Win => Paper case Lose => Scissors case Draw => Rock)
    case Paper => (match result case Win => Scissors case Lose => Rock case Draw => Paper)
    case Scissors => (match result case Win => Rock case Lose => Paper case Draw => Scissors)
  }

  /** The outcome is symmetric: one player wins exactly when the other loses. */
  lemma ResultIsAntisymmetric(a: Shape, b: Shape)
    ensures ResultAgainst(a, b) == Win <==> ResultAgainst(b, a) == Lose
    ensures ResultAgainst(a, b) == Draw <==> ResultAgainst(b, a) == Draw
  {
  }

  /** Against a fixed opponent the shape and the outcome determine each other. */
  lemma FromResultInvertsResult(s: Shape, opponent: Shape, result: GameResult)
    ensures FromResultAndOpponent(ResultAgainst(s, opponent), opponent) == s
    ensures ResultAgainst(FromResultAndOpponent(result, opponent), opponent) == result
  {
  }

  /**
   * Playing the shape chosen for an outcome scores that outcome; of the three shapes
   * against an opponent, the winning one scores strictly the most outcome points.
   */
  lemma ScoreOfChosenShape(result: GameResult, opponent: Shape)
    ensures var s := FromResultAndOpponent(result, opponent);
      ScoreAgainst(s, opponent) == ShapeScore(s) + ResultScore(result)
    ensures forall s :: s != FromResultAndOpponent(Win, opponent) ==>
      ResultScore(ResultAgainst(s, opponent)) < ResultScore(Win)
  {
  }

  /** `A`/`X` is rock, `B`/`Y` paper and `C`/`Z` scissors; anything else is an error. */
  function ShapeFrom(s: string): (r: Option<Shape>)
    ensures r.Some? <==> s in {"A", "B", "C", "X", "Y", "Z"}
    ensures r == Some(Rock) <==> s == "A" || s == "X"
    ensures r == Some(Paper) <==> s == "B" || s == "Y"
    ensures r == Some(Scissors) <==> s == "C" || s == "Z"
  {
    if s == "A" || s == "X" then Some(Rock)
    else if s == "B" || s == "Y" then Some(Paper)
    else if s == "C" || s == "Z" then Some(Scissors)
    else None
  }

  /** `X` asks to lose, `Y` to draw and `Z` to win; anything else is an error. */
  function ResultFrom(s: string): (r: Option<GameResult>)
    ensures r.Some? <==> s in {"X", "Y", "Z"}
    ensures r == Some(Lose) <==> s == "X"
    ensures r == Some(Draw) <==> s == "Y"
    ensures r == Some(Win) <==> s == "Z"
  {
    if s == "X" then Some(Lose)
    else if s == "Y" then Some(Draw)
    else if s == "Z" then Some(Win)
    else None
  }
}
