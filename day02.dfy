/** Rock paper scissors (day 2): a strategy guide of rounds, each an
    opponent's shape and either my shape (part 1) or the result I should
    reach (part 2), scored by my shape and the outcome. */
module Day02 {
  import opened Common
  import opened Util

  /** `Shape`, whose discriminants are 0, 1 and 2. */
  datatype Shape = Rock | Paper | Scissors

  /** `Res`: the outcome of a round for me. */
  datatype Res = Lose | Draw | Win

  /** `shape as i32`. */
  function ShapeValue(s: Shape): (v: int)
    ensures 0 <= v <= 2
  {
    match s
    case Rock => 0
    case Paper => 1
    case Scissors => 2
  }

  /** `int_to_shape`: None where the source panics, outside 0..2. */
  function IntToShape(i: int): (r: Option<Shape>)
    ensures r.Some? <==> 0 <= i <= 2
    ensures r.Some? ==> ShapeValue(r.value) == i
  {
    match i
    case 0 => Some(Rock)
    case 1 => Some(Paper)
    case 2 => Some(Scissors)
    case _ => None
  }

  /** `int_to_shape` inverts `as i32`. */
  lemma IntToShapeOfValue(s: Shape)
    ensures IntToShape(ShapeValue(s)) == Some(s)
  {
  }

  // ---------------------------------------------------------------------------
  // The rules of the game, as a reference for the scores

  /** Rock defeats scissors, scissors defeat paper, paper defeats rock. */
  predicate Defeats(a: Shape, b: Shape)
  {
    (a == Rock && b == Scissors) || (a == Scissors && b == Paper) || (a == Paper && b == Rock)
  }

  function Outcome(opp: Shape, my: Shape): Res
  {
    if Defeats(my, opp) then Win else if my == opp then Draw else Lose
  }

  function Bonus(r: Res): int
  {
    match r
    case Lose => 0
    case Draw => 3
    case Win => 6
  }

  /** `score_1`: my shape's value plus one, and 3 for a draw or 6 for a win,
      read off `(3 + my - opp) % 3`. */
  function Score1(opp: Shape, my: Shape): (r: int)
    ensures r == ShapeValue(my) + 1 + Bonus(Outcome(opp, my))
    ensures 1 <= r <= 9
  {
    var shapeScore := ShapeValue(my) + 1;
    var diff := RustRem(3 + ShapeValue(my) - ShapeValue(opp), 3);
    var winScore := match diff
      case 0 => 3
      case 1 => 6
      case _ => 0;
    shapeScore + winScore
  }

  /** The shape `score_2` plays: the opponent's shape moved on by 2, 0 or 1
      places for a loss, a draw or a win. */
  function ShapeFor(opp: Shape, result: Res): (my: Shape)
    ensures Outcome(opp, my) == result
  {
    var i := match result
      case Lose => RustRem(ShapeValue(opp) + 2, 3)
      case Draw => ShapeValue(opp)
      case Win => RustRem(ShapeValue(opp) + 1, 3);
    var s := IntToShape(i);
    assert s.Some?;
    s.value
  }

  /** `score_2`: the score of the round played with the shape that reaches
      the requested result; its `int_to_shape` never panics. */
  function Score2(opp: Shape, result: Res): (r: int)
    ensures exists my :: Outcome(opp, my) == result && r == Score1(opp, my)
    ensures r - Bonus(result) in {1, 2, 3}
  {
    Score1(opp, ShapeFor(opp, result))
  }

  /** The shape for a result is the only one that reaches it. */
  lemma ShapeForUnique(opp: Shape, result: Res, my: Shape)
    requires Outcome(opp, my) == result
    ensures my == ShapeFor(opp, result)
  {
  }

  // ---------------------------------------------------------------------------
  // Parsing

  /** `parse_opp_shape`: None where the source panics. */
  function ParseOppShape(s: string): (r: Option<Shape>)
    ensures r.Some? <==> s in {"A", "B", "C"}
  {
    match s
    case "A" => Some(Rock)
    case "B" => Some(Paper)
    case "C" => Some(Scissors)
    case _ => None
  }

  /** `parse_my_shape`. */
  function ParseMyShape(s: string): (r: Option<Shape>)
    ensures r.Some? <==> s in {"X", "Y", "Z"}
  {
    match s
    case "X" => Some(Rock)
    case "Y" => Some(Paper)
    case "Z" => Some(Scissors)
    case _ => None
  }

  /** `parse_result`. */
  function ParseResult(s: string): (r: Option<Res>)
    ensures r.Some? <==> s in {"X", "Y", "Z"}
  {
    match s
    case "X" => Some(Lose)
    case "Y" => Some(Draw)
    case "Z" => Some(Win)
    case _ => None
  }

  /** The letters of the guide for each shape and result. */
  function OppLetter(s: Shape): string
  {
    match s
    case Rock => "A"
    case Paper => "B"
    case Scissors => "C"
  }

  function MyLetter(s: Shape): string
  {
    match s
    case Rock => "X"
    case Paper => "Y"
    case Scissors => "Z"
  }

  function ResultLetter(r: Res): string
  {
    match r
    case Lose => "X"
    case Draw => "Y"
    case Win => "Z"
  }

  /** Each letter reads back as what it was written for. */
  lemma ParseLetters(opp: Shape, my: Shape, result: Res)
    ensures ParseOppShape(OppLetter(opp)) == Some(opp)
    ensures ParseMyShape(MyLetter(my)) == Some(my)
    ensures ParseResult(ResultLetter(result)) == Some(result)
  {
  }

  /** A line of `parse_strategy_1`: its first two tokens; None where the
      source panics (fewer tokens, or a letter it does not know). */
  function ParseRound1(line: string): (r: Option<(Shape, Shape)>)
    ensures r.Some? ==> && |Tokenize(line)| >= 2 && Tokenize(line)[0] == OppLetter(r.value.0)
                        && Tokenize(line)[1] == MyLetter(r.value.1)
  {
    var tokens := Tokenize(line);
    if |tokens| < 2 then None
    else match (ParseOppShape(tokens[0]), ParseMyShape(tokens[1]))
      case (Some(opp), Some(my)) => Some((opp, my))
      case _ => None
  }

  /** A line of `parse_strategy_2`. */
  function ParseRound2(line: string): (r: Option<(Shape, Res)>)
    ensures r.Some? ==> && |Tokenize(line)| >= 2 && Tokenize(line)[0] == OppLetter(r.value.0)
                        && Tokenize(line)[1] == ResultLetter(r.value.1)
  {
    var tokens := Tokenize(line);
    if |tokens| < 2 then None
    else match (ParseOppShape(tokens[0]), ParseResult(tokens[1]))
      case (Some(opp), Some(result)) => Some((opp, result))
      case _ => None
  }

  /** A round of part 1 written as its two letters reads back. */
  lemma ParseRound1OfLetters(opp: Shape, my: Shape)
    ensures ParseRound1(Unwords([OppLetter(opp), MyLetter(my)])) == Some((opp, my))
  {
    var words := [OppLetter(opp), MyLetter(my)];
    TokenizeUnwords(words);
    ParseLetters(opp, my, Draw);
  }

  /** A round of part 2 written as its two letters reads back. */
  lemma ParseRound2OfLetters(opp: Shape, result: Res)
    ensures ParseRound2(Unwords([OppLetter(opp), ResultLetter(result)])) == Some((opp, result))
  {
    var words := [OppLetter(opp), ResultLetter(result)];
    TokenizeUnwords(words);
    ParseLetters(opp, Rock, result);
  }

  // ---------------------------------------------------------------------------
  // The parts

  /** `part_1`: the sum of the round scores. */
  function TotalScore1(rounds: seq<(Shape, Shape)>): (r: int)
    ensures |rounds| <= r <= 9 * |rounds|
  {
    if rounds == [] then 0 else Score1(rounds[0].0, rounds[0].1) + TotalScore1(rounds[1..])
  }

  /** `part_2`: the sum of the round scores; each round adds the bonus of
      its result and one to three for the shape. */
  function TotalScore2(rounds: seq<(Shape, Res)>): (r: int)
    ensures |rounds| <= r - BonusTotal(rounds) <= 3 * |rounds|
  {
    if rounds == [] then 0 else Score2(rounds[0].0, rounds[0].1) + TotalScore2(rounds[1..])
  }

  function BonusTotal(rounds: seq<(Shape, Res)>): int
  {
    if rounds == [] then 0 else Bonus(rounds[0].1) + BonusTotal(rounds[1..])
  }
}
