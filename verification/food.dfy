/**
  Food placement (script.js:179-190). The source draws a random cell and redraws, by recursion
  without bound, while the cell lies on the snake. Here the random results are supplied as a
  sequence of draws consumed in order, and running out of draws yields None.
 */
module Food {
  import opened Wrappers
  import opened Grid

  /** createFood: the first drawn cell that lies on no segment of the snake, None if every draw hits it. */
  function CreateFood(b: Board, snake: seq<Cell>, draws: seq<Draw>): (r: Option<Cell>)
    requires AllValid(draws)
    ensures r.Some? ==> r.value !in snake
    ensures r.Some? && b.cols > 0 && b.rows > 0 ==> InBoard(b, r.value)
    ensures r.Some? ==> exists i :: 0 <= i < |draws| && r.value == SampleCell(b, draws[i])
                          && forall j :: 0 <= j < i ==> SampleCell(b, draws[j]) in snake
    ensures r.None? <==> forall i :: 0 <= i < |draws| ==> SampleCell(b, draws[i]) in snake
    decreases |draws|
  {
    if |draws| == 0 then None
    else
      var c := SampleCell(b, draws[0]);
      if c !in snake then Some(c)
      else
        var rest := CreateFood(b, snake, draws[1..]);
        assert forall i :: 1 <= i < |draws| ==> draws[i] == draws[1..][i - 1];
        rest
  }

  /** When the snake covers every cell of the board, no sequence of draws places food. */
  lemma FullBoardPlacesNoFood(b: Board, snake: seq<Cell>, draws: seq<Draw>)
    requires b.cols > 0 && b.rows > 0
    requires forall x, y :: InBoard(b, (x, y)) ==> (x, y) in snake
    requires AllValid(draws)
    ensures CreateFood(b, snake, draws) == None
  {
  }

  /** A draw that misses the snake is always taken: food placement never skips a free cell. */
  lemma FirstFreeDrawIsTaken(b: Board, snake: seq<Cell>, draws: seq<Draw>, i: nat)
    requires AllValid(draws)
    requires i < |draws| && SampleCell(b, draws[i]) !in snake
    requires forall j :: 0 <= j < i ==> SampleCell(b, draws[j]) in snake
    ensures CreateFood(b, snake, draws) == Some(SampleCell(b, draws[i]))
  {
  }
}
