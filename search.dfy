/** The backtracking search as a function on board values: what
    solve_sudoku computes, stated without the in-place mutation. The solver
    method is proved to leave the board equal to Solve of its input, and the
    lemmas here say what Solve promises. */
module Backtracking {
  import opened Board

  /** The board solve_sudoku leaves behind when it succeeds, or None when it
      fails: a full board is returned as it is; otherwise the digits 1..9 are
      tried in ascending order at the first empty cell. */
  function Solve(g: Grid): Option<Grid>
    requires IsGrid(g)
    decreases ZeroCount(g), 1, 0
  {
    match FirstEmpty(g)
    case None => Some(g)
    case Some(cell) => TryDigits(g, cell.0, cell.1, 1)
  }

  /** The digit loop at empty cell (r, c), from digit d on: a safe digit is
      written and the search recurses; a failed branch moves on to d + 1. */
  function TryDigits(g: Grid, r: int, c: int, d: int): Option<Grid>
    requires IsGrid(g) && InGrid(r, c) && g[r][c] == 0 && 1 <= d <= 10
    decreases ZeroCount(g), 0, 10 - d
  {
    if d == 10 then None
    else if !IsSafe(g, r, c, d) then TryDigits(g, r, c, d + 1)
    else
      PlaceDecrementsZeroCount(g, r, c, d);
      var attempt := Solve(Place(g, r, c, d));
      if attempt.Some? then attempt else TryDigits(g, r, c, d + 1)
  }

  /** One turn of the digit loop: a safe digit whose branch succeeds ends the
      loop with that branch's board; otherwise the loop goes on with d + 1. */
  lemma TryDigitsStep(g: Grid, r: int, c: int, d: int)
    requires IsGrid(g) && InGrid(r, c) && g[r][c] == 0 && 1 <= d < 10
    ensures IsSafe(g, r, c, d) && Solve(Place(g, r, c, d)).Some? ==>
              TryDigits(g, r, c, d) == Solve(Place(g, r, c, d))
    ensures !(IsSafe(g, r, c, d) && Solve(Place(g, r, c, d)).Some?) ==>
              TryDigits(g, r, c, d) == TryDigits(g, r, c, d + 1)
  {
  }

  /** A board without an empty cell is returned as it is, whatever it
      holds: the search never inspects the givens of a full board. */
  lemma SolveFullBoard(g: Grid)
    requires IsGrid(g) && Full(g)
    ensures Solve(g) == Some(g)
  {
    FirstEmptyIsFirst(g);
  }

  /** Success yields a completion of the input: no empty cell, the givens
      kept, every filled cell a digit 1..9; and a consistent input stays
      consistent. */
  lemma {:induction false} SolveSound(g: Grid)
    requires IsGrid(g)
    ensures Solve(g).Some? ==> Completion(Solve(g).value, g)
    ensures Solve(g).Some? && Consistent(g) ==> Consistent(Solve(g).value)
    decreases ZeroCount(g), 1, 0
  {
    match FirstEmpty(g)
    case None => FirstEmptyIsFirst(g);
    case Some(cell) => TryDigitsSound(g, cell.0, cell.1, 1);
  }

  lemma {:induction false} TryDigitsSound(g: Grid, r: int, c: int, d: int)
    requires IsGrid(g) && InGrid(r, c) && g[r][c] == 0 && 1 <= d <= 10
    ensures TryDigits(g, r, c, d).Some? ==> Completion(TryDigits(g, r, c, d).value, g)
    ensures TryDigits(g, r, c, d).Some? && Consistent(g) ==> Consistent(TryDigits(g, r, c, d).value)
    decreases ZeroCount(g), 0, 10 - d
  {
    if d < 10 {
      TryDigitsStep(g, r, c, d);
      if IsSafe(g, r, c, d) && Solve(Place(g, r, c, d)).Some? {
        PlaceDecrementsZeroCount(g, r, c, d);
        var h := Place(g, r, c, d);
        SolveSound(h);
        CompletionOfPlace(Solve(h).value, g, r, c, d);
        if Consistent(g) {
          PlaceKeepsConsistent(g, r, c, d);
        }
      } else {
        TryDigitsSound(g, r, c, d + 1);
      }
    }
  }

  /** Failure means that no valid board keeps the givens of the input. This
      needs no assumption about the input: a board with clashing givens has
      no valid completion either. */
  lemma {:induction false} SolveComplete(g: Grid)
    requires IsGrid(g)
    ensures Solve(g).None? ==> forall s :: Valid(s) ==> !Extends(s, g)
    decreases ZeroCount(g), 1, 0
  {
    match FirstEmpty(g)
    case None =>
    case Some(cell) => TryDigitsComplete(g, cell.0, cell.1, 1);
  }

  /** When the digit loop fails from d on, every valid completion of g has a
      digit below d at (r, c). */
  lemma {:induction false} TryDigitsComplete(g: Grid, r: int, c: int, d: int)
    requires IsGrid(g) && InGrid(r, c) && g[r][c] == 0 && 1 <= d <= 10
    ensures TryDigits(g, r, c, d).None? ==>
            forall s :: Valid(s) && Extends(s, g) ==> s[r][c] < d
    decreases ZeroCount(g), 0, 10 - d
  {
    if d < 10 && TryDigits(g, r, c, d).None? {
      TryDigitsComplete(g, r, c, d + 1);
      if IsSafe(g, r, c, d) {
        PlaceDecrementsZeroCount(g, r, c, d);
        SolveComplete(Place(g, r, c, d));
      }
      forall s | Valid(s) && Extends(s, g)
        ensures s[r][c] < d
      {
        if s[r][c] == d && !IsSafe(g, r, c, d) {
          SafeNecessary(g, s, r, c);
        }
      }
    }
  }

  /** For a consistent input in the range 0..9 the search succeeds exactly
      when a valid completion keeping the givens exists. */
  lemma SolveDecides(g: Grid)
    requires IsGrid(g) && Consistent(g) && InRange(g)
    ensures Solve(g).Some? <==> exists s :: Valid(s) && Extends(s, g)
  {
    SolveSound(g);
    SolveComplete(g);
    if Solve(g).Some? {
      var s := Solve(g).value;
      CompletionIsValid(s, g);
    }
  }

  /** For a consistent input in the range 0..9 a successful search leaves
      every row, column and box holding exactly the digits 1..9. */
  lemma SolvedHoldsAllDigits(g: Grid)
    requires IsGrid(g) && Consistent(g) && InRange(g)
    requires Solve(g).Some?
    ensures IsGrid(Solve(g).value) && HoldsAllDigits(Solve(g).value)
  {
    SolveSound(g);
    var s := Solve(g).value;
    CompletionIsValid(s, g);
    ValidHoldsAllDigits(s);
  }
}
