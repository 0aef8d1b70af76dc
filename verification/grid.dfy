/** The N x N puzzle and solution grids and their row-major flattening. */
module Grid {
  import opened Bits

  /** `mat` has exactly `rows` rows, each of exactly `n` cells. */
  predicate HasShape<T>(mat: seq<seq<T>>, rows: nat, n: nat)
  {
    |mat| == rows && forall r :: 0 <= r < rows ==> |mat[r]| == n
  }

  /** An N x N grid, the shape `[[u8; N]; N]` fixes in the source. */
  predicate IsSquare<T>(mat: seq<seq<T>>, n: nat)
  {
    HasShape(mat, n, n)
  }

  /** One proof instance: the private solution and the public puzzle,
      both N x N; a puzzle cell of 0 is blank, any other value is a clue. */
  datatype Circuit = Circuit(solution: seq<seq<Byte>>, puzzle: seq<seq<Byte>>)

  /** Both grids of the instance are n x n. */
  predicate WellFormed(c: Circuit, n: nat)
  {
    IsSquare(c.solution, n) && IsSquare(c.puzzle, n)
  }

  /** The solution agrees with every non-blank clue of the puzzle. */
  predicate AgreesWithClues(c: Circuit, n: nat)
  {
    WellFormed(c, n) &&
    forall r, col :: 0 <= r < n && 0 <= col < n && c.puzzle[r][col] != 0 ==>
      c.solution[r][col] == c.puzzle[r][col]
  }

  /** Every n x n solution agrees with the all-blank puzzle of the setup
      instance, and with itself taken as the puzzle. */
  lemma BlankAndSelfAgree(sol: seq<seq<Byte>>, blank: seq<seq<Byte>>, n: nat)
    requires IsSquare(sol, n) && IsSquare(blank, n)
    requires forall r, col :: 0 <= r < n && 0 <= col < n ==> blank[r][col] == 0
    ensures AgreesWithClues(Circuit(sol, blank), n)
    ensures AgreesWithClues(Circuit(sol, sol), n)
  {
  }

  /** Overwriting one solution cell of an agreeing instance keeps agreement
      exactly when that cell is blank in the puzzle or the new value is its
      clue. */
  lemma UpdateAgrees(c: Circuit, n: nat, r: nat, col: nat, v: Byte)
    requires AgreesWithClues(c, n) && r < n && col < n
    ensures var row: seq<Byte> := c.solution[r][col := v];
            AgreesWithClues(Circuit(c.solution[r := row], c.puzzle), n)
            <==> c.puzzle[r][col] == 0 || v == c.puzzle[r][col]
  {
    var row: seq<Byte> := c.solution[r][col := v];
    var sol := c.solution[r := row];
    assert sol[r][col] == v;
    assert forall r2, c2 :: 0 <= r2 < n && 0 <= c2 < n && (r2, c2) != (r, col) ==>
      sol[r2][c2] == c.solution[r2][c2];
  }

  /** The cells of `mat`, rows top to bottom, each row left to right. */
  function Flatten<T>(mat: seq<seq<T>>): (cells: seq<T>)
    ensures forall r, c :: 0 <= r < |mat| && 0 <= c < |mat[r]| ==> mat[r][c] in cells
    ensures forall k :: 0 <= k < |cells| ==> exists r :: 0 <= r < |mat| && cells[k] in mat[r]
  {
    if |mat| == 0 then [] else Flatten(mat[..|mat| - 1]) + mat[|mat| - 1]
  }

  /** Cut `cells` into `rows` consecutive rows of `n` cells. */
  function Unflatten<T>(cells: seq<T>, rows: nat, n: nat): (mat: seq<seq<T>>)
    requires |cells| == rows * n
    ensures HasShape(mat, rows, n)
  {
    if rows == 0 then []
    else
      var cut := (rows - 1) * n;
      Unflatten(cells[..cut], rows - 1, n) + [cells[cut..]]
  }

  /** Position of cell (r, c) in the row-major order of an n-wide grid. */
  function CellIndex(r: nat, c: nat, n: nat): nat
  {
    r * n + c
  }

  /** Flattening a grid of `rows` rows of width n yields rows * n cells. */
  lemma {:induction false} FlattenLength<T>(mat: seq<seq<T>>, rows: nat, n: nat)
    requires HasShape(mat, rows, n)
    ensures |Flatten(mat)| == rows * n
  {
    if rows > 0 {
      FlattenLength(mat[..rows - 1], rows - 1, n);
      assert (rows - 1) * n + n == rows * n;
    }
  }

  /** Cell (r, c) sits at row-major position r * n + c of the flattening. */
  lemma {:induction false} FlattenAt<T>(mat: seq<seq<T>>, rows: nat, n: nat, r: nat, c: nat)
    requires HasShape(mat, rows, n)
    requires r < rows && c < n
    ensures CellIndex(r, c, n) < |Flatten(mat)|
    ensures Flatten(mat)[CellIndex(r, c, n)] == mat[r][c]
  {
    var front := mat[..rows - 1];
    FlattenLength(front, rows - 1, n);
    if r < rows - 1 {
      FlattenAt(front, rows - 1, n, r, c);
      assert CellIndex(r, c, n) < (rows - 1) * n;
    } else {
      assert CellIndex(r, c, n) == (rows - 1) * n + c;
    }
  }

  /** Cutting a flattened grid back into rows recovers the grid. */
  lemma {:induction false} UnflattenFlatten<T>(mat: seq<seq<T>>, rows: nat, n: nat)
    requires HasShape(mat, rows, n)
    ensures |Flatten(mat)| == rows * n
    ensures Unflatten(Flatten(mat), rows, n) == mat
  {
    FlattenLength(mat, rows, n);
    if rows > 0 {
      var front := mat[..rows - 1];
      UnflattenFlatten(front, rows - 1, n);
      var cells := Flatten(mat);
      assert cells == Flatten(front) + mat[rows - 1];
      assert cells[..(rows - 1) * n] == Flatten(front);
      assert cells[(rows - 1) * n..] == mat[rows - 1];
      assert mat == front + [mat[rows - 1]];
    }
  }

  /** Flattening the rows cut from a cell sequence recovers the sequence. */
  lemma {:induction false} FlattenUnflatten<T>(cells: seq<T>, rows: nat, n: nat)
    requires |cells| == rows * n
    ensures Flatten(Unflatten(cells, rows, n)) == cells
  {
    if rows > 0 {
      var cut := (rows - 1) * n;
      var mat := Unflatten(cells, rows, n);
      FlattenUnflatten(cells[..cut], rows - 1, n);
      assert mat[..rows - 1] == Unflatten(cells[..cut], rows - 1, n);
      assert cells == cells[..cut] + cells[cut..];
    }
  }
}
