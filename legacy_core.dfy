/** The older copy of `JigsawGeneratorCore` at the root of the repository.
    Its pieces are called `Cell` instead of `Piece` and it carries no
    docstrings; every method runs the same loops as the packaged copy, so it
    delegates to the same `PieceMatrix` methods and promises the same. */
module LegacyJigsawCore {
  import opened Borders
  import opened Topology
  import PieceMatrix

  /** The legacy name of a piece. */
  type Cell = Piece

  class JigsawGeneratorCore {
    /** `matrix[i, j]`: `i` runs over `shape[0]` (horizontal), `j` over
        `shape[1]` (vertical). */
    var matrix: array2<Cell>

    /** `JigsawGeneratorCore(shape)`: a fresh piece in every position. */
    constructor (w: nat, h: nat)
      ensures fresh(matrix)
      ensures matrix.Length0 == w && matrix.Length1 == h
      ensures PieceMatrix.Cells(matrix) == FreshGrid(w, h)
      ensures (w >= 1 <==> h >= 1) ==> PieceMatrix.Valid(matrix)
    {
      var m := new Cell[w, h];
      PieceMatrix.FillFresh(m);
      matrix := m;
    }

    /** Recreates the matrix with the given shape, a fresh piece in every
        position. */
    method SetShape(w: nat, h: nat)
      modifies this
      ensures fresh(matrix)
      ensures matrix.Length0 == w && matrix.Length1 == h
      ensures PieceMatrix.Cells(matrix) == FreshGrid(w, h)
      ensures (w >= 1 <==> h >= 1) ==> PieceMatrix.Valid(matrix)
    {
      // `fill` first puts one shared piece everywhere; the loops then give
      // each position a piece of its own.
      var m := new Cell[w, h]((_, _) => FreshPiece);
      PieceMatrix.FillFresh(m);
      matrix := m;
    }

    /** Sets the sides on the outer ring to NEUTRAL and nothing else. */
    method MakeBorders()
      requires matrix.Length0 >= 1 <==> matrix.Length1 >= 1
      modifies matrix
      ensures PieceMatrix.Cells(matrix) == Bordered(old(PieceMatrix.Cells(matrix)), matrix.Length0, matrix.Length1)
      ensures old(PieceMatrix.Valid(matrix)) ==> PieceMatrix.Valid(matrix)
    {
      PieceMatrix.MakeBorders(matrix);
    }

    /** Frames the matrix and decides every internal edge by the coin of its
        draw; returns how many coins were used. */
    method GenerateRandom(coin: nat -> bool) returns (draws: nat)
      requires PieceMatrix.Valid(matrix)
      modifies matrix
      ensures PieceMatrix.Valid(matrix) && Tiled(PieceMatrix.Cells(matrix), matrix.Length0, matrix.Length1)
      ensures old(Undecided(PieceMatrix.Cells(matrix), matrix.Length0, matrix.Length1)) ==>
        PieceMatrix.Cells(matrix) == Generated(matrix.Length0, matrix.Length1, coin) &&
        draws == InternalEdges(matrix.Length0, matrix.Length1)
      ensures !old(Undecided(PieceMatrix.Cells(matrix), matrix.Length0, matrix.Length1)) ==>
        PieceMatrix.Cells(matrix) == old(PieceMatrix.Cells(matrix)) && draws == 0
    {
      draws := PieceMatrix.GenerateRandom(matrix, coin);
    }

    /** The piece at the given coordinates; nothing changes. */
    method GetCell(x: nat, y: nat) returns (p: Cell)
      requires x < matrix.Length0 && y < matrix.Length1
      ensures p == PieceMatrix.Cells(matrix)[x][y]
      ensures Tiled(PieceMatrix.Cells(matrix), matrix.Length0, matrix.Length1) ==> NoInvalidSide(p)
    {
      p := PieceMatrix.GetCell(matrix, x, y);
    }
  }
}
