/** The numpy object matrix both copies of `JigsawGeneratorCore` keep in
    `self.matrix`, and the loops they run over it. Each copy of the class
    (`JigsawCore`, `LegacyJigsawCore`) holds one such matrix and delegates to
    the methods here; a piece is a value, written back into its position. */
module PieceMatrix {
  import opened Borders
  import opened Topology

  /** The matrix as a value: `Cells(m)[i][j] == m[i, j]`. */
  ghost function Cells(m: array2<Piece>): (g: Grid)
    reads m
    ensures Shaped(g, m.Length0, m.Length1)
  {
    seq(m.Length0, i requires 0 <= i < m.Length0 reads m =>
      seq(m.Length1, j requires 0 <= i < m.Length0 && 0 <= j < m.Length1 reads m =>
        m[i, j]))
  }

  /** The shape has either no position at all or at least one row and one
      column, and the matrix is either not generated yet (every internal side
      INVALID) or a finished puzzle. */
  ghost predicate Valid(m: array2<Piece>)
    reads m
  {
    (m.Length0 >= 1 <==> m.Length1 >= 1) &&
    (Undecided(Cells(m), m.Length0, m.Length1) || Tiled(Cells(m), m.Length0, m.Length1))
  }

  /** The two nested loops of the constructor and of `set_shape`: a fresh
      piece in every position. */
  method FillFresh(m: array2<Piece>)
    modifies m
    ensures Cells(m) == FreshGrid(m.Length0, m.Length1)
    ensures (m.Length0 >= 1 <==> m.Length1 >= 1) ==> Valid(m)
  {
    var w, h := m.Length0, m.Length1;
    for i := 0 to w
      invariant forall a, b :: 0 <= a < i && 0 <= b < h ==> m[a, b] == FreshPiece
    {
      for j := 0 to h
        invariant forall a, b :: 0 <= a < i && 0 <= b < h ==> m[a, b] == FreshPiece
        invariant forall b :: 0 <= b < j ==> m[i, b] == FreshPiece
      {
        m[i, j] := FreshPiece;
      }
    }
    GridExtensionality(Cells(m), FreshGrid(w, h), w, h);
  }

  /** `make_borders`: sets the sides on the outer ring to NEUTRAL and nothing
      else. The `-1` indices of the source are the last row and column. A
      shape with rows but no columns, or columns but no rows, fails its first
      index in the source, so it is excluded; the 0x0 shape is a no-op. */
  method MakeBorders(m: array2<Piece>)
    requires m.Length0 >= 1 <==> m.Length1 >= 1
    modifies m
    ensures Cells(m) == Bordered(old(Cells(m)), m.Length0, m.Length1)
    ensures old(Valid(m)) ==> Valid(m)
  {
    ghost var g: Grid := Cells(m);
    var w, h := m.Length0, m.Length1;
    for i := 0 to w
      invariant forall a, b :: 0 <= a < w && 0 <= b < h ==>
        m[a, b] == TopBottomDone(g[a][b], a, b, h, i)
    {
      m[i, 0] := m[i, 0].(up := Neutral);
      m[i, h - 1] := m[i, h - 1].(down := Neutral);
    }
    for j := 0 to h
      invariant forall a, b :: 0 <= a < w && 0 <= b < h ==>
        m[a, b] == LeftRightDone(TopBottomDone(g[a][b], a, b, h, w), a, b, w, j)
    {
      m[0, j] := m[0, j].(left := Neutral);
      m[w - 1, j] := m[w - 1, j].(right := Neutral);
    }
    GridExtensionality(Cells(m), Bordered(g, w, h), w, h);
    BorderedKeepsStates(g, w, h);
  }

  /** `generate_random`: frames the matrix, then walks it position by
      position; every side still INVALID gets the border type of the next
      coin, and the facing side of the neighbour gets its inverse. Returns how
      many coins were used. On an undecided matrix the result is the
      generated grid and one coin is used per internal edge; on a finished
      puzzle nothing changes. */
  method GenerateRandom(m: array2<Piece>, coin: nat -> bool) returns (draws: nat)
    requires Valid(m)
    modifies m
    ensures Valid(m) && Tiled(Cells(m), m.Length0, m.Length1)
    ensures old(Undecided(Cells(m), m.Length0, m.Length1)) ==>
      Cells(m) == Generated(m.Length0, m.Length1, coin) && draws == InternalEdges(m.Length0, m.Length1)
    ensures !old(Undecided(Cells(m), m.Length0, m.Length1)) ==>
      Cells(m) == old(Cells(m)) && draws == 0
  {
    var w, h := m.Length0, m.Length1;
    assert w >= 1 <==> h >= 1;
    ghost var undecided := Undecided(Cells(m), w, h);
    ghost var g0: Grid := Cells(m);
    MakeBorders(m);
    BorderedKeepsStates(g0, w, h);
    if undecided {
      ProgressAtStart(Cells(m), w, h, coin);
    }
    assert Walked(m, coin, 0, 0, undecided, g0);
    draws := 0;
    for i := 0 to w
      invariant Walked(m, coin, i, 0, undecided, g0)
      invariant draws == if !undecided then 0 else if i < w then DrawsBefore(w, h, i, 0) else InternalEdges(w, h)
    {
      draws := VisitColumn(m, coin, i, draws, undecided, g0);
    }
    if undecided {
      forall a, c | 0 <= a < w && 0 <= c < h
        ensures m[a, c] == Generated(w, h, coin)[a][c]
      {
        ProgressDone(GeneratedPiece(w, h, coin, a, c), a, c, w, h);
      }
      GridExtensionality(Cells(m), Generated(w, h, coin), w, h);
      GeneratedIsTiled(w, h, coin);
    } else {
      GridExtensionality(Cells(m), g0, w, h);
    }
  }

  /** Where the walk of `generate_random` stands before visiting `(i, j)`: on
      a matrix that was undecided, exactly the frame and the sides drawn so
      far hold their generated value; on a finished puzzle `g0`, nothing has
      changed. */
  ghost predicate Walked(m: array2<Piece>, coin: nat -> bool, i: int, j: int, undecided: bool, g0: Grid)
    reads m
  {
    if undecided then
      forall a, b :: 0 <= a < m.Length0 && 0 <= b < m.Length1 ==>
        m[a, b] == Progress(GeneratedPiece(m.Length0, m.Length1, coin, a, b), a, b, m.Length0, m.Length1, i, j)
    else
      Shaped(g0, m.Length0, m.Length1) && Tiled(g0, m.Length0, m.Length1) &&
      forall a, b :: 0 <= a < m.Length0 && 0 <= b < m.Length1 ==> m[a, b] == g0[a][b]
  }

  /** One pass of the outer loop of `generate_random`: visits column `i` top
      to bottom, with `before` coins already used. */
  method VisitColumn(m: array2<Piece>, coin: nat -> bool, i: nat, before: nat,
                     ghost undecided: bool, ghost g0: Grid)
    returns (draws: nat)
    requires i < m.Length0 && m.Length1 >= 1
    requires Walked(m, coin, i, 0, undecided, g0)
    requires before == if undecided then DrawsBefore(m.Length0, m.Length1, i, 0) else 0
    modifies m
    ensures Walked(m, coin, i + 1, 0, undecided, g0)
    ensures draws == if !undecided then 0
      else if i + 1 < m.Length0 then DrawsBefore(m.Length0, m.Length1, i + 1, 0)
      else InternalEdges(m.Length0, m.Length1)
  {
    var w, h := m.Length0, m.Length1;
    draws := before;
    for j := 0 to h
      invariant Walked(m, coin, i, j, undecided, g0)
      invariant draws == if undecided then DrawsBefore(w, h, i, j) else 0
    {
      ghost var here := m[i, j];
      if undecided {
        VisitHere(w, h, coin, i, j);
      } else {
        assert NoInvalidSide(g0[i][j]);
      }
      label visit:
      draws := VisitCell(m, coin, i, j, draws);
      if undecided {
        forall a, c | 0 <= a < w && 0 <= c < h
          ensures m[a, c] == Progress(GeneratedPiece(w, h, coin, a, c), a, c, w, h, i, j + 1)
        {
          VisitProgress(w, h, coin, i, j, a, c);
        }
      } else {
        forall a, c | 0 <= a < w && 0 <= c < h
          ensures m[a, c] == g0[a][c]
        {
          VisitDecidedChangesNothing(old@visit(m[a, c]), here, a, c, i, j, before, coin);
        }
      }
    }
    DrawsAfterColumn(w, h, i);
    if undecided {
      forall a, c | 0 <= a < w && 0 <= c < h
        ensures m[a, c] == Progress(GeneratedPiece(w, h, coin, a, c), a, c, w, h, i + 1, 0)
      {
        ProgressNextColumn(GeneratedPiece(w, h, coin, a, c), a, c, w, h, i);
      }
    }
  }

  /** One pass of the inner loop of `generate_random` at `(i, j)`, with
      `before` coins already used. The `up` and `left` branches are dead: the
      caller proves those sides are already decided, so their `j - 1` and
      `i - 1` writes (which would wrap around to the last row or column) never
      happen, and the `j + 1` and `i + 1` writes stay in range. */
  method VisitCell(m: array2<Piece>, coin: nat -> bool, i: nat, j: nat, before: nat) returns (draws: nat)
    requires i < m.Length0 && j < m.Length1
    requires m[i, j].up != Invalid && m[i, j].left != Invalid
    requires m[i, j].down == Invalid ==> j + 1 < m.Length1
    requires m[i, j].right == Invalid ==> i + 1 < m.Length0
    modifies m
    ensures forall a, c :: 0 <= a < m.Length0 && 0 <= c < m.Length1 ==>
      m[a, c] == VisitEffect(old(m[a, c]), old(m[i, j]), a, c, i, j, before, coin)
    ensures draws == VisitDraws(old(m[i, j]), before)
  {
    draws := before;
    if m[i, j].up == Invalid {
      assert false;
    }
    if m[i, j].down == Invalid {
      m[i, j] := m[i, j].(down := Choose(coin(draws)));
      draws := draws + 1;
      m[i, j + 1] := m[i, j + 1].(up := Inverse(m[i, j].down));
    }
    if m[i, j].left == Invalid {
      assert false;
    }
    if m[i, j].right == Invalid {
      m[i, j] := m[i, j].(right := Choose(coin(draws)));
      draws := draws + 1;
      m[i + 1, j] := m[i + 1, j].(left := Inverse(m[i, j].right));
    }
  }

  /** `get_cell`: the piece at the given coordinates; nothing changes. On a
      finished puzzle no side of it is INVALID. */
  method GetCell(m: array2<Piece>, x: nat, y: nat) returns (p: Piece)
    requires x < m.Length0 && y < m.Length1
    ensures p == Cells(m)[x][y]
    ensures Tiled(Cells(m), m.Length0, m.Length1) ==> NoInvalidSide(p)
  {
    p := m[x, y];
  }
}
