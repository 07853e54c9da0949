/** The puzzle topology as a value: a rectangular grid of pieces, the states
    the generator moves it through, and the grid the random pass produces as a
    closed-form function of its coin flips.

    Index convention: `g[i][j]` is the piece in column `i` (`0 <= i < w`,
    horizontal, the first dimension of the shape) and row `j` (`0 <= j < h`,
    vertical, the second dimension). So `i` governs `left`/`right` and `j`
    governs `up`/`down`: the `down` side of `(i, j)` faces the `up` side of
    `(i, j + 1)`, and the `right` side of `(i, j)` faces the `left` side of
    `(i + 1, j)`. */
module Topology {
  import opened Borders

  /** One jigsaw piece: the kind of each of its four borders. */
  datatype Piece = Piece(up: BorderType, down: BorderType, left: BorderType, right: BorderType)

  /** A newly constructed piece: every border still INVALID. */
  const FreshPiece := Piece(Invalid, Invalid, Invalid, Invalid)

  type Grid = seq<seq<Piece>>

  predicate Shaped(g: Grid, w: nat, h: nat) {
    |g| == w && forall i :: 0 <= i < w ==> |g[i]| == h
  }

  predicate NoInvalidSide(p: Piece) {
    p.up != Invalid && p.down != Invalid && p.left != Invalid && p.right != Invalid
  }

  /** Two grids of the same shape with the same piece everywhere are equal. */
  lemma GridExtensionality(g1: Grid, g2: Grid, w: nat, h: nat)
    requires Shaped(g1, w, h) && Shaped(g2, w, h)
    requires forall i, j :: 0 <= i < w && 0 <= j < h ==> g1[i][j] == g2[i][j]
    ensures g1 == g2
  {
    forall i | 0 <= i < w
      ensures g1[i] == g2[i]
    {
    }
  }

  /** No side of any piece is left INVALID. */
  predicate Complete(g: Grid, w: nat, h: nat)
    requires Shaped(g, w, h)
  {
    forall i, j :: 0 <= i < w && 0 <= j < h ==> NoInvalidSide(g[i][j])
  }

  /** Every side on the outer ring of the grid is NEUTRAL. */
  predicate Framed(g: Grid, w: nat, h: nat)
    requires Shaped(g, w, h)
  {
    forall i, j :: 0 <= i < w && 0 <= j < h ==>
      (j == 0 ==> g[i][j].up == Neutral) &&
      (j == h - 1 ==> g[i][j].down == Neutral) &&
      (i == 0 ==> g[i][j].left == Neutral) &&
      (i == w - 1 ==> g[i][j].right == Neutral)
  }

  /** Every internal edge is a tab on one side and the matching blank on the
      other. */
  predicate Interlocked(g: Grid, w: nat, h: nat)
    requires Shaped(g, w, h)
  {
    (forall i, j :: 0 <= i < w && 0 <= j < h - 1 ==> DownInterlocks(g, w, h, i, j)) &&
    (forall i, j :: 0 <= i < w - 1 && 0 <= j < h ==> RightInterlocks(g, w, h, i, j))
  }

  /** The `down` side of `(i, j)` and the `up` side of `(i, j + 1)` are a tab
      and a blank. */
  predicate DownInterlocks(g: Grid, w: nat, h: nat, i: nat, j: nat)
    requires Shaped(g, w, h) && i < w && j + 1 < h
  {
    IsCut(g[i][j].down) && g[i][j].down == Inverse(g[i][j + 1].up)
  }

  /** The `right` side of `(i, j)` and the `left` side of `(i + 1, j)` are a
      tab and a blank. */
  predicate RightInterlocks(g: Grid, w: nat, h: nat, i: nat, j: nat)
    requires Shaped(g, w, h) && i + 1 < w && j < h
  {
    IsCut(g[i][j].right) && g[i][j].right == Inverse(g[i + 1][j].left)
  }

  /** A finished puzzle: the state `generate_random` leaves behind. */
  predicate Tiled(g: Grid, w: nat, h: nat)
    requires Shaped(g, w, h)
  {
    Complete(g, w, h) && Framed(g, w, h) && Interlocked(g, w, h)
  }

  /** No internal side decided yet; an outer side is INVALID or NEUTRAL. This
      is the state after `set_shape`, and after `make_borders` on it. */
  predicate Undecided(g: Grid, w: nat, h: nat)
    requires Shaped(g, w, h)
  {
    forall i, j :: 0 <= i < w && 0 <= j < h ==>
      (if j == 0 then g[i][j].up in {Invalid, Neutral} else g[i][j].up == Invalid) &&
      (if j == h - 1 then g[i][j].down in {Invalid, Neutral} else g[i][j].down == Invalid) &&
      (if i == 0 then g[i][j].left in {Invalid, Neutral} else g[i][j].left == Invalid) &&
      (if i == w - 1 then g[i][j].right in {Invalid, Neutral} else g[i][j].right == Invalid)
  }

  /** The grid `set_shape` builds: a fresh piece in every position. */
  function FreshGrid(w: nat, h: nat): (g: Grid)
    ensures Shaped(g, w, h) && Undecided(g, w, h)
    ensures forall i, j :: 0 <= i < w && 0 <= j < h ==> g[i][j] == FreshPiece
  {
    seq(w, i => seq(h, j => FreshPiece))
  }

  /** The piece at `(i, j)` after `make_borders`: the sides on the outer ring
      become NEUTRAL, the others keep their value. */
  function BorderedPiece(p: Piece, i: nat, j: nat, w: nat, h: nat): Piece {
    p.(up := if j == 0 then Neutral else p.up,
       down := if j == h - 1 then Neutral else p.down,
       left := if i == 0 then Neutral else p.left,
       right := if i == w - 1 then Neutral else p.right)
  }

  /** The grid after `make_borders`: the outer ring is NEUTRAL and every
      internal side is unchanged. */
  function Bordered(g: Grid, w: nat, h: nat): (r: Grid)
    requires Shaped(g, w, h)
    ensures Shaped(r, w, h) && Framed(r, w, h)
    ensures forall i, j :: 0 <= i < w && 0 <= j < h ==>
      (j != 0 ==> r[i][j].up == g[i][j].up) &&
      (j != h - 1 ==> r[i][j].down == g[i][j].down) &&
      (i != 0 ==> r[i][j].left == g[i][j].left) &&
      (i != w - 1 ==> r[i][j].right == g[i][j].right)
  {
    seq(w, i requires 0 <= i < w =>
      seq(h, j requires 0 <= i < w && 0 <= j < h => BorderedPiece(g[i][j], i, j, w, h)))
  }

  /** The piece at `(a, b)` after the first loop of `make_borders` has run
      for the columns before `i`. */
  function TopBottomDone(p: Piece, a: int, b: int, h: int, i: int): Piece {
    p.(up := if b == 0 && a < i then Neutral else p.up,
       down := if b == h - 1 && a < i then Neutral else p.down)
  }

  /** ... and the second loop for the rows before `j`. */
  function LeftRightDone(p: Piece, a: int, b: int, w: int, j: int): Piece {
    p.(left := if a == 0 && b < j then Neutral else p.left,
       right := if a == w - 1 && b < j then Neutral else p.right)
  }

  /** `make_borders` is idempotent. */
  lemma BorderedIdempotent(g: Grid, w: nat, h: nat)
    requires Shaped(g, w, h)
    ensures Bordered(Bordered(g, w, h), w, h) == Bordered(g, w, h)
  {
    var b := Bordered(g, w, h);
    var bb := Bordered(b, w, h);
    forall i | 0 <= i < w
      ensures bb[i] == b[i]
    {
      forall j | 0 <= j < h
        ensures bb[i][j] == b[i][j]
      {
        assert bb[i][j] == BorderedPiece(b[i][j], i, j, w, h);
      }
    }
  }

  /** On a 1x1 grid `make_borders` makes all four sides of the single piece
      NEUTRAL, whatever they were. */
  lemma BorderedSinglePiece(g: Grid)
    requires Shaped(g, 1, 1)
    ensures Bordered(g, 1, 1) == [[Piece(Neutral, Neutral, Neutral, Neutral)]]
  {
    var r := Bordered(g, 1, 1);
    assert r[0][0] == Piece(Neutral, Neutral, Neutral, Neutral);
    assert r[0] == [r[0][0]];
  }

  /** `make_borders` keeps an undecided grid undecided, and changes nothing on
      a finished one. */
  lemma BorderedKeepsStates(g: Grid, w: nat, h: nat)
    requires Shaped(g, w, h)
    ensures Undecided(g, w, h) ==> Undecided(Bordered(g, w, h), w, h)
    ensures Tiled(g, w, h) ==> Bordered(g, w, h) == g
  {
    var b := Bordered(g, w, h);
    if Tiled(g, w, h) {
      forall i | 0 <= i < w
        ensures b[i] == g[i]
      {
        forall j | 0 <= j < h
          ensures b[i][j] == g[i][j]
        {
          assert b[i][j] == BorderedPiece(g[i][j], i, j, w, h);
        }
      }
    }
  }

  // ---------------------------------------------------------------------
  // The random pass, in closed form.
  //
  // `generate_random` visits the cells in row-major order of the two loops
  // (`i` outer, `j` inner) and draws one coin for each internal edge, from the
  // cell above it (a `down` side) or left of it (a `right` side), `down`
  // before `right` within a cell.
  // ---------------------------------------------------------------------

  /** An internal edge, named by the cell that draws its coin. */
  datatype Edge = DownEdge(i: nat, j: nat) | RightEdge(i: nat, j: nat)

  predicate IsInternal(e: Edge, w: nat, h: nat) {
    match e
    case DownEdge(i, j) => i < w && j + 1 < h
    case RightEdge(i, j) => i + 1 < w && j < h
  }

  /** The number of internal edges of a `w` x `h` grid. */
  function InternalEdges(w: nat, h: nat): nat
    requires w >= 1 <==> h >= 1
  {
    (w - 1) * h + w * (h - 1)
  }

  /** The number of coins drawn before the pass visits cell `(i, j)`
      (`j == h` meaning: after the whole column `i`). */
  function DrawsBefore(w: nat, h: nat, i: nat, j: nat): nat
    requires h >= 1
  {
    i * (2 * h - 1) + (if j < h then j else h - 1) + (if i + 1 < w then j else 0)
  }

  /** After column `i` the pass has drawn the coins of every column up to `i`;
      after the last column, one coin per internal edge. */
  lemma DrawsAfterColumn(w: nat, h: nat, i: nat)
    requires i < w && h >= 1
    ensures DrawsBefore(w, h, i, h) ==
      (if i + 1 < w then DrawsBefore(w, h, i + 1, 0) else InternalEdges(w, h))
  {
    assert (i + 1) * (2 * h - 1) == i * (2 * h - 1) + (2 * h - 1);
    assert (w - 1) * h + w * (h - 1) == (w - 1) * (2 * h - 1) + (h - 1);
  }

  /** The number of coins the pass draws at cell `(i, j)`. */
  function DrawsAt(w: nat, h: nat, i: nat, j: nat): nat {
    (if j + 1 < h then 1 else 0) + (if i + 1 < w then 1 else 0)
  }

  /** Which coin decides an internal edge. */
  function DrawIndex(w: nat, h: nat, e: Edge): nat
    requires IsInternal(e, w, h)
  {
    match e
    case DownEdge(i, j) => DrawsBefore(w, h, i, j)
    case RightEdge(i, j) => DrawsBefore(w, h, i, j) + (if j + 1 < h then 1 else 0)
  }

  lemma MulMonotone(a: nat, b: nat, c: nat)
    requires a <= b
    ensures a * c <= b * c
  {
  }

  /** The coins of a cell come after the coins of every cell visited before it. */
  lemma DrawsInVisitOrder(w: nat, h: nat, i1: nat, j1: nat, i2: nat, j2: nat)
    requires i1 < w && j1 < h && i2 < w && j2 < h
    requires i1 < i2 || (i1 == i2 && j1 < j2)
    ensures DrawsBefore(w, h, i1, j1) + DrawsAt(w, h, i1, j1) <= DrawsBefore(w, h, i2, j2)
  {
    if i1 < i2 {
      MulMonotone(i1 + 1, i2, 2 * h - 1);
      assert (i1 + 1) * (2 * h - 1) == i1 * (2 * h - 1) + (2 * h - 1);
    }
  }

  /** Every internal edge has its own coin, and all of them are among the
      first `InternalEdges(w, h)` draws: each internal edge is decided by
      exactly one draw. */
  lemma DrawIndexInjective(w: nat, h: nat, e1: Edge, e2: Edge)
    requires IsInternal(e1, w, h) && IsInternal(e2, w, h)
    requires e1 != e2
    ensures DrawIndex(w, h, e1) != DrawIndex(w, h, e2)
  {
    if (e1.i, e1.j) != (e2.i, e2.j) {
      if e1.i < e2.i || (e1.i == e2.i && e1.j < e2.j) {
        DrawsInVisitOrder(w, h, e1.i, e1.j, e2.i, e2.j);
      } else {
        DrawsInVisitOrder(w, h, e2.i, e2.j, e1.i, e1.j);
      }
    }
  }

  lemma DrawIndexBound(w: nat, h: nat, e: Edge)
    requires IsInternal(e, w, h)
    ensures w >= 1 && h >= 1 && DrawIndex(w, h, e) < InternalEdges(w, h)
  {
    assert (w - 1) * h + w * (h - 1) == (w - 1) * (2 * h - 1) + (h - 1);
    if (e.i, e.j) != (w - 1, h - 1) {
      DrawsInVisitOrder(w, h, e.i, e.j, w - 1, h - 1);
    }
  }

  /** The kind the pass draws for an internal edge, as seen from the cell that
      draws it. */
  function Drawn(w: nat, h: nat, coin: nat -> bool, e: Edge): (b: BorderType)
    requires IsInternal(e, w, h)
    ensures IsCut(b)
  {
    Choose(coin(DrawIndex(w, h, e)))
  }

  /** The piece at `(i, j)` of the finished puzzle. */
  function GeneratedPiece(w: nat, h: nat, coin: nat -> bool, i: nat, j: nat): Piece
    requires i < w && j < h
  {
    Piece(
      up := if j == 0 then Neutral else Inverse(Drawn(w, h, coin, DownEdge(i, j - 1))),
      down := if j == h - 1 then Neutral else Drawn(w, h, coin, DownEdge(i, j)),
      left := if i == 0 then Neutral else Inverse(Drawn(w, h, coin, RightEdge(i - 1, j))),
      right := if i == w - 1 then Neutral else Drawn(w, h, coin, RightEdge(i, j)))
  }

  /** The grid `generate_random` produces from an undecided grid, given the
      coin it flips at each draw. */
  function Generated(w: nat, h: nat, coin: nat -> bool): (g: Grid)
    ensures Shaped(g, w, h)
  {
    seq(w, i requires 0 <= i < w =>
      seq(h, j requires 0 <= i < w && 0 <= j < h => GeneratedPiece(w, h, coin, i, j)))
  }

  /** The two sides of an internal edge of the generated grid interlock. */
  lemma GeneratedPiecesInterlock(w: nat, h: nat, coin: nat -> bool, i: nat, j: nat)
    requires i < w && j < h
    ensures j + 1 < h ==> DownInterlocks(Generated(w, h, coin), w, h, i, j)
    ensures i + 1 < w ==> RightInterlocks(Generated(w, h, coin), w, h, i, j)
  {
    var g: Grid := Generated(w, h, coin);
    if j + 1 < h {
      assert g[i][j].down == Drawn(w, h, coin, DownEdge(i, j));
      assert g[i][j + 1].up == Inverse(Drawn(w, h, coin, DownEdge(i, j)));
      InverseInvolution(Drawn(w, h, coin, DownEdge(i, j)));
    }
    if i + 1 < w {
      assert g[i][j].right == Drawn(w, h, coin, RightEdge(i, j));
      assert g[i + 1][j].left == Inverse(Drawn(w, h, coin, RightEdge(i, j)));
      InverseInvolution(Drawn(w, h, coin, RightEdge(i, j)));
    }
  }

  /** The generated grid has no INVALID side and a NEUTRAL frame. */
  lemma GeneratedIsCompleteAndFramed(w: nat, h: nat, coin: nat -> bool)
    ensures Complete(Generated(w, h, coin), w, h) && Framed(Generated(w, h, coin), w, h)
  {
    var g: Grid := Generated(w, h, coin);
    forall i, j | 0 <= i < w && 0 <= j < h
      ensures NoInvalidSide(g[i][j])
      ensures (j == 0 ==> g[i][j].up == Neutral) && (j == h - 1 ==> g[i][j].down == Neutral)
      ensures (i == 0 ==> g[i][j].left == Neutral) && (i == w - 1 ==> g[i][j].right == Neutral)
    {
      GeneratedPieceSides(w, h, coin, i, j);
    }
  }

  /** Each generated piece is NEUTRAL exactly on the outer ring and a tab or
      a blank everywhere else. */
  lemma GeneratedPieceSides(w: nat, h: nat, coin: nat -> bool, i: nat, j: nat)
    requires i < w && j < h
    ensures var p := GeneratedPiece(w, h, coin, i, j);
      (j == 0 ==> p.up == Neutral) && (j != 0 ==> IsCut(p.up)) &&
      (j == h - 1 ==> p.down == Neutral) && (j != h - 1 ==> IsCut(p.down)) &&
      (i == 0 ==> p.left == Neutral) && (i != 0 ==> IsCut(p.left)) &&
      (i == w - 1 ==> p.right == Neutral) && (i != w - 1 ==> IsCut(p.right))
  {
  }

  /** Every internal edge of the generated grid is a tab against a blank. */
  lemma GeneratedIsInterlocked(w: nat, h: nat, coin: nat -> bool)
    ensures Interlocked(Generated(w, h, coin), w, h)
  {
    forall i, j | 0 <= i < w && 0 <= j < h - 1
      ensures DownInterlocks(Generated(w, h, coin), w, h, i, j)
    {
      GeneratedPiecesInterlock(w, h, coin, i, j);
    }
    forall i, j | 0 <= i < w - 1 && 0 <= j < h
      ensures RightInterlocks(Generated(w, h, coin), w, h, i, j)
    {
      GeneratedPiecesInterlock(w, h, coin, i, j);
    }
  }

  /** Whatever the coins, the generated grid is a finished puzzle: no side
      INVALID, every internal edge a tab against a blank, the outer ring
      NEUTRAL. */
  lemma GeneratedIsTiled(w: nat, h: nat, coin: nat -> bool)
    ensures Tiled(Generated(w, h, coin), w, h)
  {
    GeneratedIsCompleteAndFramed(w, h, coin);
    GeneratedIsInterlocked(w, h, coin);
  }

  /** Two random sources that agree on the first `InternalEdges(w, h)` draws
      decide every internal edge alike. */
  lemma DrawnAgrees(w: nat, h: nat, c1: nat -> bool, c2: nat -> bool, e: Edge)
    requires w >= 1 && h >= 1 && IsInternal(e, w, h)
    requires forall k :: 0 <= k < InternalEdges(w, h) ==> c1(k) == c2(k)
    ensures Drawn(w, h, c1, e) == Drawn(w, h, c2, e)
  {
    DrawIndexBound(w, h, e);
  }

  /** Determinism: two random sources that agree on the first
      `InternalEdges(w, h)` draws give the same puzzle. */
  lemma GeneratedDependsOnDrawsOnly(w: nat, h: nat, c1: nat -> bool, c2: nat -> bool)
    requires w >= 1 && h >= 1
    requires forall k :: 0 <= k < InternalEdges(w, h) ==> c1(k) == c2(k)
    ensures Generated(w, h, c1) == Generated(w, h, c2)
  {
    forall i, j | 0 <= i < w && 0 <= j < h
      ensures GeneratedPiece(w, h, c1, i, j) == GeneratedPiece(w, h, c2, i, j)
    {
      if j + 1 < h { DrawnAgrees(w, h, c1, c2, DownEdge(i, j)); }
      if j > 0 { DrawnAgrees(w, h, c1, c2, DownEdge(i, j - 1)); }
      if i + 1 < w { DrawnAgrees(w, h, c1, c2, RightEdge(i, j)); }
      if i > 0 { DrawnAgrees(w, h, c1, c2, RightEdge(i - 1, j)); }
    }
    GridExtensionality(Generated(w, h, c1), Generated(w, h, c2), w, h);
  }

  /** Cell `(a, b)` visited before cell `(i, j)` in row-major order. */
  ghost predicate Visited(a: int, b: int, i: int, j: int) {
    a < i || (a == i && b < j)
  }

  /** The piece at `(a, b)` while the random pass is at `(i, j)` on an
      undecided framed grid that will end as `p`: a side is decided once it is
      on the outer ring or the cell that draws it has been visited. */
  ghost function Progress(p: Piece, a: int, b: int, w: int, h: int, i: int, j: int): Piece {
    Piece(
      up := if b == 0 || Visited(a, b - 1, i, j) then p.up else Invalid,
      down := if b == h - 1 || Visited(a, b, i, j) then p.down else Invalid,
      left := if a == 0 || Visited(a - 1, b, i, j) then p.left else Invalid,
      right := if a == w - 1 || Visited(a, b, i, j) then p.right else Invalid)
  }

  /** Before the random pass, an undecided grid with a NEUTRAL frame holds
      exactly the outer sides of the generated grid. */
  lemma ProgressAtStart(g: Grid, w: nat, h: nat, coin: nat -> bool)
    requires Shaped(g, w, h) && Undecided(g, w, h) && Framed(g, w, h)
    ensures forall a, b :: 0 <= a < w && 0 <= b < h ==>
      g[a][b] == Progress(GeneratedPiece(w, h, coin, a, b), a, b, w, h, 0, 0)
  {
  }

  /** Visiting `(i, j)` decides nothing outside `(i, j)` and the two cells it
      draws for. */
  lemma ProgressStable(p: Piece, a: int, b: int, w: int, h: int, i: int, j: int)
    requires (a, b) != (i, j) && (a, b) != (i, j + 1) && (a, b) != (i + 1, j)
    ensures Progress(p, a, b, w, h, i, j + 1) == Progress(p, a, b, w, h, i, j)
  {
  }

  /** Visiting `(i, j)` with the coins drawn so far decides its `down` and
      `right` sides as in the generated grid. */
  lemma VisitHere(w: nat, h: nat, coin: nat -> bool, i: nat, j: nat)
    requires i < w && j < h
    ensures var g := GeneratedPiece(w, h, coin, i, j);
      var p := Progress(g, i, j, w, h, i, j);
      var down := if p.down == Invalid then Choose(coin(DrawsBefore(w, h, i, j))) else p.down;
      var rightDraw := if p.down == Invalid then DrawsBefore(w, h, i, j) + 1 else DrawsBefore(w, h, i, j);
      var right := if p.right == Invalid then Choose(coin(rightDraw)) else p.right;
      p.up != Invalid && p.left != Invalid &&
      (p.down == Invalid <==> j + 1 < h) && (p.right == Invalid <==> i + 1 < w) &&
      p.(down := down, right := right) == g == Progress(g, i, j, w, h, i, j + 1) &&
      (if p.right == Invalid then rightDraw + 1 else rightDraw) == DrawsBefore(w, h, i, j + 1)
  {
  }

  /** ... and the `up` side of the cell below it. */
  lemma VisitBelow(w: nat, h: nat, coin: nat -> bool, i: nat, j: nat)
    requires i < w && j + 1 < h
    ensures var g := GeneratedPiece(w, h, coin, i, j + 1);
      Progress(g, i, j + 1, w, h, i, j).(up := Inverse(Choose(coin(DrawsBefore(w, h, i, j))))) ==
      Progress(g, i, j + 1, w, h, i, j + 1)
  {
  }

  /** ... and the `left` side of the cell to its right. */
  lemma VisitRight(w: nat, h: nat, coin: nat -> bool, i: nat, j: nat)
    requires i + 1 < w && j < h
    ensures var g := GeneratedPiece(w, h, coin, i + 1, j);
      var rightDraw := DrawsBefore(w, h, i, j) + (if j + 1 < h then 1 else 0);
      Progress(g, i + 1, j, w, h, i, j).(left := Inverse(Choose(coin(rightDraw)))) ==
      Progress(g, i + 1, j, w, h, i, j + 1)
  {
  }

  /** Finishing column `i` is starting column `i + 1`. */
  lemma ProgressNextColumn(p: Piece, a: int, b: int, w: int, h: int, i: int)
    requires 0 <= b < h
    ensures Progress(p, a, b, w, h, i, h) == Progress(p, a, b, w, h, i + 1, 0)
  {
  }

  /** After the last column every side holds its final value. */
  lemma ProgressDone(p: Piece, a: int, b: int, w: int, h: int)
    requires 0 <= a < w && 0 <= b < h
    ensures Progress(p, a, b, w, h, w, 0) == p
  {
  }

  /** The piece at `(a, c)` after the loop body of `generate_random` ran at
      `(i, j)` with `before` coins used: `q` is its piece before, `here` the
      piece at `(i, j)` before. */
  function VisitEffect(q: Piece, here: Piece, a: int, c: int, i: int, j: int,
                       before: nat, coin: nat -> bool): Piece
  {
    var down := if here.down == Invalid then Choose(coin(before)) else here.down;
    var rightDraw := if here.down == Invalid then before + 1 else before;
    var right := if here.right == Invalid then Choose(coin(rightDraw)) else here.right;
    if (a, c) == (i, j) then here.(down := down, right := right)
    else if (a, c) == (i, j + 1) && here.down == Invalid then q.(up := Inverse(down))
    else if (a, c) == (i + 1, j) && here.right == Invalid then q.(left := Inverse(right))
    else q
  }

  /** How many coins have been used after that loop body. */
  function VisitDraws(here: Piece, before: nat): nat {
    before + (if here.down == Invalid then 1 else 0) + (if here.right == Invalid then 1 else 0)
  }

  /** A visit that finds nothing INVALID at `(i, j)` changes nothing. */
  lemma VisitDecidedChangesNothing(q: Piece, here: Piece, a: int, c: int, i: int, j: int,
                                   before: nat, coin: nat -> bool)
    requires here.down != Invalid && here.right != Invalid
    requires (a, c) == (i, j) ==> q == here
    ensures VisitEffect(q, here, a, c, i, j, before, coin) == q
    ensures VisitDraws(here, before) == before
  {
  }

  /** Visiting `(i, j)` in the walk moves every piece from the progress
      before the visit to the progress after it. */
  lemma VisitProgress(w: nat, h: nat, coin: nat -> bool, i: nat, j: nat, a: nat, c: nat)
    requires i < w && j < h && a < w && c < h
    ensures var here := Progress(GeneratedPiece(w, h, coin, i, j), i, j, w, h, i, j);
      VisitEffect(Progress(GeneratedPiece(w, h, coin, a, c), a, c, w, h, i, j), here,
                  a, c, i, j, DrawsBefore(w, h, i, j), coin) ==
      Progress(GeneratedPiece(w, h, coin, a, c), a, c, w, h, i, j + 1)
  {
    VisitHere(w, h, coin, i, j);
    if (a, c) == (i, j + 1) {
      VisitBelow(w, h, coin, i, j);
    } else if (a, c) == (i + 1, j) {
      VisitRight(w, h, coin, i, j);
    } else if (a, c) != (i, j) {
      ProgressStable(GeneratedPiece(w, h, coin, a, c), a, c, w, h, i, j);
    }
  }
}
