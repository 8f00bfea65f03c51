/** The grid half of the engine: the cell records, the grid the page keeps in
    its `allCells` variable, the coordinate lookup, the bounds check and the
    neighbour queries.  Coordinates are canvas pixels; every cell covers a
    10 x 10 pixel square whose top-left corner is its (x, y). */
module Grid {
  import opened Seqs

  /** A pixel position, possibly off the canvas (a neighbour candidate may be negative). */
  datatype Coords = Coords(x: int, y: int)

  /** The `{x, y, live}` record stored for every cell. */
  datatype Cell = Cell(x: nat, y: nat, live: bool)

  /** The canvas size in pixels and `allCells`, indexed `allCells[x / 10][y / 10]`. */
  datatype Board = Board(width: nat, height: nat, allCells: seq<seq<Cell>>)

  /** The shape the construction loop gives `allCells`: a square canvas whose side
      is a multiple of 10, one row per 10 pixels of x, one cell per 10 pixels of y,
      and the cell at `[a][b]` placed at pixel (10a, 10b). */
  predicate WellFormed(g: Board) {
    && g.width == g.height
    && g.width % 10 == 0
    && |g.allCells| == g.width / 10
    && (forall a | 0 <= a < |g.allCells| :: |g.allCells[a]| == |g.allCells|)
    && (forall a, b | 0 <= a < |g.allCells| && 0 <= b < |g.allCells[a]| ::
          g.allCells[a][b].x == 10 * a && g.allCells[a][b].y == 10 * b)
  }

  /** `c` carries the coordinates of some cell of the grid (its live flag may be stale). */
  predicate OnGrid(g: Board, c: Cell) {
    c.x % 10 == 0 && c.y % 10 == 0 && c.x < g.width && c.y < g.height
  }

  /** `e` is, field for field, the record the grid currently stores at e's position. */
  predicate IsCellOf(g: Board, e: Cell) {
    e.x / 10 < |g.allCells| && e.y / 10 < |g.allCells[e.x / 10]| && g.allCells[e.x / 10][e.y / 10] == e
  }

  /** The record stored at `[a][b]` is a cell of the grid, at pixel (10a, 10b). */
  lemma StoredIsCellOf(g: Board, a: nat, b: nat)
    requires WellFormed(g) && a < |g.allCells| && b < |g.allCells[a]|
    ensures IsCellOf(g, g.allCells[a][b])
    ensures g.allCells[a][b].x == 10 * a && g.allCells[a][b].y == 10 * b
  {
    assert (10 * a) / 10 == a && (10 * b) / 10 == b;
  }

  /** The grid with the live flag of the cell at `[a][b]` set to `v`. */
  function SetLive(g: Board, a: nat, b: nat, v: bool): (r: Board)
    requires a < |g.allCells| && b < |g.allCells[a]|
    ensures r.width == g.width && r.height == g.height
    ensures WellFormed(g) ==> WellFormed(r)
  {
    g.(allCells := g.allCells[a := g.allCells[a][b := g.allCells[a][b].(live := v)]])
  }

  /** Setting one flag changes that cell's flag and nothing else on the grid. */
  lemma SetLiveAt(g: Board, a: nat, b: nat, v: bool, a': nat, b': nat)
    requires a < |g.allCells| && b < |g.allCells[a]|
    requires a' < |g.allCells| && b' < |g.allCells[a']|
    ensures SetLive(g, a, b, v).allCells[a'][b'] ==
      if a' == a && b' == b then g.allCells[a][b].(live := v) else g.allCells[a'][b']
  {
  }

  /** A multiple of 10 divided by 10 is the index it names. */
  lemma AlignedIndex(x: nat, a: nat)
    requires x % 10 == 0
    ensures (x / 10 == a) == (x == 10 * a)
  {
  }

  /** `findCell`: the cell whose square contains pixel (x, y).  JavaScript's
      `allCells[x][y]` on a missing index is `undefined` (or a TypeError); that is `None`.
      Dafny's `/` by 10 rounds down, as `Math.floor` does. */
  function FindCell(g: Board, x: int, y: int): Option<Cell> {
    var a := x / 10;
    var b := y / 10;
    if 0 <= a < |g.allCells| && 0 <= b < |g.allCells[a]| then Some(g.allCells[a][b]) else None
  }

  lemma CellOfIsOnGrid(g: Board, e: Cell)
    requires WellFormed(g) && IsCellOf(g, e)
    ensures OnGrid(g, e)
    ensures e.x == 10 * (e.x / 10) && e.y == 10 * (e.y / 10)
  {
  }

  /** `findCell` returns exactly the cell whose 10 x 10 square holds the pixel,
      and misses exactly the pixels off the canvas. */
  lemma FindCellLocates(g: Board, x: int, y: int, c: Cell)
    requires WellFormed(g)
    ensures FindCell(g, x, y) == Some(c) <==>
              IsCellOf(g, c) && c.x <= x < c.x + 10 && c.y <= y < c.y + 10
    ensures FindCell(g, x, y).None? <==> x < 0 || y < 0 || x >= g.width || y >= g.height
  {
    if IsCellOf(g, c) && c.x <= x < c.x + 10 && c.y <= y < c.y + 10 {
      CellOfIsOnGrid(g, c);
      assert x / 10 == c.x / 10 && y / 10 == c.y / 10;
    }
  }

  /** A cell record looked up by its own coordinates is found again. */
  lemma FindCellOfCell(g: Board, c: Cell)
    requires WellFormed(g) && IsCellOf(g, c)
    ensures FindCell(g, c.x, c.y) == Some(c)
  {
    FindCellLocates(g, c.x, c.y, c);
  }

  /** `withinBounds`: the four early returns of the source, in order. */
  function WithinBounds(g: Board, c: Coords): bool {
    if c.x > g.width - 10 then false
    else if c.x < 0 then false
    else if c.y > g.height - 10 then false
    else if c.y < 0 then false
    else true
  }

  /** On a grid-aligned position the bounds check is the closed range
      0 <= x <= width - 10, 0 <= y <= height - 10, and it accepts exactly the
      positions that name a cell: the "- 10" is what makes it agree with the grid. */
  lemma WithinBoundsNamesCell(g: Board, c: Coords)
    requires WellFormed(g) && c.x % 10 == 0 && c.y % 10 == 0
    ensures WithinBounds(g, c) <==> 0 <= c.x <= g.width - 10 && 0 <= c.y <= g.height - 10
    ensures WithinBounds(g, c) <==> FindCell(g, c.x, c.y).Some?
    ensures WithinBounds(g, c) ==>
              FindCell(g, c.x, c.y).value.x == c.x && FindCell(g, c.x, c.y).value.y == c.y
  {
  }

  /** The eight candidate positions of `findNeighbors`, in the source's order. */
  function NeighborCoords(c: Cell): seq<Coords> {
    [ Coords(c.x - 10, c.y),
      Coords(c.x + 10, c.y),
      Coords(c.x, c.y + 10),
      Coords(c.x, c.y - 10),
      Coords(c.x - 10, c.y + 10),
      Coords(c.x + 10, c.y + 10),
      Coords(c.x - 10, c.y - 10),
      Coords(c.x + 10, c.y - 10) ]
  }

  /** `withinBounds` as the predicate handed to `filter`. */
  function InBounds(g: Board): Coords -> bool {
    c => WithinBounds(g, c)
  }

  /** `neighborCoords.filter(withinBounds)`. */
  function BoundedNeighborCoords(g: Board, cell: Cell): seq<Coords> {
    Filter(NeighborCoords(cell), InBounds(g))
  }

  /** `.map(findCell)`: looks every position up.  On a well-formed grid every position
      that passed the bounds check names a cell, so the `None` case never arises. */
  function CellsAt(g: Board, cs: seq<Coords>): (r: seq<Cell>)
    ensures |r| <= |cs|
    ensures (forall i | 0 <= i < |cs| :: FindCell(g, cs[i].x, cs[i].y).Some?) ==>
              |r| == |cs| && forall i | 0 <= i < |cs| :: FindCell(g, cs[i].x, cs[i].y) == Some(r[i])
  {
    if cs == [] then []
    else
      var rest := CellsAt(g, cs[1..]);
      assert forall i | 0 <= i < |cs| - 1 :: cs[1..][i] == cs[i + 1];
      match FindCell(g, cs[0].x, cs[0].y)
      case Some(c) => [c] + rest
      case None => rest
  }

  /** `findNeighbors`: the grid cells at the in-bounds candidate positions. */
  function FindNeighbors(g: Board, cell: Cell): (r: seq<Cell>)
    ensures |r| <= 8
  {
    CellsAt(g, BoundedNeighborCoords(g, cell))
  }

  /** `e` is at Chebyshev distance at most 10 from `q` and is not at q's position. */
  predicate Near(q: Cell, e: Cell) {
    && e.x <= q.x + 10 && q.x <= e.x + 10
    && e.y <= q.y + 10 && q.y <= e.y + 10
    && (e.x != q.x || e.y != q.y)
  }

  /** The candidates of a grid-aligned cell are grid-aligned. */
  lemma AlignedNeighbors(q: Cell)
    requires q.x % 10 == 0 && q.y % 10 == 0
    ensures forall c | c in NeighborCoords(q) :: c.x % 10 == 0 && c.y % 10 == 0
  {
    var qa, qb := q.x / 10, q.y / 10;
    assert q.x == 10 * qa && q.y == 10 * qb;
  }

  /** Every position kept by the bounds filter is grid-aligned and names a cell. */
  lemma BoundedNamesCells(g: Board, q: Cell)
    requires WellFormed(g) && OnGrid(g, q)
    ensures forall c | c in BoundedNeighborCoords(g, q) ::
              c in NeighborCoords(q) && WithinBounds(g, c) && c.x % 10 == 0 && c.y % 10 == 0
    ensures forall c | c in BoundedNeighborCoords(g, q) :: FindCell(g, c.x, c.y).Some?
  {
    AlignedNeighbors(q);
    var f := BoundedNeighborCoords(g, q);
    assert forall c | c in f :: c in NeighborCoords(q) && WithinBounds(g, c);
    forall c | c in f
      ensures FindCell(g, c.x, c.y).Some?
    {
      WithinBoundsNamesCell(g, c);
    }
  }

  /** The eight candidate positions are pairwise different. */
  lemma NeighborCoordsDistinct(q: Cell)
    ensures Distinct(NeighborCoords(q))
  {
  }

  /** No cell is listed twice. */
  lemma NeighborsDistinct(g: Board, q: Cell)
    requires WellFormed(g) && OnGrid(g, q)
    ensures Distinct(FindNeighbors(g, q))
  {
    var f := BoundedNeighborCoords(g, q);
    var r := FindNeighbors(g, q);
    NeighborCoordsDistinct(q);
    BoundedNamesCells(g, q);
    assert forall i | 0 <= i < |f| :: f[i] in f;
    forall i, j | 0 <= i < j < |r| ensures r[i] != r[j] {
      WithinBoundsNamesCell(g, f[i]);
      WithinBoundsNamesCell(g, f[j]);
    }
  }

  /** Each candidate position is at Chebyshev distance 10 from the cell. */
  lemma CandidateNear(q: Cell, c: Coords)
    requires c in NeighborCoords(q)
    ensures c.x <= q.x + 10 && q.x <= c.x + 10 && c.y <= q.y + 10 && q.y <= c.y + 10
    ensures c.x != q.x || c.y != q.y
  {
  }

  /** Every listed cell is a cell of the grid at Chebyshev distance 10. */
  lemma NeighborsSound(g: Board, q: Cell, e: Cell)
    requires WellFormed(g) && OnGrid(g, q) && e in FindNeighbors(g, q)
    ensures IsCellOf(g, e) && Near(q, e)
  {
    var f := BoundedNeighborCoords(g, q);
    var r := FindNeighbors(g, q);
    assert |r| == |f| && forall k | 0 <= k < |f| :: FindCell(g, f[k].x, f[k].y) == Some(r[k]) by {
      BoundedNamesCells(g, q);
      assert forall k | 0 <= k < |f| :: f[k] in f;
    }
    var i :| 0 <= i < |r| && r[i] == e;
    var c := f[i];
    assert c in NeighborCoords(q) && WithinBounds(g, c) && c.x % 10 == 0 && c.y % 10 == 0 by {
      BoundedNamesCells(g, q);
      assert c in f;
    }
    assert e.x == c.x && e.y == c.y by {
      WithinBoundsNamesCell(g, c);
    }
    assert IsCellOf(g, e) by {
      FindCellLocates(g, c.x, c.y, e);
    }
    CandidateNear(q, c);
  }

  /** A grid-aligned position near a grid-aligned cell is one of its eight candidates. */
  lemma NearIsCandidate(q: Cell, e: Cell)
    requires q.x % 10 == 0 && q.y % 10 == 0 && e.x % 10 == 0 && e.y % 10 == 0 && Near(q, e)
    ensures Coords(e.x, e.y) in NeighborCoords(q)
  {
    var ea, eb, qa, qb := e.x / 10, e.y / 10, q.x / 10, q.y / 10;
    assert e.x == 10 * ea && e.y == 10 * eb && q.x == 10 * qa && q.y == 10 * qb;
    assert ea - qa in {-1, 0, 1} && eb - qb in {-1, 0, 1};
    var cs := NeighborCoords(q);
    if ea == qa - 1 {
      if eb == qb - 1 { assert Coords(e.x, e.y) == cs[6]; }
      else if eb == qb { assert Coords(e.x, e.y) == cs[0]; }
      else { assert Coords(e.x, e.y) == cs[4]; }
    } else if ea == qa {
      if eb == qb - 1 { assert Coords(e.x, e.y) == cs[3]; }
      else { assert Coords(e.x, e.y) == cs[2]; }
    } else {
      if eb == qb - 1 { assert Coords(e.x, e.y) == cs[7]; }
      else if eb == qb { assert Coords(e.x, e.y) == cs[1]; }
      else { assert Coords(e.x, e.y) == cs[5]; }
    }
  }

  /** Every cell of the grid at Chebyshev distance 10 is listed. */
  lemma NeighborsComplete(g: Board, q: Cell, e: Cell)
    requires WellFormed(g) && OnGrid(g, q) && IsCellOf(g, e) && Near(q, e)
    ensures e in FindNeighbors(g, q)
  {
    var f := BoundedNeighborCoords(g, q);
    var r := FindNeighbors(g, q);
    assert |r| == |f| && forall k | 0 <= k < |f| :: FindCell(g, f[k].x, f[k].y) == Some(r[k]) by {
      BoundedNamesCells(g, q);
      assert forall k | 0 <= k < |f| :: f[k] in f;
    }
    var c := Coords(e.x, e.y);
    assert c in f by {
      CellOfIsOnGrid(g, e);
      NearIsCandidate(q, e);
      WithinBoundsNamesCell(g, c);
    }
    var i :| 0 <= i < |f| && f[i] == c;
    assert FindCell(g, c.x, c.y) == Some(e) by {
      FindCellOfCell(g, e);
    }
    assert r[i] == e;
  }

  /** `findNeighbors` returns, without repetition, exactly the cells of the grid at
      Chebyshev distance 10 from the given cell: no wraparound, never the cell itself. */
  lemma NeighborsOf(g: Board, q: Cell)
    requires WellFormed(g) && OnGrid(g, q)
    ensures Distinct(FindNeighbors(g, q))
    ensures forall e :: e in FindNeighbors(g, q) <==> IsCellOf(g, e) && Near(q, e)
  {
    NeighborsDistinct(g, q);
    forall e ensures e in FindNeighbors(g, q) <==> IsCellOf(g, e) && Near(q, e) {
      if e in FindNeighbors(g, q) {
        NeighborsSound(g, q, e);
      }
      if IsCellOf(g, e) && Near(q, e) {
        NeighborsComplete(g, q, e);
      }
    }
  }

  /** Being neighbours is symmetric. */
  lemma NeighborsSymmetric(g: Board, p: Cell, q: Cell)
    requires WellFormed(g) && IsCellOf(g, p) && IsCellOf(g, q)
    ensures p in FindNeighbors(g, q) <==> q in FindNeighbors(g, p)
  {
    CellOfIsOnGrid(g, p);
    CellOfIsOnGrid(g, q);
    NeighborsOf(g, p);
    NeighborsOf(g, q);
  }

  /** How many of the columns (or rows) p - 10, p, p + 10 lie on a canvas of side w. */
  function Span(p: nat, w: nat): nat {
    1 + Ind(p > 0) + Ind(p + 10 < w)
  }

  /** On the first or last row (column) of a canvas of side w. */
  predicate OnBorder(p: nat, w: nat) {
    p == 0 || p + 10 == w
  }

  /** The number of kept candidates, one term per candidate. */
  lemma BoundedCount(g: Board, q: Cell)
    ensures var cs := NeighborCoords(q);
      |BoundedNeighborCoords(g, q)| ==
        Ind(WithinBounds(g, cs[0])) + Ind(WithinBounds(g, cs[1])) + Ind(WithinBounds(g, cs[2])) +
        Ind(WithinBounds(g, cs[3])) + Ind(WithinBounds(g, cs[4])) + Ind(WithinBounds(g, cs[5])) +
        Ind(WithinBounds(g, cs[6])) + Ind(WithinBounds(g, cs[7]))
  {
    FilterLength8(NeighborCoords(q), InBounds(g));
  }

  /** `.map(findCell)` loses no position. */
  lemma NeighborsLength(g: Board, q: Cell)
    requires WellFormed(g) && OnGrid(g, q)
    ensures |FindNeighbors(g, q)| == |BoundedNeighborCoords(g, q)|
  {
    BoundedNamesCells(g, q);
    assert forall i | 0 <= i < |BoundedNeighborCoords(g, q)| ::
      BoundedNeighborCoords(g, q)[i] in BoundedNeighborCoords(g, q);
  }

  /** The clipped 3 x 3 block, counted row by row or cell by cell. */
  lemma BlockCount(l: bool, r: bool, u: bool, d: bool)
    ensures (1 + Ind(l) + Ind(r)) * (1 + Ind(u) + Ind(d)) - 1 ==
      Ind(l) + Ind(r) + Ind(d) + Ind(u) + Ind(l && d) + Ind(r && d) + Ind(l && u) + Ind(r && u)
  {
  }

  /** The number of neighbours is the in-bounds part of the 3 x 3 block around the
      cell, less the cell itself. */
  lemma NeighborSpan(g: Board, q: Cell)
    requires WellFormed(g) && OnGrid(g, q)
    ensures |FindNeighbors(g, q)| == Span(q.x, g.width) * Span(q.y, g.height) - 1
  {
    NeighborsLength(g, q);
    BoundedCount(g, q);
    CandidatesInBounds(g, q);
    BlockCount(q.x > 0, q.x + 10 < g.width, q.y > 0, q.y + 10 < g.height);
  }

  /** The clipped block sizes at a corner, on an edge and inside a canvas of side w;
      on a canvas of one cell the block is the cell alone. */
  lemma SpanClasses(w: nat, x: nat, y: nat, n: int)
    requires w % 10 == 0 && x % 10 == 0 && y % 10 == 0 && x < w && y < w
    requires n == Span(x, w) * Span(y, w) - 1
    ensures w == 10 ==> n == 0
    ensures w >= 20 && OnBorder(x, w) && OnBorder(y, w) ==> n == 3
    ensures OnBorder(x, w) && 0 < y && y + 10 < w ==> n == 5
    ensures OnBorder(y, w) && 0 < x && x + 10 < w ==> n == 5
    ensures 0 < x && x + 10 < w && 0 < y && y + 10 < w ==> n == 8
  {
    var sx, sy := Span(x, w), Span(y, w);
    if w == 10 {
      assert x == 0 && y == 0;
      assert sx == 1 && sy == 1;
    }
    if w >= 20 && OnBorder(x, w) && OnBorder(y, w) {
      assert sx == 2 && sy == 2;
    }
    if OnBorder(x, w) && 0 < y && y + 10 < w {
      assert sx == 2 && sy == 3;
    }
    if OnBorder(y, w) && 0 < x && x + 10 < w {
      assert sx == 3 && sy == 2;
    }
    if 0 < x && x + 10 < w && 0 < y && y + 10 < w {
      assert sx == 3 && sy == 3;
    }
  }

  /** 3 neighbours at a corner, 5 on an edge, 8 inside, none on a one-cell grid. */
  lemma NeighborCount(g: Board, q: Cell)
    requires WellFormed(g) && OnGrid(g, q)
    ensures g.width == 10 ==> |FindNeighbors(g, q)| == 0
    ensures g.width >= 20 && OnBorder(q.x, g.width) && OnBorder(q.y, g.height) ==>
              |FindNeighbors(g, q)| == 3
    ensures OnBorder(q.x, g.width) && 0 < q.y && q.y + 10 < g.height ==> |FindNeighbors(g, q)| == 5
    ensures OnBorder(q.y, g.height) && 0 < q.x && q.x + 10 < g.width ==> |FindNeighbors(g, q)| == 5
    ensures 0 < q.x && q.x + 10 < g.width && 0 < q.y && q.y + 10 < g.height ==>
              |FindNeighbors(g, q)| == 8
  {
    NeighborSpan(g, q);
    SpanClasses(g.width, q.x, q.y, |FindNeighbors(g, q)|);
  }

  /** Which of the eight candidates of a cell pass the bounds check. */
  lemma CandidatesInBounds(g: Board, q: Cell)
    requires WellFormed(g) && OnGrid(g, q)
    ensures var cs := NeighborCoords(q);
      var l, r := q.x > 0, q.x + 10 < g.width;
      var u, d := q.y > 0, q.y + 10 < g.height;
      && WithinBounds(g, cs[0]) == l
      && WithinBounds(g, cs[1]) == r
      && WithinBounds(g, cs[2]) == d
      && WithinBounds(g, cs[3]) == u
      && WithinBounds(g, cs[4]) == (l && d)
      && WithinBounds(g, cs[5]) == (r && d)
      && WithinBounds(g, cs[6]) == (l && u)
      && WithinBounds(g, cs[7]) == (r && u)
  {
    var qa, qb, n := q.x / 10, q.y / 10, g.width / 10;
    assert q.x == 10 * qa && q.y == 10 * qb && g.width == 10 * n && g.height == 10 * n;
  }

  /** `livingNeighbors`: how many of the given cells are live. */
  function LivingNeighbors(ns: seq<Cell>): (r: nat)
    ensures r <= |ns|
    ensures r == 0 <==> forall i | 0 <= i < |ns| :: !ns[i].live
    ensures r == |ns| <==> forall i | 0 <= i < |ns| :: ns[i].live
  {
    if ns == [] then 0
    else
      assert forall i | 0 <= i < |ns| - 1 :: ns[1..][i] == ns[i + 1];
      (if ns[0].live then 1 else 0) + LivingNeighbors(ns[1..])
  }
}
