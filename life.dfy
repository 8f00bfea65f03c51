/** The simulator half of the engine: the `livingCells` bookkeeping kept beside
    the grid, `toggleCellLive`, the two change lists of a generation and the
    timer tick that applies them. */
module Life {
  import opened Seqs
  import opened Grid

  /** The page's module-level state: the grid and the `livingCells` list. */
  datatype State = State(board: Board, livingCells: seq<Cell>)

  /** `livingCells` holds every live cell of the grid exactly once and nothing else. */
  predicate Mirrors(s: State) {
    && Distinct(s.livingCells)
    && (forall i | 0 <= i < |s.livingCells| ::
          IsCellOf(s.board, s.livingCells[i]) && s.livingCells[i].live)
    && (forall a, b | 0 <= a < |s.board.allCells| && 0 <= b < |s.board.allCells[a]| &&
          s.board.allCells[a][b].live :: s.board.allCells[a][b] in s.livingCells)
  }

  /** The invariant every operation of the engine keeps. */
  predicate Consistent(s: State) {
    WellFormed(s.board) && Mirrors(s)
  }

  /** A cell of the grid is listed exactly when it is live. */
  lemma ListedIffLive(s: State, e: Cell)
    requires Consistent(s) && IsCellOf(s.board, e)
    ensures e in s.livingCells <==> e.live
  {
    if e.live {
      CellOfIsOnGrid(s.board, e);
      assert s.board.allCells[e.x / 10][e.y / 10] == e;
    }
  }

  /** Two cells of the grid at the same position are the same record. */
  lemma SamePlaceSameCell(g: Board, e: Cell, p: Cell)
    requires IsCellOf(g, e) && IsCellOf(g, p) && e.x == p.x && e.y == p.y
    ensures e == p
  {
  }

  /** `livingCells.findIndex(...)`: the first entry at position (x, y), or -1.
      The source compares `JSON.stringify` images, after the searched cell has
      already been set dead; its own entry is the same object, so it is dead too,
      while every other entry is live (and at another position).  The image
      therefore matches exactly the entry at that position. */
  function IndexOf(cells: seq<Cell>, x: nat, y: nat): (r: int)
    ensures -1 <= r < |cells|
    ensures r >= 0 ==> cells[r].x == x && cells[r].y == y
    ensures r >= 0 ==> forall i | 0 <= i < r :: !(cells[i].x == x && cells[i].y == y)
    ensures r < 0 <==> forall i | 0 <= i < |cells| :: !(cells[i].x == x && cells[i].y == y)
  {
    if cells == [] then -1
    else if cells[0].x == x && cells[0].y == y then 0
    else
      var k := IndexOf(cells[1..], x, y);
      assert forall i | 1 <= i < |cells| :: cells[1..][i - 1] == cells[i];
      if k < 0 then -1 else k + 1
  }

  /** `splice(k, 1)`: removes entry `k`.  A start of -1 counts from the end, so
      the search's "not found" removes the last entry (and nothing from an empty list). */
  function SpliceOne(cells: seq<Cell>, k: int): (r: seq<Cell>)
    requires -1 <= k < |cells|
    ensures |r| == if cells == [] then 0 else |cells| - 1
    ensures k >= 0 ==> forall i | 0 <= i < |r| :: r[i] == if i < k then cells[i] else cells[i + 1]
    ensures k >= 0 ==> multiset(r) == multiset(cells) - multiset{cells[k]}
    ensures k < 0 && cells != [] ==> r + [cells[|cells| - 1]] == cells
  {
    var j := if k >= 0 then k else |cells| - 1;
    if cells == [] then []
    else
      assert cells == cells[..j] + [cells[j]] + cells[j + 1..];
      cells[..j] + cells[j + 1..]
  }

  /** The state after a dead cell at grid index (a, b) is made live and pushed. */
  function Birth(s: State, a: nat, b: nat): State
    requires a < |s.board.allCells| && b < |s.board.allCells[a]|
  {
    State(SetLive(s.board, a, b, true), s.livingCells + [s.board.allCells[a][b].(live := true)])
  }

  /** The state after a live cell at grid index (a, b) is made dead and entry `k`
      of `livingCells` spliced out. */
  function Death(s: State, a: nat, b: nat, k: int): State
    requires a < |s.board.allCells| && b < |s.board.allCells[a]| && -1 <= k < |s.livingCells|
  {
    State(SetLive(s.board, a, b, false), SpliceOne(s.livingCells, k))
  }

  lemma BirthKeepsMirror(s: State, a: nat, b: nat)
    requires Consistent(s) && a < |s.board.allCells| && b < |s.board.allCells[a]|
    requires !s.board.allCells[a][b].live
    ensures Consistent(Birth(s, a, b))
  {
    var g, r := s.board, Birth(s, a, b);
    var c := g.allCells[a][b];
    var born := c.(live := true);
    assert born !in s.livingCells by {
      forall i | 0 <= i < |s.livingCells| ensures s.livingCells[i] != born {
        if s.livingCells[i].x == born.x && s.livingCells[i].y == born.y {
          SamePlaceSameCell(g, s.livingCells[i], c);
        }
      }
    }
    forall i | 0 <= i < |r.livingCells| ensures IsCellOf(r.board, r.livingCells[i]) && r.livingCells[i].live {
      if i < |s.livingCells| {
        var e := s.livingCells[i];
        CellOfIsOnGrid(g, e);
        assert e.x / 10 != a || e.y / 10 != b;
      }
    }
    forall a', b' | 0 <= a' < |r.board.allCells| && 0 <= b' < |r.board.allCells[a']| &&
        r.board.allCells[a'][b'].live
      ensures r.board.allCells[a'][b'] in r.livingCells
    {
      if a' != a || b' != b {
        assert g.allCells[a'][b'] in s.livingCells;
      }
    }
  }

  /** Splicing out the entry of a cell of the grid keeps every other entry. */
  lemma SpliceKeepsOthers(l: seq<Cell>, k: nat, e: Cell)
    requires k < |l| && e in l && e != l[k]
    ensures e in SpliceOne(l, k)
  {
    var j :| 0 <= j < |l| && l[j] == e;
    var r := SpliceOne(l, k);
    if j < k {
      assert r[j] == e;
    } else {
      assert r[j - 1] == e;
    }
  }

  /** After the splice every remaining entry is still a live cell of the grid. */
  lemma DeathEntriesLive(s: State, a: nat, b: nat, k: nat)
    requires Consistent(s) && a < |s.board.allCells| && b < |s.board.allCells[a]|
    requires k < |s.livingCells| && s.livingCells[k] == s.board.allCells[a][b]
    ensures var r := Death(s, a, b, k);
      forall i | 0 <= i < |r.livingCells| :: IsCellOf(r.board, r.livingCells[i]) && r.livingCells[i].live
  {
    var g, r, l := s.board, Death(s, a, b, k), s.livingCells;
    forall i | 0 <= i < |r.livingCells| ensures IsCellOf(r.board, r.livingCells[i]) && r.livingCells[i].live {
      var e := l[if i < k then i else i + 1];
      assert r.livingCells[i] == e && e != g.allCells[a][b];
      CellOfIsOnGrid(g, e);
      assert e.x / 10 != a || e.y / 10 != b;
    }
  }

  /** After the splice every live cell of the grid still has its entry. */
  lemma DeathCoversLive(s: State, a: nat, b: nat, k: nat)
    requires Consistent(s) && a < |s.board.allCells| && b < |s.board.allCells[a]|
    requires k < |s.livingCells| && s.livingCells[k] == s.board.allCells[a][b]
    ensures var r := Death(s, a, b, k);
      forall a', b' | 0 <= a' < |r.board.allCells| && 0 <= b' < |r.board.allCells[a']| &&
        r.board.allCells[a'][b'].live :: r.board.allCells[a'][b'] in r.livingCells
  {
    var g, r := s.board, Death(s, a, b, k);
    forall a', b' | 0 <= a' < |r.board.allCells| && 0 <= b' < |r.board.allCells[a']| &&
        r.board.allCells[a'][b'].live
      ensures r.board.allCells[a'][b'] in r.livingCells
    {
      SpliceKeepsOthers(s.livingCells, k, g.allCells[a'][b']);
    }
  }

  lemma DeathKeepsMirror(s: State, a: nat, b: nat, k: nat)
    requires Consistent(s) && a < |s.board.allCells| && b < |s.board.allCells[a]|
    requires k < |s.livingCells| && s.livingCells[k] == s.board.allCells[a][b]
    ensures Consistent(Death(s, a, b, k))
  {
    var r, l := Death(s, a, b, k), s.livingCells;
    assert Distinct(r.livingCells) by {
      forall i, j | 0 <= i < j < |r.livingCells| ensures r.livingCells[i] != r.livingCells[j] {
        assert r.livingCells[i] == l[if i < k then i else i + 1];
        assert r.livingCells[j] == l[if j < k then j else j + 1];
      }
    }
    DeathEntriesLive(s, a, b, k);
    DeathCoversLive(s, a, b, k);
  }

  /** `toggleCellLive` (without the redraw): a dead cell is made live and pushed
      onto `livingCells`; a live one is made dead and the entry found for it is
      spliced out.  Only the cell's position is used: the record passed in may be
      stale.  Only the grid's shape is required; `ToggleKeepsConsistent` shows the
      list stays in step with the grid. */
  function Toggle(s: State, cell: Cell): (r: State)
    requires WellFormed(s.board) && OnGrid(s.board, cell)
    ensures WellFormed(r.board)
    ensures var a, b := cell.x / 10, cell.y / 10;
      r.board == SetLive(s.board, a, b, !s.board.allCells[a][b].live)
  {
    var a, b := cell.x / 10, cell.y / 10;
    var c := s.board.allCells[a][b];
    if !c.live then Birth(s, a, b)
    else Death(s, a, b, IndexOf(s.livingCells, cell.x, cell.y))
  }

  /** On a consistent state the toggle keeps the list in step with the grid: the
      search finds exactly the toggled cell's entry (the "not found" splice never
      happens), and the living cells gain or lose exactly that cell. */
  lemma ToggleKeepsConsistent(s: State, cell: Cell)
    requires Consistent(s) && OnGrid(s.board, cell)
    ensures Consistent(Toggle(s, cell))
    ensures var c := s.board.allCells[cell.x / 10][cell.y / 10];
      c.live ==> var k := IndexOf(s.livingCells, cell.x, cell.y); k >= 0 && s.livingCells[k] == c
    ensures var c := s.board.allCells[cell.x / 10][cell.y / 10];
      multiset(Toggle(s, cell).livingCells) ==
        if c.live then multiset(s.livingCells) - multiset{c}
        else multiset(s.livingCells) + multiset{c.(live := true)}
  {
    var a, b := cell.x / 10, cell.y / 10;
    var c := s.board.allCells[a][b];
    StoredIsCellOf(s.board, a, b);
    if !c.live {
      BirthKeepsMirror(s, a, b);
    } else {
      ListedIffLive(s, c);
      var i :| 0 <= i < |s.livingCells| && s.livingCells[i] == c;
      var k := IndexOf(s.livingCells, cell.x, cell.y);
      assert s.livingCells[i].x == cell.x && s.livingCells[i].y == cell.y;
      assert k >= 0;
      SamePlaceSameCell(s.board, s.livingCells[k], c);
      DeathKeepsMirror(s, a, b, k);
    }
  }

  /** Toggling changes the toggled cell's flag and no other cell. */
  lemma ToggleCellAt(s: State, cell: Cell, a: nat, b: nat)
    requires WellFormed(s.board) && OnGrid(s.board, cell)
    requires a < |s.board.allCells| && b < |s.board.allCells[a]|
    ensures Toggle(s, cell).board.allCells[a][b] ==
      if a == cell.x / 10 && b == cell.y / 10
      then s.board.allCells[a][b].(live := !s.board.allCells[a][b].live)
      else s.board.allCells[a][b]
  {
    var a0, b0 := cell.x / 10, cell.y / 10;
    SetLiveAt(s.board, a0, b0, !s.board.allCells[a0][b0].live, a, b);
  }

  /** A dead cell of the grid has no entry at its position in `livingCells`. */
  lemma NoEntryAtDeadCell(s: State, c: Cell)
    requires Consistent(s) && IsCellOf(s.board, c) && !c.live
    ensures forall i | 0 <= i < |s.livingCells| :: !(s.livingCells[i].x == c.x && s.livingCells[i].y == c.y)
  {
    forall i | 0 <= i < |s.livingCells| ensures !(s.livingCells[i].x == c.x && s.livingCells[i].y == c.y) {
      if s.livingCells[i].x == c.x && s.livingCells[i].y == c.y {
        SamePlaceSameCell(s.board, s.livingCells[i], c);
      }
    }
  }

  /** Searching for the position of an entry just pushed finds that entry when
      no earlier one is at its position. */
  lemma IndexOfPushed(cells: seq<Cell>, c: Cell)
    requires forall i | 0 <= i < |cells| :: !(cells[i].x == c.x && cells[i].y == c.y)
    ensures IndexOf(cells + [c], c.x, c.y) == |cells|
  {
    var d := cells + [c];
    assert forall i | 0 <= i < |cells| :: d[i] == cells[i];
    assert d[|cells|] == c;
  }

  /** Toggling the same cell twice restores the grid. */
  lemma ToggleTwiceBoard(s: State, cell: Cell)
    requires WellFormed(s.board) && OnGrid(s.board, cell)
    ensures Toggle(Toggle(s, cell), cell).board == s.board
  {
    var g := s.board;
    var a, b := cell.x / 10, cell.y / 10;
    var c := g.allCells[a][b];
    var f := c.(live := !c.live);
    var t := Toggle(s, cell);
    var u := Toggle(t, cell);
    assert t.board.allCells[a] == g.allCells[a][b := f];
    assert u.board.allCells[a] == g.allCells[a][b := f][b := c];
    assert g.allCells[a][b := f][b := c] == g.allCells[a];
    assert u.board.allCells == g.allCells[a := g.allCells[a]];
    assert u.board.allCells == g.allCells;
  }

  /** Toggling a dead cell twice gives back the very same state: the push and
      the splice cancel. */
  lemma ToggleTwiceFromDead(s: State, cell: Cell)
    requires Consistent(s) && OnGrid(s.board, cell)
    requires !s.board.allCells[cell.x / 10][cell.y / 10].live
    ensures Toggle(Toggle(s, cell), cell) == s
  {
    var g, l := s.board, s.livingCells;
    var a, b := cell.x / 10, cell.y / 10;
    var born := g.allCells[a][b].(live := true);
    var t := Toggle(s, cell);
    assert t == Birth(s, a, b);
    assert t.board.allCells[a][b] == born by {
      SetLiveAt(g, a, b, true, a, b);
    }
    assert IndexOf(t.livingCells, cell.x, cell.y) == |l| by {
      StoredIsCellOf(g, a, b);
      NoEntryAtDeadCell(s, g.allCells[a][b]);
      IndexOfPushed(l, born);
    }
    assert Toggle(t, cell) == Death(t, a, b, |l|);
    assert SpliceOne(t.livingCells, |l|) == l;
    ToggleTwiceBoard(s, cell);
  }

  /** Toggling a live cell twice restores the grid; its entry leaves its place in
      `livingCells` and comes back at the end. */
  lemma ToggleTwiceFromLive(s: State, cell: Cell)
    requires Consistent(s) && OnGrid(s.board, cell)
    requires s.board.allCells[cell.x / 10][cell.y / 10].live
    ensures var k := IndexOf(s.livingCells, cell.x, cell.y);
      && 0 <= k
      && Toggle(Toggle(s, cell), cell).livingCells ==
           SpliceOne(s.livingCells, k) + [s.board.allCells[cell.x / 10][cell.y / 10]]
    ensures multiset(Toggle(Toggle(s, cell), cell).livingCells) == multiset(s.livingCells)
  {
    var g, l := s.board, s.livingCells;
    var a, b := cell.x / 10, cell.y / 10;
    var c := g.allCells[a][b];
    var k := IndexOf(l, cell.x, cell.y);
    assert k >= 0 && l[k] == c by {
      ToggleKeepsConsistent(s, cell);
    }
    var t := Toggle(s, cell);
    assert t == Death(s, a, b, k);
    assert t.board.allCells[a][b] == c.(live := false) by {
      SetLiveAt(g, a, b, false, a, b);
    }
    assert Toggle(t, cell) == Birth(t, a, b);
    assert c.(live := false).(live := true) == c;
    var m := multiset(l);
    assert multiset(SpliceOne(l, k)) == m - multiset{c};
    assert c in m;
    assert m - multiset{c} + multiset{c} == m;
  }

  /** Toggling the same cell twice restores the grid and the living cells (as a
      multiset: a live cell's entry comes back at the end of the list). */
  lemma ToggleTwice(s: State, cell: Cell)
    requires Consistent(s) && OnGrid(s.board, cell)
    ensures Toggle(Toggle(s, cell), cell).board == s.board
    ensures multiset(Toggle(Toggle(s, cell), cell).livingCells) == multiset(s.livingCells)
  {
    ToggleTwiceBoard(s, cell);
    if s.board.allCells[cell.x / 10][cell.y / 10].live {
      ToggleTwiceFromLive(s, cell);
    } else {
      ToggleTwiceFromDead(s, cell);
    }
  }

  /** `cells.forEach(toggleCellLive)`: the toggles applied one after another. */
  function ApplyToggles(s: State, cells: seq<Cell>): (r: State)
    requires WellFormed(s.board) && forall i | 0 <= i < |cells| :: OnGrid(s.board, cells[i])
    ensures WellFormed(r.board)
    ensures r.board.width == s.board.width && r.board.height == s.board.height
    decreases |cells|
  {
    if cells == [] then s
    else
      var prefix := cells[..|cells| - 1];
      assert forall i | 0 <= i < |prefix| :: prefix[i] == cells[i];
      var last := cells[|cells| - 1];
      assert OnGrid(s.board, last);
      Toggle(ApplyToggles(s, prefix), last)
  }

  /** One more toggle at the end of the run. */
  lemma ApplyTogglesSnoc(s: State, cells: seq<Cell>, c: Cell)
    requires WellFormed(s.board) && forall i | 0 <= i < |cells| :: OnGrid(s.board, cells[i])
    requires OnGrid(s.board, c)
    ensures ApplyToggles(s, cells + [c]) == Toggle(ApplyToggles(s, cells), c)
  {
    assert (cells + [c])[..|cells|] == cells;
  }

  /** A run of toggles keeps the list in step with the grid. */
  lemma {:induction false} ApplyTogglesKeepsConsistent(s: State, cells: seq<Cell>)
    requires Consistent(s) && forall i | 0 <= i < |cells| :: OnGrid(s.board, cells[i])
    ensures Consistent(ApplyToggles(s, cells))
    decreases |cells|
  {
    if cells != [] {
      var n := |cells| - 1;
      var prefix, last := cells[..n], cells[n];
      assert cells == prefix + [last];
      assert forall i | 0 <= i < |prefix| :: prefix[i] == cells[i];
      ApplyTogglesKeepsConsistent(s, prefix);
      ApplyTogglesSnoc(s, prefix, last);
      ToggleKeepsConsistent(ApplyToggles(s, prefix), last);
    }
  }

  /** How many entries of `cells` sit at position (x, y). */
  function CountAt(cells: seq<Cell>, x: int, y: int): (r: nat)
    ensures r <= |cells|
  {
    if cells == [] then 0
    else Ind(cells[0].x == x && cells[0].y == y) + CountAt(cells[1..], x, y)
  }

  lemma {:induction false} CountAtAppend(c: seq<Cell>, d: seq<Cell>, x: int, y: int)
    ensures CountAt(c + d, x, y) == CountAt(c, x, y) + CountAt(d, x, y)
  {
    if c != [] {
      assert (c + d)[1..] == c[1..] + d;
      CountAtAppend(c[1..], d, x, y);
    } else {
      assert c + d == d;
    }
  }

  predicate Odd(n: nat) {
    n % 2 == 1
  }

  /** One more flip changes the parity exactly when it happens. */
  lemma OddStep(n: nat, total: nat, here: bool)
    requires total == n + Ind(here)
    ensures Odd(total) == (Odd(n) != here)
  {
  }

  /** After a run of toggles each cell has flipped once per entry at its position:
      it keeps its place and ends live exactly when it started live xor that
      number is odd. */
  lemma {:induction false} ToggledCell(s: State, cells: seq<Cell>, a: nat, b: nat)
    requires WellFormed(s.board) && forall i | 0 <= i < |cells| :: OnGrid(s.board, cells[i])
    requires a < |s.board.allCells| && b < |s.board.allCells[a]|
    ensures ApplyToggles(s, cells).board.allCells[a][b] ==
      Cell(10 * a, 10 * b, s.board.allCells[a][b].live != Odd(CountAt(cells, 10 * a, 10 * b)))
    decreases |cells|
  {
    if cells == [] {
      StoredIsCellOf(s.board, a, b);
    } else {
      var n := |cells| - 1;
      var prefix, last := cells[..n], cells[n];
      assert cells == prefix + [last];
      assert forall i | 0 <= i < |prefix| :: prefix[i] == cells[i];
      ToggledCell(s, prefix, a, b);
      ApplyTogglesSnoc(s, prefix, last);
      var t := ApplyToggles(s, prefix);
      var here := a == last.x / 10 && b == last.y / 10;
      var m := CountAt(prefix, 10 * a, 10 * b);
      ToggleCellAt(t, last, a, b);
      AlignedIndex(last.x, a);
      AlignedIndex(last.y, b);
      CountAtAppend(prefix, [last], 10 * a, 10 * b);
      assert CountAt([last], 10 * a, 10 * b) == Ind(here);
      var total := CountAt(cells, 10 * a, 10 * b);
      assert total == m + Ind(here);
      OddStep(m, total, here);
      var before := t.board.allCells[a][b];
      assert before == Cell(10 * a, 10 * b, s.board.allCells[a][b].live != Odd(m));
      var after := ApplyToggles(s, cells).board.allCells[a][b];
      var old_live := s.board.allCells[a][b].live;
      if here {
        assert after == before.(live := !before.live);
        assert after == Cell(10 * a, 10 * b, old_live != Odd(total));
      } else {
        assert after == before;
        assert after == Cell(10 * a, 10 * b, old_live != Odd(total));
      }
    }
  }

  /** Entries at a position that all equal one record `p`: a duplicate-free list
      has p there once if at all. */
  lemma {:induction false} CountAtUnique(cells: seq<Cell>, p: Cell)
    requires Distinct(cells)
    requires forall i | 0 <= i < |cells| :: cells[i].x == p.x && cells[i].y == p.y ==> cells[i] == p
    ensures CountAt(cells, p.x, p.y) == Ind(p in cells)
  {
    if cells != [] {
      var rest := cells[1..];
      assert forall i | 0 <= i < |rest| :: rest[i] == cells[i + 1];
      CountAtUnique(rest, p);
      assert p in cells <==> p == cells[0] || p in rest;
      if p == cells[0] {
        assert p !in rest;
      }
    }
  }

  /** A filter whose verdict on the entries at p's position is its verdict on p. */
  lemma {:induction false} CountAtFilter(cells: seq<Cell>, keep: Cell -> bool, p: Cell)
    requires forall i | 0 <= i < |cells| :: cells[i].x == p.x && cells[i].y == p.y ==> cells[i] == p
    ensures CountAt(Filter(cells, keep), p.x, p.y) == if keep(p) then CountAt(cells, p.x, p.y) else 0
  {
    if cells != [] {
      var rest := cells[1..];
      assert forall i | 0 <= i < |rest| :: rest[i] == cells[i + 1];
      CountAtFilter(rest, keep, p);
      if keep(cells[0]) {
        assert Filter(cells, keep) == [cells[0]] + Filter(rest, keep);
        assert ([cells[0]] + Filter(rest, keep))[1..] == Filter(rest, keep);
      }
    }
  }

  /** The number of live cells among cells of the grid is the number listed. */
  lemma {:induction false} LivingNeighborsCountsListed(s: State, ns: seq<Cell>)
    requires Consistent(s) && forall i | 0 <= i < |ns| :: IsCellOf(s.board, ns[i])
    ensures LivingNeighbors(ns) == CountIn(ns, s.livingCells)
  {
    if ns != [] {
      assert forall i | 0 <= i < |ns| - 1 :: ns[1..][i] == ns[i + 1];
      ListedIffLive(s, ns[0]);
      LivingNeighborsCountsListed(s, ns[1..]);
    }
  }

  /** The live-neighbour count the rule uses. */
  function Neighbours(s: State, c: Cell): nat {
    LivingNeighbors(FindNeighbors(s.board, c))
  }

  /** The `filter` inside `getDeadNeighbors`: keeps the cells that `livingCells.find`
      does not find (the comparison of `JSON.stringify` images is record equality). */
  function NotListed(s: State): Cell -> bool {
    n => n !in s.livingCells
  }

  /** The dead neighbours of one cell. */
  function DeadNeighborsOf(s: State, cell: Cell): seq<Cell> {
    Filter(FindNeighbors(s.board, cell), NotListed(s))
  }

  /** The `reduce` of `getDeadNeighbors` over `cells`: the concatenation of the
      dead-neighbour lists in order (the source folds from the left onto `[]`,
      which gives the same sequence). */
  function CollectDeadNeighbors(s: State, cells: seq<Cell>): seq<Cell> {
    if cells == [] then [] else DeadNeighborsOf(s, cells[0]) + CollectDeadNeighbors(s, cells[1..])
  }

  /** `getDeadNeighbors`: the dead neighbours of every living cell, with repetitions. */
  function GetDeadNeighbors(s: State): seq<Cell> {
    CollectDeadNeighbors(s, s.livingCells)
  }

  /** The `filter` of `findCellsToLive`. */
  function HasThreeNeighbours(s: State): Cell -> bool {
    c => Neighbours(s, c) == 3
  }

  /** `findCellsToLive`. */
  function FindCellsToLive(s: State): seq<Cell> {
    Filter(GetDeadNeighbors(s), HasThreeNeighbours(s))
  }

  /** The `filter` of `findCellsToKill`. */
  function ShouldDie(s: State): Cell -> bool {
    c => var count := Neighbours(s, c); count > 3 || count < 2
  }

  /** `findCellsToKill`. */
  function FindCellsToKill(s: State): seq<Cell> {
    Filter(s.livingCells, ShouldDie(s))
  }

  /** The dead neighbours collected for a list of grid cells are dead grid cells. */
  lemma {:induction false} CollectedAreDeadCells(s: State, cells: seq<Cell>)
    requires Consistent(s) && forall i | 0 <= i < |cells| :: IsCellOf(s.board, cells[i])
    ensures forall e | e in CollectDeadNeighbors(s, cells) :: IsCellOf(s.board, e) && !e.live
  {
    if cells != [] {
      assert forall i | 0 <= i < |cells| - 1 :: cells[1..][i] == cells[i + 1];
      CollectedAreDeadCells(s, cells[1..]);
      CellOfIsOnGrid(s.board, cells[0]);
      forall e | e in DeadNeighborsOf(s, cells[0]) ensures IsCellOf(s.board, e) && !e.live {
        NeighborsSound(s.board, cells[0], e);
        ListedIffLive(s, e);
      }
    }
  }

  /** `getDeadNeighbors` lists a cell of the grid once per live neighbour if it is
      dead and not at all if it is live: nothing is de-duplicated. */
  lemma {:induction false} CollectedCount(s: State, cells: seq<Cell>, p: Cell)
    requires Consistent(s) && IsCellOf(s.board, p)
    requires forall i | 0 <= i < |cells| :: IsCellOf(s.board, cells[i])
    ensures CountAt(CollectDeadNeighbors(s, cells), p.x, p.y) ==
      if p.live then 0 else CountIn(cells, FindNeighbors(s.board, p))
  {
    if cells != [] {
      var q, rest := cells[0], cells[1..];
      assert forall i | 0 <= i < |rest| :: rest[i] == cells[i + 1];
      CollectedCount(s, rest, p);
      CountAtAppend(DeadNeighborsOf(s, q), CollectDeadNeighbors(s, rest), p.x, p.y);
      var ns := FindNeighbors(s.board, q);
      CellOfIsOnGrid(s.board, q);
      NeighborsOf(s.board, q);
      forall i | 0 <= i < |ns| && ns[i].x == p.x && ns[i].y == p.y ensures ns[i] == p {
        SamePlaceSameCell(s.board, ns[i], p);
      }
      CountAtFilter(ns, NotListed(s), p);
      CountAtUnique(ns, p);
      ListedIffLive(s, p);
      NeighborsSymmetric(s.board, p, q);
    }
  }

  /** `getDeadNeighbors` lists each dead cell of the grid once per live neighbour
      and a live cell never: nothing is de-duplicated. */
  lemma DeadNeighborsCount(s: State, p: Cell)
    requires Consistent(s) && IsCellOf(s.board, p)
    ensures CountAt(GetDeadNeighbors(s), p.x, p.y) == if p.live then 0 else Neighbours(s, p)
  {
    CollectedCount(s, s.livingCells, p);
    var ns := FindNeighbors(s.board, p);
    CellOfIsOnGrid(s.board, p);
    NeighborsOf(s.board, p);
    CountInSymmetric(s.livingCells, ns);
    LivingNeighborsCountsListed(s, ns);
  }

  /** `findCellsToLive` lists only dead cells of the grid with exactly three live
      neighbours. */
  lemma BirthListMembers(s: State)
    requires Consistent(s)
    ensures forall e | e in FindCellsToLive(s) :: IsCellOf(s.board, e) && !e.live && Neighbours(s, e) == 3
  {
    CollectedAreDeadCells(s, s.livingCells);
  }

  /** `findCellsToLive` lists a cell of the grid three times if it is dead with
      exactly three live neighbours, and otherwise not at all. */
  lemma BirthCount(s: State, p: Cell)
    requires Consistent(s) && IsCellOf(s.board, p)
    ensures CountAt(FindCellsToLive(s), p.x, p.y) == if !p.live && Neighbours(s, p) == 3 then 3 else 0
  {
    var d := GetDeadNeighbors(s);
    CollectedAreDeadCells(s, s.livingCells);
    DeadNeighborsCount(s, p);
    forall i | 0 <= i < |d| && d[i].x == p.x && d[i].y == p.y ensures d[i] == p {
      assert d[i] in d;
      SamePlaceSameCell(s.board, d[i], p);
    }
    CountAtFilter(d, HasThreeNeighbours(s), p);
  }

  /** `findCellsToKill` holds exactly the live cells of the grid with fewer than
      two or more than three live neighbours. */
  lemma KillListMembers(s: State)
    requires Consistent(s)
    ensures forall e :: e in FindCellsToKill(s) <==>
      IsCellOf(s.board, e) && e.live && (Neighbours(s, e) < 2 || Neighbours(s, e) > 3)
  {
    forall e ensures e in FindCellsToKill(s) <==>
      IsCellOf(s.board, e) && e.live && (Neighbours(s, e) < 2 || Neighbours(s, e) > 3)
    {
      if IsCellOf(s.board, e) {
        ListedIffLive(s, e);
      }
    }
  }

  /** `findCellsToKill` lists each cell that dies once. */
  lemma KillCount(s: State, p: Cell)
    requires Consistent(s) && IsCellOf(s.board, p)
    ensures CountAt(FindCellsToKill(s), p.x, p.y) ==
      if p.live && (Neighbours(s, p) < 2 || Neighbours(s, p) > 3) then 1 else 0
  {
    var l := s.livingCells;
    forall i | 0 <= i < |l| && l[i].x == p.x && l[i].y == p.y ensures l[i] == p {
      SamePlaceSameCell(s.board, l[i], p);
    }
    CountAtFilter(l, ShouldDie(s), p);
    CountAtUnique(l, p);
    ListedIffLive(s, p);
  }

  /** Every entry of the two change lists is a cell of the grid. */
  lemma ChangesOnGrid(s: State)
    requires Consistent(s)
    ensures forall i | 0 <= i < |FindCellsToLive(s) + FindCellsToKill(s)| ::
      OnGrid(s.board, (FindCellsToLive(s) + FindCellsToKill(s))[i])
  {
    var m := FindCellsToLive(s) + FindCellsToKill(s);
    forall i | 0 <= i < |m| ensures OnGrid(s.board, m[i]) {
      if i < |FindCellsToLive(s)| {
        assert m[i] in FindCellsToLive(s);
        CollectedAreDeadCells(s, s.livingCells);
      } else {
        assert m[i] in FindCellsToKill(s);
      }
      CellOfIsOnGrid(s.board, m[i]);
    }
  }

  /** One tick of the timer (lines 207-212): both lists are computed from the
      state before the tick, then every entry of `live` followed by `kill` is toggled. */
  function AfterTick(s: State): (r: State)
    requires Consistent(s)
    ensures WellFormed(r.board)
    ensures r.board.width == s.board.width && r.board.height == s.board.height
  {
    ChangesOnGrid(s);
    ApplyToggles(s, FindCellsToLive(s) + FindCellsToKill(s))
  }

  /** A tick keeps the list in step with the grid. */
  lemma TickKeepsConsistent(s: State)
    requires Consistent(s)
    ensures Consistent(AfterTick(s))
  {
    ChangesOnGrid(s);
    ApplyTogglesKeepsConsistent(s, FindCellsToLive(s) + FindCellsToKill(s));
  }

  /** Conway's rule: a live cell survives with 2 or 3 live neighbours, a dead one
      is born with exactly 3. */
  predicate ConwayRule(alive: bool, neighbours: nat) {
    if alive then neighbours == 2 || neighbours == 3 else neighbours == 3
  }

  /** The number of toggles a cell gets decides Conway's rule. */
  lemma RuleFromCounts(alive: bool, neighbours: nat, births: nat, kills: nat)
    requires births == if !alive && neighbours == 3 then 3 else 0
    requires kills == if alive && (neighbours < 2 || neighbours > 3) then 1 else 0
    ensures (alive != Odd(births + kills)) == ConwayRule(alive, neighbours)
  {
  }

  /** One cell after a tick: same position, live as Conway's rule says, counted on
      the grid before the tick.  A cell born is toggled three times (once per copy
      in the birth list), a cell killed once, any other cell not at all. */
  lemma TickCell(s: State, a: nat, b: nat)
    requires Consistent(s) && a < |s.board.allCells| && b < |s.board.allCells[a]|
    ensures AfterTick(s).board.allCells[a][b] ==
      Cell(10 * a, 10 * b, ConwayRule(s.board.allCells[a][b].live, Neighbours(s, s.board.allCells[a][b])))
  {
    var live, kill := FindCellsToLive(s), FindCellsToKill(s);
    var p := s.board.allCells[a][b];
    StoredIsCellOf(s.board, a, b);
    ChangesOnGrid(s);
    ToggledCell(s, live + kill, a, b);
    BirthCount(s, p);
    KillCount(s, p);
    CountAtAppend(live, kill, p.x, p.y);
    var births, kills := CountAt(live, p.x, p.y), CountAt(kill, p.x, p.y);
    RuleFromCounts(p.live, Neighbours(s, p), births, kills);
    assert CountAt(live + kill, 10 * a, 10 * b) == births + kills;
    var rule := ConwayRule(p.live, Neighbours(s, p));
    assert (p.live != Odd(births + kills)) == rule;
    assert ApplyToggles(s, live + kill).board.allCells[a][b] == Cell(10 * a, 10 * b, rule);
    assert AfterTick(s) == ApplyToggles(s, live + kill);
  }

  /** A tick obeys Conway's rule on every cell of the grid. */
  lemma TickIsConway(s: State)
    requires Consistent(s)
    ensures forall a, b | 0 <= a < |s.board.allCells| && 0 <= b < |s.board.allCells[a]| ::
      AfterTick(s).board.allCells[a][b].live ==
        ConwayRule(s.board.allCells[a][b].live, Neighbours(s, s.board.allCells[a][b]))
  {
    forall a, b | 0 <= a < |s.board.allCells| && 0 <= b < |s.board.allCells[a]|
      ensures AfterTick(s).board.allCells[a][b].live ==
        ConwayRule(s.board.allCells[a][b].live, Neighbours(s, s.board.allCells[a][b]))
    {
      TickCell(s, a, b);
    }
  }

  /** Cells in neither list keep their whole record. */
  lemma TickLeavesOthers(s: State, a: nat, b: nat)
    requires Consistent(s) && a < |s.board.allCells| && b < |s.board.allCells[a]|
    requires CountAt(FindCellsToLive(s) + FindCellsToKill(s), 10 * a, 10 * b) == 0
    ensures AfterTick(s).board.allCells[a][b] == s.board.allCells[a][b]
  {
    ChangesOnGrid(s);
    ToggledCell(s, FindCellsToLive(s) + FindCellsToKill(s), a, b);
    StoredIsCellOf(s.board, a, b);
  }

  /** The next grid depends on the current grid only, not on the order in which
      `livingCells` happens to hold the live cells. */
  lemma TickDependsOnGridOnly(s: State, t: State)
    requires Consistent(s) && Consistent(t) && s.board == t.board
    ensures AfterTick(s).board == AfterTick(t).board
  {
    var g, gs, gt := s.board, AfterTick(s).board, AfterTick(t).board;
    forall a | 0 <= a < |g.allCells| ensures gs.allCells[a] == gt.allCells[a] {
      forall b | 0 <= b < |g.allCells[a]| ensures gs.allCells[a][b] == gt.allCells[a][b] {
        TickCellSameGrid(s, t, a, b);
      }
    }
    assert gs.allCells == gt.allCells;
  }

  /** One cell of `TickDependsOnGridOnly`. */
  lemma TickCellSameGrid(s: State, t: State, a: nat, b: nat)
    requires Consistent(s) && Consistent(t) && s.board == t.board
    requires a < |s.board.allCells| && b < |s.board.allCells[a]|
    ensures AfterTick(s).board.allCells[a][b] == AfterTick(t).board.allCells[a][b]
  {
    TickCell(s, a, b);
    TickCell(t, a, b);
    assert Neighbours(s, s.board.allCells[a][b]) == Neighbours(t, t.board.allCells[a][b]);
  }

  /** The first `n` entries of `cells` all lie on the grid. */
  predicate PrefixOnGrid(g: Board, cells: seq<Cell>, n: nat)
    requires n <= |cells|
  {
    forall i | 0 <= i < n :: OnGrid(g, cells[..n][i])
  }

  /** The page's globals as an object: `allCells`, `livingCells` and the canvas size. */
  class Game {
    const width: nat
    const height: nat
    var allCells: seq<seq<Cell>>
    var livingCells: seq<Cell>

    function Snapshot(): State
      reads this
    {
      State(Board(width, height, allCells), livingCells)
    }

    ghost predicate Valid()
      reads this
    {
      Consistent(Snapshot())
    }

    /** The cell part of `drawGrid` (lines 34-39) on a fresh page: one row per
        10 pixels of x, one dead cell per 10 pixels of y. */
    constructor (width: nat, height: nat)
      requires width == height && width % 10 == 0
      ensures Valid()
      ensures this.width == width && this.height == height
      ensures |allCells| == width / 10
      ensures forall a | 0 <= a < |allCells| :: |allCells[a]| == width / 10
      ensures forall a, b | 0 <= a < |allCells| && 0 <= b < |allCells[a]| ::
        allCells[a][b] == Cell(10 * a, 10 * b, false)
      ensures livingCells == []
    {
      this.width := width;
      this.height := height;
      var cells: seq<seq<Cell>> := [];
      var i: nat := 0;
      while i < width
        invariant i % 10 == 0 && i <= width
        invariant |cells| == i / 10
        invariant forall a | 0 <= a < |cells| :: |cells[a]| == width / 10
        invariant forall a, b | 0 <= a < |cells| && 0 <= b < |cells[a]| ::
          cells[a][b] == Cell(10 * a, 10 * b, false)
      {
        var row: seq<Cell> := [];
        var j: nat := 0;
        while j < width
          invariant j % 10 == 0 && j <= width
          invariant |row| == j / 10
          invariant forall b | 0 <= b < |row| :: row[b] == Cell(i, 10 * b, false)
        {
          row := row + [Cell(i, j, false)];
          j := j + 10;
        }
        cells := cells + [row];
        i := i + 10;
      }
      allCells := cells;
      livingCells := [];
    }

    /** `toggleCellLive`, in place. */
    method ToggleCellLive(cell: Cell)
      requires Valid() && OnGrid(Snapshot().board, cell)
      modifies this
      ensures Snapshot() == Toggle(old(Snapshot()), cell)
      ensures Valid()
    {
      ghost var s0 := Snapshot();
      ToggleKeepsConsistent(s0, cell);
      var a, b := cell.x / 10, cell.y / 10;
      var current := allCells[a][b];
      if !current.live {
        var born := current.(live := true);
        allCells := allCells[a := allCells[a][b := born]];
        livingCells := livingCells + [born];
        assert Snapshot() == Birth(s0, a, b);
      } else {
        allCells := allCells[a := allCells[a][b := current.(live := false)]];
        var k := IndexOf(livingCells, cell.x, cell.y);
        livingCells := SpliceOne(livingCells, k);
        assert Snapshot() == Death(s0, a, b, k);
      }
    }

    /** `toggleNeighbors`: toggles every listed cell in order. */
    method ToggleNeighbors(neighbors: seq<Cell>)
      requires Valid() && forall i | 0 <= i < |neighbors| :: OnGrid(Snapshot().board, neighbors[i])
      modifies this
      ensures Valid()
      ensures Snapshot() == ApplyToggles(old(Snapshot()), neighbors)
    {
      ghost var s0 := Snapshot();
      var i := 0;
      while i < |neighbors|
        invariant 0 <= i <= |neighbors|
        invariant PrefixOnGrid(s0.board, neighbors, i)
        invariant Snapshot() == ApplyToggles(s0, neighbors[..i])
      {
        assert Valid() by {
          ApplyTogglesKeepsConsistent(s0, neighbors[..i]);
        }
        ToggleCellLive(neighbors[i]);
        assert PrefixOnGrid(s0.board, neighbors, i + 1) && neighbors[..i + 1] == neighbors[..i] + [neighbors[i]];
        ApplyTogglesSnoc(s0, neighbors[..i], neighbors[i]);
        i := i + 1;
      }
      assert neighbors[..|neighbors|] == neighbors;
      ApplyTogglesKeepsConsistent(s0, neighbors);
    }

    /** The body of the `setInterval` callback in `gameLoop`: both change lists are
        computed before anything is toggled, then `modify` (here `changes`) is toggled entry by entry
        (the same `forEach` as `toggleNeighbors`). */
    method Tick()
      requires Valid()
      modifies this
      ensures Valid()
      ensures Snapshot() == AfterTick(old(Snapshot()))
    {
      var live := FindCellsToLive(Snapshot());
      var kill := FindCellsToKill(Snapshot());
      var changes := live + kill;
      ChangesOnGrid(Snapshot());
      ToggleNeighbors(changes);
    }
  }
}
