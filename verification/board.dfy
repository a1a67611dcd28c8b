/**
 * The pure part of the Minesweeper engine: a cell's three flags, the
 * keying of cells by position, the eight-way neighbourhood, the mine count
 * around a cell and the win test. Everything here is a function of the
 * game's cell map, which the game keeps as a sequence in key order.
 */
module Board {
  import opened Wrappers

  /** The game state of one square. Its position is its key in the cell map. */
  datatype Cell = Cell(isMine: bool, isClicked: bool, flagged: bool)
  {
    /**
     * `Cell.prototype.set`: copies the given fields onto the cell and keeps
     * the others. Nothing in the game calls it (`setCell` builds a new cell),
     * so it stands alone here with its two lemmas.
     */
    function Set(patch: CellPatch): (c: Cell)
      ensures patch.isMine.Some? ==> c.isMine == patch.isMine.value
      ensures patch.isMine.None? ==> c.isMine == isMine
      ensures patch.isClicked.Some? ==> c.isClicked == patch.isClicked.value
      ensures patch.isClicked.None? ==> c.isClicked == isClicked
      ensures patch.flagged.Some? ==> c.flagged == patch.flagged.value
      ensures patch.flagged.None? ==> c.flagged == flagged
    {
      Cell(Apply(isMine, patch.isMine), Apply(isClicked, patch.isClicked), Apply(flagged, patch.flagged))
    }
  }

  /** An object literal of cell fields: a field that is absent is None. */
  datatype CellPatch = CellPatch(isMine: Option<bool>, isClicked: Option<bool>, flagged: Option<bool>)

  function Apply(current: bool, given: Option<bool>): bool
  {
    match given
    case None => current
    case Some(v) => v
  }

  /** A freshly created cell, and the state a cell's reset returns it to. */
  const NEW_CELL := Cell(false, false, false)

  lemma SetIsIdempotent(c: Cell, patch: CellPatch)
    ensures c.Set(patch).Set(patch) == c.Set(patch)
  {
  }

  lemma SetEmptyPatchKeepsCell(c: Cell)
    ensures c.Set(CellPatch(None, None, None)) == c
  {
  }

  // ---------------------------------------------------------------------------
  // Counting cells

  /** The attributes the engine counts over the cell map. */
  datatype Attr = Mine | Unclicked | Flagged

  predicate Has(c: Cell, a: Attr)
  {
    match a
    case Mine => c.isMine
    case Unclicked => !c.isClicked
    case Flagged => c.flagged
  }

  /** The number of cells of `s` that have attribute `a`. */
  function Count(s: seq<Cell>, a: Attr): (n: nat)
    ensures n <= |s|
    ensures n == 0 <==> forall i :: 0 <= i < |s| ==> !Has(s[i], a)
    ensures n == |s| <==> forall i :: 0 <= i < |s| ==> Has(s[i], a)
  {
    if s == [] then 0
    else
      var rest := Count(s[1..], a);
      assert forall i :: 1 <= i < |s| ==> s[i] == s[1..][i - 1];
      (if Has(s[0], a) then 1 else 0) + rest
  }

  lemma {:induction false} CountAppend(s: seq<Cell>, t: seq<Cell>, a: Attr)
    ensures Count(s + t, a) == Count(s, a) + Count(t, a)
  {
    if s == [] {
      assert s + t == t;
    } else {
      assert (s + t)[1..] == s[1..] + t;
      CountAppend(s[1..], t, a);
    }
  }

  /** Replacing one cell changes the count by what that cell contributes. */
  lemma {:induction false} CountUpdate(s: seq<Cell>, i: nat, c: Cell, a: Attr)
    requires i < |s|
    ensures Count(s[i := c], a)
            == Count(s, a) - (if Has(s[i], a) then 1 else 0) + (if Has(c, a) then 1 else 0)
  {
    if i > 0 {
      assert s[i := c][1..] == s[1..][i - 1 := c];
      CountUpdate(s[1..], i - 1, c, a);
    }
  }

  /** Two maps that agree on an attribute cell by cell have the same count of it. */
  lemma {:induction false} CountSame(s: seq<Cell>, t: seq<Cell>, a: Attr)
    requires |s| == |t|
    requires forall i :: 0 <= i < |s| ==> Has(s[i], a) == Has(t[i], a)
    ensures Count(s, a) == Count(t, a)
  {
    if s != [] {
      CountSame(s[1..], t[1..], a);
    }
  }

  /**
   * The cells clicked in `s` stay clicked in `t`: then `t` has no more
   * unclicked cells than `s`, and strictly fewer once cell `k` got clicked.
   */
  lemma {:induction false} CountUnclickedShrinks(s: seq<Cell>, t: seq<Cell>, k: nat)
    requires |s| == |t| && k < |s|
    requires forall i :: 0 <= i < |s| && s[i].isClicked ==> t[i].isClicked
    ensures Count(t, Unclicked) <= Count(s, Unclicked)
    ensures !s[k].isClicked && t[k].isClicked ==> Count(t, Unclicked) < Count(s, Unclicked)
  {
    if k > 0 {
      CountUnclickedShrinks(s[1..], t[1..], k - 1);
    } else if |s| > 1 {
      CountUnclickedShrinks(s[1..], t[1..], 0);
    }
  }

  // ---------------------------------------------------------------------------
  // Win test

  predicate NoMineClicked(cells: seq<Cell>)
  {
    forall i :: 0 <= i < |cells| && cells[i].isMine ==> !cells[i].isClicked
  }

  predicate AllSafeClicked(cells: seq<Cell>)
  {
    forall i :: 0 <= i < |cells| && !cells[i].isMine ==> cells[i].isClicked
  }

  /** The source's test: as many unclicked cells remain as there are mines. */
  predicate HasWinner(cells: seq<Cell>, minesCount: int): (won: bool)
    ensures won ==> 0 <= minesCount <= |cells|
  {
    Count(cells, Unclicked) == minesCount
  }

  /** While no mine is clicked, every mine is among the unclicked cells. */
  lemma {:induction false} UnclickedCoverMines(cells: seq<Cell>)
    requires NoMineClicked(cells)
    ensures Count(cells, Mine) <= Count(cells, Unclicked)
    ensures Count(cells, Mine) == Count(cells, Unclicked) <==> AllSafeClicked(cells)
  {
    if cells != [] {
      var rest := cells[1..];
      assert forall i :: 1 <= i < |cells| ==> cells[i] == rest[i - 1];
      UnclickedCoverMines(rest);
      if !cells[0].isMine && !cells[0].isClicked {
        assert !AllSafeClicked(cells);
      }
    }
  }

  /**
   * When the mines placed are exactly `minesCount` and none was clicked, the
   * game is won exactly when every safe cell has been clicked.
   */
  lemma WinnerIffAllSafeClicked(cells: seq<Cell>, minesCount: int)
    requires Count(cells, Mine) == minesCount
    requires NoMineClicked(cells)
    ensures HasWinner(cells, minesCount) <==> AllSafeClicked(cells)
  {
    UnclickedCoverMines(cells);
  }

  /** Flags play no part in the win test: only which cells are clicked matters. */
  lemma WinnerIgnoresFlags(s: seq<Cell>, t: seq<Cell>, minesCount: int)
    requires |s| == |t|
    requires forall i :: 0 <= i < |s| ==> s[i].isClicked == t[i].isClicked
    ensures HasWinner(s, minesCount) <==> HasWinner(t, minesCount)
  {
    CountSame(s, t, Unclicked);
  }

  // ---------------------------------------------------------------------------
  // Grid: positions and keys

  datatype Pos = Pos(x: int, y: int)

  predicate InBounds(w: nat, h: nat, p: Pos)
  {
    0 <= p.x < w && 0 <= p.y < h
  }

  /**
   * The index of the key "x:y" in the cell map's key order: the cells are
   * inserted row by row, left to right, so the keys on the board number
   * 0 .. w * h - 1.
   */
  function Key(w: nat, h: nat, p: Pos): (k: nat)
    requires InBounds(w, h, p)
    ensures k < w * h
  {
    assert p.y * w <= (h - 1) * w;
    assert (h - 1) * w + w == h * w;
    p.y * w + p.x
  }

  /** Distinct positions on the board have distinct keys. */
  lemma KeyInjective(w: nat, h: nat, p: Pos, q: Pos)
    requires InBounds(w, h, p) && InBounds(w, h, q)
    requires Key(w, h, p) == Key(w, h, q)
    ensures p == q
  {
    if p.y < q.y {
      RowStartsApart(w, p.y, q.y);
    } else if q.y < p.y {
      RowStartsApart(w, q.y, p.y);
    }
  }

  lemma RowStartsApart(w: nat, a: nat, b: nat)
    requires a < b
    ensures a * w + w <= b * w
  {
    if a + 1 < b {
      RowStartsApart(w, a, b - 1);
      assert (b - 1) * w + w == b * w;
    } else {
      assert (a + 1) * w == a * w + w;
    }
  }

  /** The last key inserted belongs to the bottom-right cell. */
  lemma LastKey(w: nat, h: nat)
    requires w >= 1 && h >= 1
    ensures InBounds(w, h, Pos(w - 1, h - 1)) && Key(w, h, Pos(w - 1, h - 1)) == w * h - 1
  {
    assert (h - 1) * w == h * w - w;
  }

  function At(w: nat, h: nat, cells: seq<Cell>, p: Pos): Cell
    requires |cells| == w * h && InBounds(w, h, p)
  {
    cells[Key(w, h, p)]
  }

  /** `getCell`: the cell under key "x:y", if that key exists. */
  function GetCell(w: nat, h: nat, cells: seq<Cell>, p: Pos): (r: Option<Cell>)
    requires |cells| == w * h
    ensures r.Some? <==> InBounds(w, h, p)
    ensures r.Some? ==> r.value == At(w, h, cells, p)
  {
    if InBounds(w, h, p) then Some(At(w, h, cells, p)) else None
  }

  // ---------------------------------------------------------------------------
  // Neighbourhood

  /** Chebyshev distance one: the eight squares around `p`. */
  predicate Adjacent(p: Pos, q: Pos)
  {
    p != q && -1 <= q.x - p.x <= 1 && -1 <= q.y - p.y <= 1
  }

  /** The offsets scanned around a cell, in the source's order. */
  const SCAN_COORDS: seq<Pos> := [
    Pos(-1, -1), Pos(0, -1), Pos(1, -1),
    Pos(-1, 0), Pos(1, 0),
    Pos(-1, 1), Pos(0, 1), Pos(1, 1)
  ]

  /** The scan visits eight different offsets, each one square away from the centre. */
  lemma ScanCoordsAreEightOffsets()
    ensures |SCAN_COORDS| == 8 && Distinct(SCAN_COORDS)
    ensures forall d :: d in SCAN_COORDS ==> Adjacent(Pos(0, 0), d)
  {
  }

  function Offset(p: Pos, d: Pos): Pos
  {
    Pos(p.x + d.x, p.y + d.y)
  }

  lemma ScanCoordsAreTheNeighbours(p: Pos)
    ensures forall q :: Adjacent(p, q) <==> exists d :: d in SCAN_COORDS && q == Offset(p, d)
  {
    forall q | Adjacent(p, q)
      ensures exists d :: d in SCAN_COORDS && q == Offset(p, d)
    {
      var d := Pos(q.x - p.x, q.y - p.y);
      assert d in SCAN_COORDS;
      assert q == Offset(p, d);
    }
  }

  /** No element occurs twice. */
  predicate Distinct<T(==)>(s: seq<T>)
  {
    forall i, j :: 0 <= i < j < |s| ==> s[i] != s[j]
  }

  /** The eight squares around `p`, as a finite set. */
  ghost function Around(p: Pos): set<Pos>
  {
    {
      Pos(p.x - 1, p.y - 1), Pos(p.x, p.y - 1), Pos(p.x + 1, p.y - 1),
      Pos(p.x - 1, p.y), Pos(p.x + 1, p.y),
      Pos(p.x - 1, p.y + 1), Pos(p.x, p.y + 1), Pos(p.x + 1, p.y + 1)
    }
  }

  lemma AroundIsAdjacent(p: Pos)
    ensures forall q :: q in Around(p) <==> Adjacent(p, q)
  {
    forall q | Adjacent(p, q)
      ensures q in Around(p)
    {
      assert q == Pos(p.x + (q.x - p.x), p.y + (q.y - p.y));
    }
  }

  /** The positions `p + d` for the offsets `ds`, kept when the key exists and the cell is unclicked. */
  function ScanFrom(w: nat, h: nat, cells: seq<Cell>, p: Pos, ds: seq<Pos>): (r: seq<Pos>)
    requires |cells| == w * h
    ensures |r| <= |ds|
    ensures forall q :: q in r <==>
      InBounds(w, h, q) && !At(w, h, cells, q).isClicked && exists d :: d in ds && q == Offset(p, d)
    ensures Distinct(ds) ==> Distinct(r)
  {
    if ds == [] then []
    else
      var q := Offset(p, ds[0]);
      var rest := ScanFrom(w, h, cells, p, ds[1..]);
      assert forall d :: d in ds <==> d == ds[0] || d in ds[1..];
      assert Distinct(ds) ==> q !in rest;
      match GetCell(w, h, cells, q)
      case None => rest
      case Some(c) => if c.isClicked then rest else [q] + rest
  }

  /**
   * `getSurroundedCells`: the unclicked cells around `p`. Keys off the board
   * do not exist and so drop out.
   */
  function Surrounded(w: nat, h: nat, cells: seq<Cell>, p: Pos): (r: seq<Pos>)
    requires |cells| == w * h
    ensures |r| <= 8
    ensures forall q :: q in r <==> InBounds(w, h, q) && Adjacent(p, q) && !At(w, h, cells, q).isClicked
    ensures Distinct(r)
  {
    ScanCoordsAreTheNeighbours(p);
    ScanCoordsAreEightOffsets();
    ScanFrom(w, h, cells, p, SCAN_COORDS)
  }

  /** The positions in `ps` that hold a mine. */
  ghost function MinePositions(w: nat, h: nat, cells: seq<Cell>, ps: seq<Pos>): set<Pos>
    requires |cells| == w * h
    requires forall q :: q in ps ==> InBounds(w, h, q)
  {
    set q | q in ps && At(w, h, cells, q).isMine
  }

  lemma MinePositionsCons(w: nat, h: nat, cells: seq<Cell>, ps: seq<Pos>)
    requires |cells| == w * h && ps != []
    requires forall q :: q in ps ==> InBounds(w, h, q)
    requires Distinct(ps)
    ensures Distinct(ps[1..]) && ps[0] !in MinePositions(w, h, cells, ps[1..])
    ensures MinePositions(w, h, cells, ps)
            == (if At(w, h, cells, ps[0]).isMine then {ps[0]} else {}) + MinePositions(w, h, cells, ps[1..])
  {
    assert forall q :: q in ps <==> q == ps[0] || q in ps[1..];
  }

  /**
   * `filter(isMine).length` over the positions `ps`: the number of entries
   * that are mines; on a list without repeats, the number of mine positions.
   */
  function MinesAmong(w: nat, h: nat, cells: seq<Cell>, ps: seq<Pos>): (n: nat)
    requires |cells| == w * h
    requires forall q :: q in ps ==> InBounds(w, h, q)
    ensures n <= |ps|
    ensures n == 0 <==> forall q :: q in ps ==> !At(w, h, cells, q).isMine
    ensures Distinct(ps) ==> n == |MinePositions(w, h, cells, ps)|
  {
    if ps == [] then
      assert MinePositions(w, h, cells, ps) == {};
      0
    else
      assert forall q :: q in ps <==> q == ps[0] || q in ps[1..];
      if Distinct(ps) then
        MinePositionsCons(w, h, cells, ps);
        (if At(w, h, cells, ps[0]).isMine then 1 else 0) + MinesAmong(w, h, cells, ps[1..])
      else
        (if At(w, h, cells, ps[0]).isMine then 1 else 0) + MinesAmong(w, h, cells, ps[1..])
  }

  /** The mines among the unclicked cells on the board around `p`. */
  ghost function MinesNear(w: nat, h: nat, cells: seq<Cell>, p: Pos): set<Pos>
    requires |cells| == w * h
  {
    set q | q in Around(p) && InBounds(w, h, q) && !At(w, h, cells, q).isClicked && At(w, h, cells, q).isMine
  }

  /**
   * `getAreaMinesCount`: the number of mines among the unclicked cells
   * around `p`, between 0 and 8, and 0 exactly when none of them is a mine.
   */
  function AreaMinesCount(w: nat, h: nat, cells: seq<Cell>, p: Pos): (n: nat)
    requires |cells| == w * h
    ensures n == |MinesNear(w, h, cells, p)|
    ensures n <= 8
    ensures n == 0 <==>
      forall q :: InBounds(w, h, q) && Adjacent(p, q) && !At(w, h, cells, q).isClicked ==> !At(w, h, cells, q).isMine
  {
    var around := Surrounded(w, h, cells, p);
    AroundIsAdjacent(p);
    assert MinePositions(w, h, cells, around) == MinesNear(w, h, cells, p);
    MinesAmong(w, h, cells, around)
  }

  /** No cell around `p`, clicked or not, is a mine. */
  ghost predicate NoMineAround(w: nat, h: nat, cells: seq<Cell>, p: Pos)
    requires |cells| == w * h
  {
    forall q :: InBounds(w, h, q) && Adjacent(p, q) ==> !At(w, h, cells, q).isMine
  }

  /** While no mine is clicked, the area count is zero exactly when no neighbour is a mine. */
  lemma AreaZeroIffNoMineAround(w: nat, h: nat, cells: seq<Cell>, p: Pos)
    requires |cells| == w * h
    requires NoMineClicked(cells)
    ensures AreaMinesCount(w, h, cells, p) == 0 <==> NoMineAround(w, h, cells, p)
  {
    forall q | InBounds(w, h, q) && At(w, h, cells, q).isMine
      ensures !At(w, h, cells, q).isClicked
    {
    }
  }
}
